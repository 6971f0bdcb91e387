/**
 * The allergy part of the PDF report: the star signs of the model's answer are turned into
 * asterisks, then the safety status and the final decision are looked up with Python's
 * `re.search` and the case-insensitive flag, their keyword upper-cased, and the whole
 * answer printed between them.
 */
module Report {
  import opened Wrappers
  import opened PyStr
  import opened Matcher

  /** `SAFETY STATUS:\s*(SAFE|UNSAFE|WARNING)` */
  const StatusPattern: Pattern := Field("SAFETY STATUS:", ["SAFE", "UNSAFE", "WARNING"])

  /** `CONCLUSION:\s*(SAFE|UNSAFE|WARNING)\s*-\s*(.*)` */
  const DecisionPattern: Pattern := Verdict("CONCLUSION:", ["SAFE", "UNSAFE", "WARNING"])

  /** `analysis.replace('★', '*').replace('☆', '*')` */
  function ReplaceStars(analysis: string): string {
    Replace(Replace(analysis, "\U{2605}", "*"), "\U{2606}", "*")
  }

  /** `upper()` on the characters a keyword match can hold: ASCII letters, and the three
      non-ASCII letters Python lets match `I` and `S`. U+0130 is upper case already and
      stays as it is. */
  function UpperChar(c: char): char {
    if 'a' <= c <= 'z' then (c as int - 32) as char
    else if c == '\U{17F}' then 'S'
    else if c == '\U{131}' then 'I'
    else c
  }

  function Upper(s: string): (r: string)
    ensures |r| == |s| && forall i :: 0 <= i < |s| ==> r[i] == UpperChar(s[i])
  {
    if s == [] then [] else [UpperChar(s[0])] + Upper(s[1..])
  }

  /** The final decision printed after the answer. */
  datatype Decision = Decision(status: string, explanation: string)

  /** What the report shows: the status line (if any), the answer, the decision (if any). */
  datatype Section = Section(status: Option<string>, text: string, decision: Option<Decision>)

  function AllergySection(analysis: string): (r: Section)
  {
    var text := ReplaceStars(analysis);
    var status := Search(Python, StatusPattern, text, 0);
    var decision := Search(Python, DecisionPattern, text, 0);
    Section(
      if status.Some? then Some(Upper(status.value.groups[0])) else None,
      text,
      if decision.Some? then Some(Decision(Upper(decision.value.groups[0]), decision.value.groups[1]))
      else None)
  }

  // ================================================================= lemmas

  /** The text is the answer character for character, with each star sign an asterisk. */
  lemma StarsBecomeAsterisks(analysis: string)
    ensures |ReplaceStars(analysis)| == |analysis|
    ensures forall i :: 0 <= i < |analysis| ==>
      ReplaceStars(analysis)[i] ==
        if analysis[i] == '\U{2605}' || analysis[i] == '\U{2606}' then '*' else analysis[i]
  {
    ReplaceCharPointwise(analysis, '\U{2605}', '*');
    ReplaceCharPointwise(Replace(analysis, "\U{2605}", "*"), '\U{2606}', '*');
  }

  /** The text is the answer with its stars replaced; a field is missing exactly when its
      pattern matches nowhere in the text, and otherwise comes from the leftmost match. */
  lemma SectionFields(analysis: string)
    ensures var text := ReplaceStars(analysis);
      var r := AllergySection(analysis);
      && r.text == text
      && (r.status.None? <==> forall i :: 0 <= i <= |text| ==> MatchAt(Python, StatusPattern, text, i).None?)
      && (r.decision.None? <==> forall i :: 0 <= i <= |text| ==> MatchAt(Python, DecisionPattern, text, i).None?)
      && (r.status.Some? ==> exists i, w :: 0 <= i <= |text| && MatchAt(Python, StatusPattern, text, i) == Some([w])
                                            && r.status.value == Upper(w)
                                            && forall n :: 0 <= n < i ==> MatchAt(Python, StatusPattern, text, n).None?)
      && (r.decision.Some? ==> exists i, w, x :: 0 <= i <= |text| && MatchAt(Python, DecisionPattern, text, i) == Some([w, x])
                                               && r.decision.value == Decision(Upper(w), x)
                                               && forall n :: 0 <= n < i ==> MatchAt(Python, DecisionPattern, text, n).None?)
  {
    StatusField(analysis);
    DecisionField(analysis);
  }

  lemma StatusField(analysis: string)
    ensures var text := ReplaceStars(analysis);
      var r := AllergySection(analysis);
      && (r.status.None? <==> forall i :: 0 <= i <= |text| ==> MatchAt(Python, StatusPattern, text, i).None?)
      && (r.status.Some? ==> exists i, w :: 0 <= i <= |text| && MatchAt(Python, StatusPattern, text, i) == Some([w])
                                            && r.status.value == Upper(w)
                                            && forall n :: 0 <= n < i ==> MatchAt(Python, StatusPattern, text, n).None?)
  {
    var text := ReplaceStars(analysis);
    var status := Search(Python, StatusPattern, text, 0);
    if status.Some? {
      var g := status.value.groups;
      assert g == [g[0]];
    }
  }

  lemma DecisionField(analysis: string)
    ensures var text := ReplaceStars(analysis);
      var r := AllergySection(analysis);
      && (r.decision.None? <==> forall i :: 0 <= i <= |text| ==> MatchAt(Python, DecisionPattern, text, i).None?)
      && (r.decision.Some? ==> exists i, w, x :: 0 <= i <= |text| && MatchAt(Python, DecisionPattern, text, i) == Some([w, x])
                                               && r.decision.value == Decision(Upper(w), x)
                                               && forall n :: 0 <= n < i ==> MatchAt(Python, DecisionPattern, text, n).None?)
  {
    var text := ReplaceStars(analysis);
    var decision := Search(Python, DecisionPattern, text, 0);
    if decision.Some? {
      var g := decision.value.groups;
      assert g == [g[0], g[1]];
    }
  }

  /** A `CONCLUSION:` line is found exactly when it is laid out as the pattern says: the
      prefix, white space, one of the keywords, white space, a dash, white space and the
      rest of the line. The keywords begin with different letters, so the first one that
      fits is the only one. */
  lemma DecisionLineIff(text: string, i: nat, w: string, x: string)
    requires i <= |text|
    ensures MatchAt(Python, DecisionPattern, text, i) == Some([w, x]) <==>
      exists j, m, k, l :: VerdictAt(Python, DecisionPattern.prefix, DecisionPattern.keywords, text, i, j, m, k, l, w, x)
  {
    var kws := DecisionPattern.keywords;
    assert kws[0][0] == 'S' && kws[1][0] == 'U' && kws[2][0] == 'W';
    assert forall m :: 0 <= m < |kws| ==> Keyword(kws[m]);
    VerdictMatchIff(Python, DecisionPattern.prefix, kws, text, i, w, x);
  }

  /** The words the status can take once upper-cased: the three of the pattern, and one
      more, since a dotted capital I (U+0130) matches `I` and `upper()` keeps it. The
      prompt's own word CAUTION is never among them. */
  lemma StatusVocabulary(analysis: string)
    ensures var r := AllergySection(analysis);
      r.status.Some? ==> r.status.value in {"SAFE", "UNSAFE", "WARNING", "WARN\U{130}NG"}
  {
    var text := ReplaceStars(analysis);
    var status := Search(Python, StatusPattern, text, 0);
    if status.Some? {
      var g := status.value.groups;
      assert g == [g[0]];
      var j, m := FieldMatchIsReading(Python, StatusPattern.prefix, StatusPattern.keywords, text, status.value.at, g[0]);
      UpperOfKeyword(g[0], StatusPattern.keywords[m]);
    }
  }

  /** The same words for the final decision. */
  lemma DecisionVocabulary(analysis: string)
    ensures var r := AllergySection(analysis);
      r.decision.Some? ==> r.decision.value.status in {"SAFE", "UNSAFE", "WARNING", "WARN\U{130}NG"}
  {
    var text := ReplaceStars(analysis);
    var decision := Search(Python, DecisionPattern, text, 0);
    if decision.Some? {
      var g := decision.value.groups;
      assert g == [g[0], g[1]];
      var j, m, k, l := VerdictMatchShape(Python, DecisionPattern.prefix, DecisionPattern.keywords, text, decision.value.at, g[0], g[1]);
      UpperOfKeyword(g[0], DecisionPattern.keywords[m]);
    }
  }

  /** Upper-casing what matched one of the keywords gives the keyword back, except that a
      dotted capital I stays. */
  lemma UpperOfKeyword(w: string, kw: string)
    requires kw in ["SAFE", "UNSAFE", "WARNING"]
    requires |w| == |kw| && forall k :: 0 <= k < |kw| ==> SameLetter(Python, w[k], kw[k])
    ensures Upper(w) in {"SAFE", "UNSAFE", "WARNING", "WARN\U{130}NG"}
  {
    KeywordLetters(kw);
    if kw == "WARNING" {
      UpperOfOneI(w, kw, 4);
      DottedWarning();
    } else if kw == "SAFE" {
      UpperOfPlain(w, kw);
      assert Upper(w) == "SAFE";
    } else {
      UpperOfPlain(w, kw);
      assert Upper(w) == "UNSAFE";
    }
  }

  /** WARNING with a dotted capital I in place of its `I`. */
  lemma DottedWarning()
    ensures "WARNING"[4 := '\U{130}'] == "WARN\U{130}NG"
  {
    var d := "WARNING"[4 := '\U{130}'];
    assert forall k :: 0 <= k < 7 ==> d[k] == "WARN\U{130}NG"[k];
  }

  /** The server's keywords are upper-case ASCII without `K`; only WARNING has an `I`. */
  lemma KeywordLetters(kw: string)
    requires kw in ["SAFE", "UNSAFE", "WARNING"]
    ensures forall k :: 0 <= k < |kw| ==> 'A' <= kw[k] <= 'Z' && kw[k] != 'K'
    ensures kw != "WARNING" ==> forall k :: 0 <= k < |kw| ==> kw[k] != 'I'
    ensures kw == "WARNING" ==> forall k :: 0 <= k < |kw| ==> (kw[k] == 'I' <==> k == 4)
  {
    if kw == "SAFE" {
    } else if kw == "UNSAFE" {
    } else {
    }
  }

  /** A keyword without `I` or `K` is given back exactly. */
  lemma UpperOfPlain(w: string, kw: string)
    requires |w| == |kw|
    requires forall k :: 0 <= k < |kw| ==>
      'A' <= kw[k] <= 'Z' && kw[k] != 'K' && kw[k] != 'I' && SameLetter(Python, w[k], kw[k])
    ensures Upper(w) == kw
  {
    UpperOfMatch(w, kw);
    var u := Upper(w);
    assert forall k :: 0 <= k < |u| ==> u[k] == kw[k];
  }

  /** A keyword whose only `I` is at `p`: the upper-cased match is the keyword, or the
      keyword with a dotted capital I at `p`. */
  lemma UpperOfOneI(w: string, kw: string, p: nat)
    requires |w| == |kw| && p < |kw|
    requires forall k :: 0 <= k < |kw| ==> 'A' <= kw[k] <= 'Z' && kw[k] != 'K' && SameLetter(Python, w[k], kw[k])
    requires forall k :: 0 <= k < |kw| ==> (kw[k] == 'I' <==> k == p)
    ensures Upper(w) == kw || Upper(w) == kw[p := '\U{130}']
  {
    UpperOfMatch(w, kw);
    var u := Upper(w);
    if w[p] == '\U{130}' {
      var dotted := kw[p := '\U{130}'];
      assert forall k :: 0 <= k < |u| ==> u[k] == dotted[k];
    } else {
      assert forall k :: 0 <= k < |u| ==> u[k] == kw[k];
    }
  }

  /** Character by character: the pattern's letter, or a dotted capital I where the
      pattern has `I`. */
  lemma UpperOfMatch(w: string, kw: string)
    requires |w| == |kw|
    requires forall k :: 0 <= k < |kw| ==> 'A' <= kw[k] <= 'Z' && kw[k] != 'K' && SameLetter(Python, w[k], kw[k])
    ensures forall k :: 0 <= k < |kw| ==>
      Upper(w)[k] == kw[k] || (kw[k] == 'I' && w[k] == '\U{130}' && Upper(w)[k] == '\U{130}')
  {
    forall k | 0 <= k < |kw|
      ensures Upper(w)[k] == kw[k] || (kw[k] == 'I' && w[k] == '\U{130}' && Upper(w)[k] == '\U{130}')
    {
      assert Upper(w)[k] == UpperChar(w[k]);
    }
  }

  /** An answer that follows the prompt and says `SAFETY STATUS: CAUTION` gets no status
      line from this match: after the prefix and the white space, a `C` matches none of the
      keywords. */
  lemma CautionIsNotAStatus(text: string, i: nat)
    requires i <= |text| && LiteralAt(Python, StatusPattern.prefix, text, i)
    requires var j := SkipWhile(SpaceClass(Python), text, i + |StatusPattern.prefix|);
      j < |text| && SameLetter(Python, text[j], 'C')
    ensures MatchAt(Python, StatusPattern, text, i).None?
  {
    var j := SkipWhile(SpaceClass(Python), text, i + |StatusPattern.prefix|);
    var kws := StatusPattern.keywords;
    assert !LiteralAt(Python, kws[0], text, j) && !LiteralAt(Python, kws[1], text, j)
           && !LiteralAt(Python, kws[2], text, j) by {
      assert kws[0][0] == 'S' && kws[1][0] == 'U' && kws[2][0] == 'W';
    }
  }

  /** The explanation of the decision never runs past the end of its line. */
  lemma ExplanationIsOneLine(analysis: string)
    ensures var r := AllergySection(analysis);
      r.decision.Some? ==> '\n' !in r.decision.value.explanation
  {
    var text := ReplaceStars(analysis);
    var decision := Search(Python, DecisionPattern, text, 0);
    if decision.Some? {
      var g := decision.value.groups;
      assert g == [g[0], g[1]];
      var j, m, k, l := VerdictMatchShape(Python, DecisionPattern.prefix, DecisionPattern.keywords, text, decision.value.at, g[0], g[1]);
    }
  }
}

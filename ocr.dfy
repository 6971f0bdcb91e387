/**
 * The ingredients route's clean-up of the text that OCR read from the label: `strip()`,
 * then `' '.join(text.split())`, then `encode('ascii', 'ignore')`; an empty result is
 * answered with "No readable text found in image".
 */
module Ocr {
  import opened Wrappers
  import opened PyStr

  /** The three clean-up steps, in the route's order. */
  function Normalize(raw: string): string {
    AsciiIgnore(JoinSpace(Split(Strip(raw))))
  }

  datatype OcrError = NoReadableText

  /** The text handed on to the allergy check, or the error the route answers with. */
  function ExtractIngredients(raw: string): (r: Result<string, OcrError>)
    ensures r.Ok? ==> r.value != "" && AllAscii(r.value)
    ensures r.Ok? ==> forall i :: 0 <= i < |r.value| && IsSpace(r.value[i]) ==> r.value[i] == ' '
    ensures r.Err? <==>
      |Split(raw)| <= 1 && forall c :: c in raw && !IsSpace(c) ==> !IsAscii(c)
  {
    NormalizeCharacters(raw);
    NormalizeEmptyIff(raw);
    var text := Normalize(raw);
    if text == "" then Err(NoReadableText) else Ok(text)
  }

  /** Words separated by single blanks: no blank at either end, no two blanks in a row,
      and no whitespace other than the blank. */
  predicate WellSpaced(t: string) {
    && (t == [] || (t[0] != ' ' && t[|t| - 1] != ' '))
    && (forall i :: 0 <= i < |t| - 1 ==> t[i] != ' ' || t[i + 1] != ' ')
    && (forall i :: 0 <= i < |t| && IsSpace(t[i]) ==> t[i] == ' ')
  }

  // ================================================================= lemmas

  /** `strip()` before `split()` changes nothing: the result is the space-joined words of
      the raw text with the non-ASCII characters dropped. */
  lemma NormalizeIsJoinedWords(raw: string)
    ensures Normalize(raw) == AsciiIgnore(JoinSpace(Split(raw)))
  {
    SplitIgnoresStrip(raw);
  }

  /** The result holds only ASCII characters, and no whitespace but the blank. */
  lemma NormalizeCharacters(raw: string)
    ensures AllAscii(Normalize(raw))
    ensures forall i :: 0 <= i < |Normalize(raw)| && IsSpace(Normalize(raw)[i]) ==> Normalize(raw)[i] == ' '
  {
    var ws := Split(Strip(raw));
    JoinSpaceChars(ws, c => !IsSpace(c) || c == ' ');
    var t := JoinSpace(ws);
    var r := AsciiIgnore(t);
    forall i | 0 <= i < |r| && IsSpace(r[i])
      ensures r[i] == ' '
    {
      assert r[i] in t;
    }
  }

  /** Space-joined words are well spaced. */
  lemma {:induction false} JoinSpaceWellSpaced(ws: seq<string>)
    requires AreWords(ws)
    ensures WellSpaced(JoinSpace(ws))
    decreases |ws|
  {
    if |ws| > 1 {
      JoinSpaceWellSpaced(ws[1..]);
      var w := ws[0];
      var rest := JoinSpace(ws[1..]);
      var t := JoinSpace(ws);
      assert t == w + " " + rest;
      assert rest != [] by {
        assert ws[1..][0] == ws[1];
        if |ws[1..]| > 1 {
          assert rest == ws[1] + " " + JoinSpace(ws[2..]);
        }
      }
      forall i | 0 <= i < |t| - 1
        ensures t[i] != ' ' || t[i + 1] != ' '
      {
        if i < |w| {
          assert t[i] == w[i];
        } else if i == |w| {
          assert t[i + 1] == rest[0];
        } else {
          assert t[i] == rest[i - |w| - 1] && t[i + 1] == rest[i - |w|];
        }
      }
      forall i | 0 <= i < |t| && IsSpace(t[i])
        ensures t[i] == ' '
      {
        if i > |w| {
          assert t[i] == rest[i - |w| - 1];
        }
      }
      assert t[|t| - 1] == rest[|rest| - 1];
    }
  }

  /** Every character of every word satisfies what every character of the text does. */
  lemma {:induction false} SplitKeepsCharacters(s: string, p: char -> bool)
    requires forall i :: 0 <= i < |s| ==> p(s[i])
    ensures forall k, i :: 0 <= k < |Split(s)| && 0 <= i < |Split(s)[k]| ==> p(Split(s)[k][i])
    decreases |s|
  {
    if s != [] {
      if IsSpace(s[0]) {
        SplitKeepsCharacters(s[1..], p);
      } else {
        var w := Token(s);
        SplitKeepsCharacters(s[|w|..], p);
        assert Split(s) == [w] + Split(s[|w|..]);
        forall k, i | 0 <= k < |Split(s)| && 0 <= i < |Split(s)[k]|
          ensures p(Split(s)[k][i])
        {
          if k == 0 {
            assert Split(s)[k][i] == s[i];
          } else {
            assert Split(s)[k] == Split(s[|w|..])[k - 1];
          }
        }
      }
    }
  }

  /** On ASCII text the clean-up drops nothing but whitespace and yields single-blank
      separated words. */
  lemma NormalizeAscii(raw: string)
    requires AllAscii(raw)
    ensures Normalize(raw) == JoinSpace(Split(raw))
    ensures WellSpaced(Normalize(raw))
  {
    NormalizeIsJoinedWords(raw);
    var ws := Split(raw);
    SplitKeepsCharacters(raw, IsAscii);
    JoinSpaceChars(ws, IsAscii);
    AsciiIgnoreOfAscii(JoinSpace(ws));
    JoinSpaceWellSpaced(ws);
  }

  /** On ASCII text a second clean-up changes nothing. */
  lemma NormalizeIdempotentOnAscii(raw: string)
    requires AllAscii(raw)
    ensures Normalize(Normalize(raw)) == Normalize(raw)
  {
    NormalizeAscii(raw);
    var t := Normalize(raw);
    assert AllAscii(t);
    NormalizeAscii(t);
    SplitJoinSpace(Split(raw));
  }

  /** The route reports "no readable text" exactly when the raw text has at most one word
      and no ASCII character other than whitespace. */
  lemma NormalizeEmptyIff(raw: string)
    ensures Normalize(raw) == "" <==>
      |Split(raw)| <= 1 && forall c :: c in raw && !IsSpace(c) ==> !IsAscii(c)
  {
    NormalizeIsJoinedWords(raw);
    var ws := Split(raw);
    var t := JoinSpace(ws);
    ConcatSplit(raw);
    if |ws| <= 1 {
      assert t == Concat(ws) by {
        if |ws| == 1 {
          assert Concat(ws) == ws[0] + Concat([]);
        }
      }
      assert t == DropSpaces(raw);
    } else {
      assert t[|ws[0]|] == ' ';
    }
  }

  /** Words separated by single blanks and holding only ASCII come out of the clean-up
      unchanged. */
  lemma CleanAsciiWordsUnchanged(ws: seq<string>)
    requires AreWords(ws)
    requires forall k, i :: 0 <= k < |ws| && 0 <= i < |ws[k]| ==> IsAscii(ws[k][i])
    ensures Normalize(JoinSpace(ws)) == JoinSpace(ws)
  {
    var t := JoinSpace(ws);
    JoinSpaceChars(ws, IsAscii);
    NormalizeAscii(t);
    SplitJoinSpace(ws);
  }

  /** Three words separated by single blanks: `split()` and the join give the text back,
      so only the non-ASCII characters go. */
  lemma {:induction false} NormalizeThreeWords(a: string, w: string, b: string)
    requires a != [] && w != [] && b != [] && NoSpace(a) && NoSpace(w) && NoSpace(b)
    ensures Normalize(a + " " + w + " " + b) == AsciiIgnore(a + " " + w + " " + b)
  {
    var raw := a + " " + w + " " + b;
    var ws := [a, w, b];
    assert JoinSpace(ws[2..]) == b;
    assert JoinSpace(ws) == raw;
    SplitJoinSpace(ws);
    NormalizeIsJoinedWords(raw);
  }

  /** Three words with any whitespace around and between them, as a label read by OCR
      might come (padding, a tab, blank lines): the runs collapse to single blanks and each
      word keeps only its ASCII characters. With the words "Sugar,", "Salt" and "Café™"
      this gives "Sugar, Salt Caf". */
  lemma NormalizeSpacedWords(g0: string, a: string, g1: string, b: string, g2: string, c: string, g3: string)
    requires AllSpace(g0) && AllSpace(g1) && AllSpace(g2) && AllSpace(g3)
    requires g1 != [] && g2 != []
    requires a != [] && b != [] && c != [] && NoSpace(a) && NoSpace(b) && NoSpace(c)
    ensures Normalize(g0 + (a + g1 + (b + g2 + (c + g3)))) ==
            AsciiIgnore(a) + " " + AsciiIgnore(b) + " " + AsciiIgnore(c)
  {
    var raw := g0 + (a + g1 + (b + g2 + (c + g3)));
    SplitThreeWords(g0, a, g1, b, g2, c, g3);
    NormalizeIsJoinedWords(raw);
    JoinSpaceThree(a, b, c);
    AsciiIgnoreAroundBlank(a + " " + b, c);
    AsciiIgnoreAroundBlank(a, b);
  }

  /** Two words with any run of blanks between them. */
  lemma SplitGap(a: string, gap: string, b: string)
    requires a != [] && b != [] && NoSpace(a) && NoSpace(b)
    requires gap != [] && forall i :: 0 <= i < |gap| ==> gap[i] == ' '
    ensures Split(a + gap + b) == [a, b]
  {
    assert AllSpace(gap) by {
      assert IsSpace(' ');
    }
    SplitWordThenGap(a, gap, b);
    assert b + [] == b;
    SplitWord(b, []);
    assert Split([]) == [];
  }

  /** Two ASCII words with two blanks between them come out with one. */
  lemma DoubleBlankCollapses(a: string, b: string)
    requires a != [] && b != [] && NoSpace(a) && NoSpace(b)
    requires AllAscii(a) && AllAscii(b)
    ensures Normalize(a + "  " + b) == a + " " + b
  {
    GapCollapses(a, "  ", b);
  }

  /** Any run of blanks between two ASCII words comes out as one blank. */
  lemma GapCollapses(a: string, gap: string, b: string)
    requires a != [] && b != [] && NoSpace(a) && NoSpace(b)
    requires AllAscii(a) && AllAscii(b)
    requires gap != [] && forall i :: 0 <= i < |gap| ==> gap[i] == ' '
    ensures Normalize(a + gap + b) == a + " " + b
  {
    NormalizeIsJoinedWords(a + gap + b);
    SplitGap(a, gap, b);
    JoinAsciiPair(a, b);
  }

  lemma JoinAsciiPair(a: string, b: string)
    requires AllAscii(a) && AllAscii(b)
    ensures AsciiIgnore(JoinSpace([a, b])) == a + " " + b
  {
    assert JoinSpace([a, b][1..]) == b;
    AsciiIgnoreAroundBlank(a, b);
    AsciiIgnoreOfAscii(a);
    AsciiIgnoreOfAscii(b);
  }

  /** A word without any ASCII character between two ASCII words leaves two blanks. */
  lemma {:induction false} ForeignWordDropped(a: string, w: string, b: string)
    requires a != [] && w != [] && b != [] && NoSpace(a) && NoSpace(w) && NoSpace(b)
    requires AllAscii(a) && AllAscii(b)
    requires forall i :: 0 <= i < |w| ==> !IsAscii(w[i])
    ensures Normalize(a + " " + w + " " + b) == a + "  " + b
  {
    NormalizeThreeWords(a, w, b);
    DropForeignWord(a, w, b);
  }

  lemma DropForeignWord(a: string, w: string, b: string)
    requires AllAscii(a) && AllAscii(b)
    requires forall i :: 0 <= i < |w| ==> !IsAscii(w[i])
    ensures AsciiIgnore(a + " " + w + " " + b) == a + "  " + b
  {
    AsciiIgnoreAroundBlank(a + " " + w, b);
    AsciiIgnoreAroundBlank(a, w);
    AsciiIgnoreOfAscii(a);
    AsciiIgnoreOfAscii(b);
    assert AsciiIgnore(w) == "";
    assert a + " " + AsciiIgnore(w) == a + " ";
    TwoBlanks(a, b);
  }

  lemma TwoBlanks(a: string, b: string)
    ensures a + " " + " " + b == a + "  " + b
  {
    var l, r := a + " " + " " + b, a + "  " + b;
    forall i | 0 <= i < |l|
      ensures l[i] == r[i]
    {
      if i < |a| { } else if i < |a| + 2 { } else { }
    }
  }

  /** Not idempotent: the non-ASCII word is dropped only after the words were joined, so
      its two blanks stay, and a second pass collapses them to one. */
  lemma ForeignWordLeavesDoubleBlank(a: string, w: string, b: string)
    requires a != [] && w != [] && b != [] && NoSpace(a) && NoSpace(w) && NoSpace(b)
    requires AllAscii(a) && AllAscii(b)
    requires forall i :: 0 <= i < |w| ==> !IsAscii(w[i])
    ensures Normalize(a + " " + w + " " + b) == a + "  " + b
    ensures Normalize(Normalize(a + " " + w + " " + b)) == a + " " + b
    ensures Normalize(Normalize(a + " " + w + " " + b)) != Normalize(a + " " + w + " " + b)
  {
    ForeignWordDropped(a, w, b);
    DoubleBlankCollapses(a, b);
    assert (a + "  " + b)[|a| + 1] != (a + " " + b)[|a| + 1];
  }

  /** So a second clean-up can change the result; "a é b" is one such text. */
  lemma NotIdempotent()
    ensures exists raw :: Normalize(Normalize(raw)) != Normalize(raw)
  {
    ForeignWordLeavesDoubleBlank("a", "é", "b");
  }

  /** Two words without any ASCII character leave a lone blank. */
  lemma {:induction false} ForeignWordsNormalizeToBlank(v: string, w: string)
    requires v != [] && w != [] && NoSpace(v) && NoSpace(w)
    requires forall i :: 0 <= i < |v| ==> !IsAscii(v[i])
    requires forall i :: 0 <= i < |w| ==> !IsAscii(w[i])
    ensures Normalize(v + " " + w) == " "
  {
    var raw := v + " " + w;
    var ws := [v, w];
    assert JoinSpace(ws[1..]) == w;
    assert JoinSpace(ws) == raw;
    SplitJoinSpace(ws);
    NormalizeIsJoinedWords(raw);
    AsciiIgnoreAroundBlank(v, w);
    assert AsciiIgnore(v) == "";
    assert AsciiIgnore(w) == "";
  }

  /** The lone blank is not empty: the route goes on to the allergy check with it. */
  lemma ForeignWordsLeaveBlank(v: string, w: string)
    requires v != [] && w != [] && NoSpace(v) && NoSpace(w)
    requires forall i :: 0 <= i < |v| ==> !IsAscii(v[i])
    requires forall i :: 0 <= i < |w| ==> !IsAscii(w[i])
    ensures ExtractIngredients(v + " " + w) == Ok(" ")
  {
    ForeignWordsNormalizeToBlank(v, w);
  }
}

/**
 * The three regular-expression shapes the application uses to read the model's safety
 * analysis, matched by hand the way a backtracking engine with the case-insensitive flag
 * matches them. The server reads the analysis with Python's `re` and the browser with
 * JavaScript, and the two engines disagree on what `\s` and `.` match and on which
 * characters fold to an ASCII letter; `Engine` says which one is meant.
 */
module Matcher {
  import opened Wrappers
  import opened PyStr

  datatype Engine = Python | JavaScript

  /** `\s` in a JavaScript pattern: WhiteSpace and LineTerminator of ECMAScript. */
  predicate JsSpace(c: char) {
    || ('\t' <= c <= '\r')
    || c == ' ' || c == '\U{A0}' || c == '\U{1680}'
    || ('\U{2000}' <= c <= '\U{200A}')
    || c == '\U{2028}' || c == '\U{2029}' || c == '\U{202F}' || c == '\U{205F}'
    || c == '\U{3000}' || c == '\U{FEFF}'
  }

  /** `\s` of the engine: Python's is `isspace`. */
  predicate Space(e: Engine, c: char) {
    match e
    case Python => IsSpace(c)
    case JavaScript => JsSpace(c)
  }

  /** `.` of the engine (no DOTALL flag): everything but a line terminator. */
  predicate LineChar(e: Engine, c: char) {
    match e
    case Python => c != '\n'
    case JavaScript => c != '\n' && c != '\r' && c != '\U{2028}' && c != '\U{2029}'
  }

  /** The two classes as function values, for `SkipWhile`. */
  function SpaceClass(e: Engine): char -> bool {
    c => Space(e, c)
  }

  function LineClass(e: Engine): char -> bool {
    c => LineChar(e, c)
  }

  /** `\d` of a JavaScript pattern. */
  predicate Digit(c: char) {
    '0' <= c <= '9'
  }

  /** A character of the text matches the pattern character `p` (an upper-case ASCII letter
      or a non-letter) under the case-insensitive flag. JavaScript without the `u` flag never
      folds a non-ASCII character onto an ASCII one; Python also lets U+0130 and U+0131 match
      `I`, U+017F match `S` and U+212A match `K`. */
  predicate SameLetter(e: Engine, c: char, p: char) {
    || c == p
    || ('A' <= p <= 'Z' && c as int == p as int + 32)
    || (e == Python && ((p == 'I' && (c == '\U{130}' || c == '\U{131}'))
                        || (p == 'S' && c == '\U{17F}')
                        || (p == 'K' && c == '\U{212A}')))
  }

  /** The literal `lit` matches the text at position `i`. */
  predicate LiteralAt(e: Engine, lit: string, s: string, i: nat) {
    i + |lit| <= |s| && forall k :: 0 <= k < |lit| ==> SameLetter(e, s[i + k], lit[k])
  }

  /** A greedy `X*` for a one-character class `X`: the end of the run of characters in the
      class that starts at `i`. */
  function SkipWhile(inClass: char -> bool, s: string, i: nat): (j: nat)
    requires i <= |s|
    ensures i <= j <= |s|
    ensures forall k :: i <= k < j ==> inClass(s[k])
    ensures j == |s| || !inClass(s[j])
    decreases |s| - i
  {
    if i < |s| && inClass(s[i]) then SkipWhile(inClass, s, i + 1) else i
  }

  /** The patterns, each a literal prefix followed by `\s*` and then:
      - `Field`: one of the keywords, as a group;
      - `Verdict`: one of the keywords as a group, `\s*-\s*`, and the rest of the line
        `(.*)` as a second group;
      - `Number`: a group of one or more digits `(\d+)`. */
  datatype Pattern =
    | Field(prefix: string, keywords: seq<string>)
    | Verdict(prefix: string, keywords: seq<string>)
    | Number(prefix: string)

  /** The groups of the match that starts at position `i`, if one does. */
  function MatchAt(e: Engine, p: Pattern, s: string, i: nat): (r: Option<seq<string>>)
    requires i <= |s|
    ensures r.Some? ==> LiteralAt(e, p.prefix, s, i)
    ensures r.Some? && !p.Verdict? ==> |r.value| == 1
    ensures r.Some? && p.Verdict? ==> |r.value| == 2
    ensures r.Some? && p.Number? ==> r.value[0] != [] && forall k :: 0 <= k < |r.value[0]| ==> Digit(r.value[0][k])
  {
    if !LiteralAt(e, p.prefix, s, i) then None
    else
      var j := SkipWhile(SpaceClass(e), s, i + |p.prefix|);
      match p
      case Field(_, keywords) =>
        (match FirstKeyword(e, keywords, s, j)
         case None => None
         case Some(m) => Some([s[j..j + |keywords[m]|]]))
      case Verdict(_, keywords) => VerdictFrom(e, keywords, 0, s, j)
      case Number(_) =>
        var k := SkipWhile(Digit, s, j);
        if k == j then None else Some([s[j..k]])
  }

  /** The first alternative of `(k0|k1|...)` that matches at `j`. */
  function FirstKeyword(e: Engine, keywords: seq<string>, s: string, j: nat): (r: Option<nat>)
    ensures r.Some? ==> r.value < |keywords| && LiteralAt(e, keywords[r.value], s, j)
    ensures r.Some? ==> forall m :: 0 <= m < r.value ==> !LiteralAt(e, keywords[m], s, j)
    ensures r.None? ==> forall m :: 0 <= m < |keywords| ==> !LiteralAt(e, keywords[m], s, j)
  {
    if keywords == [] then None
    else if LiteralAt(e, keywords[0], s, j) then Some(0)
    else match FirstKeyword(e, keywords[1..], s, j)
      case None => None
      case Some(m) => Some(m + 1)
  }

  /** `(km|...)\s*-\s*(.*)` at `j`, trying the alternatives from the `m`-th on: an
      alternative that matches but is not followed by the dash gives way to the next one.
      Once the dash is found the rest always matches, so neither `\s*` gives anything back. */
  function VerdictFrom(e: Engine, keywords: seq<string>, m: nat, s: string, j: nat)
    : (r: Option<seq<string>>)
    requires j <= |s|
    ensures r.Some? ==> |r.value| == 2
    ensures r.Some? ==> forall k :: 0 <= k < |r.value[1]| ==> LineChar(e, r.value[1][k])
    decreases |keywords| - m
  {
    if m >= |keywords| then None
    else if LiteralAt(e, keywords[m], s, j) then
      var k := SkipWhile(SpaceClass(e), s, j + |keywords[m]|);
      if k < |s| && s[k] == '-' then
        var l := SkipWhile(SpaceClass(e), s, k + 1);
        var end := SkipWhile(LineClass(e), s, l);
        Some([s[j..j + |keywords[m]|], s[l..end]])
      else VerdictFrom(e, keywords, m + 1, s, j)
    else VerdictFrom(e, keywords, m + 1, s, j)
  }

  /** A match: where it starts and its groups. */
  datatype Found = Found(at: nat, groups: seq<string>)

  /** `re.search` / `String.prototype.match` without the global flag: the match that starts
      at the leftmost position from `start` on. */
  function Search(e: Engine, p: Pattern, s: string, start: nat): (r: Option<Found>)
    requires start <= |s|
    ensures r.Some? ==> start <= r.value.at <= |s| && MatchAt(e, p, s, r.value.at) == Some(r.value.groups)
    ensures forall i :: start <= i <= |s| && (r.None? || i < r.value.at) ==> MatchAt(e, p, s, i).None?
    decreases |s| - start
  {
    var here := MatchAt(e, p, s, start);
    if here.Some? then Some(Found(start, here.value))
    else if start == |s| then None
    else
      Search(e, p, s, start + 1)
  }

  // ================================================================= lemmas

  /** A keyword of a pattern: upper-case ASCII letters only. */
  predicate Keyword(w: string) {
    w != [] && forall k :: 0 <= k < |w| ==> 'A' <= w[k] <= 'Z'
  }

  /** No character that matches a letter is white space in either engine. */
  lemma LetterIsNotSpace(e: Engine, c: char, p: char)
    requires 'A' <= p <= 'Z' && SameLetter(e, c, p)
    ensures !Space(e, c)
  {
  }

  /** The `Field` shape read declaratively: the prefix at `i`, a run of white space up to
      `j`, and at `j` the `m`-th keyword, the first one that matches there. */
  predicate FieldReading(e: Engine, prefix: string, keywords: seq<string>, s: string, i: nat,
                         j: nat, m: nat, w: string) {
    && LiteralAt(e, prefix, s, i)
    && i + |prefix| <= j <= |s|
    && (forall k :: i + |prefix| <= k < j ==> Space(e, s[k]))
    && m < |keywords| && LiteralAt(e, keywords[m], s, j)
    && (forall n :: 0 <= n < m ==> !LiteralAt(e, keywords[n], s, j))
    && w == s[j..j + |keywords[m]|]
  }

  /** The matcher agrees with the declarative reading. Since no keyword starts with white
      space, the greedy `\s*` stops exactly where the keyword starts and never has to give
      anything back. */
  lemma FieldMatchIff(e: Engine, prefix: string, keywords: seq<string>, s: string, i: nat, w: string)
    requires i <= |s|
    requires forall m :: 0 <= m < |keywords| ==> Keyword(keywords[m])
    ensures MatchAt(e, Field(prefix, keywords), s, i) == Some([w]) <==>
      exists j, m :: FieldReading(e, prefix, keywords, s, i, j, m, w)
  {
    if MatchAt(e, Field(prefix, keywords), s, i) == Some([w]) {
      var j, m := FieldMatchIsReading(e, prefix, keywords, s, i, w);
    }
    if exists j, m :: FieldReading(e, prefix, keywords, s, i, j, m, w) {
      var j, m :| FieldReading(e, prefix, keywords, s, i, j, m, w);
      ReadingIsFieldMatch(e, prefix, keywords, s, i, j, m, w);
    }
  }

  lemma FieldMatchIsReading(e: Engine, prefix: string, keywords: seq<string>, s: string, i: nat, w: string)
    returns (j: nat, m: nat)
    requires i <= |s|
    requires MatchAt(e, Field(prefix, keywords), s, i) == Some([w])
    ensures FieldReading(e, prefix, keywords, s, i, j, m, w)
  {
    j := SkipWhile(SpaceClass(e), s, i + |prefix|);
    m := FirstKeyword(e, keywords, s, j).value;
  }

  lemma ReadingIsFieldMatch(e: Engine, prefix: string, keywords: seq<string>, s: string, i: nat,
                            j: nat, m: nat, w: string)
    requires i <= |s|
    requires forall n :: 0 <= n < |keywords| ==> Keyword(keywords[n])
    requires FieldReading(e, prefix, keywords, s, i, j, m, w)
    ensures MatchAt(e, Field(prefix, keywords), s, i) == Some([w])
  {
    assert Keyword(keywords[m]);
    LetterIsNotSpace(e, s[j], keywords[m][0]);
    var j' := SkipWhile(SpaceClass(e), s, i + |prefix|);
    assert j' == j;
    FirstKeywordIsFirst(e, keywords, s, j, m);
  }

  /** The `Verdict` shape read declaratively from a match at `j` of the keyword alternation:
      keyword `m` at `j`, white space up to a dash at `k`, the longest run of white space
      after it ending at `l`, and from `l` the rest of the line. */
  predicate VerdictReading(e: Engine, keywords: seq<string>, s: string, j: nat, m: nat,
                           k: nat, l: nat, w: string, x: string) {
    && m < |keywords| && LiteralAt(e, keywords[m], s, j)
    && w == s[j..j + |keywords[m]|]
    && j + |keywords[m]| <= k < l <= |s|
    && (forall n :: j + |keywords[m]| <= n < k ==> Space(e, s[n]))
    && s[k] == '-'
    && (forall n :: k < n < l ==> Space(e, s[n]))
    && (l == |s| || !Space(e, s[l]))
    && l + |x| <= |s| && x == s[l..l + |x|]
    && (forall n :: 0 <= n < |x| ==> LineChar(e, x[n]))
    && (l + |x| == |s| || !LineChar(e, s[l + |x|]))
  }

  /** A `Verdict` match is the prefix, white space, and the keyword, dash and explanation as
      `VerdictReading` describes them: the explanation is everything up to the end of the
      line, and white space after the dash is skipped even across line ends. */
  lemma VerdictMatchShape(e: Engine, prefix: string, keywords: seq<string>, s: string, i: nat,
                          w: string, x: string)
    returns (j: nat, m: nat, k: nat, l: nat)
    requires i <= |s|
    requires MatchAt(e, Verdict(prefix, keywords), s, i) == Some([w, x])
    ensures LiteralAt(e, prefix, s, i)
    ensures i + |prefix| <= j <= |s|
    ensures forall n :: i + |prefix| <= n < j ==> Space(e, s[n])
    ensures VerdictReading(e, keywords, s, j, m, k, l, w, x)
  {
    j := SkipWhile(SpaceClass(e), s, i + |prefix|);
    m, k, l := VerdictFromShape(e, keywords, 0, s, j, w, x);
  }

  lemma {:induction false} VerdictFromShape(e: Engine, keywords: seq<string>, m0: nat, s: string,
                                            j: nat, w: string, x: string)
    returns (m: nat, k: nat, l: nat)
    requires j <= |s|
    requires VerdictFrom(e, keywords, m0, s, j) == Some([w, x])
    ensures m0 <= m && VerdictReading(e, keywords, s, j, m, k, l, w, x)
    decreases |keywords| - m0
  {
    var kw := keywords[m0];
    if LiteralAt(e, kw, s, j) {
      k := SkipWhile(SpaceClass(e), s, j + |kw|);
      if k < |s| && s[k] == '-' {
        m := m0;
        l := VerdictHit(e, keywords, m0, s, j, k, w, x);
        return;
      }
    }
    m, k, l := VerdictFromShape(e, keywords, m0 + 1, s, j, w, x);
  }

  /** The alternative `m` matches and is followed by the dash at `k`. */
  lemma VerdictHit(e: Engine, keywords: seq<string>, m: nat, s: string, j: nat, k: nat,
                   w: string, x: string)
    returns (l: nat)
    requires j <= |s| && m < |keywords| && LiteralAt(e, keywords[m], s, j)
    requires k == SkipWhile(SpaceClass(e), s, j + |keywords[m]|) && k < |s| && s[k] == '-'
    requires VerdictFrom(e, keywords, m, s, j) == Some([w, x])
    ensures VerdictReading(e, keywords, s, j, m, k, l, w, x)
  {
    l := SkipWhile(SpaceClass(e), s, k + 1);
    var end := SkipWhile(LineClass(e), s, l);
    assert [w, x] == [s[j..j + |keywords[m]|], s[l..end]];
    assert [w, x][1] == x && [w, x][0] == w;
  }

  /** The first alternative that matches is the one `FirstKeyword` picks. */
  lemma FirstKeywordIsFirst(e: Engine, keywords: seq<string>, s: string, j: nat, m: nat)
    requires m < |keywords| && LiteralAt(e, keywords[m], s, j)
    requires forall n :: 0 <= n < m ==> !LiteralAt(e, keywords[n], s, j)
    ensures FirstKeyword(e, keywords, s, j) == Some(m)
  {
  }

  /** A greedy run ends where the class first fails: if every character of `[i, t)` is in
      the class and the one at `t` is not (or `t` is the end), the run stops at `t`. */
  lemma {:induction false} SkipWhileStops(inClass: char -> bool, s: string, i: nat, t: nat)
    requires i <= t <= |s|
    requires forall k :: i <= k < t ==> inClass(s[k])
    requires t == |s| || !inClass(s[t])
    ensures SkipWhile(inClass, s, i) == t
    decreases t - i
  {
    if i < t {
      SkipWhileStops(inClass, s, i + 1, t);
    }
  }

  /** The `Number` shape read declaratively: the prefix at `i`, a run of white space up to
      `j`, and from `j` to `k` the whole run of digits, of which there is at least one. */
  predicate NumberReading(e: Engine, prefix: string, s: string, i: nat, j: nat, k: nat, ds: string) {
    && LiteralAt(e, prefix, s, i)
    && i + |prefix| <= j < k <= |s|
    && (forall n :: i + |prefix| <= n < j ==> Space(e, s[n]))
    && (forall n :: j <= n < k ==> Digit(s[n]))
    && (k == |s| || !Digit(s[k]))
    && ds == s[j..k]
  }

  /** The matcher agrees with the declarative reading of `prefix\s*(\d+)`: the group is the
      whole run of digits right after the white space. A digit is not white space, so the
      greedy `\s*` never has to give anything back. */
  lemma NumberMatchIff(e: Engine, prefix: string, s: string, i: nat, ds: string)
    requires i <= |s|
    ensures MatchAt(e, Number(prefix), s, i) == Some([ds]) <==>
      exists j, k :: NumberReading(e, prefix, s, i, j, k, ds)
  {
    if MatchAt(e, Number(prefix), s, i) == Some([ds]) {
      var j := SkipWhile(SpaceClass(e), s, i + |prefix|);
      var k := SkipWhile(Digit, s, j);
      assert NumberReading(e, prefix, s, i, j, k, ds);
    }
    if exists j, k :: NumberReading(e, prefix, s, i, j, k, ds) {
      var j, k :| NumberReading(e, prefix, s, i, j, k, ds);
      ReadingIsNumberMatch(e, prefix, s, i, j, k, ds);
    }
  }

  lemma ReadingIsNumberMatch(e: Engine, prefix: string, s: string, i: nat, j: nat, k: nat, ds: string)
    requires i <= |s| && NumberReading(e, prefix, s, i, j, k, ds)
    ensures MatchAt(e, Number(prefix), s, i) == Some([ds])
  {
    assert !Space(e, s[j]) by { assert Digit(s[j]); }
    SkipWhileStops(SpaceClass(e), s, i + |prefix|, j);
    SkipWhileStops(Digit, s, j, k);
  }

  /** The `Verdict` shape in full: the prefix at `i`, white space up to `j`, then keyword,
      dash and explanation as `VerdictReading` describes them. */
  predicate VerdictAt(e: Engine, prefix: string, keywords: seq<string>, s: string, i: nat,
                      j: nat, m: nat, k: nat, l: nat, w: string, x: string) {
    && LiteralAt(e, prefix, s, i)
    && i + |prefix| <= j <= |s|
    && (forall n :: i + |prefix| <= n < j ==> Space(e, s[n]))
    && VerdictReading(e, keywords, s, j, m, k, l, w, x)
  }

  /** Two upper-case letters that one character both matches are the same letter. */
  lemma SameLetterUnique(e: Engine, c: char, p: char, q: char)
    requires 'A' <= p <= 'Z' && 'A' <= q <= 'Z'
    requires SameLetter(e, c, p) && SameLetter(e, c, q)
    ensures p == q
  {
  }

  /** No two keywords begin with the same letter. */
  predicate DistinctInitials(keywords: seq<string>) {
    forall a, b :: 0 <= a < b < |keywords| ==>
      keywords[a] != [] && keywords[b] != [] && keywords[a][0] != keywords[b][0]
  }

  /** When the keywords begin with different letters, the matcher agrees with the
      declarative reading of `prefix\s*(k0|k1|...)\s*-\s*(.*)`, in both directions: a
      `CONCLUSION:` line laid out as the reading says is found, with the keyword and the
      rest of the line as its groups. */
  lemma VerdictMatchIff(e: Engine, prefix: string, keywords: seq<string>, s: string, i: nat,
                        w: string, x: string)
    requires i <= |s|
    requires forall m :: 0 <= m < |keywords| ==> Keyword(keywords[m])
    requires DistinctInitials(keywords)
    ensures MatchAt(e, Verdict(prefix, keywords), s, i) == Some([w, x]) <==>
      exists j, m, k, l :: VerdictAt(e, prefix, keywords, s, i, j, m, k, l, w, x)
  {
    if MatchAt(e, Verdict(prefix, keywords), s, i) == Some([w, x]) {
      var j, m, k, l := VerdictMatchShape(e, prefix, keywords, s, i, w, x);
      assert VerdictAt(e, prefix, keywords, s, i, j, m, k, l, w, x);
    }
    if exists j, m, k, l :: VerdictAt(e, prefix, keywords, s, i, j, m, k, l, w, x) {
      var j, m, k, l :| VerdictAt(e, prefix, keywords, s, i, j, m, k, l, w, x);
      OnlyAlternative(e, keywords, s, j, m);
      ReadingIsVerdictMatch(e, prefix, keywords, s, i, j, m, k, l, w, x);
    }
  }

  /** With different initials, at most one alternative matches at `j`. */
  lemma OnlyAlternative(e: Engine, keywords: seq<string>, s: string, j: nat, m: nat)
    requires forall n :: 0 <= n < |keywords| ==> Keyword(keywords[n])
    requires DistinctInitials(keywords)
    requires m < |keywords| && LiteralAt(e, keywords[m], s, j)
    ensures forall n :: 0 <= n < |keywords| && n != m ==> !LiteralAt(e, keywords[n], s, j)
  {
    forall n | 0 <= n < |keywords| && n != m
      ensures !LiteralAt(e, keywords[n], s, j)
    {
      assert Keyword(keywords[n]) && Keyword(keywords[m]);
      assert keywords[n][0] != keywords[m][0] by {
        if n < m { assert keywords[n][0] != keywords[m][0]; }
        else { assert keywords[m][0] != keywords[n][0]; }
      }
      if LiteralAt(e, keywords[n], s, j) {
        SameLetterUnique(e, s[j], keywords[n][0], keywords[m][0]);
      }
    }
  }

  /** The converse of `VerdictMatchShape`: a reading whose keyword is the first alternative
      that matches at `j` is what the matcher finds. */
  lemma ReadingIsVerdictMatch(e: Engine, prefix: string, keywords: seq<string>, s: string, i: nat,
                              j: nat, m: nat, k: nat, l: nat, w: string, x: string)
    requires i <= |s|
    requires forall n :: 0 <= n < |keywords| ==> Keyword(keywords[n])
    requires VerdictAt(e, prefix, keywords, s, i, j, m, k, l, w, x)
    requires forall n :: 0 <= n < m ==> !LiteralAt(e, keywords[n], s, j)
    ensures MatchAt(e, Verdict(prefix, keywords), s, i) == Some([w, x])
  {
    assert Keyword(keywords[m]);
    LetterIsNotSpace(e, s[j], keywords[m][0]);
    SkipWhileStops(SpaceClass(e), s, i + |prefix|, j);
    ReadingIsVerdictFrom(e, keywords, 0, s, j, m, k, l, w, x);
  }

  lemma {:induction false} ReadingIsVerdictFrom(e: Engine, keywords: seq<string>, m0: nat, s: string,
                                                j: nat, m: nat, k: nat, l: nat, w: string, x: string)
    requires j <= |s| && m0 <= m
    requires VerdictReading(e, keywords, s, j, m, k, l, w, x)
    requires forall n :: m0 <= n < m ==> !LiteralAt(e, keywords[n], s, j)
    ensures VerdictFrom(e, keywords, m0, s, j) == Some([w, x])
    decreases m - m0
  {
    if m0 < m {
      assert !LiteralAt(e, keywords[m0], s, j);
      ReadingIsVerdictFrom(e, keywords, m0 + 1, s, j, m, k, l, w, x);
    } else {
      ReadingIsVerdictHit(e, keywords, s, j, m, k, l, w, x);
    }
  }

  /** The alternative of the reading, tried at `j`, finds the dash, the white space after
      it and the rest of the line exactly where the reading puts them. */
  lemma ReadingIsVerdictHit(e: Engine, keywords: seq<string>, s: string, j: nat, m: nat,
                            k: nat, l: nat, w: string, x: string)
    requires j <= |s|
    requires VerdictReading(e, keywords, s, j, m, k, l, w, x)
    ensures VerdictFrom(e, keywords, m, s, j) == Some([w, x])
  {
    var kw := keywords[m];
    assert LiteralAt(e, kw, s, j) && w == s[j..j + |kw|];
    assert !Space(e, s[k]) by { assert s[k] == '-'; }
    SpaceRunStops(e, s, j + |kw|, k);
    SpaceRunStops(e, s, k + 1, l);
    var end := l + |x|;
    assert forall n :: l <= n < end ==> LineChar(e, s[n]) by {
      forall n | l <= n < end ensures LineChar(e, s[n]) {
        assert s[n] == x[n - l];
      }
    }
    LineRunStops(e, s, l, end);
    VerdictFromDash(e, keywords, m, s, j, k, l, end);
    assert s[l..end] == x;
  }

  /** One step of `VerdictFrom`: the alternative matches and the dash follows. */
  lemma VerdictFromDash(e: Engine, keywords: seq<string>, m: nat, s: string, j: nat,
                        k: nat, l: nat, end: nat)
    requires j <= |s| && m < |keywords| && LiteralAt(e, keywords[m], s, j)
    requires k == SkipWhile(SpaceClass(e), s, j + |keywords[m]|) && k < |s| && s[k] == '-'
    requires l == SkipWhile(SpaceClass(e), s, k + 1)
    requires end == SkipWhile(LineClass(e), s, l)
    ensures VerdictFrom(e, keywords, m, s, j) == Some([s[j..j + |keywords[m]|], s[l..end]])
  {
  }

  /** `SkipWhileStops` for `\s*`. */
  lemma SpaceRunStops(e: Engine, s: string, i: nat, t: nat)
    requires i <= t <= |s|
    requires forall n :: i <= n < t ==> Space(e, s[n])
    requires t == |s| || !Space(e, s[t])
    ensures SkipWhile(SpaceClass(e), s, i) == t
  {
    SkipWhileStops(SpaceClass(e), s, i, t);
  }

  /** `SkipWhileStops` for `.*`. */
  lemma LineRunStops(e: Engine, s: string, i: nat, t: nat)
    requires i <= t <= |s|
    requires forall n :: i <= n < t ==> LineChar(e, s[n])
    requires t == |s| || !LineChar(e, s[t])
    ensures SkipWhile(LineClass(e), s, i) == t
  {
    SkipWhileStops(LineClass(e), s, i, t);
  }
}

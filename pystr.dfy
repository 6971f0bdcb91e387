/**
 * The CPython `str` methods that the application chains together, on `string` values
 * (sequences of Unicode scalar values): `isspace`, `strip()`, `split()`, `' '.join`,
 * `encode('ascii', 'ignore')` and `replace`.
 */
module PyStr {

  /** `c.isspace()`: the characters of Unicode bidirectional class WS, B or S, or of
      category Zs. `strip()` and `split()` without an argument, and `\s` in a `str`
      pattern of `re`, use the same set. */
  predicate IsSpace(c: char) {
    || c == ' '
    || ('\t' <= c <= '\r')
    || ('\U{1C}' <= c <= '\U{1F}')
    || c == '\U{85}' || c == '\U{A0}' || c == '\U{1680}'
    || ('\U{2000}' <= c <= '\U{200A}')
    || c == '\U{2028}' || c == '\U{2029}' || c == '\U{202F}' || c == '\U{205F}'
    || c == '\U{3000}'
  }

  /** The characters that `encode('ascii', 'ignore')` keeps. */
  predicate IsAscii(c: char) {
    c < '\U{80}'
  }

  /** `lower()` on an ASCII character. */
  function LowerChar(c: char): (d: char)
    ensures ('A' <= c <= 'Z') ==> 'a' <= d <= 'z' && d as int - c as int == 32
    ensures !('A' <= c <= 'Z') ==> d == c
  {
    if 'A' <= c <= 'Z' then (c as int + 32) as char else c
  }

  /** `lower()` restricted to ASCII: other characters are left as they are. */
  function Lower(s: string): (r: string)
    ensures |r| == |s|
    ensures forall i :: 0 <= i < |s| ==> r[i] == LowerChar(s[i])
  {
    if s == [] then [] else [LowerChar(s[0])] + Lower(s[1..])
  }

  /** Lower-casing commutes with dropping a prefix and with taking one. */
  lemma {:induction false} LowerDrop(s: string, i: nat)
    requires i <= |s|
    ensures Lower(s[i..]) == Lower(s)[i..]
    decreases i
  {
    if i == 0 {
      assert s[0..] == s;
    } else {
      LowerDrop(s[1..], i - 1);
      assert s[1..][i - 1..] == s[i..];
      assert Lower(s)[1..] == Lower(s[1..]);
    }
  }

  lemma LowerTake(s: string, i: nat)
    requires i <= |s|
    ensures Lower(s[..i]) == Lower(s)[..i]
  {
    var t := s[..i];
    var l, r := Lower(t), Lower(s)[..i];
    assert |l| == |t| == |r|;
    forall k | 0 <= k < |l|
      ensures l[k] == r[k]
    {
      assert t[k] == s[k];
      assert l[k] == LowerChar(t[k]);
    }
  }

  predicate NoSpace(s: string) {
    forall i :: 0 <= i < |s| ==> !IsSpace(s[i])
  }

  predicate AllSpace(s: string) {
    forall i :: 0 <= i < |s| ==> IsSpace(s[i])
  }

  predicate AllAscii(s: string) {
    forall i :: 0 <= i < |s| ==> IsAscii(s[i])
  }

  /** A list of words as `split()` produces them: none empty, none holding whitespace. */
  predicate AreWords(ws: seq<string>) {
    forall k :: 0 <= k < |ws| ==> ws[k] != [] && NoSpace(ws[k])
  }

  // ---------------------------------------------------------------- strip()

  /** Leading whitespace removed. */
  function TrimLeft(s: string): (r: string)
    ensures |r| <= |s| && r == s[|s| - |r|..]
    ensures r == [] || !IsSpace(r[0])
    ensures AllSpace(s[..|s| - |r|])
  {
    if s != [] && IsSpace(s[0]) then
      var r := TrimLeft(s[1..]);
      assert s[..|s| - |r|] == [s[0]] + s[1..][..|s| - 1 - |r|];
      r
    else s
  }

  /** Trailing whitespace removed. */
  function TrimRight(s: string): (r: string)
    ensures |r| <= |s| && r == s[..|r|]
    ensures r == [] || !IsSpace(r[|r| - 1])
    ensures AllSpace(s[|r|..])
  {
    if s != [] && IsSpace(s[|s| - 1]) then
      var r := TrimRight(s[..|s| - 1]);
      assert s[|r|..] == s[..|s| - 1][|r|..] + [s[|s| - 1]];
      r
    else s
  }

  /** `s.strip()`. */
  function Strip(s: string): string {
    TrimRight(TrimLeft(s))
  }

  // ---------------------------------------------------------------- split()

  /** The longest prefix of `s` without whitespace. */
  function Token(s: string): (w: string)
    ensures |w| <= |s| && w == s[..|w|]
    ensures NoSpace(w)
    ensures |w| == |s| || IsSpace(s[|w|])
  {
    if s == [] || IsSpace(s[0]) then [] else [s[0]] + Token(s[1..])
  }

  /** `s.split()`: the maximal runs of non-whitespace characters, in order. */
  function Split(s: string): (ws: seq<string>)
    ensures AreWords(ws)
    decreases |s|
  {
    if s == [] then []
    else if IsSpace(s[0]) then Split(s[1..])
    else
      var w := Token(s);
      [w] + Split(s[|w|..])
  }

  /** `' '.join(ws)`. */
  function JoinSpace(ws: seq<string>): string {
    if |ws| == 0 then ""
    else if |ws| == 1 then ws[0]
    else ws[0] + " " + JoinSpace(ws[1..])
  }

  /** The words glued together without separator. */
  function Concat(ws: seq<string>): string {
    if ws == [] then "" else ws[0] + Concat(ws[1..])
  }

  /** The non-whitespace characters of `s`, in order. */
  function DropSpaces(s: string): (r: string)
    ensures NoSpace(r)
    ensures forall c :: c in r <==> c in s && !IsSpace(c)
  {
    if s == [] then ""
    else if IsSpace(s[0]) then DropSpaces(s[1..])
    else [s[0]] + DropSpaces(s[1..])
  }

  // ---------------------------------------------------------------- encode('ascii', 'ignore')

  /** `s.encode('ascii', 'ignore').decode('ascii')`: every non-ASCII character dropped. */
  function AsciiIgnore(s: string): (r: string)
    ensures AllAscii(r)
    ensures forall c :: c in r <==> c in s && IsAscii(c)
    ensures r == [] <==> forall i :: 0 <= i < |s| ==> !IsAscii(s[i])
  {
    if s == [] then ""
    else if IsAscii(s[0]) then [s[0]] + AsciiIgnore(s[1..])
    else AsciiIgnore(s[1..])
  }

  // ---------------------------------------------------------------- replace

  /** `s.replace(pat, rep)` for a non-empty `pat`: occurrences found left to right,
      each replaced, the scan resuming after it (no overlaps). */
  function Replace(s: string, pat: string, rep: string): string
    requires |pat| > 0
    decreases |s|
  {
    if |s| < |pat| then s
    else if s[..|pat|] == pat then rep + Replace(s[|pat|..], pat, rep)
    else [s[0]] + Replace(s[1..], pat, rep)
  }

  /** `s.split(pat)` for a non-empty `pat`: the pieces between the occurrences that a
      left-to-right scan finds. */
  function SplitOn(s: string, pat: string): (parts: seq<string>)
    requires |pat| > 0
    ensures |parts| >= 1
    decreases |s|
  {
    if |s| < |pat| then [s]
    else if s[..|pat|] == pat then [""] + SplitOn(s[|pat|..], pat)
    else
      var t := SplitOn(s[1..], pat);
      [[s[0]] + t[0]] + t[1..]
  }

  /** `sep.join(parts)`. */
  function JoinWith(sep: string, parts: seq<string>): string {
    if |parts| == 0 then ""
    else if |parts| == 1 then parts[0]
    else parts[0] + sep + JoinWith(sep, parts[1..])
  }

  /** `pat` occurs in `s` at position `i`. */
  predicate OccursAt(pat: string, s: string, i: nat) {
    i + |pat| <= |s| && s[i..i + |pat|] == pat
  }

  /** `pat` occurs somewhere in `s`: at its start, or further on. */
  predicate Occurs(pat: string, s: string)
    decreases |s|
  {
    |pat| <= |s| && (s[..|pat|] == pat || (s != [] && Occurs(pat, s[1..])))
  }

  // ================================================================= lemmas

  /** Whitespace on either side does not change the words. */
  lemma {:induction false} SplitIgnoresStrip(s: string)
    ensures Split(Strip(s)) == Split(s)
  {
    var l := TrimLeft(s);
    var r := TrimRight(l);
    var t := l[|r|..];
    assert r == l[..|r|] && AllSpace(t);
    assert l == r + t;
    SplitIgnoresTrailingSpace(r, t);
    SplitIgnoresTrimLeft(s);
  }

  lemma {:induction false} SplitIgnoresTrimLeft(s: string)
    ensures Split(TrimLeft(s)) == Split(s)
    decreases |s|
  {
    if s != [] && IsSpace(s[0]) {
      SplitIgnoresTrimLeft(s[1..]);
    }
  }

  lemma {:induction false} SplitIgnoresTrailingSpace(s: string, t: string)
    requires AllSpace(t)
    ensures Split(s + t) == Split(s)
    decreases |t|
  {
    if t != [] {
      var u := t[..|t| - 1];
      assert s + t == (s + u) + [t[|t| - 1]];
      SplitAppendSpace(s + u, t[|t| - 1]);
      SplitIgnoresTrailingSpace(s, u);
    } else {
      assert s + t == s;
    }
  }

  lemma {:induction false} SplitAppendSpace(s: string, c: char)
    requires IsSpace(c)
    ensures Split(s + [c]) == Split(s)
    decreases |s|
  {
    if s == [] {
      assert (s + [c])[1..] == [];
    } else if IsSpace(s[0]) {
      assert (s + [c])[1..] == s[1..] + [c];
      SplitAppendSpace(s[1..], c);
    } else {
      var w := Token(s);
      TokenAppendSpace(s, c);
      assert (s + [c])[|w|..] == s[|w|..] + [c];
      SplitAppendSpace(s[|w|..], c);
    }
  }

  lemma {:induction false} TokenAppendSpace(s: string, c: char)
    requires IsSpace(c)
    ensures Token(s + [c]) == Token(s)
    decreases |s|
  {
    if s != [] && !IsSpace(s[0]) {
      assert (s + [c])[1..] == s[1..] + [c];
      TokenAppendSpace(s[1..], c);
    }
  }

  /** A word followed by whitespace or by nothing is read back as the token. */
  lemma {:induction false} TokenOfWord(w: string, rest: string)
    requires NoSpace(w)
    requires rest == [] || IsSpace(rest[0])
    ensures Token(w + rest) == w
    decreases |w|
  {
    if w != [] {
      assert (w + rest)[1..] == w[1..] + rest;
      TokenOfWord(w[1..], rest);
    }
  }

  /** One step of `split()`: a word ended by whitespace or by the end of the text. */
  lemma SplitWord(w: string, rest: string)
    requires w != [] && NoSpace(w) && (rest == [] || IsSpace(rest[0]))
    ensures Split(w + rest) == [w] + Split(rest)
  {
    TokenOfWord(w, rest);
    assert (w + rest)[|w|..] == rest;
  }

  /** One step of `split()`: whitespace is skipped. */
  lemma SplitSkip(c: char, rest: string)
    requires IsSpace(c)
    ensures Split([c] + rest) == Split(rest)
  {
    assert ([c] + rest)[1..] == rest;
  }

  /** Any run of whitespace in front is skipped. */
  lemma {:induction false} SplitSkipAll(g: string, rest: string)
    requires AllSpace(g)
    ensures Split(g + rest) == Split(rest)
    decreases |g|
  {
    if g == [] {
      assert g + rest == rest;
    } else {
      assert g + rest == [g[0]] + (g[1..] + rest);
      SplitSkip(g[0], g[1..] + rest);
      SplitSkipAll(g[1..], rest);
    }
  }

  /** A word and the whitespace run after it. */
  lemma SplitWordThenGap(w: string, g: string, rest: string)
    requires w != [] && NoSpace(w) && g != [] && AllSpace(g)
    ensures Split(w + g + rest) == [w] + Split(rest)
  {
    assert w + g + rest == w + (g + rest);
    SplitWord(w, g + rest);
    SplitSkipAll(g, rest);
  }

  /** Three words with whitespace runs of any kind and length around and between them. */
  lemma SplitThreeWords(g0: string, a: string, g1: string, b: string, g2: string, c: string, g3: string)
    requires AllSpace(g0) && AllSpace(g1) && AllSpace(g2) && AllSpace(g3)
    requires g1 != [] && g2 != []
    requires a != [] && b != [] && c != [] && NoSpace(a) && NoSpace(b) && NoSpace(c)
    ensures Split(g0 + (a + g1 + (b + g2 + (c + g3)))) == [a, b, c]
  {
    var t3 := c + g3;
    var t2 := b + g2 + t3;
    var t1 := a + g1 + t2;
    SplitSkipAll(g0, t1);
    SplitWordThenGap(a, g1, t2);
    SplitWordThenGap(b, g2, t3);
    SplitWord(c, g3);
    SplitSkipAll(g3, "");
    assert g3 + "" == g3;
  }

  lemma JoinSpaceThree(a: string, b: string, c: string)
    ensures JoinSpace([a, b, c]) == a + " " + b + " " + c
  {
    assert [a, b, c][1..] == [b, c];
    assert [b, c][1..] == [c];
    assert JoinSpace([b, c]) == b + " " + c;
    assert a + " " + (b + " " + c) == a + " " + b + " " + c;
  }

  /** Round trip: splitting a space-joined list of words gives the words back. */
  lemma {:induction false} SplitJoinSpace(ws: seq<string>)
    requires AreWords(ws)
    ensures Split(JoinSpace(ws)) == ws
    decreases |ws|
  {
    if |ws| == 1 {
      TokenOfWord(ws[0], "");
      assert ws[0] + "" == ws[0];
      assert JoinSpace(ws)[|ws[0]|..] == [];
    } else if |ws| > 1 {
      var rest := JoinSpace(ws[1..]);
      var j := ws[0] + " " + rest;
      assert j == ws[0] + (" " + rest);
      TokenOfWord(ws[0], " " + rest);
      assert j[|ws[0]|..] == " " + rest;
      assert (" " + rest)[1..] == rest;
      SplitJoinSpace(ws[1..]);
    }
  }

  /** The words, glued together, are exactly the non-whitespace characters. */
  lemma {:induction false} ConcatSplit(s: string)
    ensures Concat(Split(s)) == DropSpaces(s)
    decreases |s|
  {
    if s != [] {
      if IsSpace(s[0]) {
        ConcatSplit(s[1..]);
      } else {
        var w := Token(s);
        assert s == w + s[|w|..];
        DropSpacesAppend(w, s[|w|..]);
        DropSpacesOfNoSpace(w);
        ConcatSplit(s[|w|..]);
      }
    }
  }

  lemma {:induction false} DropSpacesAppend(a: string, b: string)
    ensures DropSpaces(a + b) == DropSpaces(a) + DropSpaces(b)
    decreases |a|
  {
    if a == [] {
      assert a + b == b;
    } else {
      assert (a + b)[1..] == a[1..] + b;
      DropSpacesAppend(a[1..], b);
    }
  }

  lemma {:induction false} DropSpacesOfNoSpace(w: string)
    requires NoSpace(w)
    ensures DropSpaces(w) == w
    decreases |w|
  {
    if w != [] {
      DropSpacesOfNoSpace(w[1..]);
    }
  }

  /** Characters that every word and the separator satisfy, the joined text satisfies. */
  lemma {:induction false} JoinSpaceChars(ws: seq<string>, p: char -> bool)
    requires p(' ')
    requires forall k, i :: 0 <= k < |ws| && 0 <= i < |ws[k]| ==> p(ws[k][i])
    ensures forall i :: 0 <= i < |JoinSpace(ws)| ==> p(JoinSpace(ws)[i])
    decreases |ws|
  {
    if |ws| > 1 {
      JoinSpaceChars(ws[1..], p);
      var rest := JoinSpace(ws[1..]);
      forall i | 0 <= i < |JoinSpace(ws)|
        ensures p(JoinSpace(ws)[i])
      {
        if i < |ws[0]| {
          assert JoinSpace(ws)[i] == ws[0][i];
        } else if i > |ws[0]| {
          assert JoinSpace(ws)[i] == rest[i - |ws[0]| - 1];
        }
      }
    }
  }

  /** The output of `AsciiIgnore` is unchanged by a second pass. */
  lemma {:induction false} AsciiIgnoreOfAscii(s: string)
    requires AllAscii(s)
    ensures AsciiIgnore(s) == s
    decreases |s|
  {
    if s != [] {
      AsciiIgnoreOfAscii(s[1..]);
    }
  }

  /** Dropping non-ASCII characters works piece by piece. */
  lemma {:induction false} AsciiIgnoreAppend(a: string, b: string)
    ensures AsciiIgnore(a + b) == AsciiIgnore(a) + AsciiIgnore(b)
    decreases |a|
  {
    if a == [] {
      assert a + b == b;
    } else {
      assert (a + b)[0] == a[0] && (a + b)[1..] == a[1..] + b;
      AsciiIgnoreAppend(a[1..], b);
    }
  }

  /** A blank between two pieces is kept, and each piece loses its non-ASCII characters. */
  lemma AsciiIgnoreAroundBlank(a: string, b: string)
    ensures AsciiIgnore(a + " " + b) == AsciiIgnore(a) + " " + AsciiIgnore(b)
  {
    AsciiIgnoreAppend(a + " ", b);
    AsciiIgnoreAppend(a, " ");
    AsciiIgnoreBlank();
  }

  lemma AsciiIgnoreBlank()
    ensures AsciiIgnore(" ") == " "
  {
  }

  /** `replace` equals splitting on the pattern and joining with the replacement. */
  lemma {:induction false} ReplaceIsSplitJoin(s: string, pat: string, rep: string)
    requires |pat| > 0
    ensures Replace(s, pat, rep) == JoinWith(rep, SplitOn(s, pat))
    decreases |s|
  {
    if |s| >= |pat| {
      if s[..|pat|] == pat {
        ReplaceIsSplitJoin(s[|pat|..], pat, rep);
        var t := SplitOn(s[|pat|..], pat);
        assert ([""] + t)[1..] == t;
      } else {
        ReplaceIsSplitJoin(s[1..], pat, rep);
        var t := SplitOn(s[1..], pat);
        JoinWithConsChar(rep, s[0], t);
      }
    }
  }

  lemma JoinWithConsChar(sep: string, c: char, t: seq<string>)
    requires |t| >= 1
    ensures JoinWith(sep, [[c] + t[0]] + t[1..]) == [c] + JoinWith(sep, t)
  {
    var parts := [[c] + t[0]] + t[1..];
    if |t| > 1 {
      assert parts[1..] == t[1..];
    }
  }

  /** Replacing one character by another maps the text character by character. */
  lemma {:induction false} ReplaceCharPointwise(s: string, a: char, b: char)
    ensures |Replace(s, [a], [b])| == |s|
    ensures forall i :: 0 <= i < |s| ==> Replace(s, [a], [b])[i] == if s[i] == a then b else s[i]
    decreases |s|
  {
    if s != [] {
      ReplaceCharPointwise(s[1..], a, b);
      var r := Replace(s, [a], [b]);
      var t := Replace(s[1..], [a], [b]);
      assert s[..1] == [s[0]];
      assert r == [if s[0] == a then b else s[0]] + t;
      forall i | 0 <= i < |s|
        ensures r[i] == if s[i] == a then b else s[i]
      {
        if i > 0 {
          assert r[i] == t[i - 1] && s[i] == s[1..][i - 1];
        }
      }
    }
  }

  /** Replacing the pattern by itself changes nothing. */
  lemma {:induction false} ReplaceSelf(s: string, pat: string)
    requires |pat| > 0
    ensures Replace(s, pat, pat) == s
    decreases |s|
  {
    if |s| >= |pat| {
      if s[..|pat|] == pat {
        ReplaceSelf(s[|pat|..], pat);
        assert s == s[..|pat|] + s[|pat|..];
      } else {
        ReplaceSelf(s[1..], pat);
        assert s == [s[0]] + s[1..];
      }
    }
  }

  /** A pattern that does not occur is not replaced. */
  lemma {:induction false} ReplaceAbsent(s: string, pat: string, rep: string)
    requires |pat| > 0 && !Occurs(pat, s)
    ensures Replace(s, pat, rep) == s
    decreases |s|
  {
    if |s| >= |pat| {
      ReplaceAbsent(s[1..], pat, rep);
      assert s == [s[0]] + s[1..];
    }
  }

  /** `s.split(pat)` cuts `s` at the leftmost non-overlapping occurrences: joining the
      pieces with `pat` gives `s` back, the occurrence that closes each piece is the first
      one that starts inside it, and the last piece holds none. */
  lemma {:induction false} SplitOnIsLeftmost(s: string, pat: string)
    requires |pat| > 0
    ensures JoinWith(pat, SplitOn(s, pat)) == s
    ensures var parts := SplitOn(s, pat);
      && (forall k :: 0 <= k < |parts| - 1 ==> !Occurs(pat, parts[k] + pat[..|pat| - 1]))
      && !Occurs(pat, parts[|parts| - 1])
    decreases |s|, 1
  {
    ReplaceIsSplitJoin(s, pat, pat);
    ReplaceSelf(s, pat);
    if |s| < |pat| {
      assert !Occurs(pat, s);
    } else if s[..|pat|] == pat {
      LeftmostAtMatch(s, pat);
    } else {
      LeftmostAfterMismatch(s, pat);
    }
  }

  /** `s` starts with `pat`: an empty piece, then the pieces of the rest. */
  lemma {:induction false} LeftmostAtMatch(s: string, pat: string)
    requires |pat| > 0 && |s| >= |pat| && s[..|pat|] == pat
    ensures var parts := SplitOn(s, pat);
      && (forall k :: 0 <= k < |parts| - 1 ==> !Occurs(pat, parts[k] + pat[..|pat| - 1]))
      && !Occurs(pat, parts[|parts| - 1])
    decreases |s|, 0
  {
    ReplaceIsSplitJoin(s, pat, pat);
    ReplaceSelf(s, pat);
    var parts := SplitOn(s, pat);
    SplitOnIsLeftmost(s[|pat|..], pat);
    var rest := SplitOn(s[|pat|..], pat);
    assert parts == [""] + rest;
    assert !Occurs(pat, "" + pat[..|pat| - 1]);
    forall k | 1 <= k < |parts| - 1
      ensures !Occurs(pat, parts[k] + pat[..|pat| - 1])
    {
      assert parts[k] == rest[k - 1];
    }
    assert parts[|parts| - 1] == rest[|rest| - 1];
  }

  /** `s` does not start with `pat`: its first character joins the first piece of the rest. */
  lemma {:induction false} LeftmostAfterMismatch(s: string, pat: string)
    requires |pat| > 0 && |s| >= |pat| && s[..|pat|] != pat
    ensures var parts := SplitOn(s, pat);
      && (forall k :: 0 <= k < |parts| - 1 ==> !Occurs(pat, parts[k] + pat[..|pat| - 1]))
      && !Occurs(pat, parts[|parts| - 1])
    decreases |s|, 0
  {
    ReplaceIsSplitJoin(s, pat, pat);
    ReplaceSelf(s, pat);
    var parts := SplitOn(s, pat);
    var t := SplitOn(s[1..], pat);
    SplitOnIsLeftmost(s[1..], pat);
    var head := [s[0]] + t[0];
    assert parts == [head] + t[1..];
    // The first piece is a prefix of `s`, followed by `pat` when it is not the last.
    assert s[1..] == JoinWith(pat, t);
    if |t| == 1 {
      assert t[0] == s[1..];
      assert parts == [s];
      NoOccurrenceAfterMismatch(s, pat, t[0]);
    } else {
      assert s[1..] == t[0] + pat + JoinWith(pat, t[1..]);
      var x := head + pat[..|pat| - 1];
      assert x[1..] == t[0] + pat[..|pat| - 1];
      assert s == head + pat + JoinWith(pat, t[1..]);
      assert x[..|pat|] == s[..|pat|];
      NoOccurrenceAfterMismatch(x, pat, t[0] + pat[..|pat| - 1]);
      forall k | 1 <= k < |parts| - 1
        ensures !Occurs(pat, parts[k] + pat[..|pat| - 1])
      {
        assert parts[k] == t[k];
      }
      var last := t[|t| - 1];
      assert !Occurs(pat, last);
      assert parts[|parts| - 1] == last;
    }
  }

  /** No occurrence at position 0, and none in the tail, means none at all. */
  lemma NoOccurrenceAfterMismatch(x: string, pat: string, tail: string)
    requires |pat| > 0 && |x| >= 1 && x[1..] == tail
    requires |x| >= |pat| ==> x[..|pat|] != pat
    requires !Occurs(pat, tail)
    ensures !Occurs(pat, x)
  {
  }

  /** `Occurs` holds exactly when `pat` sits at some position of `s`. */
  lemma {:induction false} OccursIff(pat: string, s: string)
    ensures Occurs(pat, s) <==> exists i: nat :: OccursAt(pat, s, i)
    decreases |s|
  {
    if |pat| <= |s| && s[..|pat|] == pat {
      assert OccursAt(pat, s, 0);
    } else if |pat| <= |s| {
      OccursIff(pat, s[1..]);
      if Occurs(pat, s[1..]) {
        var i: nat :| OccursAt(pat, s[1..], i);
        assert s[i + 1..i + 1 + |pat|] == s[1..][i..i + |pat|];
        assert OccursAt(pat, s, i + 1);
      }
      if exists i: nat :: OccursAt(pat, s, i) {
        var i: nat :| OccursAt(pat, s, i);
        assert i != 0;
        assert s[1..][i - 1..i - 1 + |pat|] == s[i..i + |pat|];
        assert OccursAt(pat, s[1..], i - 1);
      }
    }
  }
}

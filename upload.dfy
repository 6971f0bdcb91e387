/**
 * The file-format gate of the two upload routes: the extension is what follows the last
 * `.` of the client's file name, lower-cased, or the empty string when the name has no
 * `.`; only `jpg`, `jpeg`, `png`, `gif` and `heic` are let through.
 */
module Upload {
  import opened Wrappers
  import opened PyStr

  const AllowedExtensions: set<string> := {"jpg", "jpeg", "png", "gif", "heic"}

  /** The index of the last `.`, as `rsplit('.', 1)` finds it. */
  function LastDot(s: string): (r: Option<nat>)
    ensures r.Some? ==> r.value < |s| && s[r.value] == '.'
    ensures r.Some? ==> forall i :: r.value < i < |s| ==> s[i] != '.'
    ensures r.None? <==> '.' !in s
  {
    if s == [] then None
    else if s[|s| - 1] == '.' then Some(|s| - 1)
    else LastDot(s[..|s| - 1])
  }

  /** `filename.rsplit('.', 1)[1].lower() if '.' in filename else ''`. `Lower` is ASCII
      lower-casing; Python's `lower()` also lower-cases non-ASCII letters, but none of them
      becomes a string of ASCII letters other than U+212A (to `k`, which no allowed
      extension holds), so the membership test gives the same answer. */
  function Extension(filename: string): string {
    match LastDot(filename)
    case None => ""
    case Some(i) => Lower(filename[i + 1..])
  }

  /** The upload is let through the gate. */
  predicate Accepted(filename: string) {
    Extension(filename) in AllowedExtensions
  }

  // ================================================================= lemmas

  /** Only the text after the last `.` counts, lower-cased. */
  lemma {:induction false} ExtensionOfSuffix(stem: string, suffix: string)
    requires '.' !in suffix
    ensures Extension(stem + "." + suffix) == Lower(suffix)
    decreases |suffix|
  {
    var name := stem + "." + suffix;
    if suffix == [] {
      assert name[|name| - 1] == '.';
      assert name[|name|..] == suffix;
    } else {
      var shorter := stem + "." + suffix[..|suffix| - 1];
      assert name[..|name| - 1] == shorter;
      assert name[|name| - 1] == suffix[|suffix| - 1];
      ExtensionOfSuffix(stem, suffix[..|suffix| - 1]);
      LastDotBelow(name, |stem|);
      assert name[|stem| + 1..] == suffix;
    }
  }

  lemma {:induction false} LastDotBelow(s: string, k: nat)
    requires k < |s| && s[k] == '.'
    requires forall i :: k < i < |s| ==> s[i] != '.'
    ensures LastDot(s) == Some(k)
    decreases |s|
  {
    if s[|s| - 1] != '.' {
      LastDotBelow(s[..|s| - 1], k);
    }
  }

  /** A name without a `.` has the empty extension and is always rejected. */
  lemma NoDotRejected(filename: string)
    requires '.' !in filename
    ensures Extension(filename) == ""
    ensures !Accepted(filename)
  {
  }

  /** Accepted exactly when the name is some stem, a `.`, and a suffix without `.` that is
      an allowed extension in any letter case. */
  lemma AcceptedIffAllowedSuffix(filename: string)
    ensures Accepted(filename) <==>
      exists stem, suffix :: filename == stem + "." + suffix && '.' !in suffix
                             && Lower(suffix) in AllowedExtensions
  {
    if Accepted(filename) {
      var stem, suffix := SplitAtLastDot(filename);
    }
    if exists stem, suffix :: filename == stem + "." + suffix && '.' !in suffix
                              && Lower(suffix) in AllowedExtensions {
      var stem, suffix :| filename == stem + "." + suffix && '.' !in suffix
                          && Lower(suffix) in AllowedExtensions;
      ExtensionOfSuffix(stem, suffix);
    }
  }

  /** An accepted name, cut at its last `.`. */
  lemma SplitAtLastDot(filename: string) returns (stem: string, suffix: string)
    requires Accepted(filename)
    ensures filename == stem + "." + suffix && '.' !in suffix
    ensures Lower(suffix) in AllowedExtensions
  {
    var i := LastDot(filename).value;
    stem, suffix := filename[..i], filename[i + 1..];
    assert filename == stem + "." + suffix;
  }

  /** Letter case never matters: names that agree once lower-cased have one extension. */
  lemma ExtensionIgnoresCase(a: string, b: string)
    requires Lower(a) == Lower(b)
    ensures Extension(a) == Extension(b)
  {
    LastDotIgnoresCase(a, b);
    var d := LastDot(a);
    if d.Some? {
      ExtensionAt(a, d.value);
      ExtensionAt(b, d.value);
    }
  }

  /** The extension, read off the lower-cased name. */
  lemma ExtensionAt(s: string, i: nat)
    requires LastDot(s) == Some(i)
    ensures Extension(s) == Lower(s)[i + 1..]
  {
    assert Extension(s) == Lower(s[i + 1..]);
    LowerDrop(s, i + 1);
  }

  lemma {:induction false} LastDotIgnoresCase(a: string, b: string)
    requires Lower(a) == Lower(b)
    ensures LastDot(a) == LastDot(b)
    decreases |a|
  {
    if a != [] {
      var n := |a| - 1;
      assert LowerChar(a[n]) == LowerChar(b[n]);
      assert a[n] == '.' <==> b[n] == '.';
      LowerTake(a, n);
      LowerTake(b, n);
      LastDotIgnoresCase(a[..n], b[..n]);
    }
  }

  /** Examples: an upper-case suffix, a double suffix, an allowed word without a dot,
      and a name whose last suffix is not an image. */
  lemma UpperCaseSuffixAccepted()
    ensures Extension("x.PNG") == "png" && Accepted("x.PNG")
  {
  }

  lemma LastSuffixCounts()
    ensures Accepted("a.tar.png")
  {
    assert "a.tar" + "." + "png" == "a.tar.png";
    ExtensionOfSuffix("a.tar", "png");
    assert Lower("png") == "png";
  }

  lemma LastSuffixDecides()
    ensures !Accepted("photo.png.exe")
  {
    assert "photo.png" + "." + "exe" == "photo.png.exe";
    ExtensionOfSuffix("photo.png", "exe");
    assert Lower("exe") == "exe";
  }

  lemma BareWordRejected()
    ensures Extension("png") == "" && !Accepted("png")
  {
  }
}

/**
 * The clean-up applied to the ingredients text of an Open Food Facts product, both before
 * the allergy check and before the text goes into the PDF report: every `_` becomes a
 * blank, then every `en:` language tag is deleted.
 */
module Ingredients {
  import opened Wrappers
  import opened PyStr

  /** `ingredients.replace('_', ' ').replace('en:', '')`. */
  function Clean(ingredients: string): string {
    Replace(Replace(ingredients, "_", " "), "en:", "")
  }

  /** The product's `ingredients_text` after the clean-up, or the fallback text when the
      product has no such field. An empty text is left alone by the `if ingredients:`
      test, which is what the clean-up would give too. */
  function IngredientsText(field: Option<string>): (r: string)
    ensures field.None? ==> r == "Not available"
    ensures field.Some? && field.value == "" ==> r == ""
    ensures field.Some? && field.value != "" ==> r == Clean(field.value)
  {
    match field
    case None => "Not available"
    case Some(text) => if text == "" then text else Clean(text)
  }

  // ================================================================= lemmas

  /** The first step maps the text character by character: `_` to a blank, everything
      else to itself. */
  lemma UnderscoresBecomeBlanks(s: string)
    ensures |Replace(s, "_", " ")| == |s|
    ensures forall i :: 0 <= i < |s| ==>
      Replace(s, "_", " ")[i] == if s[i] == '_' then ' ' else s[i]
  {
    ReplaceCharPointwise(s, '_', ' ');
  }

  /** Deleting a pattern only removes characters: what is left was there before. */
  lemma {:induction false} DeletionKeepsCharacters(s: string, pat: string)
    requires |pat| > 0
    ensures forall c :: c in Replace(s, pat, "") ==> c in s
    decreases |s|
  {
    if |s| >= |pat| {
      if s[..|pat|] == pat {
        DeletionKeepsCharacters(s[|pat|..], pat);
        assert forall c :: c in s[|pat|..] ==> c in s;
      } else {
        DeletionKeepsCharacters(s[1..], pat);
        assert forall c :: c in s[1..] ==> c in s;
      }
    }
  }

  /** No `_` survives the clean-up. */
  lemma NoUnderscoreLeft(s: string)
    ensures '_' !in Clean(s)
  {
    var u := Replace(s, "_", " ");
    UnderscoresBecomeBlanks(s);
    assert '_' !in u by {
      forall i | 0 <= i < |u|
        ensures u[i] != '_'
      {
      }
    }
    DeletionKeepsCharacters(u, "en:");
  }

  /** The second step cuts the blank-for-underscore text at the `en:` tags that a left to
      right scan finds, never two overlapping ones, and glues the pieces back together:
      rejoined with the tag, the pieces give that text again, and no piece holds a tag
      that the scan passed over. */
  lemma CleanDeletesTags(s: string)
    ensures var u := Replace(s, "_", " ");
      var parts := SplitOn(u, "en:");
      && Clean(s) == JoinWith("", parts)
      && JoinWith("en:", parts) == u
      && (forall k :: 0 <= k < |parts| - 1 ==> !Occurs("en:", parts[k] + "en"))
      && !Occurs("en:", parts[|parts| - 1])
  {
    var u := Replace(s, "_", " ");
    ReplaceIsSplitJoin(u, "en:", "");
    SplitOnIsLeftmost(u, "en:");
    assert "en:"[..2] == "en";
  }

  /** Text without `_` and without an `en:` tag comes through unchanged. */
  lemma CleanKeepsPlainText(s: string)
    requires '_' !in s && !Occurs("en:", s)
    ensures Clean(s) == s
  {
    NoUnderscoreUnchanged(s);
    ReplaceAbsent(s, "en:", "");
  }

  /** Not idempotent: deleting a tag can bring two halves of another tag together, and the
      single left to right pass leaves that one in place. */
  lemma NotIdempotent()
    ensures Clean("enen::") == "en:"
    ensures Clean(Clean("enen::")) != Clean("enen::")
  {
    NestedTagOnce();
    TagAlone();
  }

  lemma NestedTagOnce()
    ensures Clean("enen::") == "en:"
  {
    var s, tag := "enen::", "en:";
    NoUnderscoreUnchanged(s);
    assert s[..3] != tag by { assert s[..3][2] == 'e'; }
    var s1 := s[1..];
    assert s1 == "nen::";
    assert s1[..3] != tag by { assert s1[..3][0] == 'n'; }
    var s2 := s1[1..];
    assert s2 == "en::" && s2[..3] == tag;
    assert s2[3..] == ":";
    assert Replace(s2, tag, "") == ":";
    assert Replace(s, tag, "") == [s[0]] + ([s1[0]] + Replace(s2, tag, ""));
  }

  /** Text without `_` goes through the first step unchanged. */
  lemma NoUnderscoreUnchanged(s: string)
    requires '_' !in s
    ensures Replace(s, "_", " ") == s
  {
    UnderscoresBecomeBlanks(s);
    var u := Replace(s, "_", " ");
    assert forall i :: 0 <= i < |s| ==> u[i] == s[i];
  }

  lemma TagAlone()
    ensures Clean("en:") == ""
  {
    var s, tag := "en:", "en:";
    NoUnderscoreUnchanged(s);
    assert s[..3] == tag && s[3..] == "";
  }

  /** A word behind a leading tag loses the tag and nothing else. */
  lemma CleanOfTaggedWord()
    ensures Clean("en:milk") == "milk"
  {
    var s, tag, w := "en:milk", "en:", "milk";
    assert '_' !in s by { assert forall k :: 0 <= k < |s| ==> s[k] != '_'; }
    NoUnderscoreUnchanged(s);
    assert s[..3] == tag && s[3..] == w;
    assert !Occurs(tag, w) by {
      assert w[..3] != tag by { assert w[0] == 'm'; }
      assert w[1..][..3] != tag by { assert w[1..][0] == 'i'; }
    }
    ReplaceAbsent(w, tag, "");
  }
}

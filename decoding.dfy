/**
 * The barcode route's decoding loop: the variants are handed to the decoder one after the
 * other, a call that raises counts as "nothing found", and the first variant on which the
 * decoder finds a symbol ends the loop.
 */
module Decoding {
  import opened Wrappers
  import opened Variants

  /** What one call of the injected decoder gives for one image: an exception, or the
      payloads of the symbols it found, in the order it lists them. */
  datatype Attempt = Raised | Symbols(payloads: seq<string>)

  /** The loop's test `if current_decoded:` on a call that returned. */
  predicate Hit(a: Attempt) {
    a.Symbols? && a.payloads != []
  }

  /** The result of the loop and of the check after it. */
  datatype Outcome = NotFound | Decoded(barcode: string, technique: string)

  /** The position of the first variant on which the decoder finds something. */
  function FirstHit(vs: seq<Variant>, decode: Image -> Attempt): (r: Option<nat>)
    ensures r.Some? ==> r.value < |vs| && Hit(decode(vs[r.value].image))
    ensures r.Some? ==> forall j :: 0 <= j < r.value ==> !Hit(decode(vs[j].image))
    ensures r.None? ==> forall j :: 0 <= j < |vs| ==> !Hit(decode(vs[j].image))
  {
    if vs == [] then None
    else if Hit(decode(vs[0].image)) then Some(0)
    else match FirstHit(vs[1..], decode)
      case None => None
      case Some(k) => Some(k + 1)
  }

  /** The loop over `processing_attempts`. `calls` records the variants the decoder was
      invoked on, in order. */
  method DecodeVariants(vs: seq<Variant>, decode: Image -> Attempt)
    returns (outcome: Outcome, ghost calls: seq<Variant>)
    ensures match FirstHit(vs, decode)
      case None => outcome == NotFound && calls == vs
      case Some(k) =>
        && outcome == Decoded(decode(vs[k].image).payloads[0], vs[k].technique)
        && calls == vs[..k + 1]
  {
    var decoded: Option<seq<string>> := None;
    var successful: Option<string> := None;
    calls := [];
    var i := 0;
    while i < |vs|
      invariant 0 <= i <= |vs|
      invariant calls == vs[..i]
      invariant forall j :: 0 <= j < i ==> !Hit(decode(vs[j].image))
      invariant decoded == None && successful == None
    {
      var attempt := decode(vs[i].image);
      calls := calls + [vs[i]];
      if attempt.Symbols? && attempt.payloads != [] {
        decoded, successful := Some(attempt.payloads), Some(vs[i].technique);
        break;
      }
      // an exception, or an empty list: try the next variant
      i := i + 1;
    }
    if decoded == None || decoded.value == [] {
      outcome := NotFound;
    } else {
      outcome := Decoded(decoded.value[0], successful.value);
    }
  }

  // ================================================================= lemmas

  /** The decoder's answers on the variants after the first hit are never looked at. */
  lemma {:induction false} FirstHitIgnoresLaterVariants(vs: seq<Variant>, d1: Image -> Attempt,
                                                        d2: Image -> Attempt, k: nat)
    requires FirstHit(vs, d1) == Some(k)
    requires forall j :: 0 <= j <= k ==> d1(vs[j].image) == d2(vs[j].image)
    ensures FirstHit(vs, d2) == Some(k)
    decreases |vs|
  {
    if k > 0 {
      assert FirstHit(vs[1..], d1) == Some(k - 1);
      FirstHitIgnoresLaterVariants(vs[1..], d1, d2, k - 1);
    }
  }

  /** A call that raises is handled exactly like a call that finds nothing. */
  lemma {:induction false} RaisedIsLikeEmpty(vs: seq<Variant>, decode: Image -> Attempt)
    ensures FirstHit(vs, decode) == FirstHit(vs, x => if decode(x).Raised? then Symbols([]) else decode(x))
    decreases |vs|
  {
    if vs != [] {
      RaisedIsLikeEmpty(vs[1..], decode);
    }
  }

  /** With a decoder that finds a symbol only in the third image of a colour upload that
      OpenCV can read, the loop stops at "Enhanced Contrast" after three calls. */
  lemma ThirdVariantWins(decode: Image -> Attempt, mode: string)
    requires mode != "L"
    requires var vs := Plan(mode, true);
      !Hit(decode(vs[0].image)) && !Hit(decode(vs[1].image)) && Hit(decode(vs[2].image))
    ensures FirstHit(Plan(mode, true), decode) == Some(2)
    ensures Plan(mode, true)[2].technique == "Enhanced Contrast"
  {
    var vs := Plan(mode, true);
    assert vs[1..][1..][0] == vs[2];
    assert vs[1..][0] == vs[1];
  }
}

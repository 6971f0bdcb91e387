/**
 * The allergy check: ingredients that are missing are answered with a fixed message and
 * the language model is not asked; otherwise the model's answer is passed on, and any
 * failure while asking becomes a fixed apology.
 */
module Allergies {
  import opened Wrappers
  import opened PyStr
  import opened Ingredients

  const NotAvailableMessage: string :=
    "INGREDIENTS NOT AVAILABLE: Unable to perform safety analysis as ingredients information is not available."

  const FailureMessage: string :=
    "Error analyzing ingredients for allergies. Please consult with a healthcare professional."

  /** What asking the language model about the ingredients and the allergies gives: the
      text of its answer, or an exception (from the call or from reading the answer). */
  datatype Generation = Replied(text: string) | Failed

  /** `not ingredients or ingredients.lower() == 'not available'`. Lower-casing only ASCII
      letters decides this comparison exactly as Python's `lower()` does: no other
      character's `lower()` can produce a match. */
  predicate Unavailable(ingredients: string) {
    ingredients == "" || Lower(ingredients) == "not available"
  }

  /** `check_allergies(ingredients, allergies)`, the model call passed in as `generate`. */
  function CheckAllergies(ingredients: string, allergies: string,
                          generate: (string, string) -> Generation): string {
    if Unavailable(ingredients) then NotAvailableMessage
    else match generate(ingredients, allergies)
      case Replied(text) => text
      case Failed => FailureMessage
  }

  /** The barcode route asks for an analysis only when the user named allergies. */
  function AllergyAnalysis(ingredients: string, allergies: string,
                           generate: (string, string) -> Generation): (r: Option<string>)
    ensures r.None? <==> allergies == ""
    ensures r.Some? ==> r.value == CheckAllergies(ingredients, allergies, generate)
  {
    if allergies == "" then None else Some(CheckAllergies(ingredients, allergies, generate))
  }

  /** The image-upload route's analysis: the product's `ingredients_text` as it is, with
      `''` when the field is missing and without the clean-up, and the model is asked only
      when the user named allergies and the text is not empty. */
  function UploadAllergyAnalysis(field: Option<string>, allergies: string,
                                 generate: (string, string) -> Generation): (r: Option<string>)
    ensures r.None? <==> allergies == "" || field.None? || field.value == ""
    ensures r.Some? ==> r.value == CheckAllergies(field.value, allergies, generate)
  {
    var ingredients := if field.Some? then field.value else "";
    if allergies != "" && ingredients != "" then Some(CheckAllergies(ingredients, allergies, generate))
    else None
  }

  // ================================================================= lemmas

  /** Missing ingredients never reach the model: whatever it would answer, the result is
      the fixed message. */
  lemma GuardSkipsModel(ingredients: string, allergies: string,
                        g1: (string, string) -> Generation, g2: (string, string) -> Generation)
    requires Unavailable(ingredients)
    ensures CheckAllergies(ingredients, allergies, g1) == NotAvailableMessage
    ensures CheckAllergies(ingredients, allergies, g1) == CheckAllergies(ingredients, allergies, g2)
  {
  }

  /** Any other ingredients are put to the model, and its answer is returned as it is;
      together with `GuardSkipsModel`, the model is consulted exactly when the ingredients
      are not missing. */
  lemma ModelAnswerPassedOn(ingredients: string, allergies: string, answer: string)
    requires !Unavailable(ingredients)
    ensures CheckAllergies(ingredients, allergies, (i, a) => Replied(answer)) == answer
    ensures CheckAllergies(ingredients, allergies, (i, a) => Failed) == FailureMessage
  {
  }

  /** The guard does not care about case. */
  lemma UnavailableIgnoresCase(s: string, t: string)
    requires Lower(s) == Lower(t)
    ensures Unavailable(s) <==> Unavailable(t)
  {
    assert |s| == |Lower(s)| == |Lower(t)| == |t|;
  }

  /** "NOT AVAILABLE" spelt in any mix of cases is caught by the guard. */
  lemma {:induction false} AnyCaseIsUnavailable(s: string)
    requires |s| == |"not available"|
    requires forall k :: 0 <= k < |s| ==> LowerChar(s[k]) == "not available"[k]
    ensures Unavailable(s)
  {
    var l := Lower(s);
    assert forall k :: 0 <= k < |l| ==> l[k] == "not available"[k];
    assert l == "not available";
  }

  /** A product without an ingredients field is never put to the model: the fallback text
      the barcode route puts in its place is caught by the guard. */
  lemma FallbackIsUnavailable()
    ensures Unavailable(IngredientsText(None))
  {
    var f := IngredientsText(None);
    assert forall k :: 0 <= k < |f| ==> LowerChar(f[k]) == "not available"[k];
    AnyCaseIsUnavailable(f);
  }

  /** Nor is a product whose ingredients text is empty. */
  lemma EmptyFieldIsUnavailable()
    ensures Unavailable(IngredientsText(Some("")))
  {
  }

  /** The two barcode routes treat a product without ingredients differently: the scan
      route reports the fixed message, the upload route gives no analysis at all. */
  lemma RoutesDifferOnMissingIngredients(field: Option<string>, allergies: string,
                                         generate: (string, string) -> Generation)
    requires field.None? || field.value == ""
    requires allergies != ""
    ensures AllergyAnalysis(IngredientsText(field), allergies, generate) == Some(NotAvailableMessage)
    ensures UploadAllergyAnalysis(field, allergies, generate).None?
  {
    if field.None? {
      FallbackIsUnavailable();
    }
  }

  /** The upload route puts the text to the model without the clean-up, so the two routes
      can ask about different texts for the same product. */
  lemma UploadSkipsCleanUp(allergies: string)
    requires allergies != ""
    ensures UploadAllergyAnalysis(Some("en:milk"), allergies, (i, a) => Replied(i)) == Some("en:milk")
    ensures AllergyAnalysis(IngredientsText(Some("en:milk")), allergies, (i, a) => Replied(i)) == Some("milk")
  {
    var raw := "en:milk";
    CleanOfTaggedWord();
    assert !Unavailable(raw) by { assert raw[0] == 'e'; assert |raw| != |"not available"|; }
    assert !Unavailable("milk") by { assert |"milk"| != |"not available"|; }
  }
}

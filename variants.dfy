/**
 * The list of processed images that the barcode route builds before decoding. Pixels are
 * not modelled: an image is described by how it was obtained.
 */
module Variants {

  datatype Image =
    | Opened(mode: string)                          // `Image.open` on the saved upload; `mode` is PIL's colour mode
    | Converted(source: Image, toMode: string)      // `source.convert(toMode)`
    | ContrastEnhanced(source: Image, factor: real) // `ImageEnhance.Contrast(source).enhance(factor)`
    | AdaptiveThreshold(maxValue: nat, blockSize: nat, offset: int)
      // the saved file read again with OpenCV, turned grey, then Gaussian adaptive
      // binary thresholding with these parameters

  /** One entry of `processing_attempts`: the name of the technique and its image. */
  datatype Variant = Variant(technique: string, image: Image)

  const ContrastFactor: real := 2.0
  const ThresholdMax: nat := 255
  const ThresholdBlock: nat := 11
  const ThresholdOffset: int := 2

  /** The four techniques in the order the route tries them. */
  const Techniques: seq<string> := ["Original", "Grayscale", "Enhanced Contrast", "Adaptive Threshold"]

  function Labels(vs: seq<Variant>): (ls: seq<string>)
    ensures |ls| == |vs| && forall i :: 0 <= i < |vs| ==> ls[i] == vs[i].technique
  {
    if vs == [] then [] else [vs[0].technique] + Labels(vs[1..])
  }

  /** The position of a label in `Techniques` (4 for any other label). */
  function Rank(technique: string): nat {
    if technique == "Original" then 0
    else if technique == "Grayscale" then 1
    else if technique == "Enhanced Contrast" then 2
    else if technique == "Adaptive Threshold" then 3
    else 4
  }

  /** The variants for an opened image of colour mode `mode`, when OpenCV can (or cannot)
      read the saved file. */
  function Plan(mode: string, cvReadable: bool): seq<Variant> {
    var image := Opened(mode);
    [Variant("Original", image)]
    + (if mode != "L" then [Variant("Grayscale", Converted(image, "L"))] else [])
    + [Variant("Enhanced Contrast", ContrastEnhanced(image, ContrastFactor))]
    + (if cvReadable then [Variant("Adaptive Threshold",
                                   AdaptiveThreshold(ThresholdMax, ThresholdBlock, ThresholdOffset))]
       else [])
  }

  /** The route's construction of `processing_attempts`, one `append` at a time. */
  method BuildVariants(mode: string, cvReadable: bool) returns (attempts: seq<Variant>)
    ensures attempts == Plan(mode, cvReadable)
    ensures attempts[0] == Variant("Original", Opened(mode))
    ensures 2 <= |attempts| <= 4
  {
    var image := Opened(mode);
    attempts := [];
    attempts := attempts + [Variant("Original", image)];
    if mode != "L" {
      var grayImage := Converted(image, "L");
      attempts := attempts + [Variant("Grayscale", grayImage)];
    }
    var enhancedImage := ContrastEnhanced(image, ContrastFactor);
    attempts := attempts + [Variant("Enhanced Contrast", enhancedImage)];
    if cvReadable {
      var threshold := AdaptiveThreshold(ThresholdMax, ThresholdBlock, ThresholdOffset);
      attempts := attempts + [Variant("Adaptive Threshold", threshold)];
    }
  }

  // ================================================================= lemmas

  /** The shape of the list: "Original" first, "Enhanced Contrast" always, "Grayscale"
      exactly when the image is not already single-channel, "Adaptive Threshold" exactly
      when OpenCV could read the file, nothing else, each at most once, and always in the
      order of `Techniques`. */
  lemma PlanShape(mode: string, cvReadable: bool)
    ensures var ls := Labels(Plan(mode, cvReadable));
      && |ls| == 2 + (if mode != "L" then 1 else 0) + (if cvReadable then 1 else 0)
      && ls[0] == "Original"
      && "Enhanced Contrast" in ls
      && ("Grayscale" in ls <==> mode != "L")
      && ("Adaptive Threshold" in ls <==> cvReadable)
      && (forall l :: l in ls ==> l in Techniques)
      && (forall i, j :: 0 <= i < j < |ls| ==> Rank(ls[i]) < Rank(ls[j]))
  {
    var ls := Labels(Plan(mode, cvReadable));
    PlanLabels(mode, cvReadable);
    if mode != "L" && cvReadable {
      assert ls == ["Original", "Grayscale", "Enhanced Contrast", "Adaptive Threshold"];
    } else if mode != "L" {
      assert ls == ["Original", "Grayscale", "Enhanced Contrast"];
    } else if cvReadable {
      assert ls == ["Original", "Enhanced Contrast", "Adaptive Threshold"];
    } else {
      assert ls == ["Original", "Enhanced Contrast"];
    }
  }

  /** The labels of the plan, one optional step at a time. */
  lemma PlanLabels(mode: string, cvReadable: bool)
    ensures Labels(Plan(mode, cvReadable)) ==
      ["Original"] + (if mode != "L" then ["Grayscale"] else []) + ["Enhanced Contrast"]
      + (if cvReadable then ["Adaptive Threshold"] else [])
  {
    var ls := Labels(Plan(mode, cvReadable));
    var want := ["Original"] + (if mode != "L" then ["Grayscale"] else []) + ["Enhanced Contrast"]
      + (if cvReadable then ["Adaptive Threshold"] else []);
    assert |ls| == |want|;
    assert forall i :: 0 <= i < |ls| ==> ls[i] == want[i];
  }

  /** The grey and contrast variants are both derived from the opened image itself (the
      contrast one is not built on the grey one); the threshold variant uses OpenCV's own
      reading of the file. */
  lemma PlanSources(mode: string, cvReadable: bool)
    ensures forall v :: v in Plan(mode, cvReadable) && v.technique in {"Grayscale", "Enhanced Contrast"}
                        ==> v.image.source == Opened(mode)
    ensures forall v :: v in Plan(mode, cvReadable) && v.technique == "Adaptive Threshold"
                        ==> v.image == AdaptiveThreshold(255, 11, 2)
  {
  }

  /** The list depends on nothing but the colour mode and whether OpenCV read the file:
      an image that is already greyscale gives three or two variants, not four. */
  lemma GreyscaleUploadSkipsConversion(cvReadable: bool)
    ensures Labels(Plan("L", cvReadable)) ==
      if cvReadable then ["Original", "Enhanced Contrast", "Adaptive Threshold"]
      else ["Original", "Enhanced Contrast"]
  {
  }
}

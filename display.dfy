/**
 * The browser's rendering of the allergy analysis (JavaScript in the page template): a
 * banner for the first `SAFETY RATING:` number, coloured by a five-step ladder, and an alert
 * for the first `CONCLUSION:` line, coloured by its keyword.
 */
module Display {
  import opened Wrappers
  import opened Matcher

  /** `/SAFETY RATING:\s*(\d+)/i` */
  const RatingPattern: Pattern := Number("SAFETY RATING:")

  /** `/CONCLUSION:\s*(SAFE|UNSAFE|CAUTION)\s*-\s*(.*)/i` */
  const DecisionPattern: Pattern := Verdict("CONCLUSION:", ["SAFE", "UNSAFE", "CAUTION"])

  function DigitValue(c: char): nat {
    if Digit(c) then c as int - '0' as int else 0
  }

  /** `parseInt` of a run of decimal digits: its value. */
  function ParseDecimal(ds: string): nat {
    if ds == [] then 0 else 10 * ParseDecimal(ds[..|ds| - 1]) + DigitValue(ds[|ds| - 1])
  }

  /** The five steps of the rating ladder. */
  datatype Bucket = ExtremelyDangerous | HighRisk | ModerateRisk | Safe | VerySafe

  /** The `if`/`else if` ladder on the rating. Nothing is clamped: a rating of 0 is
      "Extremely Dangerous" and one above 10 is "Very Safe". */
  function BucketOf(rating: nat): (b: Bucket)
    ensures b == ExtremelyDangerous <==> rating <= 3
    ensures b == HighRisk <==> 4 <= rating <= 5
    ensures b == ModerateRisk <==> 6 <= rating <= 7
    ensures b == Safe <==> 8 <= rating <= 9
    ensures b == VerySafe <==> 10 <= rating
  {
    if rating <= 3 then ExtremelyDangerous
    else if rating <= 5 then HighRisk
    else if rating <= 7 then ModerateRisk
    else if rating <= 9 then Safe
    else VerySafe
  }

  /** `statusText` */
  function StatusText(b: Bucket): string {
    match b
    case ExtremelyDangerous => "Extremely Dangerous"
    case HighRisk => "High Risk"
    case ModerateRisk => "Moderate Risk"
    case Safe => "Safe"
    case VerySafe => "Very Safe"
  }

  /** `statusBoxColor` */
  function BoxColor(b: Bucket): string {
    match b
    case ExtremelyDangerous => "#dc3545"
    case HighRisk => "#fd7e14"
    case ModerateRisk => "#ffc107"
    case Safe => "#28a745"
    case VerySafe => "#20c997"
  }

  /** How far down the ladder a step is, from most dangerous (0) to safest (4). */
  function Severity(b: Bucket): nat {
    match b
    case ExtremelyDangerous => 0
    case HighRisk => 1
    case ModerateRisk => 2
    case Safe => 3
    case VerySafe => 4
  }

  /** `toUpperCase()` on what a keyword can match without the `u` flag: ASCII letters. */
  function JsUpper(s: string): (r: string)
    ensures |r| == |s|
    ensures forall i :: 0 <= i < |s| ==> r[i] == if 'a' <= s[i] <= 'z' then (s[i] as int - 32) as char else s[i]
  {
    if s == [] then []
    else [if 'a' <= s[0] <= 'z' then (s[0] as int - 32) as char else s[0]] + JsUpper(s[1..])
  }

  /** The alert's colour for the upper-cased conclusion keyword. */
  function ConclusionColor(status: string): string {
    if status == "SAFE" then "success" else if status == "UNSAFE" then "danger" else "warning"
  }

  /** The rating box: the number, its step on the ladder, the step's text and the box's
      background colour. */
  datatype Banner = Banner(rating: nat, bucket: Bucket, text: string, color: string)
  datatype Alert = Alert(status: string, explanation: string, color: string)

  /** What is put on the page besides the answer itself. */
  datatype View = View(banner: Option<Banner>, alert: Option<Alert>)

  /** `displayAllergyAnalysis(analysis)` */
  function DisplayAllergyAnalysis(analysis: string): View {
    var rating := Search(JavaScript, RatingPattern, analysis, 0);
    var decision := Search(JavaScript, DecisionPattern, analysis, 0);
    View(
      if rating.Some? then
        var value := ParseDecimal(rating.value.groups[0]);
        var step := BucketOf(value);
        Some(Banner(value, step, StatusText(step), BoxColor(step)))
      else None,
      if decision.Some? then
        var status := JsUpper(decision.value.groups[0]);
        Some(Alert(status, decision.value.groups[1], ConclusionColor(status)))
      else None)
  }

  // ================================================================= lemmas

  /** The ladder never rates a higher number as more dangerous. */
  lemma LadderIsMonotone(r1: nat, r2: nat)
    requires r1 <= r2
    ensures Severity(BucketOf(r1)) <= Severity(BucketOf(r2))
  {
  }

  /** One line of the legend the prompt asks the model to rate by. */
  datatype Band = Band(low: nat, high: nat, meaning: string, colour: string)

  const Legend: seq<Band> := [
    Band(1, 3, "Extremely Dangerous", "RED"),
    Band(4, 5, "High Risk", "ORANGE"),
    Band(6, 7, "Moderate Risk", "YELLOW"),
    Band(8, 9, "Safe", "LIGHT GREEN"),
    Band(10, 10, "Very Safe", "GREEN")
  ]

  /** The colour name the page's comment gives each box colour. */
  function BoxColorName(b: Bucket): string {
    match b
    case ExtremelyDangerous => "RED"
    case HighRisk => "ORANGE"
    case ModerateRisk => "YELLOW"
    case Safe => "LIGHT GREEN"
    case VerySafe => "GREEN"
  }

  /** On every rating from 1 to 10 the page says what the prompt's legend says, in the
      legend's colour, and every such rating is in exactly one band. */
  lemma LadderFollowsLegend(rating: nat, k: nat)
    requires k < |Legend| && Legend[k].low <= rating <= Legend[k].high
    ensures StatusText(BucketOf(rating)) == Legend[k].meaning
    ensures BoxColorName(BucketOf(rating)) == Legend[k].colour
    ensures forall n :: 0 <= n < |Legend| && Legend[n].low <= rating <= Legend[n].high ==> n == k
  {
  }

  lemma LegendCoversOneToTen(rating: nat)
    requires 1 <= rating <= 10
    ensures exists k :: 0 <= k < |Legend| && Legend[k].low <= rating <= Legend[k].high
  {
    if rating <= 3 { assert Legend[0].low <= rating <= Legend[0].high; }
    else if rating <= 5 { assert Legend[1].low <= rating <= Legend[1].high; }
    else if rating <= 7 { assert Legend[2].low <= rating <= Legend[2].high; }
    else if rating <= 9 { assert Legend[3].low <= rating <= Legend[3].high; }
    else { assert Legend[4].low <= rating <= Legend[4].high; }
  }

  /** Leading zeros do not change the rating. */
  lemma {:induction false} LeadingZeroIgnored(ds: string)
    ensures ParseDecimal("0" + ds) == ParseDecimal(ds)
    decreases |ds|
  {
    if ds != [] {
      var t := "0" + ds;
      assert t[..|t| - 1] == "0" + ds[..|ds| - 1];
      assert t[|t| - 1] == ds[|ds| - 1];
      LeadingZeroIgnored(ds[..|ds| - 1]);
    } else {
      assert ParseDecimal("0") == 10 * ParseDecimal("") + DigitValue('0');
    }
  }

  /** The banner shows the value of the digits of the leftmost rating match, and there is
      no banner exactly when the pattern matches nowhere. */
  lemma BannerFromLeftmostRating(analysis: string)
    ensures var v := DisplayAllergyAnalysis(analysis);
      && (v.banner.None? <==> forall i :: 0 <= i <= |analysis| ==> MatchAt(JavaScript, RatingPattern, analysis, i).None?)
      && (v.banner.Some? ==> exists i, ds :: && 0 <= i <= |analysis|
                                              && MatchAt(JavaScript, RatingPattern, analysis, i) == Some([ds])
                                              && v.banner.value.rating == ParseDecimal(ds)
                                              && v.banner.value.bucket == BucketOf(ParseDecimal(ds))
                                              && v.banner.value.text == StatusText(v.banner.value.bucket)
                                              && v.banner.value.color == BoxColor(v.banner.value.bucket)
                                              && forall n :: 0 <= n < i ==> MatchAt(JavaScript, RatingPattern, analysis, n).None?)
  {
    var rating := Search(JavaScript, RatingPattern, analysis, 0);
    if rating.Some? {
      var g := rating.value.groups;
      assert g == [g[0]];
    }
  }

  /** The rating shown is the value of the whole run of digits that follows the leftmost
      `SAFETY RATING:` and the white space after it. */
  lemma BannerDigits(analysis: string)
    ensures var v := DisplayAllergyAnalysis(analysis);
      v.banner.Some? ==> exists i: nat, j: nat, k: nat :: && j <= k <= |analysis|
                                            && NumberReading(JavaScript, RatingPattern.prefix, analysis, i, j, k, analysis[j..k])
                                            && v.banner.value.rating == ParseDecimal(analysis[j..k])
                                            && forall n :: 0 <= n < i ==> MatchAt(JavaScript, RatingPattern, analysis, n).None?
  {
    var rating := Search(JavaScript, RatingPattern, analysis, 0);
    if rating.Some? {
      var i, ds := rating.value.at, rating.value.groups[0];
      assert rating.value.groups == [ds];
      NumberMatchIff(JavaScript, RatingPattern.prefix, analysis, i, ds);
      var j, k :| NumberReading(JavaScript, RatingPattern.prefix, analysis, i, j, k, ds);
    }
  }

  /** The five steps are told apart on the page: each has its own text and its own box
      colour. */
  lemma StepsAreDistinct(b1: Bucket, b2: Bucket)
    requires b1 != b2
    ensures StatusText(b1) != StatusText(b2) && BoxColor(b1) != BoxColor(b2)
  {
  }

  /** A `CONCLUSION:` line is found exactly when it is laid out as the pattern says; SAFE,
      UNSAFE and CAUTION begin with different letters, so the first keyword that fits is the
      only one. */
  lemma DecisionLineIff(s: string, i: nat, w: string, x: string)
    requires i <= |s|
    ensures MatchAt(JavaScript, DecisionPattern, s, i) == Some([w, x]) <==>
      exists j, m, k, l :: VerdictAt(JavaScript, DecisionPattern.prefix, DecisionPattern.keywords, s, i, j, m, k, l, w, x)
  {
    var kws := DecisionPattern.keywords;
    assert kws[0][0] == 'S' && kws[1][0] == 'U' && kws[2][0] == 'C';
    assert forall m :: 0 <= m < |kws| ==> Keyword(kws[m]);
    VerdictMatchIff(JavaScript, DecisionPattern.prefix, kws, s, i, w, x);
  }

  /** There is no alert exactly when the conclusion pattern matches nowhere; otherwise its
      status is the upper-cased keyword and its explanation the rest of the line of the
      leftmost match. */
  lemma AlertFromLeftmostConclusion(analysis: string)
    ensures var v := DisplayAllergyAnalysis(analysis);
      && (v.alert.None? <==> forall i :: 0 <= i <= |analysis| ==> MatchAt(JavaScript, DecisionPattern, analysis, i).None?)
      && (v.alert.Some? ==> exists i, w, x :: && 0 <= i <= |analysis|
                                              && MatchAt(JavaScript, DecisionPattern, analysis, i) == Some([w, x])
                                              && v.alert.value.status == JsUpper(w)
                                              && v.alert.value.explanation == x
                                              && forall n :: 0 <= n < i ==> MatchAt(JavaScript, DecisionPattern, analysis, n).None?)
  {
    var decision := Search(JavaScript, DecisionPattern, analysis, 0);
    if decision.Some? {
      var g := decision.value.groups;
      assert g == [g[0], g[1]];
    }
  }

  /** The alert's status is one of the page's three words, and its colour follows the word:
      green for SAFE, red for UNSAFE, yellow for CAUTION. */
  lemma AlertVocabulary(analysis: string)
    ensures var v := DisplayAllergyAnalysis(analysis);
      v.alert.Some? ==>
        && v.alert.value.status in {"SAFE", "UNSAFE", "CAUTION"}
        && (v.alert.value.color == "success" <==> v.alert.value.status == "SAFE")
        && (v.alert.value.color == "danger" <==> v.alert.value.status == "UNSAFE")
        && (v.alert.value.color == "warning" <==> v.alert.value.status == "CAUTION")
  {
    var v := DisplayAllergyAnalysis(analysis);
    if v.alert.Some? {
      AlertStatusIsKeyword(analysis);
      ColorFollowsKeyword(v.alert.value.status);
    }
  }

  lemma AlertStatusIsKeyword(analysis: string)
    ensures var v := DisplayAllergyAnalysis(analysis);
      v.alert.Some? ==> v.alert.value.status in DecisionPattern.keywords
                        && v.alert.value.color == ConclusionColor(v.alert.value.status)
  {
    DecisionKeyword(analysis);
  }

  lemma DecisionKeyword(analysis: string)
    ensures var d := Search(JavaScript, DecisionPattern, analysis, 0);
      d.Some? ==> |d.value.groups| == 2 && JsUpper(d.value.groups[0]) in DecisionPattern.keywords
  {
    var d := Search(JavaScript, DecisionPattern, analysis, 0);
    if d.Some? {
      DecisionMatchUpper(analysis, d.value.at, d.value.groups);
    }
  }

  lemma DecisionMatchUpper(s: string, i: nat, g: seq<string>)
    requires i <= |s| && MatchAt(JavaScript, DecisionPattern, s, i) == Some(g)
    ensures |g| == 2 && JsUpper(g[0]) in DecisionPattern.keywords
  {
    assert g == [g[0], g[1]];
    var j, m, k, l := VerdictMatchShape(JavaScript, DecisionPattern.prefix, DecisionPattern.keywords,
                                        s, i, g[0], g[1]);
    var kws := DecisionPattern.keywords;
    assert m < |kws| && LiteralAt(JavaScript, kws[m], s, j) && g[0] == s[j..j + |kws[m]|];
    KeywordReadUpper(s, j, m, g[0]);
  }

  /** The keyword read at `j` upper-cases to the keyword itself. */
  lemma KeywordReadUpper(s: string, j: nat, m: nat, w: string)
    requires m < |DecisionPattern.keywords|
    requires LiteralAt(JavaScript, DecisionPattern.keywords[m], s, j)
    requires w == s[j..j + |DecisionPattern.keywords[m]|]
    ensures JsUpper(w) == DecisionPattern.keywords[m]
  {
    var kw := DecisionPattern.keywords[m];
    assert kw == "SAFE" || kw == "UNSAFE" || kw == "CAUTION";
    assert forall k :: 0 <= k < |kw| ==> 'A' <= kw[k] <= 'Z';
    assert forall k :: 0 <= k < |kw| ==> w[k] == s[j + k];
    JsUpperOfKeyword(w, kw);
  }

  lemma ColorFollowsKeyword(status: string)
    requires status in ["SAFE", "UNSAFE", "CAUTION"]
    ensures status in {"SAFE", "UNSAFE", "CAUTION"}
    ensures ConclusionColor(status) == "success" <==> status == "SAFE"
    ensures ConclusionColor(status) == "danger" <==> status == "UNSAFE"
    ensures ConclusionColor(status) == "warning" <==> status == "CAUTION"
  {
  }

  /** Without the `u` flag only ASCII letters match a keyword, so upper-casing the match
      gives the keyword itself. */
  lemma JsUpperOfKeyword(w: string, kw: string)
    requires |w| == |kw|
    requires forall k :: 0 <= k < |kw| ==> 'A' <= kw[k] <= 'Z' && SameLetter(JavaScript, w[k], kw[k])
    ensures JsUpper(w) == kw
  {
    var u := JsUpper(w);
    assert forall k :: 0 <= k < |u| ==> u[k] == kw[k];
  }
}

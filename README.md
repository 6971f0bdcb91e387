# Allergy barcode scanner — a verified model of its core logic

The scanner is a Flask application (`app.py`). A user scans or uploads a food product's
barcode, or photographs its ingredients label. The application looks the product up in
Open Food Facts, asks a language model whether the ingredients are safe for the user's
allergies, and shows the answer on the page and in a PDF report. This project models the
few pieces of that file that decide something, and proves what they do:

- **Upload gate** (`upload.dfy`). The extension is what follows the last `.` of the file
  name, lower-cased, or empty when there is no `.`. Only jpg, jpeg, png, gif and heic
  pass.
- **Variant list** (`variants.dfy`). These are the images the barcode route tries, in
  order:
  - "Original";
  - "Grayscale", only for images that are not single-channel;
  - "Enhanced Contrast";
  - "Adaptive Threshold", only when OpenCV can read the saved file.

  Images are opaque terms that record how they were obtained.
- **Decode loop** (`decoding.dfy`). The decoder is injected. A call that raises counts as
  "nothing found". The loop stops at the first variant with a symbol, and that symbol's
  payload becomes the barcode. A ghost trace records which variants were decoded.
- **OCR clean-up** (`ocr.dfy`). The steps are `strip()`, `' '.join(split())`, and dropping
  non-ASCII characters. An empty result is the "No readable text" error.
- **Ingredient clean-up** (`ingredients.dfy`). Python's `str.replace` first turns every `_`
  into a blank, then deletes every `en:` tag (left-to-right, non-overlapping).
- **Allergy check guard** (`allergies.dfy`). Missing ingredients get a fixed message and the
  language model is not asked. Otherwise its answer, or a fixed apology, is returned.
- **Reading the answer on the server** (`report.dfy`). This is the PDF report. The star
  signs become `*`. Then the leftmost case-insensitive `SAFETY STATUS:` and `CONCLUSION:`
  matches give the status and the final decision, upper-cased.
- **Reading the answer in the browser** (`display.dfy`). This is the page script. The
  leftmost `SAFETY RATING:` number is bucketed into five risk levels with a colour each.
  The `CONCLUSION:` keyword picks the colour of the final-decision alert.

The regular expressions are hand-written matchers (`matcher.dfy`), with one engine flag
for Python and one for JavaScript:

- **Case-insensitive matching.** Python's `re.IGNORECASE` also lets U+0130 and U+0131
  match `I`, U+017F match `S`, and U+212A match `K`. A JavaScript `/i` regex without the
  `u` flag never lets a non-ASCII character match an ASCII letter. It does fold some
  non-ASCII letters onto each other, such as é and É, but the patterns hold only ASCII.
- **`\s`** is Python's `isspace` set on the server and ECMAScript's white space and line
  terminators in the browser.
- **`.`** stops at `\n` in Python. In JavaScript it also stops at `\r`, U+2028 and U+2029.

`pystr.dfy` holds the Python string operations the rest uses.

Where the behaviour is surprising, the model keeps it and proves it:

- The list has two to four variants, not always four.
- The OCR clean-up is not idempotent. A non-ASCII word between blanks leaves two blanks.
- A label of two words made only of non-ASCII characters comes out as a single blank, and
  a single blank passes the emptiness check.
- The ingredient clean-up is not idempotent: `enen::` becomes `en:`.
- The server's patterns expect `WARNING`, while the prompt asks for `CAUTION`. A
  prompt-conforming `SAFETY STATUS: CAUTION` gives no status line.
- On the server a dotted capital I can make the status `WARNİNG`, because Python's
  `upper()` keeps it.

## Model

| member | source | states |
|---|---|---|
| Upload.LastDot | app.py:1201-1202 | the index `rsplit('.', 1)` cuts at: a `.`, with no `.` after it; none exactly when the name has no `.` |
| Upload.ExtensionOfSuffix | app.py:1201-1202 | the extension of `stem.suffix`, where the suffix has no `.`, is the lower-cased suffix |
| Upload.NoDotRejected | app.py:1201-1203 | a name without `.` has the empty extension and is rejected |
| Upload.AcceptedIffAllowedSuffix | app.py:1200-1203 | the gate `Accepted` holds exactly when the name is a stem, `.`, and a dot-free suffix that lower-cases to an allowed extension |
| Upload.SplitAtLastDot | app.py:1200-1203 | an accepted name is a stem, `.`, and a suffix without `.` whose lower-case form is an allowed extension |
| Upload.ExtensionIgnoresCase | app.py:1201-1202 | names that agree once lower-cased have the same extension |
| Upload.ExtensionAt | app.py:1201-1202 | `Extension` of a name is the lower-cased name after its last `.` |
| Upload.LastDotIgnoresCase | app.py:1201-1202 | lower-casing does not move the last `.` |
| Upload.UpperCaseSuffixAccepted | app.py:1200-1203 | `x.PNG` has extension `png` and is accepted |
| Upload.LastSuffixCounts | app.py:1200-1203 | `a.tar.png` is accepted: only the last suffix counts |
| Upload.LastSuffixDecides | app.py:1200-1203 | `photo.png.exe` is rejected |
| Upload.BareWordRejected | app.py:1200-1203 | the bare word `png` has no extension and is rejected |
| Variants.Labels | app.py:1251-1275 | the technique names of a variant list, position by position |
| Variants.BuildVariants | app.py:1251-1275 | the appended list is the plan for the mode and OpenCV readability; it starts with the opened image as "Original" and has 2 to 4 entries |
| Variants.PlanShape | app.py:1251-1275 | the variant list `Plan` has "Original" first; "Enhanced Contrast" always; "Grayscale" exactly when the mode is not `L`; "Adaptive Threshold" exactly when OpenCV read the file; 2 to 4 entries in the order of the techniques |
| Variants.PlanSources | app.py:1258-1275 | grey and contrast variants are built from the opened image; the threshold variant uses 255, block 11, offset 2 |
| Variants.GreyscaleUploadSkipsConversion | app.py:1257-1259 | a mode-`L` image gives only "Original", "Enhanced Contrast" and, if readable, "Adaptive Threshold" |
| Decoding.FirstHit | app.py:1281-1289 | the index of the first variant whose decode result is non-empty, every earlier one missing; none when no variant yields a symbol |
| Decoding.DecodeVariants | app.py:1277-1302 | on a first hit at k: the barcode is that variant's first payload, its technique is recorded, and the decoder was called on variants 0..k only; otherwise NotFound after one call per variant |
| Decoding.FirstHitIgnoresLaterVariants | app.py:1281-1289 | the decoder's answers after the first hit cannot change the outcome |
| Decoding.RaisedIsLikeEmpty | app.py:1290-1292 | a call that raises is handled exactly like one that finds nothing |
| Decoding.ThirdVariantWins | app.py:1281-1289 | for a readable colour upload whose third image is the first with a symbol, the loop stops at "Enhanced Contrast" |
| Ocr.ExtractIngredients | app.py:1438-1446 | the result is non-empty, ASCII, and has no white space but the blank; the error happens exactly when the raw text holds at most one word and no ASCII non-space character |
| Ocr.NormalizeIsJoinedWords | app.py:1438-1440 | `strip()` before `split()` makes no difference |
| Ocr.NormalizeCharacters | app.py:1438-1443 | the result of `Normalize` (which drops non-ASCII characters with `AsciiIgnore`) is ASCII with no white space but the blank |
| Ocr.JoinSpaceWellSpaced | app.py:1439-1440 | joining words with blanks leaves no blank at either end and no two in a row |
| Ocr.SplitKeepsCharacters | app.py:1439-1440 | every character of every word satisfies whatever every character of the text satisfies |
| Ocr.NormalizeAscii | app.py:1438-1443 | for ASCII text the result is the blank-joined words, well spaced |
| Ocr.NormalizeIdempotentOnAscii | app.py:1438-1443 | for ASCII text a second clean-up changes nothing |
| Ocr.NormalizeEmptyIff | app.py:1438-1446 | the clean-up `Normalize` gives the empty text exactly when the text has at most one word and no ASCII non-space character |
| Ocr.CleanAsciiWordsUnchanged | app.py:1438-1443 | ASCII words joined by single blanks come through unchanged |
| Ocr.NormalizeThreeWords | app.py:1438-1443 | three words joined by blanks only lose their non-ASCII characters |
| Ocr.NormalizeSpacedWords | app.py:1438-1443 | three words between runs of white space become the ASCII parts of the words, blank-joined |
| Ocr.SplitGap | app.py:1439-1440 | any run of blanks separates two words |
| Ocr.DoubleBlankCollapses | app.py:1438-1443 | two ASCII words separated by two blanks become separated by one |
| Ocr.GapCollapses | app.py:1438-1443 | two ASCII words separated by any run of blanks come out separated by one blank |
| Ocr.ForeignWordDropped | app.py:1438-1443 | an all-non-ASCII word between two ASCII words leaves two blanks |
| Ocr.ForeignWordLeavesDoubleBlank | app.py:1438-1443 | in that case a second clean-up removes one blank, so the two results differ |
| Ocr.NotIdempotent | app.py:1438-1443 | some text is changed by a second clean-up |
| Ocr.ForeignWordsNormalizeToBlank | app.py:1438-1443 | two all-non-ASCII words become a single blank |
| Ocr.ForeignWordsLeaveBlank | app.py:1438-1446 | such a label passes the emptiness check and yields a single blank |
| Ingredients.IngredientsText | app.py:134-136 | a missing field gives "Not available"; an empty one stays empty; any other text is cleaned by `Clean` |
| Ingredients.UnderscoresBecomeBlanks | app.py:136 | the first step maps each `_` to a blank and keeps every other character in place |
| Ingredients.DeletionKeepsCharacters | app.py:136 | deleting a pattern only removes characters |
| Ingredients.NoUnderscoreLeft | app.py:136 | no `_` survives the clean-up |
| Ingredients.CleanDeletesTags | app.py:136 | `Clean` gives the pieces between the `en:` tags found left to right without overlap, glued together; rejoined with the tag they give back the blanked text |
| Ingredients.CleanKeepsPlainText | app.py:296 | text without `_` and `en:` is unchanged |
| Ingredients.NotIdempotent | app.py:296 | `enen::` cleans to `en:`, which a second clean-up changes again |
| Ingredients.NestedTagOnce | app.py:136 | `enen::` cleans to `en:`: deleting the tag can form a new one |
| Ingredients.TagAlone | app.py:136 | the tag on its own cleans to the empty text |
| Ingredients.CleanOfTaggedWord | app.py:136 | `en:milk` cleans to `milk` |
| PyStr.ReplaceIsSplitJoin | app.py:136 | `Replace` is split at the leftmost non-overlapping occurrences, then join with the replacement |
| PyStr.SplitOnIsLeftmost | app.py:136 | the pieces joined with the pattern give the text back; no piece plus the pattern's start hides an occurrence; the last piece has none |
| PyStr.OccursIff | app.py:136 | the recursive occurrence test holds exactly when the pattern sits at some position |
| PyStr.SplitIgnoresStrip | app.py:1438-1440 | `Split` (on `IsSpace` white space) gives the same words with or without `Strip` first |
| PyStr.SplitJoinSpace | app.py:1439-1440 | splitting words joined by `JoinSpace` gives the words back |
| Matcher.SkipWhile | app.py:327-332 | a greedy `\s*`: everything skipped is white space and the next character is not |
| Matcher.MatchAt | app.py:327-332 | a match at i starts with the prefix; a field match has one group, a verdict match two, and a number match a non-empty group |
| Matcher.FirstKeyword | app.py:327-332 | the first alternative, in pattern order, that matches at the position |
| Matcher.VerdictFrom | app.py:330-332 | the explanation group holds only characters `.` can match |
| Matcher.Search | app.py:327-332 | the leftmost position with a match, and none when nothing matches anywhere |
| Matcher.FieldMatchIff | app.py:327-329 | a field match gives word w exactly when the prefix, white space and then a keyword w sit at the position, w being the first keyword that fits |
| Matcher.VerdictMatchShape | app.py:330-332 | a verdict match is prefix, white space, keyword, white space, `-`, white space (greedy) and the rest of the line |
| Matcher.VerdictMatchIff | app.py:330-332 | when the keywords begin with different letters, a verdict match with groups w and x exists exactly when the prefix, white space, keyword w, white space, `-`, the longest white space and the rest of the line x sit at the position |
| Matcher.ReadingIsVerdictMatch | app.py:330-332 | a line laid out that way, whose keyword is the first alternative that fits, is matched with those groups |
| Matcher.NumberMatchIff | app.py:1097 | a number match gives ds exactly when the prefix, white space, and then the whole run of digits ds (at least one) sit at the position |
| Matcher.SkipWhileStops | app.py:327-332 | a greedy run ends at the first character outside the class |
| Report.StarsBecomeAsterisks | app.py:324 | `ReplaceStars` keeps the length; each star sign becomes `*` and every other character stays |
| Report.Upper | app.py:335 | `upper()` position by position on the characters a keyword can match |
| Report.SectionFields | app.py:327-344 | `AllergySection` shows the answer with its stars replaced; a field is missing exactly when its pattern matches nowhere; the status is the upper-cased word of the leftmost match, and the decision the upper-cased word and the explanation of the leftmost `CONCLUSION:` match |
| Report.DecisionLineIff | app.py:330-332 | a `CONCLUSION:` match with groups w and x exists exactly when the line is laid out as the pattern says |
| Report.StatusVocabulary | app.py:327-335 | the status is SAFE, UNSAFE, WARNING or WARNİNG |
| Report.DecisionVocabulary | app.py:330-344 | the decision is SAFE, UNSAFE, WARNING or WARNİNG |
| Report.UpperOfKeyword | app.py:335 | upper-casing a keyword match gives one of those four words |
| Report.UpperOfMatch | app.py:335 | position by position, the keyword's letter, or a dotted capital I where it has `I` |
| Report.UpperOfOneI | app.py:335 | a keyword whose only `I` is at one position upper-cases back to itself, or to itself with a dotted capital I there |
| Report.CautionIsNotAStatus | app.py:327-329 | after `SAFETY STATUS:` and white space, a `C` gives no match |
| Report.ExplanationIsOneLine | app.py:330-345 | the explanation holds no line feed |
| Display.BucketOf | app.py:1104-1128 | the ladder: ≤3 extremely dangerous, 4-5 high risk, 6-7 moderate, 8-9 safe, ≥10 very safe, each both ways, with no clamping |
| Display.JsUpper | app.py:1166 | `toUpperCase()` on ASCII letters, position by position |
| Display.LadderIsMonotone | app.py:1108-1128 | a higher rating never lands in a more dangerous bucket |
| Display.LadderFollowsLegend | app.py:58-63 | for ratings 1 to 10 the page shows the prompt legend's text and colour for the one band the rating falls in |
| Display.LegendCoversOneToTen | app.py:58-63 | every rating from 1 to 10 falls in some band of the legend |
| Display.LeadingZeroIgnored | app.py:1105 | `ParseDecimal`, like `parseInt`, ignores a leading zero |
| Display.BannerFromLeftmostRating | app.py:1097-1128 | in `DisplayAllergyAnalysis`, no banner exactly when the rating pattern matches nowhere; otherwise the value is `ParseDecimal` of the leftmost match's digits, with its ladder step, that step's text and its box colour |
| Display.BannerDigits | app.py:1097-1105 | the rating shown is the value of the whole digit run after the leftmost `SAFETY RATING:` and its white space |
| Display.StepsAreDistinct | app.py:1108-1128 | two different ladder steps show different texts and different box colours |
| Display.AlertFromLeftmostConclusion | app.py:1099-1173 | in `DisplayAllergyAnalysis`, no alert exactly when the conclusion pattern matches nowhere; otherwise the status is the upper-cased keyword and the explanation the second group of the leftmost match |
| Display.AlertVocabulary | app.py:1099-1169 | the alert's status is SAFE, UNSAFE or CAUTION; green exactly for SAFE, red exactly for UNSAFE, yellow exactly for CAUTION |
| Display.AlertStatusIsKeyword | app.py:1099-1169 | the alert's status is one of the pattern's keywords, coloured by the conclusion map |
| Display.DecisionKeyword | app.py:1099-1166 | the upper-cased conclusion word is one of the pattern's keywords |
| Display.DecisionLineIff | app.py:1099 | a `CONCLUSION:` match with groups w and x exists exactly when the line is laid out as the pattern says |
| Display.DecisionMatchUpper | app.py:1099-1166 | a conclusion match has two groups and its upper-cased word is one of the keywords |
| Display.KeywordReadUpper | app.py:1166 | the text a keyword matched, upper-cased, is that keyword |
| Display.JsUpperOfKeyword | app.py:1166 | upper-casing an ASCII case-variant of a keyword gives the keyword |
| Display.ColorFollowsKeyword | app.py:1168-1169 | `ConclusionColor` gives each of the three keywords its own colour, and each colour belongs to exactly one keyword |
| Allergies.AllergyAnalysis | app.py:138-140 | no analysis exactly when the user named no allergies; otherwise the analysis is `CheckAllergies` of the ingredients |
| Allergies.UploadAllergyAnalysis | app.py:1327-1335 | the upload route asks about the raw field, `''` when missing, only when allergies were named and the text is not empty |
| Allergies.RoutesDifferOnMissingIngredients | app.py:1331-1334 | for a product without ingredients the scan route reports the fixed message and the upload route gives no analysis |
| Allergies.UploadSkipsCleanUp | app.py:1331-1334 | the upload route asks about `en:milk` as it is, the scan route about `milk` |
| Allergies.GuardSkipsModel | app.py:48-49 | `CheckAllergies` gives missing ingredients the fixed message, whatever the model would answer |
| Allergies.ModelAnswerPassedOn | app.py:89-93 | otherwise `CheckAllergies` returns the model's answer as given, and a failure becomes the apology |
| Allergies.UnavailableIgnoresCase | app.py:48 | the guard does not depend on letter case |
| Allergies.AnyCaseIsUnavailable | app.py:48 | "not available" in any mix of cases is caught |
| Allergies.FallbackIsUnavailable | app.py:134 | a product without an ingredients field never reaches the model |
| Allergies.EmptyFieldIsUnavailable | app.py:48 | neither does an empty ingredients field |

## Left out

- Flask routing, request parsing, JSON responses and HTTP status codes are not modelled.
  Only the decisions listed above are.
- The Open Food Facts lookups, the image download and the language-model call are network
  I/O. The model call is the `generate` parameter of `Allergies.CheckAllergies`, and its
  prompt text is not modelled beyond the rating legend.
- HEIC conversion (`pillow_heif`), `Image.open`, and the pixel transforms (grey
  conversion, 2.0× contrast, adaptive threshold) are foreign libraries. Images are opaque
  terms, and a failed open or conversion is not modelled.
- The barcode decoder and the OCR engine are injected: the decoder as a function, the OCR
  result as the raw text.
- Decoding.DecodeVariants: the payload is taken as text. The UTF-8 decoding of its bytes,
  and the failure when they are not UTF-8, are not modelled.
- Allergies.CheckAllergies: ingredients are always text. A JSON `null` ingredients field
  (Python `None`) is not modelled.
- Allergies.UploadAllergyAnalysis: the image-upload route (app.py:1327-1335) is modelled
  only up to the allergy check. Its product lookup and PDF are left out, as for the other
  routes.
- Variants.BuildVariants: the pixel transforms are assumed never to raise. Pillow's
  contrast enhancement blends images, and blending rejects palette (`P`) and bilevel (`1`)
  images. A GIF opens as `P` and passes the upload gate, so app.py:1263 can raise there.
  The route then answers with a server error and decodes nothing. The model instead lets
  every colour mode reach the decoder with two to four variants.
- Display.DisplayAllergyAnalysis: the page assigns `statusColor` on each step of the ladder
  (app.py:1106-1128), but nothing on the page reads it, so it is not modelled.
- PDF layout (FPDF), the nutrition table and its number formatting are report rendering.
- Display.DisplayAllergyAnalysis:
  - `parseInt` is exact on any number of digits, while JavaScript's number loses precision
    beyond 2^53.
  - The HTML built around the banner and the alert, and the replacement of line breaks by
    `<br>`, are DOM output.
  - The `SAFETY STATUS:` match the page computes (app.py:1098) is never used, so it is not
    modelled.
- PyStr.Replace: only non-empty patterns are modelled. The application never replaces an
  empty string.
- PyStr.Lower: lower-cases ASCII letters only. For the two comparisons it serves, the
  extension set and "not available", no other character's `lower()` can produce a match.
- Temporary files, the camera scanner, and the page's other scripts are file system and UI
  code.

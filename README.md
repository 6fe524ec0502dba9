# Hikari-OCR core, modelled in Dafny

Hikari-OCR reads Japanese electricity invoices (PDF) through a cloud
document-recognition service and turns them into monthly usage readings in
kWh. This project models its core and proves properties of the model:

- **Recognition with fallback** (`recognition.dfy`, `ocr_service.dfy`): the
  service's models are tried in order on the uploaded document. If none gives
  more than 50 characters of stripped text, the document is preprocessed and
  the models are tried again. The recognition service and the image
  preprocessing step are abstract functions (`Oracle`, `Enhancer`). The
  class `OcrService` records every call it makes to them, in order.
- **Single-month and multi-month analysis** (`ocr_service.dfy`,
  `multi_month.dfy`, `months.dfy`): the average word confidence, the
  page-by-page text cut out of the full content by each page's first span,
  the 12/24/36 page check, the grouping into twelve month groups, and the
  month labels stepped forward or backward around the calendar.
- **The kWh extractor** (`kwh_extractor.dfy`, `strings.dfy`): full-width
  folding, line splitting, the unit-marker line filter, the capture regex
  (leftmost match, greedy run), the cleaning chain, the 1000 threshold and
  the maximum.
- **The upload page's file-name helpers** (`main_page.dfy`): the month
  guessed from a PDF's file name (three stages: `N月`, a separated two-digit
  number, an English month name), and the Excel file name built from the
  company name.
- **The invoice record** (`invoice.dfy`): named fields and the raw text.

Methods (`OcrService.*`, `ExtractKwhFromText`, `ComputeAverageConfidence`,
`CollectPageTexts`, `AssignMonths`, `BuildExcelFilename`) follow the loops of
the source. Each is proved against a specification function. The properties
are proved about those functions.

## Model

| member | source | states |
|---|---|---|
| KwhExtractor.ExtractKwhFromText | app/services/ocr_service.py:409-514 | the extraction loop returns exactly `ExtractKwh(text)`: "" without candidates, else str() of the largest |
| KwhExtractor.ExtractKwh | app/services/ocr_service.py:409-514 | the extractor's result as a function of the text: fold widths, split lines, keep the marked ones, take their candidates, answer "" or str() of the largest; its meaning is stated by ExtractKwhEmptyIff, ExtractKwhIsLargestCandidate, ExtractKwhWidthInvariant and UsageLineExample |
| KwhExtractor.ExtractKwhEmptyIff | app/services/ocr_service.py:496-503 | the result is "" exactly when no marked line yields a value |
| KwhExtractor.ExtractKwhIsLargestCandidate | app/services/ocr_service.py:482-514 | a non-empty result is a canonical numeral of at least 4 digits, worth at least 1000; some marked line yields it and no marked line yields more |
| KwhExtractor.CandidatesMembers | app/services/ocr_service.py:445-494 | a value is in all_nums exactly when some marked line yields it |
| KwhExtractor.CandidatesAtLeastMin | app/services/ocr_service.py:485-490 | every collected value is at least 1000 |
| KwhExtractor.Candidate | app/services/ocr_service.py:456-494 | a line's value, when there is one, is at least 1000 |
| KwhExtractor.Contribution | app/services/ocr_service.py:490 | a line appends at most one value, and exactly its candidate value |
| KwhExtractor.SeqMax | app/services/ocr_service.py:506-507 | the value picked is in the list and no element exceeds it |
| KwhExtractor.ExtractKwhWidthInvariant | app/services/ocr_service.py:416-423 | writing full-width digits, commas, spaces or k/w/h in half width instead never changes the result |
| KwhExtractor.ExtractKwhOfNormalized | app/services/ocr_service.py:416-423 | translating the text first changes nothing |
| KwhExtractor.ExtractKwhOfOneLine | app/services/ocr_service.py:482-514 | a text whose only marked line yields v gives str(v) |
| KwhExtractor.CandidateOfRun | app/services/ocr_service.py:451-491 | a line whose captured run holds the digits of str(v), v at least 1000, yields v |
| KwhExtractor.UsageLineCapture | app/services/ocr_service.py:455 | on "ご使用量 2,915（kWh）" the pattern captures " 2,915" |
| KwhExtractor.KwhLinesOfPlainLine | app/services/ocr_service.py:416-441 | a marked line without line breaks and already in half width is the one marked line of its own text |
| KwhExtractor.UsageLineLines | app/services/ocr_service.py:416-441 | "ご使用量 2,915（kWh）" is the one marked line of its own text |
| KwhExtractor.UsageLineCandidate | app/services/ocr_service.py:455 | that line yields 2915 |
| KwhExtractor.UsageLineExample | app/services/ocr_service.py:455 | the extractor returns "2915" for that text, the result the source comment gives |
| KwhExtractor.FoldWidthIdempotent | app/services/ocr_service.py:416-423 | the translation table is idempotent |
| KwhExtractor.NormalizeNewlines | app/services/ocr_service.py:434 | no carriage return survives the two replacements |
| KwhExtractor.ReplaceCrLfConcat | app/services/ocr_service.py:434 | replacing "\r\n" works piece by piece on two texts unless the cut splits a "\r\n" |
| KwhExtractor.ReplaceCrConcat | app/services/ocr_service.py:434 | replacing "\r" works piece by piece on any two texts |
| KwhExtractor.NormalizeNewlinesConcat | app/services/ocr_service.py:434 | normalising works piece by piece unless the cut splits a "\r\n" |
| KwhExtractor.NormalizeNewlinesPieces | app/services/ocr_service.py:434 | "\r\n" and a lone "\r" each become one "\n"; any other character stays |
| KwhExtractor.NormalizeCrLfBetween | app/services/ocr_service.py:434 | a "\r\n" between two texts becomes one "\n" and the texts are normalised on their own |
| KwhExtractor.NormalizeCrBetween | app/services/ocr_service.py:434 | a "\r" not followed by "\n" between two texts becomes one "\n" |
| KwhExtractor.NormalizeNewlinesWithoutCr | app/services/ocr_service.py:434 | text without carriage returns is unchanged |
| KwhExtractor.ReplaceCr | app/services/ocr_service.py:434 | each '\r' becomes '\n', every other character stays in place |
| KwhExtractor.SplitLines | app/services/ocr_service.py:437 | at least one piece, and no piece holds a line feed |
| KwhExtractor.SplitLinesJoin | app/services/ocr_service.py:437 | joining the pieces with '\n' gives the text back |
| KwhExtractor.HasMarkerFrom | app/services/ocr_service.py:440-441 | the search finds the marker exactly when it occurs at some later position |
| KwhExtractor.MarkedLines | app/services/ocr_service.py:441 | every kept line is a marked line of the input, and every marked input line is kept |
| KwhExtractor.MarkedLinesOne | app/services/ocr_service.py:441 | one line is kept exactly when it is marked |
| KwhExtractor.MarkedLinesConcat | app/services/ocr_service.py:441 | the filter works part by part, so the kept lines stay in input order; with the previous row this fixes the result as the marked input lines in order |
| KwhExtractor.RunEnd | app/services/ocr_service.py:456 | the greedy run of digits, whitespace, commas and dots is maximal |
| KwhExtractor.GroupMatchExtends | app/services/ocr_service.py:456 | any match at a position extends to the end of the run (greediness) |
| KwhExtractor.NoGroupMatchAt | app/services/ocr_service.py:456 | a position the search passes over starts no match |
| KwhExtractor.FirstMatchIsLeftmost | app/services/ocr_service.py:456 | the search passes over no position where a match starts |
| KwhExtractor.Capture | app/services/ocr_service.py:456-462 | group 1 of `re.search` on a line, or none; its meaning is stated by CaptureIsLeftmostLongest and FirstMatchIsLeftmost |
| KwhExtractor.CaptureIsLeftmostLongest | app/services/ocr_service.py:456-462 | no capture exactly when the regex never matches; otherwise the capture is the group of the leftmost match, taken as long as possible |
| KwhExtractor.CleanCapture | app/services/ocr_service.py:462-474 | the cleaned capture holds only digits |
| KwhExtractor.CleanCaptureIsDigits | app/services/ocr_service.py:462-474 | the cleaning chain keeps exactly the digits of the run, in order |
| KwhExtractor.KeepDigitsAndCommas | app/services/ocr_service.py:471 | only digits and commas remain |
| KwhExtractor.KeepDigitsAndCommasKeepsDigits | app/services/ocr_service.py:471 | no digit is lost |
| KwhExtractor.CollapseKeepsDigits | app/services/ocr_service.py:468 | collapsing the spaces after commas loses no digit |
| KwhExtractor.RemoveCharKeepsDigits | app/services/ocr_service.py:465 | removing a non-digit character loses no digit |
| KwhExtractor.RemoveCommasLeavesDigits | app/services/ocr_service.py:474 | removing the commas from digits-and-commas leaves only digits |
| Strings.Strip | app/services/ocr_service.py:462 | str.strip(): the result neither starts nor ends with whitespace |
| Strings.StripLeftDropsSpaces | app/services/ocr_service.py:462 | the left strip keeps a suffix and drops only whitespace |
| Strings.StripRightDropsSpaces | app/services/ocr_service.py:462 | the right strip drops only whitespace at the end |
| Strings.StripIsMiddle | app/services/ocr_service.py:462 | the result is a middle part of the input with only whitespace before and after it; with the previous row this fixes it uniquely |
| Strings.StripKeepsDigits | app/services/ocr_service.py:462 | stripping never removes a digit |
| Strings.SkipSpacesFromInside | app/services/ocr_service.py:456 | a greedy `\s*` started inside a whitespace run ends where it would have from the start |
| Strings.DecimalOfNatToString | app/services/ocr_service.py:482-514 | int(str(n)) == n |
| Strings.NatToStringOfDecimal | app/services/ocr_service.py:482-514 | str(int(s)) == s for a canonical numeral |
| Strings.NatToStringInjective | app/services/ocr_service.py:514 | different values give different numerals |
| Strings.NatToStringLength | app/services/ocr_service.py:485-486 | a numeral has at least four digits exactly when its value is at least 1000 |
| Strings.IntToStringMeaning | app/services/ocr_service.py:390 | str() of an int reads back as that int: a canonical numeral, with a minus sign and the magnitude's numeral for a negative |
| Months.NextMonth | app/services/ocr_service.py:516-518 | on the calendar the result is on the calendar and is month % 12 + 1; off 12 it is month + 1 |
| Months.PrevMonth | app/services/ocr_service.py:520-522 | on the calendar the result is on the calendar and its next month is the input; off 1 it is month - 1 |
| Months.NextPrevInverse | app/services/ocr_service.py:516-522 | the two steps undo each other on the calendar |
| Months.StepMonth | app/services/ocr_service.py:379-396 | from a start month on the calendar every label is on the calendar |
| Months.StepMonthClosedForm | app/services/ocr_service.py:379-396 | i steps move the start i places around the twelve-month circle |
| Months.TwelveStepsIdentity | app/services/ocr_service.py:381-396 | twelve steps in either direction return to the start month |
| Months.StepMonthsDistinct | app/services/ocr_service.py:381-396 | the twelve groups get twelve different months |
| MultiMonth.SliceIndex | app/services/ocr_service.py:361 | a slice index resolves into 0..len, unchanged when already in range |
| MultiMonth.PySlice | app/services/ocr_service.py:358-361 | Python slicing: in-range bounds give the usual slice; crossed bounds give "" |
| MultiMonth.CollectPageTexts | app/services/ocr_service.py:355-363 | one text per page, in page order: the content under its first span, "" without spans |
| MultiMonth.PagesPerMonth | app/services/ocr_service.py:374 | 1, 2 or 3 pages per month, twelve groups covering the document |
| MultiMonth.GroupSlice | app/services/ocr_service.py:382-384 | group i is the slice of pages from i*k to i*k+k, inside the document, joined by line feeds |
| MultiMonth.AssignMonths | app/services/ocr_service.py:374-396 | the labelling loop gives exactly the fields of the twelve groups' readings under their stepped months, with the confidence |
| MultiMonth.MonthKeyIsNotConfidenceKey | app/services/ocr_service.py:377-390 | a month key never overwrites the confidence |
| MultiMonth.MonthKeyInjective | app/services/ocr_service.py:390 | different months have different keys |
| MultiMonth.GroupKeysDistinct | app/services/ocr_service.py:379-396 | from a start month on the calendar, the twelve groups have distinct keys |
| MultiMonth.MonthFieldsKeys | app/services/ocr_service.py:375-396 | only the confidence key and the keys of groups seen so far are filed |
| MultiMonth.MonthFieldsConfidence | app/services/ocr_service.py:377 | the confidence is filed and never overwritten |
| MultiMonth.MonthFieldsGroup | app/services/ocr_service.py:387-390 | group i's key is filed exactly when its reading is non-empty, with that reading |
| MultiMonth.MonthFieldsMeaning | app/services/ocr_service.py:374-396 | the whole field map: the confidence, each group's non-empty reading under its month's key, and nothing else |
| MultiMonth.MultiInvoice | app/services/ocr_service.py:336-399 | the multi-month invoice built from a recognised result; its meaning is stated by MultiPageCount, MultiRawText, MonthFieldsKeys, MonthFieldsGroup, MonthFieldsConfidence and MonthFieldsMeaning |
| MultiMonth.MultiPageCount | app/services/ocr_service.py:365-372 | a document with text is refused exactly when its page count is not 12, 24 or 36, and the error reports the count |
| MultiMonth.MultiRawText | app/services/ocr_service.py:398-399 | an accepted document's raw text is its page texts joined by line feeds |
| Recognition.DiagnosticOf | app/services/ocr_service.py:212-225 | the diagnostic of a failed attempt names that attempt |
| Recognition.FirstAdequate | app/services/ocr_service.py:209-211 | the search stops at the first adequate response, and at the end without one |
| Recognition.RunRound | app/services/ocr_service.py:180-225 | one round over the models on one document, stopping at the first adequate response; its meaning is stated by RunRoundFirstAdequate and RoundMakesOnlyAnalyses |
| Recognition.Fallback | app/services/ocr_service.py:166-283 | the original round, then preprocessing and the second round only if the first failed; its meaning is stated by the FallbackSuccessIsAdequate, FallbackPreprocessPosition, FallbackPreprocessesOnlyAfterOriginalsFail, FallbackFailureDiagnostics and FallbackCallsEachAttemptOnce rows |
| Recognition.RunRoundFirstAdequate | app/services/ocr_service.py:180-225 | a round succeeds exactly when some model is adequate; it returns the first adequate model's result and stops calling there; otherwise it calls every model |
| Recognition.RoundMakesOnlyAnalyses | app/services/ocr_service.py:180-225 | a round only calls the recognition service, on its models in order |
| Recognition.FallbackSuccessIsAdequate | app/services/ocr_service.py:209-262 | every success has more than 50 characters of stripped text |
| Recognition.FallbackPreprocessPosition | app/services/ocr_service.py:227-229 | the only preprocessing call comes right after the original round, and only when it failed |
| Recognition.FallbackPreprocessesOnlyAfterOriginalsFail | app/services/ocr_service.py:227-229 | preprocessing runs exactly when no model is adequate on the original, and at most once |
| Recognition.FallbackFailureDiagnostics | app/services/ocr_service.py:177-283 | a total failure reports one diagnostic per model and document, originals first, after 2n+1 calls |
| Recognition.FallbackCallsEachAttemptOnce | app/services/ocr_service.py:180-276 | with distinct model ids no (model, document) attempt is made twice |
| Recognition.ModelsToTryFailure | app/services/ocr_service.py:35-37 | with the one configured model, a failure reports "prebuilt-invoice" on the original, then on the preprocessed document |
| Recognition.WordsCount | app/services/ocr_service.py:303-310 | a page never counts more words than it has |
| Recognition.WordsCountPositive | app/services/ocr_service.py:306-310 | a page counts words exactly when one of its words has a confidence |
| Recognition.ConfidenceCountPositive | app/services/ocr_service.py:303-312 | the word count is positive exactly when some word has a confidence |
| Recognition.AverageConfidence | app/services/ocr_service.py:303-312 | the total of the confidences over their number, 0 without any; its meaning is stated by AverageWithoutConfidenceIsZero and AverageConfidenceInUnitRange, and ComputeAverageConfidence ties the loop to it |
| Recognition.AverageWithoutConfidenceIsZero | app/services/ocr_service.py:312 | the zero guard: without any confidence the average is 0 |
| Recognition.WordsTotalBounds | app/services/ocr_service.py:306-310 | a page's total lies between 0 and its count when each confidence does |
| Recognition.ConfidenceTotalBounds | app/services/ocr_service.py:303-310 | the running total lies between 0 and the count when each confidence lies in [0, 1] |
| Recognition.AverageConfidenceInUnitRange | app/services/ocr_service.py:303-312 | confidences in [0, 1] average to a value in [0, 1] |
| Recognition.ComputeAverageConfidence | app/services/ocr_service.py:303-312 | the averaging loop computes the average over all words that have a confidence, 0 when none does |
| OcrServices.FirstAdequateCharacterized | app/services/ocr_service.py:209-211 | the first adequate index is the one where the loop returns |
| OcrServices.OcrService.constructor | app/services/ocr_service.py:39-58 | a new service with the given recognition and preprocessing, and no calls yet |
| OcrServices.OcrService.Recognize | app/services/ocr_service.py:196-197 | one recognition call: the service's response, recorded |
| OcrServices.OcrService.PreprocessPdf | app/services/ocr_service.py:63-142 | the enhanced document, or the input when enhancing fails; the call is recorded |
| OcrServices.OcrService.TryModels | app/services/ocr_service.py:180-225 | the model loop gives the round's success or its diagnostics appended, and makes the round's calls |
| OcrServices.OcrService.CallOcrWithFallback | app/services/ocr_service.py:166-283 | the result and the calls are exactly those of the fallback policy |
| OcrServices.OcrService.AnalyzeSingle | app/services/ocr_service.py:288-324 | the single-month outcome and calls: the recognition error, no text, or the confidence and the full text |
| OcrServices.OcrService.AnalyzeMulti | app/services/ocr_service.py:329-403 | the multi-month outcome and calls |
| OcrServices.OcrService.AnalyzeInvoice | app/services/ocr_service.py:147-161 | the dispatch's outcome and calls |
| OcrServices.MultiWithoutStartMonth | app/services/ocr_service.py:155-157 | "multi" without a start month is refused before any call |
| OcrServices.OtherModesAreSingle | app/services/ocr_service.py:160-161 | every mode other than "multi" is the single-month mode |
| OcrServices.SingleInvoice | app/services/ocr_service.py:294-320 | the single-month invoice built from a recognised result: no text is an error, otherwise the average confidence and the full text; SingleAfterRecognition states it for the dispatch |
| OcrServices.AnalyzeInvoiceSpec | app/services/ocr_service.py:147-161 | the dispatch on the mode; its meaning is stated by MultiWithoutStartMonth, OtherModesAreSingle, SingleAfterRecognition and MultiAfterRecognition |
| OcrServices.SingleAfterRecognition | app/services/ocr_service.py:294-320 | after a successful recognition the single mode succeeds with the full text and the average confidence as its only field |
| OcrServices.MultiAfterRecognition | app/services/ocr_service.py:336-372 | after a successful recognition the multi mode fails exactly on a wrong page count |
| MainPage.WideDigitValue | app/ui/main_page.py:36-37 | a half- or full-width digit is worth int() of the digit the translation table gives, so a full-width digit is worth its half-width counterpart |
| MainPage.HalfWidth | app/ui/main_page.py:37 | `translate` with the full-width digit table, character by character; its meaning is stated by HalfWidthDigitKeepsClasses, WideDigitValue and KanjiStageHalfWidth |
| MainPage.HalfWidthDigitKeepsClasses | app/ui/main_page.py:37 | the table keeps digits, whitespace and 月 in their classes and keeps a digit's value |
| MainPage.KanjiMonthAtHalfWidth | app/ui/main_page.py:32-37 | stage 1 matches at the same positions with the same value once the full-width digits are written in half width |
| MainPage.KanjiStageHalfWidth | app/ui/main_page.py:31-40 | stage 1's verdict is unchanged when full-width digits are written in half width |
| MainPage.KanjiMonthGroup | app/ui/main_page.py:32-34 | at any match position the captured group is exactly the greedy digit group |
| MainPage.FirstKanjiMonthIsLeftmost | app/ui/main_page.py:32 | the search passes over no position where the first pattern matches |
| MainPage.DetectMonthFromFilename | app/ui/main_page.py:17-69 | the three stages in order, each reading only its leftmost match; its meaning is stated by DetectMonthInRange, KanjiMonthIsLeftmostMatch, FirstSepMonth, NameStageIsLowestAbbreviation and the example rows |
| MainPage.KanjiMonthIsLeftmostMatch | app/ui/main_page.py:32-34 | no match exactly when the first pattern never matches; otherwise stage 1 reads the leftmost match |
| MainPage.FirstSepMonth | app/ui/main_page.py:42 | leftmost: the search stops at the first position where the second pattern matches, and no earlier position matches |
| MainPage.FirstNamedMonthInRange | app/ui/main_page.py:49-67 | a month from the name table is from 1 to 12 |
| MainPage.DetectMonthInRange | app/ui/main_page.py:17-69 | the detector returns None or a month from 1 to 12 |
| MainPage.NameStageIsLowestAbbreviation | app/ui/main_page.py:48-69 | stage 3 finds the lowest month whose abbreviation is in the lower-cased name; None exactly when no abbreviation occurs |
| MainPage.FullNameExtendsAbbreviation | app/ui/main_page.py:49-62 | each full name starts with its month's abbreviation |
| MainPage.MonthNamesByMonth | app/ui/main_page.py:49-62 | the name table lists each month's abbreviation before its full name, months in order |
| MainPage.KanjiExample | app/ui/main_page.py:22 | "2025年1月_電気料金.pdf" gives 1 |
| MainPage.SeparatorExample | app/ui/main_page.py:24 | "電気_2025_01.pdf" gives 1 |
| MainPage.NameExample | app/ui/main_page.py:25 | "invoice_jan.pdf" gives 1 |
| MainPage.DateExample | app/ui/main_page.py:26 | "2025-01-15.pdf" gives 1 |
| MainPage.WideKanjiExample | app/ui/main_page.py:31-37 | "２０２５年１２月.pdf" gives 12: full-width digits before 月 are read after translation |
| MainPage.LeadingDigitsAsWritten | app/ui/main_page.py:21-46 | "01_請求書.pdf", documented as 1, gives None as written |
| MainPage.LeadingDigitsCorrected | app/ui/main_page.py:23 | the corrected detector reads "01_請求書.pdf" as 1 |
| MainPage.DetectMonthCorrectedAgrees | app/ui/main_page.py:41-46 | the correction changes nothing unless the name starts with two digits and a separator |
| MainPage.DetectMonthCorrectedInRange | app/ui/main_page.py:17-69 | the corrected detector still returns None or a month from 1 to 12 |
| MainPage.CorrectedKeepsKanjiExample | app/ui/main_page.py:22 | the corrected detector keeps "2025年1月_電気料金.pdf" → 1 |
| MainPage.CorrectedKeepsSeparatorExample | app/ui/main_page.py:24 | the corrected detector keeps "電気_2025_01.pdf" → 1 |
| MainPage.CorrectedKeepsNameExample | app/ui/main_page.py:25 | the corrected detector keeps "invoice_jan.pdf" → 1 |
| MainPage.CorrectedKeepsDateExample | app/ui/main_page.py:26 | the corrected detector keeps "2025-01-15.pdf" → 1 |
| MainPage.BuildExcelFilename | app/ui/main_page.py:88-99 | the loop over the refused characters gives exactly `ExcelFilename(corpName)` |
| MainPage.Without | app/ui/main_page.py:94-95 | no dropped character remains, and the result is no longer than the input |
| MainPage.WithoutKeepsOthers | app/ui/main_page.py:94-95 | every other character keeps its number of occurrences |
| MainPage.WithoutThenRemove | app/ui/main_page.py:94-95 | one more replace drops one more character |
| MainPage.WithoutConcat | app/ui/main_page.py:94-95 | dropping characters works piece by piece, so the kept characters stay in order |
| MainPage.WithoutEmpty | app/ui/main_page.py:96-97 | nothing remains exactly when every character is refused |
| MainPage.ExcelFilename | app/ui/main_page.py:88-99 | the download name built from the company name; its meaning is stated by ExcelFilenameIsSafe, ExcelFilenameDefault and ExcelFilenameOfCleanName |
| MainPage.ExcelFilenameIsSafe | app/ui/main_page.py:88-99 | the name always ends in ".xlsx" and holds no refused character |
| MainPage.ExcelFilenameDefault | app/ui/main_page.py:89-97 | an empty name, or one made only of refused characters, gives "output.xlsx" |
| MainPage.ExcelFilenameOfCleanName | app/ui/main_page.py:89-99 | a clean stripped name is used as it is, with ".xlsx" |

## Left out

- Logging, the debug `findall` of the marker context and the count of Japanese characters: they only write to the log.
- The recognition client, its credentials and endpoint, and the environment check in the constructor: the service is the abstract `Oracle`.
- The locale and language arguments of a recognition call: they affect only what the service returns, which the `Oracle` abstracts.
- The image pipeline inside the preprocessing step (rendering, greyscale, contrast, sharpening, filtering, re-encoding): it is the abstract `Enhancer`. The model keeps its contract: the enhanced bytes, or the input on any failure.
- The text of the aggregated error message of a total failure: the model keeps the structured diagnostics in order.
- The truthiness of the `result` object: the model assumes a call that returns gives a result object.
- Recognition.AverageConfidence: it uses exact real arithmetic, not floating point.
- KwhExtractor.Candidate: `\d` is ASCII-only in the model. Python's `\d` and `int()` also accept other Unicode decimal digits.
- KwhExtractor.IntMaxStrDigits: the limit of 4300 digits for `int()` is CPython's default in 3.11 and later and in the security releases 3.7.14, 3.8.14, 3.9.14 and 3.10.7; older interpreters have no limit. A line over that limit is skipped, as the `except` clause does.
- MultiMonth.MonthFieldsMeaning: the start month is not validated by the source. The key-level lemmas assume a start month from 1 to 12.
- The extractor examples "207,624kWh", "284,077 k Wh" and "2,915 (kWh)" in the source comments (app/services/ocr_service.py:452-454), and the cleaning examples "284 077" and "14, 662" (:464, :467), are not proved one by one. The example with full-width brackets (:455) is. The extractor's properties are stated for all inputs, and CleanCaptureIsDigits covers the cleaning examples.
- The user interface (page layout, session state, the download button), the estimate page, the app entry point and the estimate prototype: they are not part of this model.
- The PDF text service is not part of this model, because the analysis never calls it: the analysis has no fallback to the PDF's embedded text layer, and the model follows the code.

## Findings

| source | as written | input that shows it | evidently intended | confidence | as-written member | corrected member |
|---|---|---|---|---|---|---|
| app/ui/main_page.py:21-46 | stage 2 needs `_` or `-` before the two digits, and stage 3 finds no month name | "01_請求書.pdf" gives None | the documented example gives 1, with the start of the name accepted as the left separator | not executed | MainPage.LeadingDigitsAsWritten | MainPage.LeadingDigitsCorrected |

# Telegram channel relay with an OCR side-service, in Dafny

This project models the decision logic of a small Telegram relay and of the
OCR web service beside it, and proves properties of that logic.

- **The OCR relay** (`node/telegramClient.js`) listens to one channel. A photo
  post is downloaded, checked, cropped (`cropFromTop`), preprocessed
  (`preprocessImage`) and run through Tesseract. The recognised text is then
  cleaned. A non-empty text is only logged. An empty text makes the relay send
  a "text not recognised" notice, with the processed image, to the account's
  own chat. Any stage that throws ends the photo branch silently. A post that
  is not a photo is forwarded when it has media. Otherwise it is relayed as a
  "new post" notice.
- **The earlier relay** (`telegramClient.js`) forwards every post with media.
  It relays every other post as a "new post" notice. It also downloads photos,
  and a failed download is only logged.
- **The OCR service** (`python/test_ocr.py`, and its verbatim copy
  `python/WK.py`, whose line N is line N+280 of `python/test_ocr.py`) serves
  `POST /ocr`. It checks the upload and derives a safe file name from it
  (`_safe_stem`). It saves the image as PNG, runs PaddleOCR, filters and
  reshapes the result (`parse_predict_result`) and, for
  `focus == "highlight"`, picks the lines over the marked part of the image.

Modules, one per concern:

| module | file | models |
|---|---|---|
| `Common` | common.dfy | `Option`, `Result`, the decimal rendering of a timestamp, `join`, keeping the present entries of a list |
| `TextCleaner` | text_cleaner.dfy | the OCR text cleaner (three chained `replace`/`trim` calls) |
| `ImageStage` | image_stage.dfy | `cropFromTop`'s checks and rectangle, `preprocessImage`'s choice of encoding |
| `Telegram` | telegram.dfy | posts, channels, the outbound client calls and the two notice texts |
| `Relay` | relay.dfy | the OCR relay's event handler |
| `LegacyRelay` | legacy_relay.dfy | the earlier relay's event handler |
| `SafeStem` | safe_stem.dfy | `_safe_stem` |
| `PredictParser` | predict_parser.dfy | `parse_predict_result` |
| `OcrService` | ocr_service.dfy | the `/ocr` endpoint and its highlight filter |

Pure code is modelled as functions. The code that works step by step is
modelled as methods proved against specification functions:

- the relay's handler;
- `preprocessImage`'s `tmp_mime`;
- the loops of `parse_predict_result`;
- the highlight filter;
- the endpoint.

Library and I/O results are parameters. Each handler takes a record (`PhotoEnv`,
`OcrEnv`) holding what each external call returns for this request. Such calls
are the download, MIME sniffing, decoding, the alpha channel, Tesseract, file
writes, the clock, PaddleOCR, the mask and its geometry.

Where a reader might expect behaviour that the code does not have, the model
follows the code:

- Recognised photo text is only logged, never relayed.
- The crop height is `height - 950` whatever the top margin.
- The cleaner keeps digits, `_` and `!`.
- A failed OCR call sends nothing.
- The relays retry nothing. The OCR service retries `OCR.predict` once, on the decoded image, when the call on the saved file raises.

## Model

| member | source | states |
|---|---|---|
| Common.DecimalRoundTrip | node/telegramClient.js:146 | the timestamp rendered into a file name reads back as the same number |
| Common.DecimalOfDigits | python/test_ocr.py:449-450 | digits with no leading zero are the rendering of their value, so the value fixes them |
| TextCleaner.StripDisallowed | node/telegramClient.js:165 | the first replace leaves only kept characters and never lengthens the text; a single character is kept exactly when it is in the class, and deleted otherwise |
| TextCleaner.StripAppend | node/telegramClient.js:165 | the replace works character by character: on `a + b` it gives the result on `a` followed by the result on `b` |
| TextCleaner.DisallowedDeleted | node/telegramClient.js:165 | a disallowed character is deleted, not replaced: `a@b` becomes `ab` |
| TextCleaner.Collapse | node/telegramClient.js:166 | collapsing never lengthens the text, is empty exactly for an empty text, and starts with the text's first character, or a plain space where that is white space |
| TextCleaner.Trim | node/telegramClient.js:167 | trimming gives the slice of the text with only white space before and after it, none at its own ends, and every non-space character kept in order |
| TextCleaner.Clean | node/telegramClient.js:163-167 | the cleaned text is the words left by the first replace, each a maximal run of non-space characters, joined by single plain spaces |
| TextCleaner.CleanJoinsWords | node/telegramClient.js:166-167 | collapsing then trimming any text joins its words with single plain spaces |
| TextCleaner.CollapseSingleSpaced | node/telegramClient.js:166 | collapsing never leaves two white-space characters in a row |
| TextCleaner.CleanIsClean | node/telegramClient.js:164-167 | the cleaned text holds only word characters, `. , ? ! —`, U+0400–U+04FF and the plain space, has no space at either end and never two spaces in a row |
| TextCleaner.CleanKeepsGlyphs | node/telegramClient.js:164-167 | the non-space characters of the cleaned text are exactly the kept non-space characters of the raw text, in order |
| TextCleaner.CleanEmptyIff | node/telegramClient.js:163-170 | the cleaned text is empty exactly when the raw text has no kept non-space character |
| TextCleaner.CleanIdempotent | node/telegramClient.js:164-167 | cleaning a cleaned text changes nothing |
| TextCleaner.CleanKeepsClean | node/telegramClient.js:164-167 | a text already of the cleaned shape is its own cleaning |
| TextCleaner.StripKeepsKept | node/telegramClient.js:165 | the first replace removes nothing from a text of kept characters |
| TextCleaner.CollapseKeepsSingleSpaced | node/telegramClient.js:166 | collapsing white space leaves a text with only single plain spaces unchanged |
| TextCleaner.CollapseGlyphs | node/telegramClient.js:166 | collapsing white space keeps every non-space character, in order |
| TextCleaner.StripGlyphs | node/telegramClient.js:165 | the first replace keeps exactly the kept non-space characters, in order |
| TextCleaner.DigitsAndBangSurvive | node/telegramClient.js:165 | digits and `!` are kept: `inv0ic3!!` is cleaned to itself |
| ImageStage.CheckImage | node/telegramClient.js:19-29 | a non-Buffer input fails first, then a sniffed type not starting with `image/`, then a failed decode; otherwise the decoded bitmap |
| ImageStage.CropFromTop | node/telegramClient.js:17-61 | the errors in source order (the buffer checks, then a non-number or negative top margin, then `NotTallEnough` exactly when `height <= 950`); the rectangle at x 0, y `min(top, height-1)`, width `width - min(right, width-1)` and height `height - 950` |
| ImageStage.CropRowInImage | node/telegramClient.js:37-40 | the top row of a successful crop lies in `[0, height-1]` |
| ImageStage.CropWidthInImage | node/telegramClient.js:38-39 | with a non-negative right margin the crop width lies in `[1, width]` |
| ImageStage.CropHeightIgnoresMargins | node/telegramClient.js:41-45 | the crop height, and whether `NotTallEnough` is thrown, depend on neither margin |
| ImageStage.CropFitsForSmallTopMargin | node/telegramClient.js:37-53 | for a top margin of at most 950 and a non-negative right margin the rectangle lies inside the image |
| ImageStage.CropOverrunsWithLargeTopMargin | node/telegramClient.js:37-53 | for a larger top margin it may not: a 1000-row image cropped at 999 reaches row 1048 |
| ImageStage.Preprocess | node/telegramClient.js:63-95 | the same errors as the crop's checks, then a failed `getBuffer`; otherwise PNG exactly when the image has an alpha channel, JPEG exactly when it has none, the size unchanged |
| Telegram.NewPostNotice | node/telegramClient.js:192-194 | the new-post notice is the header naming the channel followed by the post's text, which reads back as the suffix after the header |
| Telegram.UnrecognisedNotice | node/telegramClient.js:174-176 | the "text not recognised" notice is its fixed head, the channel's title, which reads back from its slice, and its fixed tail |
| Telegram.UnrecognisedNoticeInjective | node/telegramClient.js:174-176 | two different channel titles give two different "not recognised" notices |
| Telegram.NewPostNoticeInjective | node/telegramClient.js:192-194 | two different post texts give two different notices |
| Telegram.NoticesDistinct | node/telegramClient.js:174-194 | a "text not recognised" notice never equals a new-post notice |
| Relay.ProcessedPath | node/telegramClient.js:146 | the processed file is `./downloads/processed_<digits>.jpg`: at least one digit, no leading zero, reading back as the clock reading |
| Relay.ProcessedPathDetermined | node/telegramClient.js:146 | that shape fixes the path: any text with the prefix, such digits of the clock and `.jpg` is the processed path |
| Relay.HandleEvent | node/telegramClient.js:114-195 | a photo sends at most the "not recognised" notice with the processed file, exactly when every stage succeeds (including Jimp's reads and `getBuffer` calls) and the cleaned text is empty; a download under 100 bytes sends nothing; other media is forwarded to "me" once; a post without media is relayed as one new-post notice |
| Relay.HandlePhoto | node/telegramClient.js:119-179 | the photo branch sends at most the "not recognised" notice, exactly when every stage succeeds and the cleaned text is empty, and nothing for a download under 100 bytes |
| Relay.RecognisePhoto | node/telegramClient.js:119-161 | the stages from the download to Tesseract yield the OCR text exactly when every one of them succeeds |
| Relay.RecognisedTextOnlyLogged | node/telegramClient.js:163-178 | OCR text with a kept non-space character never yields the notice: its cleaning is non-empty |
| LegacyRelay.HandlePost | telegramClient.js:105-136 | downloads exactly photos, and saves one exactly when it is a photo whose download succeeds; sends exactly one call, a forward of the post to "me" exactly when it has media, otherwise the new-post notice |
| LegacyRelay.DownloadFailureHarmless | telegramClient.js:111-120 | whether a photo's download fails decides whether the photo is saved but changes nothing that is sent: the post is forwarded to "me" either way |
| SafeStem.SafeStemOf | python/test_ocr.py:306-309 | the stem is non-empty, made of `A-Za-z0-9._-` only, and "upload" for an empty name |
| SafeStem.Basename | python/test_ocr.py:307 | the base name is the suffix of the path after its last `/`: it holds no `/`, and the character before it is a `/` |
| SafeStem.Stem | python/test_ocr.py:308 | the stem is a prefix of the base; it is shorter only when the base's last `.` is neither its first nor its last character, and then it stops right before that `.`; `.` gives the empty stem |
| SafeStem.Sanitize | python/test_ocr.py:309 | the sanitised text holds only safe characters, is no longer than its input, and is empty exactly when its input is |
| SafeStem.SanitizeKeepsSafe | python/test_ocr.py:309 | a text of safe characters is left unchanged |
| SafeStem.SanitizeIdempotent | python/WK.py:29 | sanitising twice is sanitising once |
| SafeStem.SanitizeKeepsMarks | python/WK.py:29 | every safe character other than `_` survives sanitising, in order, and nothing else is added but `_` |
| SafeStem.UnsafeRunIsOneUnderscore | python/WK.py:29 | a run of unsafe characters of any length at the start of a text becomes a single `_` |
| SafeStem.SanitizeAppend | python/test_ocr.py:309 | after a safe character, the rest of a text is sanitised on its own: `Sanitize(a + t) == Sanitize(a) + Sanitize(t)` |
| SafeStem.UnsafeRunAnywhere | python/test_ocr.py:309 | a run of unsafe characters between safe ones, anywhere in the text, becomes a single `_` |
| SafeStem.DirectoryDropped | python/WK.py:27 | the directory part of the name is ignored |
| SafeStem.LastExtensionDropped | python/WK.py:28-29 | only the last extension is dropped: `a.b.c` gives the sanitised `a.b` |
| SafeStem.UnsafeStemBecomesUnderscore | python/WK.py:26-29 | a name whose stem has no safe character, such as `???.png`, gives `_`, not "upload" |
| SafeStem.FallbackIsSafe | python/test_ocr.py:307-309 | a missing name and the name "upload" give the same stem, "upload" |
| PredictParser.ResolveFields | python/test_ocr.py:369-397 | each `rec_*` field is used when non-empty, else the older name; boxes fall back from `rec_polys` to `dt_polys` to `boxes` |
| PredictParser.PyStrip | python/test_ocr.py:424 | `str.strip()` gives the slice of the text with only white space before and after it, and none at either of its own ends; a stripped text is unchanged |
| PredictParser.NormalizeBox | python/test_ocr.py:409-412 | a flat list of eight numbers becomes four points whose coordinates read back as the list; any other box is unchanged |
| PredictParser.NormalizeBoxIdempotent | python/test_ocr.py:409-412 | normalising a normalised box changes nothing |
| PredictParser.NormalizeBoxes | python/test_ocr.py:406-413 | one box out per box in, each normalised as above |
| PredictParser.FilterLines | python/test_ocr.py:415-430 | the loop yields exactly the kept entries' lines, in order, and their texts |
| PredictParser.ParsePredictResult | python/test_ocr.py:359-432 | `([], "")` for a falsy prediction or one without texts; otherwise the kept lines and their texts joined by single spaces |
| PredictParser.JoinOfStrippedIsStripped | python/test_ocr.py:432 | joining non-empty stripped texts with spaces gives a stripped text, so the final strip changes nothing |
| PredictParser.KeptLinesExact | python/WK.py:136-150 | the k-th line comes from the k-th kept entry, kept entries keep input order, there are at most `len(texts)`, and an entry is kept exactly when its stripped text is non-empty and its score is absent or reaches the threshold |
| PredictParser.KeptLineShape | python/WK.py:144-149 | a kept line's text is the strip of its raw text (`""` for None), non-empty and stripped; its `conf` is its score, which reaches the threshold, or 1.0 without one; its box is the normalised box at its index, or None past the end of the boxes |
| PredictParser.KeptTextsStripped | python/test_ocr.py:424-427 | every kept text is non-empty and stripped |
| PredictParser.ParsedTextsStripped | python/test_ocr.py:424-429 | every parsed line's text is non-empty and stripped |
| PredictParser.NothingToParse | python/WK.py:86-120 | a falsy prediction, or one with no texts, parses to no lines |
| PredictParser.HigherThresholdKeepsFewer | python/test_ocr.py:425-427 | raising `score_thresh` never adds a line: there are no more lines, and each line kept at the higher threshold is kept at the lower one |
| OcrService.SavedFilename | python/test_ocr.py:447-450 | the saved name is the safe stem of the name (or of "upload"), `_`, digits with no leading zero that read back as the clock in milliseconds, and `.png`, all of safe characters |
| OcrService.SavedNameDetermined | python/test_ocr.py:450 | that shape fixes the name: any text of the stem, `_`, such digits of the clock and `.png` is `<stem>_<ts>.png` |
| OcrService.SavedNameShape | python/test_ocr.py:450 | `<stem>_<digits of n>.png` starts with `<stem>_`, ends with `.png`, holds between them digits with no leading zero reading back as `n`, and is safe when the stem is |
| OcrService.SavedNameSafe | python/test_ocr.py:450 | `<stem>_<digits>.png` is made of safe characters when its parts are |
| OcrService.DecodedSize | python/test_ocr.py:453-464 | OpenCV's size when it decodes, else Pillow's; none exactly when both fail |
| OcrService.Annotate | python/test_ocr.py:493-496 | a line on the mask gets its overlap recorded; nothing else about any line changes |
| OcrService.FilterByOverlap | python/test_ocr.py:489-497 | the loop fails exactly when `iou_with_mask` raises on some boxed line; otherwise it annotates the lines in place and collects, in order, those with a box overlapping the mask by at least 0.28 |
| OcrService.NearestIn | python/test_ocr.py:498-507 | the first boxed line nearest the mask's centre, or none exactly when no line has a box |
| OcrService.FirstNearestUnique | python/test_ocr.py:503-506 | the first nearest line is unique, as a stable sort's head is |
| OcrService.NearestToMask | python/WK.py:218-227 | the loop finds the first boxed line nearest the mask's centre, or none exactly when no line has a box |
| OcrService.Highlighted | python/test_ocr.py:498-508 | the highlighted lines are annotated lines with boxes, no more of them than lines |
| OcrService.OverMaskWithin | python/test_ocr.py:489-497 | the lines on the mask are annotated lines with boxes, no more of them than lines |
| OcrService.HighlightLines | python/test_ocr.py:485-508 | fails exactly when `iou_with_mask` raises; otherwise the annotated lines, and the text of the lines on the mask or, when there are none and the mask is not empty, of the nearest boxed line |
| OcrService.HandleOcr | python/test_ocr.py:438-527 | a non-`image/*` type gives 400, then an empty body 400, both whatever decoding would do; then an undecodable image 400, a failed PNG encoding 500, a failed save 500, a prediction whose retry raises too 500, an `iou_with_mask` that raises on a highlighted request 500; otherwise the saved name, the size, the parsed text, and highlighted text `""` and `mask_present` false unless `focus == "highlight"` and there are lines |
| OcrService.AnnotationOnlyAddsOverlap | python/test_ocr.py:493-496 | annotation keeps every line's box, text and confidence, and records an overlap, at least 0.28, exactly on the lines on the mask |
| OcrService.OverMaskExact | python/WK.py:210-217 | the filtered lines are the annotated lines on the mask, in input order, and a line is filtered exactly when it lies on the mask |
| OcrService.OverMaskOnMask | python/test_ocr.py:491-497 | every filtered line has a box overlapping the mask by at least 0.28, and that overlap recorded |
| OcrService.FallbackSeesUnannotated | python/test_ocr.py:498-507 | the nearest-line fallback only runs when no line was annotated |
| OcrService.FallbackPicksNearest | python/test_ocr.py:498-507 | the fallback highlights at most one line, one exactly when some line has a box, and that line is the first nearest |
| OcrService.HighlightedStripped | python/test_ocr.py:508 | the highlighted texts are non-empty and stripped, so the highlighted text is their plain join |

## Left out

- Telegram I/O: connecting, logging in, `getEntity` and `addEventHandler` are not modelled. The client calls the handlers make are values of `Action`.
- Jimp, Tesseract, file-type, OpenCV, Pillow and PaddleOCR: what they return is a parameter. The greyscale, brightness and colour filters are taken to keep the image's size.
- Floating-point geometry: `mask_highlight`, `iou_with_mask` and the distance to the mask's centre are parameters. The mask enters only as whether any pixel is set.
- Floating-point scores are modelled as reals. NaN is not modelled.
- Files, the clock and serving: writing files, `mkdir`, `Date.now`, `time.time`, FastAPI and uvicorn are not modelled. The clock reading is a parameter.
- `size_bytes` of the `/ocr` payload is not modelled, because it comes from the file system. Its `status` field is the constant `"ok"` (python/test_ocr.py:511) and is left out of `OcrPayload`.
- The exception text inside the 400 and 500 `detail` messages is not modelled. An error carries its status and reason only.
- `_to_py` is not modelled. Neither is decoding bytes texts as UTF-8 (python/test_ocr.py:419-423): texts are strings or None.
- PredictParser.ResolveFields: the three ways a field is looked up are not told apart. They are an attribute, `to_dict()` and a dict key. Each field is its first non-empty value, as the `or` chains give it.
- PredictParser.NormalizeBox: a flat box is taken to hold numbers. A list of eight non-numbers is the `OtherShape` case.
- The retry of `OCR.predict` on the image array after the call on the path raises is folded into one outcome: the prediction is a parameter, absent when both calls raise.
- The distance to the mask's centre is taken never to raise. `iou_with_mask` may raise, which the model keeps.
- ImageStage.CropFromTop: margins are integers. A right margin that is not a number is not modelled. A top margin that is not a number is the `NotANumber` case.
- Relay.HandleEvent: the logging and the saving of the original photo are folded into `PhotoEnv`. Jimp's own checks in `crop` are not modelled. Whether `Jimp.read` and `getBuffer` throw is a flag of `PhotoEnv` each.
- OcrService.FilterByOverlap: the in-place update of the line dicts is modelled by returning the annotated list. The returned `boxes` are that list.
- SafeStem.Stem: the extension follows pathlib up to Python 3.13, where a final "." never starts an extension. Python 3.14 treats it as one, so there `a.` has the stem `a`; that version is not modelled.
- Concurrency between events and requests is not modelled.
- `index.js`, a separate echo bot, is not part of this model. Neither is the commented-out code.

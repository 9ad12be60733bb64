/**
  The `/ocr` endpoint of the OCR service (python/test_ocr.py:438-527, the same
  code as python/WK.py:158-247): it checks the upload, saves it as a PNG under
  `downloads/`, runs PaddleOCR on it and answers with the parsed lines, and,
  for `focus == "highlight"`, the text of the lines that lie on the marked-up
  part of the picture.

  OpenCV, Pillow, PaddleOCR, the file system and the clock are not modelled:
  what each returns for this request is a field of `OcrEnv`. The marker mask
  enters only as whether it has any pixel set, the overlap of a box with it
  (`iou_with_mask`) and the distance of a box's centre from its centre.
 */
module OcrService {
  import opened Common
  import opened SafeStem
  import opened PredictParser

  /** A line is highlighted when its box overlaps the mask by at least this. */
  const OverlapThreshold: real := 0.28

  /** The `focus` form value that asks for highlighted text. */
  const HighlightFocus: string := "highlight"

  /** The content type of the saved image. */
  const SavedContentType: string := "image/png"

  /** The uploaded `image` field: its declared type, its file name, its bytes. */
  datatype Upload = Upload(contentType: Option<string>, filename: Option<string>, content: seq<bv8>)

  datatype Size = Size(width: nat, height: nat)

  /** The outcomes of the external calls one request makes. */
  datatype OcrEnv = OcrEnv(
    cvDecoded: Option<Size>,  // cv2.imdecode: the image's size, or None when it fails
    pilDecoded: Option<Size>, // Pillow's fallback decoding, tried only when OpenCV fails
    pngEncoded: bool,         // cv2.imencode('.png', ...) succeeds
    saved: bool,              // writing the PNG succeeds
    prediction: Option<Prediction>, // what OCR.predict returns; None when the retry raises too
    maskPresent: bool,        // the highlight mask has a pixel set
    overlap: Box -> Option<real>, // iou_with_mask(box, mask); None when it raises on the box
    distance: Box -> real,    // distance of the box's centre from the mask's centre
    clockMs: nat)             // int(time.time() * 1000)

  /** Why a request is refused. The last two are exceptions the handler does
      not catch, which FastAPI answers with status 500. */
  datatype Reason = NotAnImage | EmptyFile | Undecodable | PngEncodeFailed | SaveFailed | PredictRaised | OverlapRaised

  /** An `HTTPException`: its status code and its reason. */
  datatype HttpError = HttpError(status: nat, reason: Reason)

  /** The JSON answer of a successful request, without `status` and `size_bytes`. */
  datatype OcrPayload = OcrPayload(
    filename: Option<string>,
    savedFilename: string,
    savedRelpath: string,
    contentType: string,
    width: nat,
    height: nat,
    focus: string,
    fullText: string,
    highlightedText: string,
    maskPresent: bool,
    boxes: seq<Line>)

  // ---------------------------------------------------------------------------
  // Validation and naming (python/test_ocr.py:440-451)

  /** The declared type is present and starts with "image/". */
  predicate IsImageType(contentType: Option<string>) {
    contentType.Some? && StartsWith(contentType.value, "image/")
  }

  /** The upload passes both checks made before any decoding. */
  predicate Accepted(upload: Upload) {
    IsImageType(upload.contentType) && upload.content != []
  }

  /** The name the stem is taken from: the upload's, or "upload" when it has
      none or an empty one. */
  function UploadName(filename: Option<string>): string {
    if filename.Some? && filename.value != [] then filename.value else Fallback
  }

  /** `<safe stem>_<timestamp>.png`, the stem taken from the name or "upload":
      a name of safe characters only, so it stays inside `downloads/`, whose
      digits between the stem's `_` and the extension read back as the clock. */
  function SavedFilename(filename: Option<string>, clockMs: nat): (r: string)
    ensures var stem := SafeStemOf(UploadName(filename));
      && StartsWith(r, stem + "_")
      && |stem| + 5 < |r| && r[|r| - 4..] == ".png"
      && (forall k :: |stem| + 1 <= k < |r| - 4 ==> IsDigit(r[k]))
      && (|r| > |stem| + 6 ==> r[|stem| + 1] != '0')
      && DigitsValue(r[|stem| + 1..|r| - 4]) == clockMs
    ensures forall k :: 0 <= k < |r| ==> IsSafeChar(r[k])
  {
    var stem := SafeStemOf(UploadName(filename));
    SavedNameShape(stem, clockMs);
    stem + "_" + Decimal(clockMs) + ".png"
  }

  /** The shape SavedFilename promises fixes the name: any text made of the
      stem, `_`, canonical digits of n and `.png` is the one built from the
      decimal rendering of n. */
  lemma SavedNameDetermined(stem: string, n: nat, r: string)
    requires StartsWith(r, stem + "_") && |stem| + 5 < |r| && r[|r| - 4..] == ".png"
    requires forall k :: |stem| + 1 <= k < |r| - 4 ==> IsDigit(r[k])
    requires |r| > |stem| + 6 ==> r[|stem| + 1] != '0'
    requires DigitsValue(r[|stem| + 1..|r| - 4]) == n
    ensures r == stem + "_" + Decimal(n) + ".png"
  {
    var mid := r[|stem| + 1..|r| - 4];
    assert forall k :: 0 <= k < |mid| ==> mid[k] == r[|stem| + 1 + k];
    DecimalOfDigits(mid);
    assert r[..|stem| + 1] == stem + "_";
    assert r == r[..|stem| + 1] + mid + r[|r| - 4..];
  }

  /** `<stem>_<digits of n>.png` starts with `<stem>_`, holds digits reading
      back as `n` before `.png`, and is safe when the stem is. */
  lemma SavedNameShape(stem: string, n: nat)
    requires forall k :: 0 <= k < |stem| ==> IsSafeChar(stem[k])
    ensures var r := stem + "_" + Decimal(n) + ".png";
      && StartsWith(r, stem + "_")
      && |stem| + 5 < |r| && r[|r| - 4..] == ".png"
      && (forall k :: |stem| + 1 <= k < |r| - 4 ==> IsDigit(r[k]))
      && (|r| > |stem| + 6 ==> r[|stem| + 1] != '0')
      && DigitsValue(r[|stem| + 1..|r| - 4]) == n
      && forall k :: 0 <= k < |r| ==> IsSafeChar(r[k])
  {
    var digits := Decimal(n);
    var prefix := stem + "_";
    var r := prefix + digits + ".png";
    assert r[..|prefix|] == prefix;
    assert r[|r| - 4..] == ".png";
    assert r[|prefix|..|r| - 4] == digits;
    DecimalRoundTrip(n);
    forall k | |prefix| <= k < |r| - 4 ensures IsDigit(r[k]) {
      assert r[k] == digits[k - |prefix|];
    }
    SavedNameSafe(stem, digits);
  }

  /** `<stem>_<digits>.png` is made of safe characters when the stem is. */
  lemma SavedNameSafe(stem: string, digits: string)
    requires forall k :: 0 <= k < |stem| ==> IsSafeChar(stem[k])
    requires forall k :: 0 <= k < |digits| ==> IsDigit(digits[k])
    ensures var r := stem + "_" + digits + ".png"; forall k :: 0 <= k < |r| ==> IsSafeChar(r[k])
  {
    var prefix := stem + "_";
    var r := prefix + digits + ".png";
    forall k | 0 <= k < |r| ensures IsSafeChar(r[k]) {
      if k < |stem| {
        assert r[k] == stem[k];
      } else if k == |stem| {
        assert r[k] == '_';
      } else if k < |prefix| + |digits| {
        assert r[k] == digits[k - |prefix|];
      } else {
        assert r[k] == ".png"[k - |prefix| - |digits|];
      }
    }
  }

  /** The size of the decoded image: OpenCV's, or Pillow's when OpenCV fails. */
  function DecodedSize(env: OcrEnv): (r: Option<Size>)
    ensures env.cvDecoded.Some? ==> r == env.cvDecoded
    ensures r.None? <==> env.cvDecoded.None? && env.pilDecoded.None?
  {
    if env.cvDecoded.Some? then env.cvDecoded else env.pilDecoded
  }

  // ---------------------------------------------------------------------------
  // The highlight filter (python/test_ocr.py:485-508)

  /** A line with a box whose overlap is defined and reaches the threshold. */
  predicate OnMask(ln: Line, overlap: Box -> Option<real>) {
    ln.box.Some? && overlap(ln.box.value).Some? && overlap(ln.box.value).value >= OverlapThreshold
  }

  /** `iou_with_mask` raises on none of the lines' boxes. */
  predicate OverlapDefined(lines: seq<Line>, overlap: Box -> Option<real>) {
    forall k :: 0 <= k < |lines| && lines[k].box.Some? ==> overlap(lines[k].box.value).Some?
  }

  /** `ln["overlap"] = ov` for a line on the mask; other lines are unchanged. */
  function Annotate(ln: Line, overlap: Box -> Option<real>): (r: Line)
    ensures r.box == ln.box && r.text == ln.text && r.conf == ln.conf
    ensures OnMask(ln, overlap) ==> r.overlap == overlap(ln.box.value)
    ensures !OnMask(ln, overlap) ==> r == ln
  {
    if OnMask(ln, overlap) then ln.(overlap := overlap(ln.box.value)) else ln
  }

  /** The lines after the filter loop has annotated them in place. */
  function Annotated(lines: seq<Line>, overlap: Box -> Option<real>): (r: seq<Line>)
    ensures |r| == |lines|
    ensures forall k :: 0 <= k < |lines| ==> r[k] == Annotate(lines[k], overlap)
  {
    seq(|lines|, k requires 0 <= k < |lines| => Annotate(lines[k], overlap))
  }

  /** Line k's annotated entry when it lies on the mask. */
  function MaskHits(lines: seq<Line>, overlap: Box -> Option<real>): (r: seq<Option<Line>>)
    ensures |r| == |lines|
  {
    seq(|lines|, k requires 0 <= k < |lines| =>
      if OnMask(lines[k], overlap) then Some(Annotate(lines[k], overlap)) else None)
  }

  /** `filtered`: the annotated lines on the mask, in order. */
  function OverMask(lines: seq<Line>, overlap: Box -> Option<real>): seq<Line> {
    Somes(MaskHits(lines, overlap))
  }

  /** The filter loop of lines 489-497: it annotates the lines on the mask and
      collects them, unless `iou_with_mask` raises on some line's box. */
  method FilterByOverlap(lines: seq<Line>, overlap: Box -> Option<real>)
    returns (ok: bool, annotated: seq<Line>, filtered: seq<Line>)
    ensures ok <==> OverlapDefined(lines, overlap)
    ensures ok ==> annotated == Annotated(lines, overlap)
    ensures ok ==> filtered == OverMask(lines, overlap)
  {
    ghost var hits := MaskHits(lines, overlap);
    annotated, filtered := [], [];
    for i := 0 to |lines|
      invariant |annotated| == i
      invariant forall k :: 0 <= k < i ==> annotated[k] == Annotate(lines[k], overlap)
      invariant filtered == Somes(hits[..i])
      invariant forall k :: 0 <= k < i && lines[k].box.Some? ==> overlap(lines[k].box.value).Some?
    {
      SomesSnoc(hits, i);
      var ln := lines[i];
      if ln.box.Some? {
        var ov := overlap(ln.box.value);
        if ov.None? {
          return false, annotated, filtered;
        }
        if ov.value >= OverlapThreshold {
          ln := ln.(overlap := ov);
          filtered := filtered + [ln];
        }
      }
      annotated := annotated + [ln];
    }
    assert hits[..|lines|] == hits;
    ok := true;
  }

  /** The boxed line j is nearest the mask's centre among the first n lines,
      and no boxed line before it is as near: the line `sorted(...)[:1]`
      picks, `sorted` being stable. */
  predicate IsFirstNearest(lines: seq<Line>, distance: Box -> real, n: nat, j: nat)
    requires n <= |lines|
  {
    && j < n && lines[j].box.Some?
    && (forall k :: 0 <= k < n && lines[k].box.Some? ==> distance(lines[j].box.value) <= distance(lines[k].box.value))
    && (forall k :: 0 <= k < j && lines[k].box.Some? ==> distance(lines[j].box.value) < distance(lines[k].box.value))
  }

  /** The first nearest boxed line among the first n, or None when none of
      them has a box. */
  function NearestIn(lines: seq<Line>, distance: Box -> real, n: nat): (r: Option<nat>)
    requires n <= |lines|
    ensures r.None? <==> forall k :: 0 <= k < n ==> lines[k].box.None?
    ensures r.Some? ==> IsFirstNearest(lines, distance, n, r.value)
    decreases n
  {
    if n == 0 then None
    else
      var best := NearestIn(lines, distance, n - 1);
      var ln := lines[n - 1];
      if ln.box.Some? && (best.None? || distance(ln.box.value) < distance(lines[best.value].box.value))
      then Some(n - 1)
      else best
  }

  /** There is only one first nearest line. */
  lemma FirstNearestUnique(lines: seq<Line>, distance: Box -> real, n: nat, i: nat, j: nat)
    requires n <= |lines|
    requires IsFirstNearest(lines, distance, n, i) && IsFirstNearest(lines, distance, n, j)
    ensures i == j
  {
  }

  /** The fallback of lines 498-507: the index of the first boxed line
      nearest the mask's centre, or None when no line has a box. */
  method NearestToMask(lines: seq<Line>, distance: Box -> real) returns (best: Option<nat>)
    ensures best.None? <==> forall k :: 0 <= k < |lines| ==> lines[k].box.None?
    ensures best.Some? ==> IsFirstNearest(lines, distance, |lines|, best.value)
  {
    best := None;
    for i := 0 to |lines|
      invariant best.None? <==> forall k :: 0 <= k < i ==> lines[k].box.None?
      invariant best.Some? ==> IsFirstNearest(lines, distance, i, best.value)
    {
      if lines[i].box.Some? {
        if best.None? || distance(lines[i].box.value) < distance(lines[best.value].box.value) {
          best := Some(i);
        }
      }
    }
  }

  /** Whether the request computes highlighted text. */
  predicate Highlights(focus: string, lines: seq<Line>) {
    focus == HighlightFocus && lines != []
  }

  /** The highlighted lines: those on the mask, or, when there are none but
      the mask is not empty, the boxed line nearest its centre. Each is an
      annotated line with a box, and there are no more of them than lines. */
  function Highlighted(lines: seq<Line>, env: OcrEnv): (r: seq<Line>)
    ensures |r| <= |lines|
    ensures forall k :: 0 <= k < |r| ==> r[k].box.Some?
    ensures forall ln :: ln in r ==> ln in Annotated(lines, env.overlap)
  {
    var annotated := Annotated(lines, env.overlap);
    var filtered := OverMask(lines, env.overlap);
    OverMaskWithin(lines, env.overlap);
    if filtered == [] && env.maskPresent then
      match NearestIn(annotated, env.distance, |annotated|)
      case None => []
      case Some(j) => [annotated[j]]
    else
      filtered
  }

  /** The lines on the mask are boxed annotated lines, no more of them than lines. */
  lemma OverMaskWithin(lines: seq<Line>, overlap: Box -> Option<real>)
    ensures var f := OverMask(lines, overlap);
      && |f| <= |lines|
      && (forall k :: 0 <= k < |f| ==> f[k].box.Some?)
      && forall ln :: ln in f ==> ln in Annotated(lines, overlap)
  {
    var f := OverMask(lines, overlap);
    var idx := SomeIndices(MaskHits(lines, overlap));
    OverMaskExact(lines, overlap);
    OverMaskOnMask(lines, overlap);
    forall ln | ln in f ensures ln in Annotated(lines, overlap) {
      var k :| 0 <= k < |f| && f[k] == ln;
      assert f[k] == Annotated(lines, overlap)[idx[k]];
    }
  }

  /** The highlight branch of lines 486-508: the lines annotated in place,
      and the text of the highlighted ones, unless `iou_with_mask` raises. */
  method HighlightLines(lines: seq<Line>, env: OcrEnv) returns (ok: bool, annotated: seq<Line>, highlightedText: string)
    ensures ok <==> OverlapDefined(lines, env.overlap)
    ensures ok ==> annotated == Annotated(lines, env.overlap)
    ensures ok ==> highlightedText == PyStrip(Join(TextsOf(Highlighted(lines, env)), " "))
  {
    var filtered;
    ok, annotated, filtered := FilterByOverlap(lines, env.overlap);
    if !ok {
      return false, annotated, "";
    }
    if filtered == [] && env.maskPresent {
      var best := NearestToMask(annotated, env.distance);
      ghost var spec := NearestIn(annotated, env.distance, |annotated|);
      if best.Some? {
        FirstNearestUnique(annotated, env.distance, |annotated|, best.value, spec.value);
        filtered := [annotated[best.value]];
      }
    }
    highlightedText := PyStrip(Join(TextsOf(filtered), " "));
  }

  // ---------------------------------------------------------------------------
  // The endpoint

  /** The upload is accepted, decoded, re-encoded and saved: the request
      reaches `OCR.predict`. */
  predicate Stored(upload: Upload, env: OcrEnv) {
    Accepted(upload) && DecodedSize(env).Some? && env.pngEncoded && env.saved
  }

  /** One request to `/ocr`. */
  method HandleOcr(upload: Upload, focus: string, env: OcrEnv) returns (r: Result<OcrPayload, HttpError>)
    // the two checks on the upload come first, whatever decoding would do
    ensures !IsImageType(upload.contentType) ==> r == Err(HttpError(400, NotAnImage))
    ensures IsImageType(upload.contentType) && upload.content == [] ==> r == Err(HttpError(400, EmptyFile))
    ensures Accepted(upload) && DecodedSize(env).None? ==> r == Err(HttpError(400, Undecodable))
    ensures Accepted(upload) && DecodedSize(env).Some? && !env.pngEncoded ==> r == Err(HttpError(500, PngEncodeFailed))
    ensures Accepted(upload) && DecodedSize(env).Some? && env.pngEncoded && !env.saved ==>
      r == Err(HttpError(500, SaveFailed))
    ensures Stored(upload, env) && env.prediction.None? ==> r == Err(HttpError(500, PredictRaised))
    ensures Stored(upload, env) && env.prediction.Some? ==>
      var lines := ParsedLines(env.prediction.value, DefaultScoreThresh);
      && (Highlights(focus, lines) && !OverlapDefined(lines, env.overlap) ==> r == Err(HttpError(500, OverlapRaised)))
      && (r.Ok? <==> !Highlights(focus, lines) || OverlapDefined(lines, env.overlap))
    ensures r.Ok? ==> Stored(upload, env) && env.prediction.Some?
    ensures r.Ok? ==>
      var p, lines := r.value, ParsedLines(env.prediction.value, DefaultScoreThresh);
      && p.filename == upload.filename
      && p.savedFilename == SavedFilename(upload.filename, env.clockMs)
      && p.savedRelpath == "downloads/" + p.savedFilename
      && p.contentType == SavedContentType
      && p.width == DecodedSize(env).value.width && p.height == DecodedSize(env).value.height
      && p.focus == focus
      && p.fullText == Join(TextsOf(lines), " ")
      // without highlighting, nothing is highlighted, the mask counts as absent and no line is annotated
      && (!Highlights(focus, lines) ==> p.highlightedText == "" && !p.maskPresent && p.boxes == lines)
      && (Highlights(focus, lines) ==>
            && p.maskPresent == env.maskPresent
            && p.boxes == Annotated(lines, env.overlap)
            && p.highlightedText == Join(TextsOf(Highlighted(lines, env)), " "))
  {
    if upload.contentType.None? || !StartsWith(upload.contentType.value, "image/") {
      return Err(HttpError(400, NotAnImage));
    }
    var content := upload.content;
    if content == [] {
      return Err(HttpError(400, EmptyFile));
    }
    var safeStem := SafeStemOf(UploadName(upload.filename));
    var ts := env.clockMs;
    var filename := safeStem + "_" + Decimal(ts) + ".png";
    var width, height;
    if env.cvDecoded.Some? {
      width, height := env.cvDecoded.value.width, env.cvDecoded.value.height;
    } else if env.pilDecoded.Some? {
      width, height := env.pilDecoded.value.width, env.pilDecoded.value.height;
    } else {
      return Err(HttpError(400, Undecodable));
    }
    if !env.pngEncoded {
      return Err(HttpError(500, PngEncodeFailed));
    }
    if !env.saved {
      return Err(HttpError(500, SaveFailed));
    }
    if env.prediction.None? {
      return Err(HttpError(500, PredictRaised));
    }
    var pred := env.prediction.value;
    var lines, fullText := ParsePredictResult(pred, DefaultScoreThresh);
    var highlightedText := "";
    var maskPresent := false;
    if focus == HighlightFocus && lines != [] {
      maskPresent := env.maskPresent;
      var ok;
      ok, lines, highlightedText := HighlightLines(lines, env);
      if !ok {
        return Err(HttpError(500, OverlapRaised));
      }
      HighlightedTextJoined(pred, env);
    }
    r := Ok(OcrPayload(upload.filename, filename, "downloads/" + filename, SavedContentType, width, height,
                       focus, fullText, highlightedText, maskPresent, lines));
  }

  /** The final `.strip()` of line 508 changes nothing. */
  lemma HighlightedTextJoined(pred: Prediction, env: OcrEnv)
    ensures var h := TextsOf(Highlighted(ParsedLines(pred, DefaultScoreThresh), env));
      PyStrip(Join(h, " ")) == Join(h, " ")
  {
    ParsedTextsStripped(pred, DefaultScoreThresh);
    HighlightedStripped(ParsedLines(pred, DefaultScoreThresh), env);
    JoinOfStrippedIsStripped(TextsOf(Highlighted(ParsedLines(pred, DefaultScoreThresh), env)));
  }

  // ---------------------------------------------------------------------------
  // Properties of the highlight filter

  /** Annotation changes no line's box, text or confidence, and it marks
      exactly the lines on the mask with their overlap. */
  lemma AnnotationOnlyAddsOverlap(lines: seq<Line>, overlap: Box -> Option<real>, k: nat)
    requires k < |lines| && lines[k].overlap.None?
    ensures var a := Annotated(lines, overlap)[k];
      && a.box == lines[k].box && a.text == lines[k].text && a.conf == lines[k].conf
      && (a.overlap.Some? <==> OnMask(lines[k], overlap))
      && (a.overlap.Some? ==> a.overlap.value >= OverlapThreshold)
  {
  }

  /** The filtered lines are the annotated lines on the mask, in order: the
      k-th is the annotated line at the k-th hit, hits increase, and a line is
      a hit exactly when it lies on the mask. */
  lemma OverMaskExact(lines: seq<Line>, overlap: Box -> Option<real>)
    ensures var hits := MaskHits(lines, overlap); var idx := SomeIndices(hits); var f := OverMask(lines, overlap);
      && |f| == |idx| <= |lines|
      && (forall k :: 0 <= k < |idx| ==> idx[k] < |lines| && f[k] == Annotated(lines, overlap)[idx[k]])
      && (forall k, m :: 0 <= k < m < |idx| ==> idx[k] < idx[m])
      && (forall i :: 0 <= i < |lines| ==> (i in idx <==> OnMask(lines[i], overlap)))
  {
    var hits := MaskHits(lines, overlap);
    SomesIndexed(hits);
    SomeIndicesExact(hits);
    forall i | 0 <= i < |lines| ensures hits[i].Some? <==> OnMask(lines[i], overlap) {
    }
  }

  /** Every filtered line lies on the mask, with its overlap recorded. */
  lemma OverMaskOnMask(lines: seq<Line>, overlap: Box -> Option<real>)
    ensures forall k :: 0 <= k < |OverMask(lines, overlap)| ==>
      var ln := OverMask(lines, overlap)[k];
      OnMask(ln, overlap) && ln.overlap == overlap(ln.box.value)
  {
    var hits := MaskHits(lines, overlap);
    SomesIndexed(hits);
    forall k | 0 <= k < |Somes(hits)|
      ensures OnMask(Somes(hits)[k], overlap) && Somes(hits)[k].overlap == overlap(Somes(hits)[k].box.value)
    {
      var i := SomeIndices(hits)[k];
      assert hits[i] == Some(Somes(hits)[k]);
    }
  }

  /** The nearest-line fallback runs only when no line was annotated: it
      then picks from the lines as parsed. */
  lemma FallbackSeesUnannotated(lines: seq<Line>, overlap: Box -> Option<real>)
    requires OverMask(lines, overlap) == []
    ensures Annotated(lines, overlap) == lines
  {
    OverMaskExact(lines, overlap);
    forall k | 0 <= k < |lines| ensures Annotated(lines, overlap)[k] == lines[k] {
      assert k !in SomeIndices(MaskHits(lines, overlap));
    }
  }

  /** At most one line is highlighted when none lies on the mask, and it is
      then the first boxed line nearest the mask's centre. */
  lemma FallbackPicksNearest(lines: seq<Line>, env: OcrEnv)
    requires OverMask(lines, env.overlap) == [] && env.maskPresent
    ensures |Highlighted(lines, env)| <= 1
    ensures Highlighted(lines, env) != [] <==> exists k :: 0 <= k < |lines| && lines[k].box.Some?
    ensures Highlighted(lines, env) != [] ==>
      exists j: nat :: IsFirstNearest(lines, env.distance, |lines|, j) && Highlighted(lines, env) == [lines[j]]
  {
    FallbackSeesUnannotated(lines, env.overlap);
    var j := NearestIn(lines, env.distance, |lines|);
    if j.None? {
      assert forall k :: 0 <= k < |lines| ==> lines[k].box.None?;
    } else {
      assert lines[j.value].box.Some?;
    }
  }

  /** The texts of the highlighted lines, like all parsed texts, are
      non-empty and stripped. */
  lemma HighlightedStripped(lines: seq<Line>, env: OcrEnv)
    requires forall k :: 0 <= k < |lines| ==> lines[k].text != [] && IsStripped(lines[k].text)
    ensures var h := TextsOf(Highlighted(lines, env));
      forall k :: 0 <= k < |h| ==> h[k] != [] && IsStripped(h[k])
  {
    var a := Annotated(lines, env.overlap);
    var hits := MaskHits(lines, env.overlap);
    SomesIndexed(hits);
    forall k | 0 <= k < |Somes(hits)| ensures Somes(hits)[k].text == lines[SomeIndices(hits)[k]].text {
      var i := SomeIndices(hits)[k];
      assert hits[i] == Some(Somes(hits)[k]);
    }
  }
}

/**
  `parse_predict_result` of the OCR service (python/test_ocr.py:359-432, the
  same code as python/WK.py:79-152): the recognised lines PaddleOCR's
  `predict` returned, filtered and reshaped for the JSON response.

  PaddleOCR is not modelled. A result is a record of the fields the function
  looks for (`rec_texts`, `texts`, `rec_scores`, `scores`, `rec_polys`,
  `dt_polys`, `boxes`), each None when absent or None; whether a field is read
  as an attribute, from `to_dict()` or as a dict key is not distinguished.
  Scores are reals.
 */
module PredictParser {
  import opened Common

  /** The default `score_thresh`. */
  const DefaultScoreThresh: real := 0.5

  datatype Point = Point(x: real, y: real)

  /** A box as `_to_py` leaves it: a flat list of numbers, a list of [x, y]
      points, or some other shape. */
  datatype Box = Flat(coords: seq<real>) | Polygon(points: seq<Point>) | OtherShape

  /** One PaddleOCR result, reduced to the fields the parser reads. */
  datatype OcrRecord = OcrRecord(
    recTexts: Option<seq<Option<string>>>,
    texts: Option<seq<Option<string>>>,
    recScores: Option<seq<Option<real>>>,
    scores: Option<seq<Option<real>>>,
    recPolys: Option<seq<Box>>,
    dtPolys: Option<seq<Box>>,
    boxes: Option<seq<Box>>)

  /** What `predict` returns: nothing, a list of results, or one result. */
  datatype Prediction = NoPrediction | ResultList(items: seq<OcrRecord>) | Single(record: OcrRecord)

  /** One entry of `lines`: `{"box": ..., "text": ..., "conf": ...}`, and the
      `"overlap"` key the highlight filter may add later. */
  datatype Line = Line(box: Option<Box>, text: string, conf: real, overlap: Option<real>)

  /** The three lists the parser works from. */
  datatype Fields = Fields(texts: Option<seq<Option<string>>>, scores: Option<seq<Option<real>>>, boxes: Option<seq<Box>>)

  // ---------------------------------------------------------------------------
  // Python's str.strip()

  /** The characters `str.isspace()` holds for. */
  predicate IsPySpace(c: char) {
    || '\t' <= c <= '\r'
    || '\U{001C}' <= c <= '\U{001F}'
    || c == ' ' || c == '\U{0085}' || c == '\U{00A0}' || c == '\U{1680}'
    || '\U{2000}' <= c <= '\U{200A}'
    || c == '\U{2028}' || c == '\U{2029}' || c == '\U{202F}' || c == '\U{205F}' || c == '\U{3000}'
  }

  function PyStripStart(s: string): (r: string)
    ensures |r| <= |s| && r == s[|s| - |r|..]
    ensures forall i :: 0 <= i < |s| - |r| ==> IsPySpace(s[i])
    ensures r != [] ==> !IsPySpace(r[0])
    ensures s != [] && !IsPySpace(s[0]) ==> r == s
    decreases |s|
  {
    if s != [] && IsPySpace(s[0]) then
      var r := PyStripStart(s[1..]);
      assert forall i :: 1 <= i < |s| ==> s[i] == s[1..][i - 1];
      r
    else s
  }

  function PyStripEnd(s: string): (r: string)
    ensures |r| <= |s| && r == s[..|r|]
    ensures forall i :: |r| <= i < |s| ==> IsPySpace(s[i])
    ensures r != [] ==> !IsPySpace(r[|r| - 1])
    ensures s != [] && !IsPySpace(s[|s| - 1]) ==> r == s
    decreases |s|
  {
    if s != [] && IsPySpace(s[|s| - 1]) then
      var r := PyStripEnd(s[..|s| - 1]);
      assert forall i :: 0 <= i < |s| - 1 ==> s[i] == s[..|s| - 1][i];
      r
    else s
  }

  /** `str.strip()`: the slice of the input left once the white space at its
      two ends is removed. It has no white space at either end, and is the
      input itself when that has none. */
  function PyStrip(s: string): (r: string)
    ensures r != [] ==> !IsPySpace(r[0]) && !IsPySpace(r[|r| - 1])
    ensures |r| <= |s|
    ensures IsStripped(s) ==> r == s
    ensures exists i :: StripSlice(s, r, i)
  {
    var a := PyStripStart(s);
    var r := PyStripEnd(a);
    StripSliceOf(s, a, r);
    r
  }

  /** `r` is `s[i..i + |r|]`, and everything of `s` around it is white space. */
  predicate StripSlice(s: string, r: string, i: int) {
    && 0 <= i <= |s| - |r| && r == s[i..i + |r|]
    && (forall k :: 0 <= k < i ==> IsPySpace(s[k]))
    && (forall k :: i + |r| <= k < |s| ==> IsPySpace(s[k]))
  }

  /** White space dropped from the front of `s`, then from the back of what
      is left, leaves a slice of `s` with only white space around it. */
  lemma StripSliceOf(s: string, a: string, r: string)
    requires |a| <= |s| && a == s[|s| - |a|..] && forall k :: 0 <= k < |s| - |a| ==> IsPySpace(s[k])
    requires a != [] ==> !IsPySpace(a[0])
    requires s != [] && !IsPySpace(s[0]) ==> a == s
    requires |r| <= |a| && r == a[..|r|] && forall k :: |r| <= k < |a| ==> IsPySpace(a[k])
    requires r != [] ==> !IsPySpace(r[|r| - 1])
    requires a != [] && !IsPySpace(a[|a| - 1]) ==> r == a
    ensures StripSlice(s, r, |s| - |a|)
    ensures r != [] ==> !IsPySpace(r[0]) && !IsPySpace(r[|r| - 1])
    ensures IsStripped(s) ==> r == s
  {
    assert r != [] ==> r[0] == a[0];
    var i := |s| - |a|;
    forall k | i + |r| <= k < |s| ensures IsPySpace(s[k]) {
      assert s[k] == a[k - i];
    }
  }

  /** No white space at either end. */
  predicate IsStripped(s: string) {
    s != [] ==> !IsPySpace(s[0]) && !IsPySpace(s[|s| - 1])
  }

  /** A string with no white space at either end is its own strip. */
  lemma StripOfStripped(s: string)
    requires IsStripped(s)
    ensures PyStrip(s) == s
  {
  }

  // ---------------------------------------------------------------------------
  // Finding the lists (python/test_ocr.py:366-397)

  /** Python's `a or b` on an optional list: an absent or empty `a` gives `b`. */
  function Or<T>(a: Option<seq<T>>, b: Option<seq<T>>): Option<seq<T>> {
    if a.Some? && a.value != [] then a else b
  }

  /** A list is truthy when it is present and non-empty. */
  predicate Truthy<T>(a: Option<seq<T>>) {
    a.Some? && a.value != []
  }

  /** The result the parser reads: None for a falsy `pred`, the first element
      of a list, or the value itself. */
  function Record(pred: Prediction): Option<OcrRecord> {
    match pred
    case NoPrediction => None
    case ResultList(items) => if items == [] then None else Some(items[0])
    case Single(record) => Some(record)
  }

  /** The texts, scores and boxes, preferring the `rec_*` fields. */
  function ResolveFields(rec: OcrRecord): (f: Fields)
    ensures Truthy(rec.recTexts) ==> f.texts == rec.recTexts
    ensures !Truthy(rec.recTexts) ==> f.texts == rec.texts
    ensures Truthy(rec.recScores) ==> f.scores == rec.recScores
    ensures !Truthy(rec.recScores) ==> f.scores == rec.scores
    ensures Truthy(rec.recPolys) ==> f.boxes == rec.recPolys
    ensures !Truthy(rec.recPolys) && Truthy(rec.dtPolys) ==> f.boxes == rec.dtPolys
    ensures !Truthy(rec.recPolys) && !Truthy(rec.dtPolys) ==> f.boxes == rec.boxes
  {
    Fields(Or(rec.recTexts, rec.texts), Or(rec.recScores, rec.scores), Or(Or(rec.recPolys, rec.dtPolys), rec.boxes))
  }

  // ---------------------------------------------------------------------------
  // Box normalisation (python/test_ocr.py:403-413)

  /** The coordinates of a list of points, flattened: [x0, y0, x1, y1, ...]. */
  function Coordinates(points: seq<Point>): (r: seq<real>)
    ensures |r| == 2 * |points|
    decreases |points|
  {
    if points == [] then [] else [points[0].x, points[0].y] + Coordinates(points[1..])
  }

  /** A flat list of exactly eight numbers becomes four [x, y] points, whose
      coordinates are the list read back; any other box is left alone. */
  function NormalizeBox(b: Box): (r: Box)
    ensures b.Flat? && |b.coords| == 8 ==> r.Polygon? && |r.points| == 4 && Coordinates(r.points) == b.coords
    ensures !(b.Flat? && |b.coords| == 8) ==> r == b
  {
    if b.Flat? && |b.coords| == 8 then
      var c := b.coords;
      var pts := [Point(c[0], c[1]), Point(c[2], c[3]), Point(c[4], c[5]), Point(c[6], c[7])];
      CoordinatesOfFour(pts);
      assert c == [c[0], c[1], c[2], c[3], c[4], c[5], c[6], c[7]];
      Polygon(pts)
    else b
  }

  lemma CoordinatesOfFour(pts: seq<Point>)
    requires |pts| == 4
    ensures Coordinates(pts) == [pts[0].x, pts[0].y, pts[1].x, pts[1].y, pts[2].x, pts[2].y, pts[3].x, pts[3].y]
  {
    var r3 := pts[3..];
    assert pts[1..][1..][1..] == r3 && r3[1..] == [];
    assert Coordinates(r3) == [pts[3].x, pts[3].y];
    assert Coordinates(pts[2..]) == [pts[2].x, pts[2].y] + Coordinates(r3) by {
      assert pts[2..][1..] == r3;
    }
    assert Coordinates(pts[1..]) == [pts[1].x, pts[1].y] + Coordinates(pts[2..]) by {
      assert pts[1..][1..] == pts[2..];
    }
  }

  /** Normalising a normalised box changes nothing. */
  lemma NormalizeBoxIdempotent(b: Box)
    ensures NormalizeBox(NormalizeBox(b)) == NormalizeBox(b)
  {
  }

  /** The normalised boxes, one per input box. */
  function NormalizedBoxes(boxes: seq<Box>): (r: seq<Box>)
    ensures |r| == |boxes|
  {
    seq(|boxes|, i requires 0 <= i < |boxes| => NormalizeBox(boxes[i]))
  }

  /** The loop of lines 407-413. */
  method NormalizeBoxes(boxes: seq<Box>) returns (normBoxes: seq<Box>)
    ensures |normBoxes| == |boxes|
    ensures forall i :: 0 <= i < |boxes| && boxes[i].Flat? && |boxes[i].coords| == 8 ==>
      normBoxes[i].Polygon? && Coordinates(normBoxes[i].points) == boxes[i].coords
    ensures forall i :: 0 <= i < |boxes| && !(boxes[i].Flat? && |boxes[i].coords| == 8) ==>
      normBoxes[i] == boxes[i]
    ensures normBoxes == NormalizedBoxes(boxes)
  {
    normBoxes := [];
    for i := 0 to |boxes|
      invariant |normBoxes| == i
      invariant forall k :: 0 <= k < i ==> normBoxes[k] == NormalizeBox(boxes[k])
    {
      var b := boxes[i];
      if b.Flat? && |b.coords| == 8 {
        var c := b.coords;
        normBoxes := normBoxes + [Polygon([Point(c[0], c[1]), Point(c[2], c[3]), Point(c[4], c[5]), Point(c[6], c[7])])];
      } else {
        normBoxes := normBoxes + [b];
      }
    }
  }

  // ---------------------------------------------------------------------------
  // Line filtering (python/test_ocr.py:415-432)

  /** `str(texts[i]).strip()`, with None read as "". */
  function TextAt(texts: seq<Option<string>>, i: nat): string
    requires i < |texts|
  {
    PyStrip(if texts[i].Some? then texts[i].value else "")
  }

  /** `sc`: the i-th score when there is one. */
  function ScoreAt(scores: Option<seq<Option<real>>>, i: nat): Option<real> {
    if scores.Some? && i < |scores.value| then scores.value[i] else None
  }

  /** `box_i`: the i-th normalised box when there is one. */
  function BoxAt(outBoxes: Option<seq<Box>>, i: nat): Option<Box> {
    if outBoxes.Some? && i < |outBoxes.value| then Some(outBoxes.value[i]) else None
  }

  /** An entry is kept when its stripped text is non-empty and its score is
      absent or reaches the threshold. */
  predicate Keeps(texts: seq<Option<string>>, scores: Option<seq<Option<real>>>, thresh: real, i: nat)
    requires i < |texts|
  {
    TextAt(texts, i) != [] && (ScoreAt(scores, i).None? || ScoreAt(scores, i).value >= thresh)
  }

  /** The line built for entry i: `conf` is the score, or 1.0 without one. */
  function LineFor(texts: seq<Option<string>>, scores: Option<seq<Option<real>>>, outBoxes: Option<seq<Box>>, i: nat): Line
    requires i < |texts|
  {
    var sc := ScoreAt(scores, i);
    Line(BoxAt(outBoxes, i), TextAt(texts, i), if sc.Some? then sc.value else 1.0, None)
  }

  /** Entry i's line when the filter keeps it. */
  function Candidates(texts: seq<Option<string>>, scores: Option<seq<Option<real>>>, outBoxes: Option<seq<Box>>,
                      thresh: real): (r: seq<Option<Line>>)
    ensures |r| == |texts|
  {
    seq(|texts|, i requires 0 <= i < |texts| =>
      if Keeps(texts, scores, thresh, i) then Some(LineFor(texts, scores, outBoxes, i)) else None)
  }

  /** Entry i of the candidates: its line exactly when the filter keeps it. */
  lemma CandidateAt(texts: seq<Option<string>>, scores: Option<seq<Option<real>>>, outBoxes: Option<seq<Box>>,
                    thresh: real, i: nat)
    requires i < |texts|
    ensures Candidates(texts, scores, outBoxes, thresh)[i] ==
      if TextAt(texts, i) != [] && (ScoreAt(scores, i).None? || ScoreAt(scores, i).value >= thresh)
      then Some(LineFor(texts, scores, outBoxes, i)) else None
  {
  }

  function TextsOf(lines: seq<Line>): (r: seq<string>)
    ensures |r| == |lines|
    ensures forall k :: 0 <= k < |lines| ==> r[k] == lines[k].text
  {
    seq(|lines|, k requires 0 <= k < |lines| => lines[k].text)
  }

  lemma TextsOfSnoc(lines: seq<Line>, line: Line)
    ensures TextsOf(lines + [line]) == TextsOf(lines) + [line.text]
  {
  }

  /** The lists the parser filters, or None when it returns ([], ""). */
  function FieldsOf(pred: Prediction): Option<Fields> {
    var rec := Record(pred);
    if rec.None? then None
    else
      var f := ResolveFields(rec.value);
      if !Truthy(f.texts) then None else Some(f)
  }

  /** `out_boxes`: the normalised boxes, when there are boxes. */
  function OutBoxes(f: Fields): Option<seq<Box>> {
    if f.boxes.Some? then Some(NormalizedBoxes(f.boxes.value)) else None
  }

  /** The lines `parse_predict_result(pred, thresh)` returns. */
  function ParsedLines(pred: Prediction, thresh: real): seq<Line> {
    match FieldsOf(pred)
    case None => []
    case Some(f) => Somes(Candidates(f.texts.value, f.scores, OutBoxes(f), thresh))
  }

  /** The loop of lines 416-430: the kept lines, and their texts. */
  method FilterLines(texts: seq<Option<string>>, scores: Option<seq<Option<real>>>, outBoxes: Option<seq<Box>>,
                     scoreThresh: real) returns (lines: seq<Line>, fullTextParts: seq<string>)
    ensures lines == Somes(Candidates(texts, scores, outBoxes, scoreThresh))
    ensures fullTextParts == TextsOf(lines)
  {
    ghost var cands := Candidates(texts, scores, outBoxes, scoreThresh);
    lines, fullTextParts := [], [];
    var n := |texts|;
    for i := 0 to n
      invariant lines == Somes(cands[..i])
      invariant fullTextParts == TextsOf(lines)
    {
      SomesSnoc(cands, i);
      CandidateAt(texts, scores, outBoxes, scoreThresh, i);
      var t := TextAt(texts, i);
      var sc := ScoreAt(scores, i);
      if t != [] && (sc.None? || sc.value >= scoreThresh) {
        var line := Line(BoxAt(outBoxes, i), t, if sc.Some? then sc.value else 1.0, None);
        TextsOfSnoc(lines, line);
        lines := lines + [line];
        fullTextParts := fullTextParts + [t];
      }
    }
    assert cands[..n] == cands;
  }

  /** `parse_predict_result(pred, score_thresh)`: the kept lines and their
      texts joined by single spaces. */
  method ParsePredictResult(pred: Prediction, scoreThresh: real) returns (lines: seq<Line>, fullText: string)
    ensures FieldsOf(pred).None? ==> lines == [] && fullText == ""
    ensures lines == ParsedLines(pred, scoreThresh)
    ensures fullText == Join(TextsOf(lines), " ")
  {
    var rec := Record(pred);
    if rec.None? {
      return [], "";
    }
    var fields := ResolveFields(rec.value);
    if !Truthy(fields.texts) {
      return [], "";
    }
    var outBoxes: Option<seq<Box>> := None;
    if fields.boxes.Some? {
      var normBoxes := NormalizeBoxes(fields.boxes.value);
      outBoxes := Some(normBoxes);
    }
    var fullTextParts;
    lines, fullTextParts := FilterLines(fields.texts.value, fields.scores, outBoxes, scoreThresh);
    fullText := PyStrip(Join(fullTextParts, " "));
    KeptTextsStripped(fields.texts.value, fields.scores, outBoxes, scoreThresh);
    JoinOfStrippedIsStripped(fullTextParts);
  }

  /** Joining non-empty stripped texts with spaces gives a stripped text, so
      the final `.strip()` of line 432 changes nothing. */
  lemma JoinOfStrippedIsStripped(parts: seq<string>)
    requires forall k :: 0 <= k < |parts| ==> parts[k] != [] && IsStripped(parts[k])
    ensures PyStrip(Join(parts, " ")) == Join(parts, " ")
  {
    if parts != [] {
      JoinWithStrippedEnds(parts);
    }
  }

  lemma JoinWithStrippedEnds(parts: seq<string>)
    requires parts != [] && parts[0] != [] && parts[|parts| - 1] != []
    requires !IsPySpace(parts[0][0])
    requires var last := parts[|parts| - 1]; !IsPySpace(last[|last| - 1])
    ensures PyStrip(Join(parts, " ")) == Join(parts, " ")
  {
    JoinEnds(parts, " ");
    StripOfStripped(Join(parts, " "));
  }

  // ---------------------------------------------------------------------------
  // What the kept lines are

  /** The kept lines are the lines of the kept entries, in input order: the
      k-th line is built from the k-th kept index, the indices increase, and
      an index is kept exactly when its entry passes the filter. */
  lemma KeptLinesExact(texts: seq<Option<string>>, scores: Option<seq<Option<real>>>,
                       outBoxes: Option<seq<Box>>, thresh: real)
    ensures var c := Candidates(texts, scores, outBoxes, thresh); var idx := SomeIndices(c);
      && |Somes(c)| == |idx| <= |texts|
      && (forall k :: 0 <= k < |idx| ==> idx[k] < |texts| && Somes(c)[k] == LineFor(texts, scores, outBoxes, idx[k]))
      && (forall k, m :: 0 <= k < m < |idx| ==> idx[k] < idx[m])
      && (forall i :: 0 <= i < |texts| ==> (i in idx <==> Keeps(texts, scores, thresh, i)))
  {
    var c := Candidates(texts, scores, outBoxes, thresh);
    SomesIndexed(c);
    SomeIndicesExact(c);
  }

  /** Every kept line has a non-empty stripped text and a confidence that is
      its score, which reaches the threshold, or 1.0 when it has none; its box
      is the normalised box of its entry, or None past the end of the boxes. */
  lemma KeptLineShape(texts: seq<Option<string>>, scores: Option<seq<Option<real>>>, outBoxes: Option<seq<Box>>,
                      thresh: real, k: nat)
    requires k < |SomeIndices(Candidates(texts, scores, outBoxes, thresh))|
    ensures var c := Candidates(texts, scores, outBoxes, thresh);
      var i := SomeIndices(c)[k];
      && k < |Somes(c)| && i < |texts|
      && var ln := Somes(c)[k];
      && ln.text == PyStrip(if texts[i].Some? then texts[i].value else "")
      && ln.text != [] && PyStrip(ln.text) == ln.text
      && (ScoreAt(scores, i).Some? ==> ln.conf == ScoreAt(scores, i).value && ln.conf >= thresh)
      && (ScoreAt(scores, i).None? ==> ln.conf == 1.0)
      && ln.box == BoxAt(outBoxes, i)
  {
    var c := Candidates(texts, scores, outBoxes, thresh);
    KeptLinesExact(texts, scores, outBoxes, thresh);
    var i := SomeIndices(c)[k];
    SomeIndicesExact(c);
    assert i in SomeIndices(c);
    StripOfStripped(TextAt(texts, i));
  }

  lemma TextAtStripped(texts: seq<Option<string>>, i: nat)
    requires i < |texts|
    ensures IsStripped(TextAt(texts, i))
  {
  }

  /** Every kept text is non-empty and stripped. */
  lemma KeptTextsStripped(texts: seq<Option<string>>, scores: Option<seq<Option<real>>>,
                          outBoxes: Option<seq<Box>>, thresh: real)
    ensures var lines := Somes(Candidates(texts, scores, outBoxes, thresh));
      forall k :: 0 <= k < |lines| ==> lines[k].text != [] && IsStripped(lines[k].text)
  {
    var c := Candidates(texts, scores, outBoxes, thresh);
    SomesIndexed(c);
    forall k | 0 <= k < |Somes(c)| ensures Somes(c)[k].text != [] && IsStripped(Somes(c)[k].text) {
      var i := SomeIndices(c)[k];
      assert c[i] == Some(Somes(c)[k]);
      assert Keeps(texts, scores, thresh, i) && Somes(c)[k] == LineFor(texts, scores, outBoxes, i);
      TextAtStripped(texts, i);
    }
  }

  /** Every parsed line's text is non-empty and stripped. */
  lemma ParsedTextsStripped(pred: Prediction, thresh: real)
    ensures var lines := ParsedLines(pred, thresh);
      forall k :: 0 <= k < |lines| ==> lines[k].text != [] && IsStripped(lines[k].text)
  {
    if FieldsOf(pred).Some? {
      var f := FieldsOf(pred).value;
      assert ParsedLines(pred, thresh) == Somes(Candidates(f.texts.value, f.scores, OutBoxes(f), thresh));
      KeptTextsStripped(f.texts.value, f.scores, OutBoxes(f), thresh);
    }
  }

  /** A falsy prediction, or one without texts, parses to no lines. */
  lemma NothingToParse(pred: Prediction, thresh: real)
    requires pred == NoPrediction || pred == ResultList([]) || (Record(pred).Some? && !Truthy(ResolveFields(Record(pred).value).texts))
    ensures ParsedLines(pred, thresh) == []
  {
  }

  /** Raising the threshold never adds a line: every line kept at the higher
      threshold is kept, unchanged, at the lower one. */
  lemma HigherThresholdKeepsFewer(pred: Prediction, lo: real, hi: real)
    requires lo <= hi
    ensures |ParsedLines(pred, hi)| <= |ParsedLines(pred, lo)|
    ensures forall ln :: ln in ParsedLines(pred, hi) ==> ln in ParsedLines(pred, lo)
  {
    if FieldsOf(pred).Some? {
      var f := FieldsOf(pred).value;
      var cl, ch := Candidates(f.texts.value, f.scores, OutBoxes(f), lo), Candidates(f.texts.value, f.scores, OutBoxes(f), hi);
      SomesMonotone(cl, ch);
    }
  }

  /** Fewer present entries, fewer kept values, and each of them kept. */
  lemma {:induction false} SomesMonotone<T>(lo: seq<Option<T>>, hi: seq<Option<T>>)
    requires |lo| == |hi|
    requires forall i :: 0 <= i < |hi| && hi[i].Some? ==> lo[i] == hi[i]
    ensures |Somes(hi)| <= |Somes(lo)|
    ensures forall x :: x in Somes(hi) ==> x in Somes(lo)
    decreases |hi|
  {
    if hi != [] {
      var li, hn := lo[..|lo| - 1], hi[..|hi| - 1];
      SomesMonotone(li, hn);
      assert Somes(lo) == Somes(li) + (if lo[|lo| - 1].Some? then [lo[|lo| - 1].value] else []);
      assert Somes(hi) == Somes(hn) + (if hi[|hi| - 1].Some? then [hi[|hi| - 1].value] else []);
    }
  }
}

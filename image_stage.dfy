/**
  The two image steps of the relay (node/telegramClient.js:17-95):
  `cropFromTop`, which validates a buffer and cuts a rectangle out of it, and
  `preprocessImage`, which validates a buffer and chooses the encoding of the
  photometrically adjusted result.

  Jimp and file-type are not modelled: what file-type sniffs from the bytes
  and what Jimp decodes from them are fields of `ImageBuffer`, and the
  greyscale, brightness and colour filters are left out.
 */
module ImageStage {
  import opened Common

  /** JimpMime.png and JimpMime.jpeg. */
  const PngMime: string := "image/png"
  const JpegMime: string := "image/jpeg"

  /** The fixed band of rows cut from the bottom of every screenshot
      (node/telegramClient.js:41). */
  const BottomBand: int := 950

  /** What the relay reads of a decoded Jimp image. */
  datatype Bitmap = Bitmap(width: nat, height: nat, hasAlpha: bool)

  /** A value passed as `buffer`: whether it is a Node.js Buffer, the MIME type
      file-type sniffs from its bytes (None when it recognises nothing), and the
      bitmap Jimp.read decodes from it (None when Jimp.read rejects). */
  datatype ImageBuffer = ImageBuffer(isBuffer: bool, sniffedMime: Option<string>, decoded: Option<Bitmap>)

  /** A JavaScript value passed as `topMargin`: a number, or anything else. */
  datatype Margin = Number(value: int) | NotANumber

  /** The errors the two steps throw, one per `throw` (and Jimp.read's rejection). */
  datatype ImageError =
    | InvalidBuffer      // "Буфер изображения некорректный!"
    | UnsupportedMime    // "Неподдерживаемый MIME тип"
    | DecodeFailed       // Jimp.read rejects
    | InvalidMargin      // "Отступ должен быть неотрицательным числом"
    | NotTallEnough      // "Отступ превышает высоту изображения"
    | EncodeFailed       // getBuffer rejects

  /** The rectangle passed to `image.crop`. */
  datatype CropRect = CropRect(x: int, y: int, w: int, h: int)

  /** The buffer `getBuffer(mime)` returns, reduced to its encoding and size. */
  datatype Encoded = Encoded(mime: string, width: nat, height: nat)

  predicate IsImageMime(m: Option<string>) {
    m.Some? && StartsWith(m.value, "image/")
  }

  function Min(a: int, b: int): int {
    if a <= b then a else b
  }

  /** The checks both steps make before touching pixels, in the source's order:
      Buffer, sniffed MIME type, decoding (node/telegramClient.js:19-28, 65-74). */
  function CheckImage(buf: ImageBuffer): (r: Result<Bitmap, ImageError>)
    ensures !buf.isBuffer ==> r == Err(InvalidBuffer)
    ensures buf.isBuffer && !IsImageMime(buf.sniffedMime) ==> r == Err(UnsupportedMime)
    ensures buf.isBuffer && IsImageMime(buf.sniffedMime) && buf.decoded.None? ==> r == Err(DecodeFailed)
    ensures r.Ok? <==> buf.isBuffer && IsImageMime(buf.sniffedMime) && buf.decoded.Some?
    ensures r.Ok? ==> r.value == buf.decoded.value
  {
    if !buf.isBuffer then Err(InvalidBuffer)
    else if !IsImageMime(buf.sniffedMime) then Err(UnsupportedMime)
    else match buf.decoded
      case None => Err(DecodeFailed)
      case Some(bitmap) => Ok(bitmap)
  }

  /** `cropFromTop(buffer, topMargin, rightMargin)`: the rectangle it crops, or
      the error it throws. The first four errors are raised before any
      cropping, in a fixed order; the rectangle starts at column 0, its top
      row is the top margin clamped to the last row, its width is the image
      width less the right margin clamped to leave one column, and its height
      is the image height less the bottom band, whatever the margins. */
  function CropFromTop(buf: ImageBuffer, topMargin: Margin, rightMargin: int): (r: Result<CropRect, ImageError>)
    ensures CheckImage(buf).Err? ==> r == Err(CheckImage(buf).error)
    ensures CheckImage(buf).Ok? && (topMargin.NotANumber? || topMargin.value < 0) ==> r == Err(InvalidMargin)
    ensures CheckImage(buf).Ok? && topMargin.Number? && topMargin.value >= 0 ==>
      (r.Ok? <==> CheckImage(buf).value.height > BottomBand)
    ensures CheckImage(buf).Ok? && topMargin.Number? && topMargin.value >= 0 && CheckImage(buf).value.height <= BottomBand ==>
      r == Err(NotTallEnough)
    ensures r.Err? && r.error == NotTallEnough ==> CheckImage(buf).value.height <= BottomBand
    ensures r.Ok? ==>
      var bm, c := CheckImage(buf).value, r.value;
      && c.x == 0
      && c.y <= topMargin.value && c.y <= bm.height - 1
      && (c.y == topMargin.value || c.y == bm.height - 1)
      && (rightMargin <= bm.width - 1 ==> c.w == bm.width - rightMargin)
      && (rightMargin > bm.width - 1 ==> c.w == 1)
      && c.h == bm.height - BottomBand && c.h > 0
  {
    match CheckImage(buf)
    case Err(e) => Err(e)
    case Ok(bitmap) =>
      if topMargin.NotANumber? || topMargin.value < 0 then Err(InvalidMargin)
      else
        var safeMargin := Min(topMargin.value, bitmap.height - 1);
        var safeRightMargin := Min(rightMargin, bitmap.width - 1);
        var cropWidth := bitmap.width - safeRightMargin;
        var cropY := safeMargin;
        var cropHeight := bitmap.height - BottomBand;
        if cropHeight <= 0 then Err(NotTallEnough)
        else Ok(CropRect(0, cropY, cropWidth, cropHeight))
  }

  /** With a non-negative top margin the top row lies inside the image. */
  lemma CropRowInImage(buf: ImageBuffer, top: int, right: int)
    requires CropFromTop(buf, Number(top), right).Ok?
    ensures var c := CropFromTop(buf, Number(top), right).value;
      0 <= c.y <= CheckImage(buf).value.height - 1
  {
  }

  /** With a non-negative right margin the width lies in [1, width]. */
  lemma CropWidthInImage(buf: ImageBuffer, top: int, right: int)
    requires CropFromTop(buf, Number(top), right).Ok?
    requires right >= 0 && CheckImage(buf).value.width >= 1
    ensures var c := CropFromTop(buf, Number(top), right).value;
      1 <= c.w <= CheckImage(buf).value.width
  {
  }

  /** The crop height depends on neither margin, and neither does the
      decision to throw `NotTallEnough`. */
  lemma CropHeightIgnoresMargins(buf: ImageBuffer, top1: int, right1: int, top2: int, right2: int)
    requires top1 >= 0 && top2 >= 0
    requires CropFromTop(buf, Number(top1), right1).Ok?
    ensures CropFromTop(buf, Number(top2), right2).Ok?
    ensures CropFromTop(buf, Number(top1), right1).value.h == CropFromTop(buf, Number(top2), right2).value.h
  {
  }

  /** The source never checks that the rectangle fits below its top row; it
      does when the top margin is at most the bottom band, as at the relay's
      call `cropFromTop(buffer, 310, 120)`. */
  lemma CropFitsForSmallTopMargin(buf: ImageBuffer, top: int, right: int)
    requires 0 <= top <= BottomBand && right >= 0
    requires CropFromTop(buf, Number(top), right).Ok? && CheckImage(buf).value.width >= 1
    ensures var c, bm := CropFromTop(buf, Number(top), right).value, CheckImage(buf).value;
      c.y + c.h <= bm.height && c.x + c.w <= bm.width
  {
  }

  /** ... and may not fit otherwise: a 1000-row image with top margin 999
      yields rows 999 to 1048. */
  lemma CropOverrunsWithLargeTopMargin()
    ensures var buf := ImageBuffer(true, Some(PngMime), Some(Bitmap(500, 1000, false)));
      var c := CropFromTop(buf, Number(999), 0);
      c.Ok? && c.value.y + c.value.h > 1000
  {
    var buf := ImageBuffer(true, Some(PngMime), Some(Bitmap(500, 1000, false)));
    assert StartsWith(PngMime, "image/");
    assert CheckImage(buf) == Ok(Bitmap(500, 1000, false));
  }

  /** `preprocessImage(buffer)`: the same three checks as `cropFromTop`, then
      the encoding chosen by whether the image has an alpha channel
      (node/telegramClient.js:63-95). `encodeOk` is whether Jimp's `getBuffer`
      resolves. The filters keep the image's size. */
  method Preprocess(buf: ImageBuffer, encodeOk: bool) returns (r: Result<Encoded, ImageError>)
    ensures CheckImage(buf).Err? ==> r == Err(CheckImage(buf).error)
    ensures CheckImage(buf).Ok? && !encodeOk ==> r == Err(EncodeFailed)
    ensures r.Ok? <==> CheckImage(buf).Ok? && encodeOk
    ensures r.Ok? ==>
      var bm := CheckImage(buf).value;
      && r.value.width == bm.width && r.value.height == bm.height
      && (r.value.mime == PngMime <==> bm.hasAlpha)
      && (r.value.mime == JpegMime <==> !bm.hasAlpha)
  {
    var checked := CheckImage(buf);
    if checked.Err? {
      return Err(checked.error);
    }
    var image := checked.value;
    var tmpMime := "";
    if image.hasAlpha {
      tmpMime := PngMime;
    } else {
      tmpMime := JpegMime;
    }
    if !encodeOk {
      return Err(EncodeFailed);
    }
    r := Ok(Encoded(tmpMime, image.width, image.height));
  }
}

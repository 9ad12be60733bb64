/**
  The OCR relay's handler for one channel post (node/telegramClient.js:114-195).

  A photo goes through download, validation, saving, cropping, preprocessing,
  saving and OCR, each of which can throw; every throw is caught and logged,
  and nothing is sent. When every stage succeeds the recognised text is
  cleaned: a non-empty text is only logged, an empty one makes the relay send
  a "text not recognised" notice with the processed image. A post that is not
  a photo is forwarded when it has media and relayed as a notice otherwise.

  GramJS, the file system, file-type, Jimp, Tesseract and the clock are not
  modelled: what each returns for this post is a field of `PhotoEnv`.
 */
module Relay {
  import opened Common
  import opened Telegram
  import opened ImageStage
  import opened TextCleaner

  /** The margins of the relay's call `cropFromTop(buffer, 310, 120)`. */
  const TopMargin: int := 310
  const RightMargin: int := 120

  /** Downloads shorter than this many bytes are rejected. */
  const MinDownloadLength: nat := 100

  /** What `client.downloadMedia(msg)` resolved to, and its length in bytes. */
  datatype Downloaded = Downloaded(buffer: ImageBuffer, length: nat)

  /** The outcomes of the external calls the photo branch makes. */
  datatype PhotoEnv = PhotoEnv(
    download: Option<Downloaded>, // None: downloadMedia rejects or resolves to nothing
    originalSaved: bool,          // mkdirSync and writeFileSync of the original succeed
    croppedEncoded: bool,         // getBuffer of the cropped image resolves (line 56)
    croppedRead: bool,            // Jimp.read of the cropped PNG resolves (line 74)
    croppedHasAlpha: bool,        // hasAlpha() of the cropped PNG as Jimp reads it back
    processedEncoded: bool,       // getBuffer of the processed image resolves (line 90)
    processedSaved: bool,         // writeFileSync of the processed image succeeds
    ocr: Option<string>,          // None: Tesseract rejects; otherwise `result?.data?.text || ''`
    clock: nat)                   // Date.now() when the processed file is named

  const ProcessedPrefix: string := "./downloads/processed_"

  /** `./downloads/processed_<Date.now()>.jpg`: the clock reading can be read
      back from the digits between the prefix and the extension. */
  function ProcessedPath(clock: nat): (r: string)
    ensures |r| > |ProcessedPrefix| + 4
    ensures r[..|ProcessedPrefix|] == ProcessedPrefix
    ensures r[|r| - 4..] == ".jpg"
    ensures forall k :: |ProcessedPrefix| <= k < |r| - 4 ==> IsDigit(r[k])
    ensures |r| > |ProcessedPrefix| + 5 ==> r[|ProcessedPrefix|] != '0'
    ensures DigitsValue(r[|ProcessedPrefix|..|r| - 4]) == clock
  {
    var digits := Decimal(clock);
    var r := ProcessedPrefix + digits + ".jpg";
    assert r[..|ProcessedPrefix|] == ProcessedPrefix;
    assert r[|r| - 4..] == ".jpg";
    assert r[|ProcessedPrefix|..|r| - 4] == digits;
    forall k | |ProcessedPrefix| <= k < |r| - 4 ensures IsDigit(r[k]) {
      assert r[k] == digits[k - |ProcessedPrefix|];
    }
    DecimalRoundTrip(clock);
    r
  }

  /** The contract of ProcessedPath fixes the name: any text with the prefix,
      canonical digits of the clock reading and `.jpg` is that path. */
  lemma ProcessedPathDetermined(clock: nat, r: string)
    requires |r| > |ProcessedPrefix| + 4
    requires r[..|ProcessedPrefix|] == ProcessedPrefix && r[|r| - 4..] == ".jpg"
    requires forall k :: |ProcessedPrefix| <= k < |r| - 4 ==> IsDigit(r[k])
    requires |r| > |ProcessedPrefix| + 5 ==> r[|ProcessedPrefix|] != '0'
    requires DigitsValue(r[|ProcessedPrefix|..|r| - 4]) == clock
    ensures r == ProcessedPath(clock)
  {
    var mid := r[|ProcessedPrefix|..|r| - 4];
    assert forall k :: 0 <= k < |mid| ==> mid[k] == r[|ProcessedPrefix| + k];
    DecimalOfDigits(mid);
    assert r == r[..|ProcessedPrefix|] + mid + r[|r| - 4..];
  }

  /** The buffer `cropFromTop` returns: the rectangle encoded as PNG, which
      Jimp decodes again unless `read` says it rejects. */
  function CroppedBuffer(c: CropRect, read: bool, hasAlpha: bool): ImageBuffer
    requires c.w >= 0 && c.h >= 0
  {
    ImageBuffer(true, Some(PngMime), if read then Some(Bitmap(c.w, c.h, hasAlpha)) else None)
  }

  /** Every stage of the photo branch up to and including OCR succeeds. */
  predicate ReachesOcr(env: PhotoEnv) {
    && env.download.Some?
    && var d := env.download.value;
    && d.buffer.isBuffer
    && d.length >= MinDownloadLength
    && IsImageMime(d.buffer.sniffedMime)
    && env.originalSaved
    && CropFromTop(d.buffer, Number(TopMargin), RightMargin).Ok?
    && env.croppedEncoded
    && env.croppedRead
    && env.processedEncoded
    && env.processedSaved
    && env.ocr.Some?
  }

  /** The notice the photo branch sends when nothing is recognised. */
  function NothingRecognised(channel: Channel, env: PhotoEnv): Action {
    SendMessage(Me, UnrecognisedNotice(channel.title), Some(ProcessedPath(env.clock)))
  }

  /** The handler for one post, returning the outbound calls it makes. */
  method HandleEvent(msg: Message, channel: Channel, env: PhotoEnv) returns (sent: seq<Action>)
    // a photo is never forwarded and never relayed as text
    ensures msg.media == Photo ==> sent == [] || sent == [NothingRecognised(channel, env)]
    // it is answered exactly when every stage succeeds and the cleaned text is empty
    ensures msg.media == Photo ==>
      (sent != [] <==> ReachesOcr(env) && Clean(env.ocr.value) == [])
    // a download shorter than 100 bytes ends the branch silently
    ensures msg.media == Photo && env.download.Some? && env.download.value.length < MinDownloadLength ==> sent == []
    // a post that is not a photo yields exactly one call
    ensures msg.media == OtherMedia ==> sent == [Forward(Me, [msg], channel)]
    ensures msg.media == NoMedia ==> sent == [SendMessage(Me, NewPostNotice(channel.title, msg.text), None)]
  {
    sent := [];
    if msg.media == Photo {
      sent := HandlePhoto(channel, env);
    }
    if msg.media != NoMedia && msg.media != Photo {
      sent := sent + [Forward(Me, [msg], channel)];
    } else if msg.media != Photo {
      sent := sent + [SendMessage(Me, NewPostNotice(channel.title, msg.text), None)];
    }
  }

  /** The photo branch: the try block whose every throw is caught and logged.
      It answers at most once, with the "not recognised" notice, and exactly
      when every stage succeeds and the cleaned text is empty. */
  method HandlePhoto(channel: Channel, env: PhotoEnv) returns (sent: seq<Action>)
    ensures sent == [] || sent == [NothingRecognised(channel, env)]
    ensures sent != [] <==> ReachesOcr(env) && Clean(env.ocr.value) == []
    ensures env.download.Some? && env.download.value.length < MinDownloadLength ==> sent == []
  {
    sent := [];
    var rawText := RecognisePhoto(env);
    if rawText.None? {
      return;
    }
    var cleanedText := Clean(rawText.value);
    if |cleanedText| > 0 {
      // the text is only logged
    } else {
      sent := [NothingRecognised(channel, env)];
    }
  }

  /** The stages of the photo branch up to OCR: the recognised text, or None
      when some stage throws. */
  method RecognisePhoto(env: PhotoEnv) returns (text: Option<string>)
    ensures text.Some? <==> ReachesOcr(env)
    ensures text.Some? ==> text == env.ocr
  {
    text := None;
    // each early return is a caught throw
    if env.download.None? {
      return;
    }
    var downloaded := env.download.value;
    var buffer := downloaded.buffer;
    if !buffer.isBuffer || downloaded.length < MinDownloadLength {
      return;
    }
    if !IsImageMime(buffer.sniffedMime) {
      return;
    }
    if !env.originalSaved {
      return;
    }
    var crop := CropFromTop(buffer, Number(TopMargin), RightMargin);
    if crop.Err? {
      return;
    }
    if !env.croppedEncoded {
      return;
    }
    var croppedBuffer := CroppedBuffer(crop.value, env.croppedRead, env.croppedHasAlpha);
    var processed := Preprocess(croppedBuffer, env.processedEncoded);
    if processed.Err? {
      return;
    }
    if !env.processedSaved {
      return;
    }
    text := env.ocr;
  }

  /** A photo whose OCR text contains a kept letter, digit or mark is never
      answered: its text is only logged. */
  lemma RecognisedTextOnlyLogged(env: PhotoEnv, i: nat)
    requires env.ocr.Some? && i < |env.ocr.value|
    requires IsKept(env.ocr.value[i]) && !IsJsSpace(env.ocr.value[i])
    ensures Clean(env.ocr.value) != []
  {
    KeptGlyphsHas(env.ocr.value, i);
    CleanEmptyIff(env.ocr.value);
  }

  lemma {:induction false} KeptGlyphsHas(raw: string, i: nat)
    requires i < |raw| && IsKept(raw[i]) && !IsJsSpace(raw[i])
    ensures KeptGlyphs(raw) != []
    decreases i
  {
    if i > 0 && !(IsKept(raw[0]) && !IsJsSpace(raw[0])) {
      KeptGlyphsHas(raw[1..], i - 1);
    }
  }
}

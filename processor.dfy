/**
 * The conversion worker (main.py:98-211).  `ImageProcessor` runs one
 * request: Base64 text to image, or image file to Data-URI.  It emits a
 * fixed sequence of progress events (10, 30, 60, 100 for decoding; 10, 40,
 * 80, 100 for encoding) and then exactly one terminal event: the result, or
 * the error that aborted the run.
 *
 * The image library and the file system are outside the model; they enter
 * as the functions `openImage` (recognise and load an image from bytes) and
 * `readFile` (read a whole file), each of which may fail.
 */
module Processor {
  import opened Wrappers
  import opened Base64
  import opened DataUri
  import opened Extractor
  import Mime

  /** The request tag: which pipeline a worker runs. */
  datatype ConversionMode = Base64ToImage | ImageToBase64

  /** What the image library reports about an image it has loaded. */
  datatype ImageInfo = ImageInfo(format: string, colorMode: string, width: nat, height: nat)

  /** Why a run was aborted. */
  datatype ConversionError =
    | InvalidBase64          // the candidate text is not Base64
    | UnrecognizedImageData  // the image library cannot load the bytes
    | IoFailure              // the file cannot be read

  /** The step a progress event announces. */
  datatype Stage =
    | ParsingBase64 | DecodingBinary | BuildingImage | ConversionDone
    | ReadingFile | EncodingBase64 | BuildingDataUri | EncodingDone

  /** The signals a worker emits, in order. */
  datatype Event =
    | Progress(percent: nat, stage: Stage)
    | ImageReady(image: ImageInfo, size: nat)  // the loaded image and the decoded byte count
    | DataUriReady(uri: string, size: nat)     // the Data-URI and the file's byte count
    | Failed(error: ConversionError)

  /** The percentages of the progress events of a trace, in order. */
  function Percents(t: seq<Event>): (ps: seq<nat>) {
    if |t| == 0 then []
    else (if t[0].Progress? then [t[0].percent] else []) + Percents(t[1..])
  }

  lemma {:induction false} PercentsAppend(a: seq<Event>, b: seq<Event>)
    ensures Percents(a + b) == Percents(a) + Percents(b)
    decreases |a|
  {
    if |a| == 0 {
      assert a + b == b;
    } else {
      var head := if a[0].Progress? then [a[0].percent] else [];
      assert (a + b)[1..] == a[1..] + b;
      assert Percents(a + b) == head + Percents(a[1..] + b);
      PercentsAppend(a[1..], b);
      ConcatAssoc(head, Percents(a[1..]), Percents(b));
    }
  }

  lemma ConcatAssoc(x: seq<nat>, y: seq<nat>, z: seq<nat>)
    ensures x + (y + z) == (x + y) + z
  {
  }

  /** A run of progress events closed by one other event reports exactly the progress percentages. */
  lemma {:induction false} PercentsOfRun(ps: seq<Event>, last: Event)
    requires forall k :: 0 <= k < |ps| ==> ps[k].Progress?
    requires !last.Progress?
    ensures |Percents(ps + [last])| == |ps|
    ensures forall k :: 0 <= k < |ps| ==> Percents(ps + [last])[k] == ps[k].percent
    decreases |ps|
  {
    if |ps| == 0 {
      assert ([] + [last])[1..] == [];
    } else {
      assert (ps + [last])[1..] == ps[1..] + [last];
      PercentsOfRun(ps[1..], last);
    }
  }

  predicate StrictlyIncreasing(s: seq<nat>) {
    forall i, j :: 0 <= i < j < |s| ==> s[i] < s[j]
  }

  predicate Succeeded(t: seq<Event>) {
    |t| > 0 && (t[|t| - 1].ImageReady? || t[|t| - 1].DataUriReady?)
  }

  /**
   * The shape every run has: progress events with strictly increasing
   * percentages no greater than 100, then one terminal event.  A run that
   * succeeds reports 100 as its last progress; a run that fails never
   * reports 100.
   */
  predicate WellFormedRun(t: seq<Event>) {
    && |t| > 0
    && (forall k :: 0 <= k < |t| - 1 ==> t[k].Progress?)
    && !t[|t| - 1].Progress?
    && StrictlyIncreasing(Percents(t))
    && (forall k :: 0 <= k < |Percents(t)| ==> Percents(t)[k] <= 100)
    && (Succeeded(t) ==> |Percents(t)| > 0 && Percents(t)[|Percents(t)| - 1] == 100)
    && (!Succeeded(t) ==> 100 !in Percents(t))
  }

  /** The events of a decode run on `raw`, error signal included (main.py:126-179). */
  function DecodeTrace(raw: string, openImage: seq<Byte> -> Option<ImageInfo>): (t: seq<Event>) {
    DecodeTraceFrom(Decode(Extract(raw).payload), openImage)
  }

  /** The events of a decode run, once the extracted text has been decoded to `decoded`. */
  function DecodeTraceFrom(decoded: Option<seq<Byte>>, openImage: seq<Byte> -> Option<ImageInfo>): (t: seq<Event>) {
    [Progress(10, ParsingBase64), Progress(30, DecodingBinary)] +
    match decoded
    case None => [Failed(InvalidBase64)]
    case Some(bytes) =>
      [Progress(60, BuildingImage)] +
      match openImage(bytes)
      case None => [Failed(UnrecognizedImageData)]
      case Some(image) => [Progress(100, ConversionDone), ImageReady(image, |bytes|)]
  }

  /** The events of an encode run on the file `path`, error signal included (main.py:181-211). */
  function EncodeTrace(path: string, readFile: string -> Option<seq<Byte>>): (t: seq<Event>) {
    [Progress(10, ReadingFile)] +
    match readFile(path)
    case None => [Failed(IoFailure)]
    case Some(bytes) =>
      [Progress(40, EncodingBase64), Progress(80, BuildingDataUri), Progress(100, EncodingDone),
       DataUriReady(Build(Mime.MimeFor(path), Encode(bytes)), |bytes|)]
  }

  /** The events of a whole run of a worker (main.py:116-124). */
  function RunTrace(mode: ConversionMode, data: string,
                    openImage: seq<Byte> -> Option<ImageInfo>,
                    readFile: string -> Option<seq<Byte>>): (t: seq<Event>)
  {
    if mode == Base64ToImage then DecodeTrace(data, openImage) else EncodeTrace(data, readFile)
  }

  /**
   * The extraction step as the worker performs it (main.py:133-148): the
   * leftmost Data-URI's groups, or the whitespace-free text padded in place.
   * The padding test also asks whether the text is made of payload
   * characters, but only the length decides whether `=` is appended.
   */
  method ExtractCandidate(rawText: string) returns (b64Data: string, mimeType: string)
    ensures Extracted(b64Data, mimeType) == Extract(rawText)
  {
    var found := FindMatch(rawText, 0);
    if found.Some? {
      b64Data := found.value.groups.payload;
      mimeType := found.value.groups.mime;
    } else {
      b64Data := StripWhitespace(rawText);
      if |b64Data| % 4 != 0 || !IsPayload(b64Data) {
        var missingPadding := |b64Data| % 4;
        if missingPadding != 0 {
          b64Data := b64Data + seq(4 - missingPadding, _ => PadChar);
        }
      }
      mimeType := UnknownMime;
    }
  }

  /** Events emitted one by one after a first event, regrouped as that event followed by the rest. */
  lemma EmittedOne(o: seq<Event>, a: Event, rest: seq<Event>)
    ensures |rest| == 1 ==> o + [a] + [rest[0]] == o + ([a] + rest)
    ensures |rest| == 4 ==> o + [a] + [rest[0]] + [rest[1]] + [rest[2]] + [rest[3]] == o + ([a] + rest)
  {
  }

  /** Events emitted one by one after two first events, regrouped as those two followed by the rest. */
  lemma EmittedTwo(o: seq<Event>, a: Event, b: Event, rest: seq<Event>)
    ensures |rest| == 1 ==> o + [a] + [b] + [rest[0]] == o + ([a, b] + rest)
    ensures |rest| == 2 ==> o + [a] + [b] + [rest[0]] + [rest[1]] == o + ([a, b] + rest)
    ensures |rest| == 3 ==> o + [a] + [b] + [rest[0]] + [rest[1]] + [rest[2]] == o + ([a, b] + rest)
  {
  }

  /** The worker object: its request and the signals it has emitted so far. */
  class ImageProcessor {
    const mode: ConversionMode
    const data: string  // Base64 text to decode, or the path of the file to encode
    var events: seq<Event>

    constructor (mode: ConversionMode, data: string)
      ensures this.mode == mode && this.data == data && events == []
    {
      this.mode := mode;
      this.data := data;
      events := [];
    }

    method Emit(e: Event)
      modifies this
      ensures events == old(events) + [e]
    {
      events := events + [e];
    }

    /**
     * Base64 text to image.  On success every event of the run has been
     * emitted; on failure every event but the error signal, which `Run`
     * emits for the error returned.
     */
    method ProcessB2I(openImage: seq<Byte> -> Option<ImageInfo>) returns (failure: Option<ConversionError>)
      modifies this
      ensures failure.None? ==> events == old(events) + DecodeTrace(data, openImage)
      ensures failure.Some? ==> events + [Failed(failure.value)] == old(events) + DecodeTrace(data, openImage)
    {
      var rawText := data;
      Emit(Progress(10, ParsingBase64));
      var b64Data, mimeType := ExtractCandidate(rawText);
      Emit(Progress(30, DecodingBinary));
      var imageData := Decode(b64Data);
      assert DecodeTrace(data, openImage) == DecodeTraceFrom(imageData, openImage);
      if imageData.None? {
        EmittedTwo(old(events), Progress(10, ParsingBase64), Progress(30, DecodingBinary), [Failed(InvalidBase64)]);
        return Some(InvalidBase64);
      }
      Emit(Progress(60, BuildingImage));
      var image := openImage(imageData.value);
      if image.None? {
        EmittedTwo(old(events), Progress(10, ParsingBase64), Progress(30, DecodingBinary),
                   [Progress(60, BuildingImage)] + [Failed(UnrecognizedImageData)]);
        return Some(UnrecognizedImageData);
      }
      var sizeBytes := |imageData.value|;
      Emit(Progress(100, ConversionDone));
      Emit(ImageReady(image.value, sizeBytes));
      EmittedTwo(old(events), Progress(10, ParsingBase64), Progress(30, DecodingBinary),
                 [Progress(60, BuildingImage)] + [Progress(100, ConversionDone), ImageReady(image.value, sizeBytes)]);
      return None;
    }

    /** Image file to Data-URI; the same division of labour with `Run` as ProcessB2I. */
    method ProcessI2B(readFile: string -> Option<seq<Byte>>) returns (failure: Option<ConversionError>)
      modifies this
      ensures failure.None? ==> events == old(events) + EncodeTrace(data, readFile)
      ensures failure.Some? ==> events + [Failed(failure.value)] == old(events) + EncodeTrace(data, readFile)
    {
      var filePath := data;
      Emit(Progress(10, ReadingFile));
      var fileData := readFile(filePath);
      if fileData.None? {
        EmittedOne(old(events), Progress(10, ReadingFile), [Failed(IoFailure)]);
        return Some(IoFailure);
      }
      Emit(Progress(40, EncodingBase64));
      var b64Str := Encode(fileData.value);
      Emit(Progress(80, BuildingDataUri));
      var mime := Mime.MimeFor(filePath);
      var result := Build(mime, b64Str);
      Emit(Progress(100, EncodingDone));
      Emit(DataUriReady(result, |fileData.value|));
      EmittedOne(old(events), Progress(10, ReadingFile),
                 [Progress(40, EncodingBase64), Progress(80, BuildingDataUri), Progress(100, EncodingDone),
                  DataUriReady(result, |fileData.value|)]);
      return None;
    }

    /** Runs the pipeline the mode selects and turns an abort into the error signal. */
    method Run(openImage: seq<Byte> -> Option<ImageInfo>, readFile: string -> Option<seq<Byte>>)
      modifies this
      ensures events == old(events) + RunTrace(mode, data, openImage, readFile)
    {
      var failure: Option<ConversionError>;
      if mode == Base64ToImage {
        failure := ProcessB2I(openImage);
      } else {
        failure := ProcessI2B(readFile);
      }
      if failure.Some? {
        Emit(Failed(failure.value));
      }
    }
  }

  /**
   * Progress events with the given percentages, strictly increasing and at
   * most 100, closed by one terminal event form a well-formed run when 100
   * is reported exactly before a success.
   */
  lemma RunShape(ps: seq<Event>, last: Event, pcts: seq<nat>)
    requires |ps| == |pcts|
    requires forall k :: 0 <= k < |ps| ==> ps[k].Progress? && ps[k].percent == pcts[k]
    requires !last.Progress?
    requires StrictlyIncreasing(pcts) && forall k :: 0 <= k < |pcts| ==> pcts[k] <= 100
    requires last.ImageReady? || last.DataUriReady? ==> |pcts| > 0 && pcts[|pcts| - 1] == 100
    requires !(last.ImageReady? || last.DataUriReady?) ==> 100 !in pcts
    ensures Percents(ps + [last]) == pcts
    ensures WellFormedRun(ps + [last])
  {
    var t := ps + [last];
    PercentsOfRun(ps, last);
    assert Percents(t) == pcts;
    assert forall k :: 0 <= k < |t| - 1 ==> t[k].Progress? by {
      assert forall k :: 0 <= k < |ps| ==> t[k] == ps[k];
    }
    assert t[|t| - 1] == last;
    assert Succeeded(t) <==> last.ImageReady? || last.DataUriReady?;
  }

  /** Every decode run is well formed; it succeeds with exactly 10, 30, 60, 100. */
  lemma DecodeTraceShape(raw: string, openImage: seq<Byte> -> Option<ImageInfo>)
    ensures var t := DecodeTrace(raw, openImage);
      && WellFormedRun(t)
      && (Succeeded(t) <==> Percents(t) == [10, 30, 60, 100])
      && (!Succeeded(t) ==> Percents(t) == [10, 30] || Percents(t) == [10, 30, 60])
  {
    DecodeTraceFromShape(Decode(Extract(raw).payload), openImage);
  }

  lemma DecodeTraceFromShape(decoded: Option<seq<Byte>>, openImage: seq<Byte> -> Option<ImageInfo>)
    ensures var t := DecodeTraceFrom(decoded, openImage);
      && WellFormedRun(t)
      && (Succeeded(t) <==> Percents(t) == [10, 30, 60, 100])
      && (!Succeeded(t) ==> Percents(t) == [10, 30] || Percents(t) == [10, 30, 60])
  {
    var t := DecodeTraceFrom(decoded, openImage);
    var p10, p30 := Progress(10, ParsingBase64), Progress(30, DecodingBinary);
    match decoded
    case None =>
      assert t == [p10, p30] + [Failed(InvalidBase64)];
      RunShape([p10, p30], Failed(InvalidBase64), [10, 30]);
    case Some(bytes) =>
      var p60 := Progress(60, BuildingImage);
      match openImage(bytes)
      case None =>
        assert t == [p10, p30, p60] + [Failed(UnrecognizedImageData)];
        RunShape([p10, p30, p60], Failed(UnrecognizedImageData), [10, 30, 60]);
      case Some(image) =>
        var ps := [p10, p30, p60, Progress(100, ConversionDone)];
        assert t == ps + [ImageReady(image, |bytes|)];
        RunShape(ps, ImageReady(image, |bytes|), [10, 30, 60, 100]);
  }

  /** Every encode run is well formed; it succeeds with exactly 10, 40, 80, 100. */
  lemma EncodeTraceShape(path: string, readFile: string -> Option<seq<Byte>>)
    ensures var t := EncodeTrace(path, readFile);
      && WellFormedRun(t)
      && (Succeeded(t) <==> Percents(t) == [10, 40, 80, 100])
      && (!Succeeded(t) ==> Percents(t) == [10])
  {
    var t := EncodeTrace(path, readFile);
    var p10 := Progress(10, ReadingFile);
    match readFile(path)
    case None =>
      assert t == [p10] + [Failed(IoFailure)];
      RunShape([p10], Failed(IoFailure), [10]);
      assert Percents(t) == [10] && !Succeeded(t);
    case Some(bytes) =>
      var last := DataUriReady(Build(Mime.MimeFor(path), Encode(bytes)), |bytes|);
      var p40, p80, p100 := Progress(40, EncodingBase64), Progress(80, BuildingDataUri), Progress(100, EncodingDone);
      assert t == [p10] + [p40, p80, p100, last];
      assert t == [p10, p40, p80, p100] + [last];
      RunShape([p10, p40, p80, p100], last, [10, 40, 80, 100]);
      assert Percents(t) == [10, 40, 80, 100] && Succeeded(t);
  }

  /** Every run of a worker, in either mode, is well formed. */
  lemma RunTraceShape(mode: ConversionMode, data: string,
                      openImage: seq<Byte> -> Option<ImageInfo>,
                      readFile: string -> Option<seq<Byte>>)
    ensures WellFormedRun(RunTrace(mode, data, openImage, readFile))
  {
    if mode == Base64ToImage {
      DecodeTraceShape(data, openImage);
    } else {
      EncodeTraceShape(data, readFile);
    }
  }

  /**
   * How a decode run ends: invalid Base64 when the extracted text does not
   * decode, unrecognised data when the image library rejects the bytes,
   * and otherwise the image with the decoded byte count.
   */
  lemma DecodeTraceOutcome(raw: string, openImage: seq<Byte> -> Option<ImageInfo>)
    ensures var t, d := DecodeTrace(raw, openImage), Decode(Extract(raw).payload);
      && (t[|t| - 1] == Failed(InvalidBase64) <==> d.None?)
      && (t[|t| - 1] == Failed(UnrecognizedImageData) <==> d.Some? && openImage(d.value).None?)
      && (Succeeded(t) <==> d.Some? && openImage(d.value).Some?)
      && (Succeeded(t) ==> t[|t| - 1] == ImageReady(openImage(d.value).value, |d.value|))
  {
  }

  /**
   * An encode run of a non-empty file yields a Data-URI that the decode
   * pipeline reads back: the extractor recovers the Base64 text and the
   * subtype, the text decodes to the file's bytes, and a decode run on the
   * URI loads exactly the image the file holds.
   */
  lemma EncodeThenDecode(path: string, readFile: string -> Option<seq<Byte>>,
                         openImage: seq<Byte> -> Option<ImageInfo>)
    requires readFile(path).Some? && |readFile(path).value| > 0
    ensures var t, bytes := EncodeTrace(path, readFile), readFile(path).value;
      && Succeeded(t)
      && t[|t| - 1].size == |bytes|
      && Extract(t[|t| - 1].uri) == Extracted(Encode(bytes), Mime.MimeFor(path))
      && Decode(Extract(t[|t| - 1].uri).payload) == Some(bytes)
      && DecodeTrace(t[|t| - 1].uri, openImage) == DecodeTrace(Encode(bytes), openImage)
  {
    var bytes := readFile(path).value;
    var b64, mime := Encode(bytes), Mime.MimeFor(path);
    var uri := Build(mime, b64);
    var t := EncodeTrace(path, readFile);
    assert t == [Progress(10, ReadingFile)] +
      [Progress(40, EncodingBase64), Progress(80, BuildingDataUri), Progress(100, EncodingDone), DataUriReady(uri, |bytes|)];
    assert t[|t| - 1] == DataUriReady(uri, |bytes|);
    EncodingIsPayload(bytes);
    ExtractInvertsBuild(mime, b64);
    DecodeEncode(bytes);
    ExtractBareEncoding(bytes);
    assert DecodeTrace(uri, openImage) == DecodeTraceFrom(Some(bytes), openImage);
    assert DecodeTrace(b64, openImage) == DecodeTraceFrom(Some(bytes), openImage);
  }

  /** Bare Base64 text without a Data-URI around it is taken as it is. */
  lemma ExtractBareEncoding(bytes: seq<Byte>)
    ensures Extract(Encode(bytes)).payload == Encode(bytes)
  {
    var s := Encode(bytes);
    assert forall k :: 0 <= k < |s| ==> s[k] != ':' && !IsWhitespace(s[k]);
    NoMatchWithoutColon(s);
    assert StripWhitespace(s) == s;
    WholeGroups(|s|, (|bytes| + 2) / 3);
    ExtractFallback(s);
  }

  /**
   * An empty file is encoded to `data:image/<subtype>;base64,` with nothing
   * after the comma.  The decode pipeline does not recognise that URI: the
   * extractor falls back to the raw text with subtype `unknown`, and the
   * candidate keeps the URI's `:`.  The strict decoder of this model rejects
   * that `:`, so the modelled run ends with invalid Base64; Python's lenient
   * decoder skips it instead (see README, "Left out").
   */
  lemma EmptyFileNotReadBack(path: string, readFile: string -> Option<seq<Byte>>,
                             openImage: seq<Byte> -> Option<ImageInfo>)
    requires readFile(path) == Some([])
    ensures var t := EncodeTrace(path, readFile);
      && Succeeded(t)
      && t[|t| - 1].uri == Build(Mime.MimeFor(path), "")
      && Extract(t[|t| - 1].uri).mime == UnknownMime
      && var d := DecodeTrace(t[|t| - 1].uri, openImage);
         d[|d| - 1] == Failed(InvalidBase64)
  {
    var mime := Mime.MimeFor(path);
    assert Encode([]) == "";
    EmptyPayloadFallback(mime);
    Base64.DecodeRejectsForeignChar(Extract(Build(mime, "")).payload, 4);
  }

  /**
   * A caller's view of one request (main.py:110-124): a fresh worker for the
   * mode and data, run to the end, emits exactly the run's events, and they
   * form a well-formed run.
   */
  method Convert(mode: ConversionMode, data: string,
                 openImage: seq<Byte> -> Option<ImageInfo>,
                 readFile: string -> Option<seq<Byte>>) returns (events: seq<Event>)
    ensures events == RunTrace(mode, data, openImage, readFile)
    ensures WellFormedRun(events)
  {
    var worker := new ImageProcessor(mode, data);
    worker.Run(openImage, readFile);
    RunTraceShape(mode, data, openImage, readFile);
    events := worker.events;
  }
}

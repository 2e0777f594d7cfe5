# Base64 ⇄ image converter: the conversion core in Dafny

The program is a desktop tool that turns Base64 text into an image and an
image file into a Data-URI (`data:image/<subtype>;base64,<payload>`). The
window, drag-and-drop and preview are only a shell. All the conversion
happens in one background worker, `ImageProcessor` in `main.py`. This
project models that worker:

- **Extractor** (`extractor.dfy`). Decoding starts by looking for the
  leftmost Data-URI in the pasted text: `data:image/`, a subtype of
  `[A-Za-z0-9+.-]`, `;base64,`, then the longest run of `[A-Za-z0-9+/=]`.
  If there is no such URI, the whole text is used with every whitespace
  character removed. It is then padded with `=` up to a multiple of four.
  The search is a recursive left-to-right scan over start positions, and
  the whitespace class is Python's `str` whitespace set.
- **Base64 codec** (`base64.dfy`). The standard alphabet with `=` padding,
  as in section 4 of RFC 4648. The encoder is total. The decoder is strict:
  it accepts exactly the canonical encodings.
- **MIME inference and Data-URI builder** (`mime.dfy`, `datauri.dfy`). The
  extension is the text after the last `.` of the path, lower-cased. It is
  looked up in the eight-entry table, and any other extension gives
  `octet-stream`. The URI is `data:image/` + subtype + `;base64,` + payload.
- **The worker** (`processor.dfy`). The class `ImageProcessor` holds the
  request (mode and data) and the sequence of signals it has emitted.
  `ProcessB2I` and `ProcessI2B` are the two pipelines. They emit progress
  events (10, 30, 60, 100 for decoding; 10, 40, 80, 100 for encoding) and
  stop at the first failure. `Run` dispatches on the mode and turns a
  failure into the error signal. Each pipeline is proved against a trace
  function (`DecodeTrace`, `EncodeTrace`). The shape of every trace is then
  proved about those functions: progress events in strictly increasing
  order, exactly one terminal event, 100 only on success.

The image library and the file system are parameters. `openImage` stands
for recognising and loading an image from bytes, and may fail.
`readFile` stands for reading a whole file, and may fail.

## Model

| member | source | states |
|---|---|---|
| Base64.CharOf | main.py:190 | every sextet is written as a character of the standard alphabet |
| Base64.ValueOf | main.py:152 | the value read for an alphabet character is the sextet that is written as that character |
| Base64.Encode | main.py:190 | the encoding of n bytes has 4·⌈n/3⌉ characters, all from the alphabet or `=`, with `=` only in the last two positions |
| Base64.Decode | main.py:152 | whatever the decoder accepts is exactly the encoding of the bytes it returns |
| Base64.DecodeEncode | main.py:152 | decoding the encoding of any byte sequence gives those bytes back |
| Base64.DecodeIffEncode | main.py:152 | a text decodes to some bytes if and only if it is their encoding |
| Base64.DecodeRejectsNonCanonical | main.py:152-154 | a text that is no byte sequence's encoding is rejected, which aborts the decode run |
| Base64.DecodeRejectsForeignChar | main.py:152-154 | a text holding a character outside the alphabet and `=` is rejected |
| Base64.EncodeTestVectors | main.py:190 | `f`, `fo`, `foo` and `foob` encode to the section 10 vectors of RFC 4648: `Zg==`, `Zm8=`, `Zm9v`, `Zm9vYg==` |
| DataUri.Build | main.py:202 | the URI is as long as its four parts together, starts with `data:image/` and ends with the Base64 text |
| DataUri.BuildParts | main.py:202 | the subtype comes right after `data:image/`, then `;base64,`, then the Base64 text, with nothing between them |
| DataUri.EncodingIsPayload | main.py:133 | every non-empty encoding consists only of characters the payload group accepts |
| Extractor.IsWhitespace | main.py:141 | the characters `\s` removes from a `str`; no contract of its own, `Extractor.StripWhitespace` states what removing them does |
| Extractor.RunLength | main.py:133 | the length of the longest run of a character class from a position: all in the class, and the next character is not |
| Extractor.RunLengthUnique | main.py:133 | a greedy group has only one possible extent: any maximal run from a position is that length |
| Extractor.IsMatchAt | main.py:133 | what it means for the pattern to match at a position with given groups: `data:image/`, a maximal non-empty subtype run, `;base64,`, a maximal non-empty payload run; a definition, used by the lemmas below |
| Extractor.MatchAt | main.py:133-134 | the anchored match attempt at one position; no contract of its own, `Extractor.MatchAtSound`, `Extractor.MatchAtComplete` and `Extractor.MatchAtNone` state that it finds exactly the matches `IsMatchAt` defines |
| Extractor.MatchAtSound | main.py:133-134 | what the anchored pattern match finds at a position is a match there, with maximal groups |
| Extractor.MatchAtComplete | main.py:133-134 | any match at a position is the one `MatchAt` returns |
| Extractor.MatchAtNone | main.py:133-134 | when `MatchAt` finds nothing, no match of any groups starts there |
| Extractor.MatchUnique | main.py:133 | the groups of a match at one position are unique |
| Extractor.MatchHasPrefix | main.py:133 | a match starts with `data:image/` |
| Extractor.MatchHasMarker | main.py:133 | in a match, the `;` of `;base64,` comes right after the subtype, and the marker and payload fit in the text |
| Extractor.NoMatchWithoutColon | main.py:133-134 | text without `:` contains no match |
| Extractor.FindMatch | main.py:134 | `pattern.search`, a scan over start positions from left to right; no contract of its own, `Extractor.FindMatchLeftmost` states that it finds the leftmost match |
| Extractor.FindMatchLeftmost | main.py:134 | the search returns a match at or after its start with no match before it, or there is no match at or after its start |
| Extractor.StripWhitespace | main.py:141 | the result is no longer, holds no whitespace, and holds exactly the non-whitespace characters of the input; clean text is unchanged |
| Extractor.StripAppend | main.py:141 | removing whitespace distributes over concatenation, so order is kept |
| Extractor.Padding | main.py:145-147 | fewer than four `=` that bring the length to a multiple of four |
| Extractor.Extract | main.py:133-148 | the extraction step of the decode pipeline; no contract of its own, `Extractor.ExtractLeftmost` and `Extractor.ExtractFallback` state its two cases |
| Extractor.ExtractLeftmost | main.py:134-138 | with a match, the extractor returns the payload and subtype of the leftmost one |
| Extractor.ExtractFallback | main.py:139-148 | without a match, the subtype is `unknown`; the payload is the whitespace-free text followed only by 0-3 `=`, its length is a multiple of four, and nothing else is repaired |
| Extractor.BuildMatches | main.py:133 | a built Data-URI at the start of a text matches the pattern there unless a payload character follows it |
| Extractor.ExtractInvertsBuild | main.py:133-138 | extracting from a built Data-URI gives back its payload and subtype |
| Extractor.LineBreakEndsPayload | main.py:133 | a line break ends the payload group: only the Base64 text before the break is extracted, and the rest of a wrapped payload is dropped |
| Extractor.NoMatchWithEmptyPayload | main.py:133 | a Data-URI built with an empty payload does not match the pattern |
| Extractor.EmptyPayloadFallback | main.py:133-148 | on such a URI the extractor falls back, with subtype `unknown`, and keeps the URI's `:` in the candidate |
| Mime.Split | main.py:195 | `split('.')`; it always gives at least one piece, and `Mime.SplitSingle`, `Mime.SplitPieces` and `Mime.JoinSplit` state what the pieces are |
| Mime.SplitSingle | main.py:195 | `split('.')` gives one piece, the path itself, exactly when the path has no dot |
| Mime.SplitPieces | main.py:195 | no piece of `split('.')` holds a dot |
| Mime.JoinSplit | main.py:195 | joining the pieces of `split('.')` with dots gives the path back |
| Mime.LastPieceAfterLastDot | main.py:195 | the last piece is the suffix after the last dot, or the whole path |
| Mime.Extension | main.py:195 | the extension is a dot-free suffix of the path, preceded by `.` unless it is the whole path |
| Mime.ExtensionOfDotted | main.py:195 | the extension of `stem.ext` is `ext` for a dot-free `ext`, whatever the stem |
| Mime.ExtensionWithoutDot | main.py:195 | a path without a dot is its own extension |
| Mime.ToLower | main.py:195 | lower-casing keeps the length, maps each upper-case ASCII letter to its lower-case letter and keeps every other character; no upper-case ASCII letter is left |
| Mime.LowerCaseUnchanged | main.py:195 | a text without upper-case ASCII letters is its own lower-case form |
| Mime.ToLowerIdempotent | main.py:195 | lower-casing twice is lower-casing once |
| Mime.MimeFor | main.py:195-201 | the subtype is a table value or `octet-stream`, and is always a valid subtype token |
| Mime.DefaultIffUnlisted | main.py:201 | `octet-stream` is chosen exactly when the lower-cased extension is not in the table |
| Mime.MimeForDotted | main.py:195-201 | for `stem.ext`, only the lower-cased `ext` decides the subtype |
| Mime.UpperCaseExtension | main.py:195-201 | `photo.JPG` gives `jpeg` |
| Mime.UnlistedExtension | main.py:201 | `photo.xyz` gives `octet-stream` |
| Processor.DecodeTrace | main.py:126-179 | the events of a decode run, error signal included; `Processor.DecodeTraceShape` and `Processor.DecodeTraceOutcome` state their shape and outcome |
| Processor.DecodeTraceFrom | main.py:150-179 | the events from the Base64 decode on; `Processor.DecodeTraceFromShape` states their shape |
| Processor.EncodeTrace | main.py:181-211 | the events of an encode run, error signal included; `Processor.EncodeTraceShape` states their shape |
| Processor.RunTrace | main.py:116-124 | the events of a whole run in the selected mode; `Processor.RunTraceShape` states their shape |
| Processor.ExtractCandidate | main.py:128-148 | the extraction steps of the decode pipeline, with in-place padding, compute the extractor's payload and subtype |
| Processor.ImageProcessor.constructor | main.py:110-114 | a new worker holds its mode and data and has emitted nothing |
| Processor.ImageProcessor.Emit | main.py:104-107 | emitting appends one signal |
| Processor.ImageProcessor.ProcessB2I | main.py:126-179 | emits the decode trace; on failure, all of it except the final error signal, whose error it returns |
| Processor.ImageProcessor.ProcessI2B | main.py:181-211 | emits the encode trace; on failure, all of it except the final error signal, whose error it returns |
| Processor.ImageProcessor.Run | main.py:116-124 | runs the pipeline the mode selects and emits exactly that run's trace, error signal included |
| Processor.Convert | main.py:110-124 | a fresh worker run to completion emits exactly the run's trace, and that trace is well formed |
| Processor.DecodeTraceShape | main.py:129-179 | every decode trace is well formed; it succeeds exactly with progress 10, 30, 60, 100; a failure stops after 10, 30 or after 10, 30, 60 |
| Processor.DecodeTraceFromShape | main.py:150-179 | the same, for any decoder outcome |
| Processor.EncodeTraceShape | main.py:184-211 | every encode trace is well formed; it succeeds exactly with 10, 40, 80, 100; a failure stops after 10 |
| Processor.RunTraceShape | main.py:116-124 | every run, in either mode, is well formed, and a failed run never reports 100 |
| Processor.RunShape | main.py:129-211 | progress events with strictly increasing percentages up to 100, closed by one terminal event, form a well-formed run when 100 is reported exactly before a success |
| Processor.PercentsOfRun | main.py:129-211 | the percentages of progress events closed by one other event are exactly those events' percentages, in order |
| Processor.PercentsAppend | main.py:129-211 | the percentages of two traces in sequence are concatenated |
| Processor.DecodeTraceOutcome | main.py:150-179 | a decode run fails with invalid Base64 iff the candidate does not decode; fails with unrecognized image data iff it decodes but the image library rejects it; otherwise it reports the loaded image and the decoded size |
| Processor.EncodeThenDecode | main.py:133-211 | for a non-empty readable file, the encode run succeeds with the file's size, and pasting its Data-URI back extracts the encoding, decodes to the file's bytes, and runs like pasting the bare encoding |
| Processor.ExtractBareEncoding | main.py:139-148 | bare Base64 output passes through the fallback unchanged |
| Processor.EmptyFileNotReadBack | main.py:133-211 | an empty file encodes to `data:image/<subtype>;base64,`, which the pattern does not match: the extractor falls back to `unknown` and keeps the URI's `:` in the candidate, which the model's strict decoder rejects, so the modelled run fails with invalid Base64 |

## Left out

- The Qt window, widgets, drag-and-drop, preview, saving, clipboard and the thread machinery (`QThread`, signals across threads) are not modelled. Emitted signals are recorded in the worker's `events` field.
- Image loading (`Image.open` / `load`) and file reading (`open(...).read()`) are foreign code. They are the function parameters `openImage` and `readFile`, and their failures are `None`.
- Timing (`time.perf_counter`, the `time` entry of the performance data) is not modelled, because it is clock input and floating point.
- Base64.Decode: stricter than Python's `base64.b64decode`, which by default discards characters outside the alphabet and tolerates non-zero padding bits. The model accepts only canonical encodings, so on some inputs the modelled run fails where the program would decode.
- Processor.EmptyFileNotReadBack: its invalid-Base64 ending holds for the model's strict decoder only. Python's `b64decode` drops the `:`, `;`, `,` and `-` of the fallback text. For every subtype except `x-icon` what remains decodes, so the program's run reaches 60 and fails with unrecognized image data. For `x-icon` 21 alphabet characters remain and it fails with invalid Base64, as modelled.
- Mime.ToLower: lower-cases ASCII letters only. Python's `str.lower` also maps non-ASCII letters, but no non-ASCII lower-casing yields one of the eight table keys, so the chosen subtype is the same.
- Progress labels and error message texts (Chinese strings) are replaced by the `Stage` and `ConversionError` tags.
- `is_running` is set by the constructor but never read, so it is not modelled.
- A worker created without data (`data=None`) raises a `TypeError` inside `run`. The model's data is always a string.
- The subtype captured by the extractor (`mime_type`) is computed but never used by the program. The model computes it and proves properties of it, but nothing downstream uses it.
- The performance data's image fields (format, mode, width, height) are carried as the opaque `ImageInfo` value returned by `openImage`.

/**
 * The Data-URI wire format that the encoder produces and the decoder looks
 * for: `data:image/<subtype>;base64,<payload>`, a `data:` URL in the sense
 * of section 3 of RFC 2397, restricted to image media types and to the
 * base64 form.
 */
module DataUri {
  import Base64

  const DataPrefix: string := "data:image/"
  const Base64Marker: string := ";base64,"

  /** The characters allowed in the subtype token: `[A-Za-z0-9+.-]`. */
  predicate IsSubtypeChar(c: char) {
    'A' <= c <= 'Z' || 'a' <= c <= 'z' || '0' <= c <= '9' || c == '+' || c == '.' || c == '-'
  }

  /** The characters allowed in the payload: the Base64 alphabet and `=`. */
  predicate IsPayloadChar(c: char) {
    Base64.IsAlphabetChar(c) || c == Base64.PadChar
  }

  /** A subtype token as the pattern captures it: non-empty, subtype characters only. */
  predicate IsSubtype(m: string) {
    |m| > 0 && forall k :: 0 <= k < |m| ==> IsSubtypeChar(m[k])
  }

  /** A payload as the pattern captures it: non-empty, payload characters only. */
  predicate IsPayload(p: string) {
    |p| > 0 && forall k :: 0 <= k < |p| ==> IsPayloadChar(p[k])
  }

  /** The Data-URI the encoder emits for a MIME subtype and a Base64 text. */
  function Build(mime: string, b64: string): (uri: string)
    ensures |uri| == |DataPrefix| + |mime| + |Base64Marker| + |b64|
    ensures uri[..|DataPrefix|] == DataPrefix
    ensures uri[|uri| - |b64|..] == b64
  {
    DataPrefix + mime + Base64Marker + b64
  }

  /** The URI holds the subtype right after `data:image/`, then `;base64,`, then the Base64 text. */
  lemma BuildParts(mime: string, b64: string)
    ensures var uri, j := Build(mime, b64), |DataPrefix| + |mime|;
      && uri[..|DataPrefix|] == DataPrefix
      && uri[|DataPrefix|..j] == mime
      && uri[j..j + |Base64Marker|] == Base64Marker
      && uri[j + |Base64Marker|..] == b64
  {
    var uri, j := Build(mime, b64), |DataPrefix| + |mime|;
    assert uri == (DataPrefix + mime) + (Base64Marker + b64);
    assert uri[..j] == DataPrefix + mime;
    assert uri[j..] == Base64Marker + b64;
  }

  /** Every non-empty Base64 encoding is a payload the pattern can capture. */
  lemma EncodingIsPayload(b: seq<Base64.Byte>)
    requires |b| > 0
    ensures IsPayload(Base64.Encode(b))
  {
  }
}

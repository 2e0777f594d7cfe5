/**
 * The Base64 extractor of the decode pipeline (main.py:133-148).  It looks
 * for the leftmost Data-URI `data:image/<subtype>;base64,<payload>` in the
 * input text and returns its payload and subtype.  When there is none, it
 * treats the whole text as Base64: it removes whitespace, pads with `=` to
 * a multiple of four characters and reports the subtype "unknown".  It never
 * fails; whether the candidate is valid Base64 is left to the decoder.
 */
module Extractor {
  import opened Wrappers
  import opened DataUri
  import Base64

  const UnknownMime: string := "unknown"

  /** What the extractor hands to the decoder. */
  datatype Extracted = Extracted(payload: string, mime: string)

  /** A match of the Data-URI pattern and the position where it starts. */
  datatype Found = Found(start: nat, groups: Extracted)

  /**
   * The characters the pattern `[\s\r\n]` removes: the whitespace of
   * Python's `str` (the ASCII controls 9-13 and 28-31, space, and the
   * Unicode separators).
   */
  predicate IsWhitespace(c: char) {
    c == ' ' || '\t' <= c <= '\r' || '\U{1C}' <= c <= '\U{1F}'
    || c == '\U{85}' || c == '\U{A0}' || c == '\U{1680}'
    || '\U{2000}' <= c <= '\U{200A}' || c == '\U{2028}' || c == '\U{2029}'
    || c == '\U{202F}' || c == '\U{205F}' || c == '\U{3000}'
  }

  /**
   * The length of the longest run of characters satisfying `P` that starts
   * at position `j`: what a greedy `[...]*` consumes there.
   */
  function RunLength(s: string, j: nat, P: char -> bool): (n: nat)
    requires j <= |s|
    ensures j + n <= |s|
    ensures forall k :: j <= k < j + n ==> P(s[k])
    ensures j + n == |s| || !P(s[j + n])
    decreases |s| - j
  {
    if j < |s| && P(s[j]) then 1 + RunLength(s, j + 1, P) else 0
  }

  /** A run that is all `P` and cannot be extended is the one RunLength finds. */
  lemma {:induction false} RunLengthUnique(s: string, j: nat, P: char -> bool, n: nat)
    requires j + n <= |s|
    requires forall k :: j <= k < j + n ==> P(s[k])
    requires j + n == |s| || !P(s[j + n])
    ensures RunLength(s, j, P) == n
    decreases n
  {
    if n > 0 {
      assert P(s[j]);
      RunLengthUnique(s, j + 1, P, n - 1);
    }
  }

  /**
   * The pattern `data:image/([a-zA-Z0-9+.-]+);base64,([A-Za-z0-9+/=]+)`
   * matches at position `i` with groups `mime` and `payload`: the literal
   * prefix, the subtype, the literal marker and the payload follow each
   * other from `i` on.  The subtype group cannot swallow the `;`, so it is
   * the maximal run; the payload group is greedy and nothing follows it, so
   * it is maximal too.
   */
  predicate IsMatchAt(s: string, i: nat, mime: string, payload: string) {
    var j := i + |DataPrefix|;
    var k := j + |mime|;
    var m := k + |Base64Marker|;
    var e := m + |payload|;
    && e <= |s|
    && s[i..j] == DataPrefix
    && s[j..k] == mime
    && s[k..m] == Base64Marker
    && s[m..e] == payload
    && IsSubtype(mime)
    && IsPayload(payload)
    && (e == |s| || !IsPayloadChar(s[e]))
  }

  /** Tries the pattern at position `i` only. */
  function MatchAt(s: string, i: nat): (r: Option<Extracted>)
    requires i <= |s|
  {
    if i + |DataPrefix| <= |s| && s[i..i + |DataPrefix|] == DataPrefix then
      var j := i + |DataPrefix|;
      var k := j + RunLength(s, j, IsSubtypeChar);
      if k > j && k + |Base64Marker| <= |s| && s[k..k + |Base64Marker|] == Base64Marker then
        var m := k + |Base64Marker|;
        var e := m + RunLength(s, m, IsPayloadChar);
        if e > m then
          Some(Extracted(s[m..e], s[j..k]))
        else None
      else None
    else None
  }

  /** `s` holds `a + b` at `i` exactly when it holds `a` there and `b` right after. */
  lemma SliceTwo(s: string, i: nat, a: string, b: string)
    requires i + |a| + |b| <= |s|
    ensures s[i..i + |a| + |b|] == a + b <==> s[i..i + |a|] == a && s[i + |a|..i + |a| + |b|] == b
  {
    var j, e := i + |a|, i + |a| + |b|;
    assert s[i..e] == s[i..j] + s[j..e];
    if s[i..e] == a + b {
      assert s[i..j] == (a + b)[..|a|] == a;
      assert s[j..e] == (a + b)[|a|..] == b;
    }
  }

  /** Concatenation seen through slices: `s` holds `a + b + c + d` at `i` exactly when it holds each part in turn. */
  lemma SliceParts(s: string, i: nat, a: string, b: string, c: string, d: string)
    requires i + |a| + |b| + |c| + |d| <= |s|
    ensures var j, k, m, e := i + |a|, i + |a| + |b|, i + |a| + |b| + |c|, i + |a| + |b| + |c| + |d|;
      s[i..e] == a + b + c + d <==> s[i..j] == a && s[j..k] == b && s[k..m] == c && s[m..e] == d
  {
    SliceTwo(s, i, a + b + c, d);
    SliceTwo(s, i, a + b, c);
    SliceTwo(s, i, a, b);
  }

  /** The pieces MatchAt checks add up to a match of the pattern. */
  lemma PiecesMatch(s: string, i: nat, a: nat, b: nat)
    requires i + |DataPrefix| + a + |Base64Marker| + b <= |s|
    requires s[i..i + |DataPrefix|] == DataPrefix
    requires a > 0 && forall x :: i + |DataPrefix| <= x < i + |DataPrefix| + a ==> IsSubtypeChar(s[x])
    requires s[i + |DataPrefix| + a..i + |DataPrefix| + a + |Base64Marker|] == Base64Marker
    requires var m := i + |DataPrefix| + a + |Base64Marker|;
      b > 0 && forall x :: m <= x < m + b ==> IsPayloadChar(s[x])
    requires var e := i + |DataPrefix| + a + |Base64Marker| + b;
      e == |s| || !IsPayloadChar(s[e])
    ensures var j := i + |DataPrefix|;
      var m := j + a + |Base64Marker|;
      IsMatchAt(s, i, s[j..j + a], s[m..m + b])
  {
    var j := i + |DataPrefix|;
    var m := j + a + |Base64Marker|;
    var mime, payload := s[j..j + a], s[m..m + b];
    assert forall x :: 0 <= x < a ==> mime[x] == s[j + x];
    assert forall x :: 0 <= x < b ==> payload[x] == s[m + x];
  }

  /** What MatchAt finds at `i` is a match of the pattern there, with maximal groups. */
  lemma MatchAtSound(s: string, i: nat)
    requires i <= |s| && MatchAt(s, i).Some?
    ensures IsMatchAt(s, i, MatchAt(s, i).value.mime, MatchAt(s, i).value.payload)
  {
    var j := i + |DataPrefix|;
    var a := RunLength(s, j, IsSubtypeChar);
    var m := j + a + |Base64Marker|;
    var b := RunLength(s, m, IsPayloadChar);
    assert MatchAt(s, i).value == Extracted(s[m..m + b], s[j..j + a]);
    PiecesMatch(s, i, a, b);
  }

  /** Every match at `i` is the one MatchAt finds. */
  lemma MatchAtComplete(s: string, i: nat, mime: string, payload: string)
    requires IsMatchAt(s, i, mime, payload)
    ensures MatchAt(s, i) == Some(Extracted(payload, mime))
  {
    var j := i + |DataPrefix|;
    var k := j + |mime|;
    var m := k + |Base64Marker|;
    assert s[k] == s[k..m][0];
    SubtypeRunAt(s, j, mime);
    PayloadRunAt(s, m, payload);
    MatchAtFound(s, i, |mime|, |payload|);
  }

  /** When the tests of MatchAt pass with runs of `a` and `b` characters, it returns those groups. */
  lemma MatchAtFound(s: string, i: nat, a: nat, b: nat)
    requires i + |DataPrefix| <= |s| && s[i..i + |DataPrefix|] == DataPrefix
    requires var j := i + |DataPrefix|;
      && RunLength(s, j, IsSubtypeChar) == a > 0
      && j + a + |Base64Marker| <= |s| && s[j + a..j + a + |Base64Marker|] == Base64Marker
      && RunLength(s, j + a + |Base64Marker|, IsPayloadChar) == b > 0
    ensures var j := i + |DataPrefix|;
      var m := j + a + |Base64Marker|;
      MatchAt(s, i) == Some(Extracted(s[m..m + b], s[j..j + a]))
  {
  }

  /** The subtype group, followed by `;`, is the longest run of subtype characters. */
  lemma SubtypeRunAt(s: string, j: nat, mime: string)
    requires j + |mime| < |s| && s[j..j + |mime|] == mime && IsSubtype(mime)
    requires s[j + |mime|] == ';'
    ensures RunLength(s, j, IsSubtypeChar) == |mime|
  {
    assert forall x :: j <= x < j + |mime| ==> s[x] == mime[x - j];
    RunLengthUnique(s, j, IsSubtypeChar, |mime|);
  }

  /** The payload group, not followed by a payload character, is the longest run of them. */
  lemma PayloadRunAt(s: string, m: nat, payload: string)
    requires m + |payload| <= |s| && s[m..m + |payload|] == payload && IsPayload(payload)
    requires m + |payload| == |s| || !IsPayloadChar(s[m + |payload|])
    ensures RunLength(s, m, IsPayloadChar) == |payload|
  {
    assert forall x :: m <= x < m + |payload| ==> s[x] == payload[x - m];
    RunLengthUnique(s, m, IsPayloadChar, |payload|);
  }

  /** When MatchAt finds nothing at `i`, the pattern does not match there. */
  lemma MatchAtNone(s: string, i: nat)
    requires i <= |s| && MatchAt(s, i).None?
    ensures forall mime, payload :: !IsMatchAt(s, i, mime, payload)
  {
    forall mime, payload | IsMatchAt(s, i, mime, payload)
      ensures false
    {
      MatchAtComplete(s, i, mime, payload);
    }
  }

  /** Where the pattern matches, the text holds the literal `data:image/` at that position. */
  lemma MatchHasPrefix(s: string, i: nat, mime: string, payload: string)
    requires IsMatchAt(s, i, mime, payload)
    ensures i + |DataPrefix| <= |s| && s[i..i + |DataPrefix|] == DataPrefix
  {
  }

  /** Where the pattern matches, the `;` of `;base64,` follows the subtype group. */
  lemma MatchHasMarker(s: string, i: nat, mime: string, payload: string)
    requires IsMatchAt(s, i, mime, payload)
    ensures var k := i + |DataPrefix| + |mime|;
      k + |Base64Marker| + |payload| <= |s| && s[k] == ';'
  {
    var k := i + |DataPrefix| + |mime|;
    assert s[k] == s[k..k + |Base64Marker|][0];
  }

  /** The characters of a Data-URI with an empty payload. */
  lemma EmptyPayloadChars(mime: string)
    requires IsSubtype(mime)
    ensures var s := Build(mime, "");
      && (forall x :: 0 <= x < |s| ==> !IsWhitespace(s[x]))
      && (forall x :: 0 <= x < |DataPrefix| + |mime| ==> s[x] != ';')
      && s[4] == ':'
  {
    var s := Build(mime, "");
    forall x | 0 <= x < |s|
      ensures !IsWhitespace(s[x])
      ensures x < |DataPrefix| + |mime| ==> s[x] != ';'
    {
      if x < |DataPrefix| {
        assert s[x] == DataPrefix[x];
      } else if x < |DataPrefix| + |mime| {
        assert s[x] == mime[x - |DataPrefix|];
      } else {
        assert s[x] == Base64Marker[x - |DataPrefix| - |mime|];
      }
    }
  }

  /**
   * A Data-URI whose payload is empty is not matched anywhere: the pattern
   * needs at least one payload character after the only `;base64,`.
   */
  lemma NoMatchWithEmptyPayload(mime: string)
    requires IsSubtype(mime)
    ensures forall q: nat, m, p :: !IsMatchAt(Build(mime, ""), q, m, p)
  {
    var s := Build(mime, "");
    EmptyPayloadChars(mime);
    forall q: nat, m, p | IsMatchAt(s, q, m, p)
      ensures false
    {
      MatchHasMarker(s, q, m, p);
    }
  }

  /**
   * The extractor falls back on a Data-URI with an empty payload, and the
   * fallback keeps the URI's `:` in place.
   */
  lemma EmptyPayloadFallback(mime: string)
    requires IsSubtype(mime)
    ensures var r := Extract(Build(mime, ""));
      r.mime == UnknownMime && |r.payload| > 4 && r.payload[4] == ':'
  {
    var uri := Build(mime, "");
    NoMatchWithEmptyPayload(mime);
    EmptyPayloadChars(mime);
    ExtractFallback(uri);
    assert StripWhitespace(uri) == uri;
  }

  /** Text without a colon holds no Data-URI. */
  lemma NoMatchWithoutColon(s: string)
    requires ':' !in s
    ensures forall q: nat, mime, payload :: !IsMatchAt(s, q, mime, payload)
  {
    forall q: nat, mime, payload | IsMatchAt(s, q, mime, payload)
      ensures false
    {
      MatchHasPrefix(s, q, mime, payload);
      ColonInPrefix(s, q);
    }
  }

  lemma ColonInPrefix(s: string, i: nat)
    requires i + |DataPrefix| <= |s| && s[i..i + |DataPrefix|] == DataPrefix
    ensures ':' in s
  {
    assert s[i + 4] == s[i..i + |DataPrefix|][4];
  }

  /** The pattern matches at `i` with at most one pair of groups. */
  lemma MatchUnique(s: string, i: nat, m1: string, p1: string, m2: string, p2: string)
    requires IsMatchAt(s, i, m1, p1) && IsMatchAt(s, i, m2, p2)
    ensures m1 == m2 && p1 == p2
  {
    MatchAtComplete(s, i, m1, p1);
    MatchAtComplete(s, i, m2, p2);
  }

  /**
   * `re.search`: the leftmost position at or after `from` where the pattern
   * matches, scanning start positions left to right.
   */
  function FindMatch(s: string, from: nat): (r: Option<Found>)
    requires from <= |s|
    decreases |s| - from
  {
    match MatchAt(s, from)
    case Some(x) => Some(Found(from, x))
    case None => if from == |s| then None else FindMatch(s, from + 1)
  }

  /**
   * The search returns a match at or after `from` with none before it, or
   * reports that there is no match at or after `from`.
   */
  lemma {:induction false} FindMatchLeftmost(s: string, from: nat)
    requires from <= |s|
    ensures var r := FindMatch(s, from);
      r.Some? ==>
        && from <= r.value.start
        && IsMatchAt(s, r.value.start, r.value.groups.mime, r.value.groups.payload)
        && forall q: nat, mime, payload :: from <= q < r.value.start ==> !IsMatchAt(s, q, mime, payload)
    ensures FindMatch(s, from).None? ==> forall q: nat, mime, payload :: from <= q ==> !IsMatchAt(s, q, mime, payload)
    decreases |s| - from
  {
    var x := MatchAt(s, from);
    if x.Some? {
      MatchAtSound(s, from);
      assert FindMatch(s, from) == Some(Found(from, x.value));
    } else {
      MatchAtNone(s, from);
      if from < |s| {
        FindMatchLeftmost(s, from + 1);
        var r := FindMatch(s, from + 1);
        assert FindMatch(s, from) == r;
        var end := if r.Some? then r.value.start else |s| + 1;
        forall q: nat, mime, payload | from <= q < end
          ensures !IsMatchAt(s, q, mime, payload)
        {
          if q > from {
            assert from + 1 <= q;
          }
        }
      }
    }
  }

  /** `re.sub(r'[\s\r\n]', '', s)`: the text with every whitespace character removed. */
  function StripWhitespace(s: string): (r: string)
    ensures |r| <= |s|
    ensures forall k :: 0 <= k < |r| ==> !IsWhitespace(r[k])
    ensures forall c :: c in r <==> c in s && !IsWhitespace(c)
    ensures (forall k :: 0 <= k < |s| ==> !IsWhitespace(s[k])) ==> r == s
  {
    if |s| == 0 then ""
    else
      var rest := StripWhitespace(s[1..]);
      assert s == [s[0]] + s[1..];
      if IsWhitespace(s[0]) then rest else [s[0]] + rest
  }

  /** Stripping whitespace distributes over concatenation: order is kept. */
  lemma {:induction false} StripAppend(a: string, b: string)
    ensures StripWhitespace(a + b) == StripWhitespace(a) + StripWhitespace(b)
    decreases |a|
  {
    if |a| == 0 {
      assert a + b == b;
    } else {
      assert (a + b)[1..] == a[1..] + b;
      StripAppend(a[1..], b);
    }
  }

  /** The `=` characters that bring a length of `n` up to a multiple of four. */
  function Padding(n: nat): (p: string)
    ensures |p| < 4 && (n + |p|) % 4 == 0
    ensures forall k :: 0 <= k < |p| ==> p[k] == Base64.PadChar
  {
    if n % 4 == 0 then "" else seq(4 - n % 4, _ => Base64.PadChar)
  }

  /** The extractor: the leftmost Data-URI's groups, else the cleaned-up text. */
  function Extract(raw: string): (r: Extracted)
  {
    match FindMatch(raw, 0)
    case Some(f) => f.groups
    case None =>
      var t := StripWhitespace(raw);
      Extracted(t + Padding(|t|), UnknownMime)
  }

  /** With a match, the extractor returns the groups of the leftmost one. */
  lemma ExtractLeftmost(raw: string, i: nat, mime: string, payload: string)
    requires IsMatchAt(raw, i, mime, payload)
    requires forall q: nat, m, p :: q < i ==> !IsMatchAt(raw, q, m, p)
    ensures Extract(raw) == Extracted(payload, mime)
  {
    var r := FindMatch(raw, 0);
    FindMatchLeftmost(raw, 0);
    assert r.Some?;
    var f := r.value;
    assert f.start == i;
    MatchUnique(raw, i, mime, payload, f.groups.mime, f.groups.payload);
  }

  /**
   * Without a match, the candidate is the whitespace-free text followed by
   * the fewest `=` (zero to three) that make its length a multiple of four;
   * nothing else is repaired, and the subtype is "unknown".
   */
  lemma ExtractFallback(raw: string)
    requires forall q: nat, m, p :: !IsMatchAt(raw, q, m, p)
    ensures var r, t := Extract(raw), StripWhitespace(raw);
      && r.mime == UnknownMime
      && (forall k :: 0 <= k < |r.payload| ==> !IsWhitespace(r.payload[k]))
      && |r.payload| % 4 == 0
      && |t| <= |r.payload| < |t| + 4
      && r.payload[..|t|] == t
      && (forall k :: |t| <= k < |r.payload| ==> r.payload[k] == Base64.PadChar)
      && (|t| % 4 == 0 ==> r.payload == t)
  {
    var t := StripWhitespace(raw);
    FindMatchLeftmost(raw, 0);
    assert FindMatch(raw, 0).None?;
    var r := Extract(raw);
    assert r.payload == t + Padding(|t|);
    forall k | 0 <= k < |r.payload|
      ensures !IsWhitespace(r.payload[k])
    {
      if k >= |t| {
        assert r.payload[k] == Padding(|t|)[k - |t|];
      }
    }
  }

  /** A built Data-URI at the start of a text matches there, unless a payload character follows it. */
  lemma BuildMatches(s: string, mime: string, payload: string)
    requires IsSubtype(mime) && IsPayload(payload)
    requires var u := Build(mime, payload);
      |u| <= |s| && s[..|u|] == u && (|u| == |s| || !IsPayloadChar(s[|u|]))
    ensures IsMatchAt(s, 0, mime, payload)
  {
    var u := Build(mime, payload);
    assert s[0..|u|] == DataPrefix + mime + Base64Marker + payload;
    SliceParts(s, 0, DataPrefix, mime, Base64Marker, payload);
  }

  /** The extractor inverts the Data-URI builder for any subtype and payload. */
  lemma ExtractInvertsBuild(mime: string, payload: string)
    requires IsSubtype(mime) && IsPayload(payload)
    ensures Extract(Build(mime, payload)) == Extracted(payload, mime)
  {
    var s := Build(mime, payload);
    assert s[..|s|] == s;
    BuildMatches(s, mime, payload);
    ExtractLeftmost(s, 0, mime, payload);
  }

  /**
   * A line break inside the payload ends the match: only the text before it
   * is extracted, the rest of the Base64 text is dropped.
   */
  lemma LineBreakEndsPayload(mime: string, first: string, rest: string)
    requires IsSubtype(mime) && IsPayload(first)
    ensures Extract(Build(mime, first) + "\n" + rest) == Extracted(first, mime)
  {
    var u := Build(mime, first);
    var s := u + "\n" + rest;
    assert s[..|u|] == u;
    assert s[|u|] == '\n';
    BuildMatches(s, mime, first);
    ExtractLeftmost(s, 0, mime, first);
  }
}

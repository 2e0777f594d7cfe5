/**
 * The Base64 codec used by both pipelines: the standard alphabet with `=`
 * padding, as in section 4 of RFC 4648.  Encoding turns every group of three
 * bytes into four characters; a final group of one or two bytes is padded
 * with `==` or `=`.  Decoding is strict: it accepts exactly the strings that
 * encoding produces (canonical Base64), and fails on anything else.
 */
module Base64 {
  import opened Wrappers

  /** A byte of the input buffer. */
  type Byte = b: int | 0 <= b < 256

  /** A six-bit group: the index of one alphabet character. */
  type Sextet = v: int | 0 <= v < 64

  const PadChar: char := '='

  /** The 64 characters of the standard alphabet (`=` is not one of them). */
  predicate IsAlphabetChar(c: char) {
    'A' <= c <= 'Z' || 'a' <= c <= 'z' || '0' <= c <= '9' || c == '+' || c == '/'
  }

  /** The alphabet character with index `v`: A-Z, a-z, 0-9, `+`, `/`. */
  function CharOf(v: Sextet): (c: char)
    ensures IsAlphabetChar(c)
  {
    if v < 26 then ('A' as int + v) as char
    else if v < 52 then ('a' as int + (v - 26)) as char
    else if v < 62 then ('0' as int + (v - 52)) as char
    else if v == 62 then '+'
    else '/'
  }

  /** The index of an alphabet character; the inverse of CharOf. */
  function ValueOf(c: char): (v: Sextet)
    requires IsAlphabetChar(c)
    ensures CharOf(v) == c
  {
    if 'A' <= c <= 'Z' then c as int - 'A' as int
    else if 'a' <= c <= 'z' then c as int - 'a' as int + 26
    else if '0' <= c <= '9' then c as int - '0' as int + 52
    else if c == '+' then 62
    else 63
  }

  lemma ValueOfCharOf(v: Sextet)
    ensures ValueOf(CharOf(v)) == v
  {
  }

  /** The four characters of a complete three-byte group. */
  function EncodeGroup3(b0: Byte, b1: Byte, b2: Byte): (q: string) {
    [CharOf(b0 / 4), CharOf((b0 % 4) * 16 + b1 / 16), CharOf((b1 % 16) * 4 + b2 / 64), CharOf(b2 % 64)]
  }

  /** A final group of two bytes: three characters and one `=`. */
  function EncodeGroup2(b0: Byte, b1: Byte): (q: string) {
    [CharOf(b0 / 4), CharOf((b0 % 4) * 16 + b1 / 16), CharOf((b1 % 16) * 4), PadChar]
  }

  /** A final group of one byte: two characters and `==`. */
  function EncodeGroup1(b0: Byte): (q: string) {
    [CharOf(b0 / 4), CharOf((b0 % 4) * 16), PadChar, PadChar]
  }

  /**
   * Standard Base64 encoding.  The result has length 4 * ceil(n / 3), uses
   * only alphabet characters and `=`, and `=` appears only in the last two
   * positions.
   */
  function Encode(b: seq<Byte>): (r: string)
    ensures |r| == 4 * ((|b| + 2) / 3)
    ensures forall k :: 0 <= k < |r| ==> IsAlphabetChar(r[k]) || r[k] == PadChar
    ensures forall k :: 0 <= k < |r| && r[k] == PadChar ==> |r| - 2 <= k
    decreases |b|
  {
    if |b| == 0 then ""
    else if |b| == 1 then EncodeGroup1(b[0])
    else if |b| == 2 then EncodeGroup2(b[0], b[1])
    else EncodeGroup3(b[0], b[1], b[2]) + Encode(b[3..])
  }

  /** A text of `groups` four-character groups has a length divisible by four. */
  lemma WholeGroups(n: nat, groups: nat)
    requires n == 4 * groups
    ensures n % 4 == 0
  {
  }

  /** Decodes four alphabet characters into three bytes; no padding allowed. */
  function DecodeGroup3(q: string): (r: Option<seq<Byte>>)
    requires |q| == 4
  {
    if IsAlphabetChar(q[0]) && IsAlphabetChar(q[1]) && IsAlphabetChar(q[2]) && IsAlphabetChar(q[3]) then
      var v0, v1, v2, v3 := ValueOf(q[0]), ValueOf(q[1]), ValueOf(q[2]), ValueOf(q[3]);
      Some([v0 * 4 + v1 / 16, (v1 % 16) * 16 + v2 / 4, (v2 % 4) * 64 + v3])
    else None
  }

  /**
   * Decodes the last four characters, which may end in `=` or `==`.  The
   * bits that padding leaves unused must be zero (canonical encoding).
   */
  function DecodeLastGroup(q: string): (r: Option<seq<Byte>>)
    requires |q| == 4
  {
    if !IsAlphabetChar(q[0]) || !IsAlphabetChar(q[1]) then None
    else if q[2] == PadChar then
      var v0, v1 := ValueOf(q[0]), ValueOf(q[1]);
      if q[3] == PadChar && v1 % 16 == 0 then Some([v0 * 4 + v1 / 16]) else None
    else if !IsAlphabetChar(q[2]) then None
    else if q[3] == PadChar then
      var v0, v1, v2 := ValueOf(q[0]), ValueOf(q[1]), ValueOf(q[2]);
      if v2 % 4 == 0 then Some([v0 * 4 + v1 / 16, (v1 % 16) * 16 + v2 / 4]) else None
    else DecodeGroup3(q)
  }

  /**
   * Strict Base64 decoding.  Whatever it accepts is exactly the encoding of
   * what it returns, so no two strings decode to the same bytes.
   */
  function Decode(s: string): (r: Option<seq<Byte>>)
    ensures r.Some? ==> Encode(r.value) == s
    decreases |s|
  {
    if |s| == 0 then Some([])
    else if |s| < 4 then None
    else if |s| == 4 then
      var r := DecodeLastGroup(s);
      LastGroupCanonical(s);
      r
    else
      match DecodeGroup3(s[..4])
      case None => None
      case Some(g) =>
        match Decode(s[4..])
        case None => None
        case Some(rest) =>
          Group3Canonical(s[..4]);
          assert (g + rest)[3..] == rest;
          assert s == s[..4] + s[4..];
          Some(g + rest)
  }

  /** Splitting three bytes into sextets and joining them back is the identity. */
  lemma RegroupBytes(b0: Byte, b1: Byte, b2: Byte)
    ensures var v0, v1, v2, v3 := b0 / 4, (b0 % 4) * 16 + b1 / 16, (b1 % 16) * 4 + b2 / 64, b2 % 64;
      v0 * 4 + v1 / 16 == b0 && (v1 % 16) * 16 + v2 / 4 == b1 && (v2 % 4) * 64 + v3 == b2
  {
  }

  /** Joining four sextets into bytes and splitting them again is the identity. */
  lemma RegroupSextets(v0: Sextet, v1: Sextet, v2: Sextet, v3: Sextet)
    ensures var b0, b1, b2 := v0 * 4 + v1 / 16, (v1 % 16) * 16 + v2 / 4, (v2 % 4) * 64 + v3;
      b0 / 4 == v0 && (b0 % 4) * 16 + b1 / 16 == v1 && (b1 % 16) * 4 + b2 / 64 == v2 && b2 % 64 == v3
  {
  }

  /** Three bytes joined from four sextets are encoded as those sextets' characters. */
  lemma EncodeJoined3(v0: Sextet, v1: Sextet, v2: Sextet, v3: Sextet, b0: Byte, b1: Byte, b2: Byte)
    requires b0 == v0 * 4 + v1 / 16 && b1 == (v1 % 16) * 16 + v2 / 4 && b2 == (v2 % 4) * 64 + v3
    ensures EncodeGroup3(b0, b1, b2) == [CharOf(v0), CharOf(v1), CharOf(v2), CharOf(v3)]
  {
    RegroupSextets(v0, v1, v2, v3);
    assert b0 / 4 == v0 && (b0 % 4) * 16 + b1 / 16 == v1;
    assert (b1 % 16) * 4 + b2 / 64 == v2 && b2 % 64 == v3;
  }

  /** Two bytes joined from three sextets, the last with two zero bits, are encoded as those sextets' characters. */
  lemma EncodeJoined2(v0: Sextet, v1: Sextet, v2: Sextet, b0: Byte, b1: Byte)
    requires v2 % 4 == 0
    requires b0 == v0 * 4 + v1 / 16 && b1 == (v1 % 16) * 16 + v2 / 4
    ensures EncodeGroup2(b0, b1) == [CharOf(v0), CharOf(v1), CharOf(v2), PadChar]
  {
    RegroupSextets(v0, v1, v2, 0);
    assert b0 / 4 == v0 && (b0 % 4) * 16 + b1 / 16 == v1 && (b1 % 16) * 4 == v2;
  }

  /** One byte joined from two sextets, the last with four zero bits, is encoded as those sextets' characters. */
  lemma EncodeJoined1(v0: Sextet, v1: Sextet, b0: Byte)
    requires v1 % 16 == 0
    requires b0 == v0 * 4 + v1 / 16
    ensures EncodeGroup1(b0) == [CharOf(v0), CharOf(v1), PadChar, PadChar]
  {
    RegroupSextets(v0, v1, 0, 0);
    assert b0 / 4 == v0 && (b0 % 4) * 16 == v1;
  }

  /** Four alphabet characters are spelled by their own values. */
  lemma SpelledByValues(q: string)
    requires |q| == 4
    requires IsAlphabetChar(q[0]) && IsAlphabetChar(q[1]) && IsAlphabetChar(q[2]) && IsAlphabetChar(q[3])
    ensures q == [CharOf(ValueOf(q[0])), CharOf(ValueOf(q[1])), CharOf(ValueOf(q[2])), CharOf(ValueOf(q[3]))]
  {
  }

  lemma Group3Canonical(q: string)
    requires |q| == 4
    ensures DecodeGroup3(q).Some? ==>
      |DecodeGroup3(q).value| == 3 && EncodeGroup3(DecodeGroup3(q).value[0], DecodeGroup3(q).value[1], DecodeGroup3(q).value[2]) == q
  {
    if DecodeGroup3(q).Some? {
      SpelledByValues(q);
      var v0: int, v1: int, v2: int, v3: int := ValueOf(q[0]), ValueOf(q[1]), ValueOf(q[2]), ValueOf(q[3]);
      var g := DecodeGroup3(q).value;
      EncodeJoined3(v0, v1, v2, v3, g[0], g[1], g[2]);
    }
  }

  lemma LastGroupCanonical(q: string)
    requires |q| == 4
    ensures DecodeLastGroup(q).Some? ==> Encode(DecodeLastGroup(q).value) == q
  {
    if DecodeLastGroup(q).Some? {
      var g := DecodeLastGroup(q).value;
      if q[2] == PadChar {
        var v0: int, v1: int := ValueOf(q[0]), ValueOf(q[1]);
        assert q == [CharOf(v0), CharOf(v1), PadChar, PadChar];
        EncodeJoined1(v0, v1, g[0]);
        assert Encode(g) == EncodeGroup1(g[0]);
      } else if q[3] == PadChar {
        var v0: int, v1: int, v2: int := ValueOf(q[0]), ValueOf(q[1]), ValueOf(q[2]);
        assert q == [CharOf(v0), CharOf(v1), CharOf(v2), PadChar];
        EncodeJoined2(v0, v1, v2, g[0], g[1]);
        assert Encode(g) == EncodeGroup2(g[0], g[1]);
      } else {
        Group3Canonical(q);
        assert g[3..] == [];
      }
    }
  }

  lemma Group3RoundTrip(b0: Byte, b1: Byte, b2: Byte)
    ensures DecodeGroup3(EncodeGroup3(b0, b1, b2)) == Some([b0, b1, b2])
  {
    var v0, v1, v2, v3 := b0 / 4, (b0 % 4) * 16 + b1 / 16, (b1 % 16) * 4 + b2 / 64, b2 % 64;
    RegroupBytes(b0, b1, b2);
    ValueOfCharOf(v0);
    ValueOfCharOf(v1);
    ValueOfCharOf(v2);
    ValueOfCharOf(v3);
  }

  lemma Group2RoundTrip(b0: Byte, b1: Byte)
    ensures DecodeLastGroup(EncodeGroup2(b0, b1)) == Some([b0, b1])
  {
    var v0, v1, v2 := b0 / 4, (b0 % 4) * 16 + b1 / 16, (b1 % 16) * 4;
    RegroupBytes(b0, b1, 0);
    ValueOfCharOf(v0);
    ValueOfCharOf(v1);
    ValueOfCharOf(v2);
  }

  lemma Group1RoundTrip(b0: Byte)
    ensures DecodeLastGroup(EncodeGroup1(b0)) == Some([b0])
  {
    var v0, v1 := b0 / 4, (b0 % 4) * 16;
    RegroupBytes(b0, 0, 0);
    ValueOfCharOf(v0);
    ValueOfCharOf(v1);
  }

  /** Decoding a single final group: strings of length four are decoded by DecodeLastGroup. */
  lemma DecodeOneGroup(s: string)
    requires |s| == 4
    ensures Decode(s) == DecodeLastGroup(s)
  {
  }

  /** A longer string decodes as its first group followed by the rest. */
  lemma DecodeFirstGroup(head: string, tail: string, g: seq<Byte>, rest: seq<Byte>)
    requires |head| == 4 && |tail| > 0
    requires DecodeGroup3(head) == Some(g) && Decode(tail) == Some(rest)
    ensures Decode(head + tail) == Some(g + rest)
  {
    var s := head + tail;
    assert s[..4] == head;
    assert s[4..] == tail;
  }

  lemma ThreeBytes(b: seq<Byte>)
    requires |b| == 3
    ensures [b[0], b[1], b[2]] == b
  {
  }

  lemma SplitHead3(b: seq<Byte>)
    requires |b| >= 3
    ensures [b[0], b[1], b[2]] + b[3..] == b
  {
  }

  lemma DecodeEncode1(b: seq<Byte>)
    requires |b| == 1
    ensures Decode(Encode(b)) == Some(b)
  {
    assert Encode(b) == EncodeGroup1(b[0]);
    DecodeOneGroup(Encode(b));
    Group1RoundTrip(b[0]);
    assert [b[0]] == b;
  }

  lemma DecodeEncode2(b: seq<Byte>)
    requires |b| == 2
    ensures Decode(Encode(b)) == Some(b)
  {
    assert Encode(b) == EncodeGroup2(b[0], b[1]);
    DecodeOneGroup(Encode(b));
    Group2RoundTrip(b[0], b[1]);
    assert [b[0], b[1]] == b;
  }

  /** Three or more bytes are encoded as their first group followed by the rest. */
  lemma EncodeFirstGroup(b: seq<Byte>)
    requires |b| >= 3
    ensures Encode(b) == EncodeGroup3(b[0], b[1], b[2]) + Encode(b[3..])
  {
  }

  /** A final group without padding is decoded like any other group. */
  lemma LastGroupUnpadded(q: string)
    requires |q| == 4 && DecodeGroup3(q).Some?
    ensures DecodeLastGroup(q) == DecodeGroup3(q)
  {
  }

  lemma DecodeEncode3(b: seq<Byte>)
    requires |b| == 3
    ensures Decode(Encode(b)) == Some(b)
  {
    var q := EncodeGroup3(b[0], b[1], b[2]);
    EncodeFirstGroup(b);
    assert b[3..] == [];
    assert Encode(b) == q;
    Group3RoundTrip(b[0], b[1], b[2]);
    LastGroupUnpadded(q);
    DecodeOneGroup(q);
    ThreeBytes(b);
  }

  /** Decoding inverts encoding, for every byte sequence. */
  lemma {:induction false} DecodeEncode(b: seq<Byte>)
    ensures Decode(Encode(b)) == Some(b)
    decreases |b|
  {
    if |b| == 0 {
    } else if |b| == 1 {
      DecodeEncode1(b);
    } else if |b| == 2 {
      DecodeEncode2(b);
    } else if |b| == 3 {
      DecodeEncode3(b);
    } else {
      var head, tail := EncodeGroup3(b[0], b[1], b[2]), Encode(b[3..]);
      assert Encode(b) == head + tail;
      Group3RoundTrip(b[0], b[1], b[2]);
      DecodeEncode(b[3..]);
      DecodeFirstGroup(head, tail, [b[0], b[1], b[2]], b[3..]);
      SplitHead3(b);
    }
  }

  /** A string decodes to `b` exactly when it is the encoding of `b`. */
  lemma DecodeIffEncode(s: string, b: seq<Byte>)
    ensures Decode(s) == Some(b) <==> Encode(b) == s
  {
    if Encode(b) == s {
      DecodeEncode(b);
    }
  }

  /** Decoding fails on every string that is not canonical Base64. */
  lemma DecodeRejectsNonCanonical(s: string)
    requires forall b :: Encode(b) != s
    ensures Decode(s) == None
  {
  }

  /** A character outside the alphabet and `=` anywhere in the text makes decoding fail. */
  lemma DecodeRejectsForeignChar(s: string, i: nat)
    requires i < |s| && !IsAlphabetChar(s[i]) && s[i] != PadChar
    ensures Decode(s) == None
  {
  }

  /** The test vectors of section 10 of RFC 4648 for the inputs "f", "fo", "foo" and "foob". */
  lemma EncodeTestVectors()
    ensures Encode([102]) == "Zg=="
    ensures Encode([102, 111]) == "Zm8="
    ensures Encode([102, 111, 111]) == "Zm9v"
    ensures Encode([102, 111, 111, 98]) == "Zm9vYg=="
  {
    var foob: seq<Byte> := [102, 111, 111, 98];
    assert foob[3..] == [98];
  }
}

/**
 * MIME inference of the encode pipeline (main.py:195-201): the extension is
 * the last piece of the path split at `.`, lower-cased, and it is looked up
 * in a fixed eight-entry table; anything else gives `octet-stream`.
 */
module Mime {
  import DataUri

  const DefaultMime: string := "octet-stream"

  /** The extension-to-subtype table. */
  const MimeTable: map<string, string> := map[
    "jpg" := "jpeg", "jpeg" := "jpeg", "png" := "png",
    "gif" := "gif", "webp" := "webp", "bmp" := "bmp",
    "ico" := "x-icon", "svg" := "svg+xml"
  ]

  /** The pieces joined back with `.` between them. */
  function Join(parts: seq<string>): (p: string)
    requires |parts| > 0
  {
    if |parts| == 1 then parts[0] else parts[0] + "." + Join(parts[1..])
  }

  /** `p.split('.')`: the pieces between the dots, first to last; there is at least one. */
  function Split(p: string): (parts: seq<string>)
    ensures |parts| > 0
  {
    if |p| == 0 then [""]
    else
      var rest := Split(p[1..]);
      if p[0] == '.' then
        [""] + rest
      else
        [[p[0]] + rest[0]] + rest[1..]
  }

  /** There is exactly one piece, the path itself, when the path has no dot. */
  lemma {:induction false} SplitSingle(p: string)
    ensures var parts := Split(p);
      && (|parts| == 1 <==> '.' !in p)
      && (|parts| == 1 ==> parts[0] == p)
  {
    if |p| > 0 {
      SplitSingle(p[1..]);
      assert p == [p[0]] + p[1..];
    }
  }

  /** No piece holds a dot. */
  lemma {:induction false} SplitPieces(p: string)
    ensures var parts := Split(p);
      forall k :: 0 <= k < |parts| ==> '.' !in parts[k]
  {
    if |p| > 0 {
      var rest := Split(p[1..]);
      SplitPieces(p[1..]);
      SplitSingle(p[1..]);
      assert p == [p[0]] + p[1..];
      if p[0] != '.' {
        var parts := Split(p);
        assert forall k :: 1 <= k < |parts| ==> parts[k] == rest[k];
      }
    }
  }

  /** Joining the pieces with `.` gives the path back. */
  lemma {:induction false} JoinSplit(p: string)
    ensures Join(Split(p)) == p
  {
    if |p| > 0 {
      var rest := Split(p[1..]);
      JoinSplit(p[1..]);
      assert p == [p[0]] + p[1..];
      if p[0] == '.' {
        assert ([""] + rest)[1..] == rest;
      } else {
        JoinPrepend(p[0], rest);
      }
    }
  }

  /** Gluing a character to the front of the first piece glues it to the front of the joined text. */
  lemma JoinPrepend(c: char, rest: seq<string>)
    requires |rest| > 0
    ensures Join([[c] + rest[0]] + rest[1..]) == [c] + Join(rest)
  {
    var parts := [[c] + rest[0]] + rest[1..];
    if |rest| > 1 {
      var tail := Join(rest[1..]);
      assert parts[1..] == rest[1..];
      assert Join(parts) == ([c] + rest[0]) + "." + tail;
      assert Join(rest) == rest[0] + "." + tail;
      Glue(c, rest[0], tail);
    }
  }

  /** Regrouping a character, a piece, a dot and the remaining text. */
  lemma Glue(c: char, x: string, tail: string)
    ensures ([c] + x) + "." + tail == [c] + (x + "." + tail)
  {
  }

  /** A suffix as long as the text is the text itself. */
  lemma FullSuffix(q: string, e: string)
    requires |e| <= |q| && q[|q| - |e|..] == e
    ensures |e| == |q| ==> e == q
  {
    assert q[0..] == q;
  }

  /** A suffix of the text after the first character is a suffix of the text. */
  lemma TailSuffix(p: string, q: string, n: nat)
    requires 0 < |p| && q == p[1..] && n <= |q|
    ensures p[|p| - n..] == q[|q| - n..]
    ensures n < |q| ==> p[|p| - n - 1] == q[|q| - n - 1]
  {
  }

  /**
   * A dot-free suffix of the text after the first character that follows a
   * dot, or is that whole text after a leading dot, is such a suffix of the
   * whole text.
   */
  lemma DottedSuffix(p: string, q: string, e: string)
    requires 0 < |p| && q == p[1..]
    requires |e| <= |q| && q[|q| - |e|..] == e
    requires |e| < |q| ==> q[|q| - |e| - 1] == '.'
    requires |e| == |q| ==> p[0] == '.'
    ensures |e| <= |p| && p[|p| - |e|..] == e
    ensures |e| < |p| ==> p[|p| - |e| - 1] == '.'
  {
    TailSuffix(p, q, |e|);
  }

  /** After a leading dot, the last piece is that of the text after the dot. */
  lemma LastPieceAfterLeadingDot(p: string)
    requires |p| > 0 && p[0] == '.'
    ensures var parts, rest := Split(p), Split(p[1..]);
      parts[|parts| - 1] == rest[|rest| - 1]
  {
    var rest := Split(p[1..]);
    var parts := [""] + rest;
    assert Split(p) == parts;
    assert parts[|parts| - 1] == rest[|rest| - 1];
  }

  /** When the text after the first character splits in several pieces, the last piece stays. */
  lemma LastPieceOfSeveral(p: string)
    requires |p| > 0 && p[0] != '.' && |Split(p[1..])| > 1
    ensures var parts, rest := Split(p), Split(p[1..]);
      parts[|parts| - 1] == rest[|rest| - 1]
  {
    var rest := Split(p[1..]);
    var parts := [[p[0]] + rest[0]] + rest[1..];
    assert Split(p) == parts;
    assert parts[|parts| - 1] == rest[|rest| - 1];
  }

  /** When the text after a first non-dot character is one piece, the path is one piece. */
  lemma LastPieceOfOne(p: string)
    requires |p| > 0 && p[0] != '.' && Split(p[1..]) == [p[1..]]
    ensures Split(p) == [p]
  {
    assert p == [p[0]] + p[1..];
  }

  /** A path without a dot is its own dot-free suffix. */
  lemma WholePiece(p: string)
    requires |p| > 0 && p[0] != '.' && '.' !in p[1..]
    ensures '.' !in p && p[|p| - |p|..] == p
  {
    assert p == [p[0]] + p[1..];
  }

  /** The last piece of the split is the text after the last dot, or the whole path. */
  lemma {:induction false} LastPieceAfterLastDot(p: string)
    ensures var parts := Split(p); var e := parts[|parts| - 1];
      && |e| <= |p| && p[|p| - |e|..] == e
      && '.' !in e
      && (|e| < |p| ==> p[|p| - |e| - 1] == '.')
  {
    if |p| > 0 {
      var q := p[1..];
      var rest := Split(q);
      var e := rest[|rest| - 1];
      LastPieceAfterLastDot(q);
      SplitSingle(q);
      if p[0] == '.' {
        LastPieceAfterLeadingDot(p);
        FullSuffix(q, e);
        DottedSuffix(p, q, e);
      } else if |rest| > 1 {
        LastPieceOfSeveral(p);
        FullSuffix(q, e);
        DottedSuffix(p, q, e);
      } else {
        LastPieceOfOne(p);
        WholePiece(p);
      }
    }
  }

  /** `file_path.split('.')[-1]`. */
  function Extension(p: string): (e: string)
    ensures |e| <= |p| && p[|p| - |e|..] == e
    ensures '.' !in e
    ensures |e| < |p| ==> p[|p| - |e| - 1] == '.'
  {
    var parts := Split(p);
    LastPieceAfterLastDot(p);
    parts[|parts| - 1]
  }

  /** Whatever precedes the last dot does not change the last piece. */
  lemma {:induction false} LastPieceOfDotted(stem: string, ext: string)
    ensures var parts, tail := Split(stem + "." + ext), Split(ext);
      parts[|parts| - 1] == tail[|tail| - 1]
    decreases |stem|
  {
    var p := stem + "." + ext;
    if |stem| == 0 {
      assert p[1..] == ext;
    } else {
      assert p[1..] == stem[1..] + "." + ext;
      LastPieceOfDotted(stem[1..], ext);
      assert '.' in p[1..];
      SplitSingle(p[1..]);
    }
  }

  /** The extension of `stem.ext` is `ext` whenever `ext` has no dot. */
  lemma ExtensionOfDotted(stem: string, ext: string)
    requires '.' !in ext
    ensures Extension(stem + "." + ext) == ext
  {
    LastPieceOfDotted(stem, ext);
    SplitSingle(ext);
  }

  /** A path without a dot is its own extension. */
  lemma ExtensionWithoutDot(p: string)
    requires '.' !in p
    ensures Extension(p) == p
  {
    SplitSingle(p);
  }

  function LowerChar(c: char): (d: char) {
    if 'A' <= c <= 'Z' then (c as int - 'A' as int + 'a' as int) as char else c
  }

  /**
   * `str.lower()` on the ASCII letters: every upper-case letter becomes its
   * lower-case letter, 32 code points further on, and every other character
   * is kept.
   */
  function ToLower(s: string): (r: string)
    ensures |r| == |s|
    ensures forall k :: 0 <= k < |s| ==> !('A' <= r[k] <= 'Z')
    ensures forall k :: 0 <= k < |s| ==>
      if 'A' <= s[k] <= 'Z' then r[k] as int == s[k] as int + 32 else r[k] == s[k]
  {
    seq(|s|, k requires 0 <= k < |s| => LowerChar(s[k]))
  }

  /** Text without upper-case letters, such as every table key, is its own lower-case form. */
  lemma LowerCaseUnchanged(s: string)
    requires forall k :: 0 <= k < |s| ==> !('A' <= s[k] <= 'Z')
    ensures ToLower(s) == s
  {
  }

  /** Lower-casing twice is lower-casing once. */
  lemma ToLowerIdempotent(s: string)
    ensures ToLower(ToLower(s)) == ToLower(s)
  {
    LowerCaseUnchanged(ToLower(s));
  }

  /** The subtype for a path: the table entry for its lower-cased extension, else `octet-stream`. */
  function MimeFor(path: string): (m: string)
    ensures m == DefaultMime || m in MimeTable.Values
    ensures DataUri.IsSubtype(m)
  {
    var ext := ToLower(Extension(path));
    if ext in MimeTable then MimeTable[ext] else DefaultMime
  }

  /** The default is chosen exactly for the extensions the table does not list. */
  lemma DefaultIffUnlisted(path: string)
    ensures MimeFor(path) == DefaultMime <==> ToLower(Extension(path)) !in MimeTable
  {
    if ToLower(Extension(path)) in MimeTable {
      assert DefaultMime !in MimeTable.Values;
    }
  }

  /** Only the lower-cased text after the last dot decides the subtype. */
  lemma MimeForDotted(stem: string, ext: string)
    requires '.' !in ext
    ensures MimeFor(stem + "." + ext) ==
      if ToLower(ext) in MimeTable then MimeTable[ToLower(ext)] else DefaultMime
  {
    ExtensionOfDotted(stem, ext);
  }

  /** An upper-case extension finds the same entry: `photo.JPG` is `jpeg`. */
  lemma UpperCaseExtension()
    ensures MimeFor("photo.JPG") == "jpeg"
  {
    assert "photo" + "." + "JPG" == "photo.JPG";
    MimeForDotted("photo", "JPG");
    JpgLowered();
    JpgIsListed();
  }

  lemma JpgLowered()
    ensures ToLower("JPG") == "jpg"
  {
    var r := ToLower("JPG");
    assert r[0] == 'j' && r[1] == 'p' && r[2] == 'g';
  }

  lemma JpgIsListed()
    ensures "jpg" in MimeTable && MimeTable["jpg"] == "jpeg"
  {
  }

  /** An extension the table does not list: `photo.xyz` is `octet-stream`. */
  lemma UnlistedExtension()
    ensures MimeFor("photo.xyz") == DefaultMime
  {
    assert "photo" + "." + "xyz" == "photo.xyz";
    MimeForDotted("photo", "xyz");
    LowerCaseUnchanged("xyz");
    XyzIsUnlisted();
  }

  lemma XyzIsUnlisted()
    ensures "xyz" !in MimeTable
  {
  }
}

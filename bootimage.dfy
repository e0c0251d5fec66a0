/**
 * The Android boot image header, versions 0 to 2 of the layout defined in
 * AOSP's bootimg.h: an 8-byte magic, ten little-endian 32-bit words, a
 * 16-byte name and a 512-byte command line, in a 1648-byte header.
 */
module BootImage {
  import opened Bytes
  import opened Wrappers

  /** `ANDROID!` */
  const Magic: seq<byte> := [65, 78, 68, 82, 79, 73, 68, 33]

  /** The unpacker reads this many bytes of header (the v0/v1/v2 size). */
  const HeaderSize: nat := 1648

  /** The word fields end here; a shorter header cannot be unpacked. */
  const WordsEnd: nat := 48

  const CmdlineOffset: nat := 64
  const CmdlineSize: nat := 512

  /** Why an image cannot be unpacked. */
  datatype UnpackError =
    | BadMagic(found: seq<byte>)   // the first 8 bytes (fewer for a shorter file) are not `ANDROID!`
    | TruncatedHeader(length: nat) // the magic is right but the header stops before byte 48
    | ZeroPageSize                 // the page size is 0, so the payloads cannot be aligned

  /**
   * The decoded header. `osVersionPacked` holds the OS version and the
   * security patch level; the accessors below take it apart. The command
   * line is kept as bytes.
   */
  datatype Header = Header(
    kernelSize: u32,
    kernelAddr: u32,
    ramdiskSize: u32,
    ramdiskAddr: u32,
    secondSize: u32,
    secondAddr: u32,
    tagsAddr: u32,
    pageSize: u32,
    headerVersion: u32,
    osVersionPacked: u32,
    cmdline: seq<byte>)
  {
    /** The "OS Version" the unpacker reports: the source's reading of the packed word. */
    function OsVersion(): (v: nat)
      ensures v < 128 && v == OsVersionAsWritten(osVersionPacked)
    {
      OsVersionAsWritten(osVersionPacked)
    }
    function PatchYear(): nat { PatchYearOf(osVersionPacked) }
    function PatchMonth(): nat { PatchMonthOf(osVersionPacked) }
  }

  /*
   * The packed OS version word. For a non-negative word, `v >> k` is `v / 2^k`
   * and `v & (2^w - 1)` is `v % 2^w`; the fields below are written that way.
   * bootimg.h packs version "A.B.C" and patch level "Y-M" as
   *   os_version = (A << 14 | B << 7 | C) << 11 | (Y - 2000) << 4 | M.
   */

  /**
   * The source's "OS Version", `(v >> 11) & 0x7F`: bits 11 to 17, which
   * hold C, the last component of "A.B.C" (see MisreadsVersion).
   */
  function OsVersionAsWritten(v: u32): (r: nat)
    ensures r < 128
  {
    (v / 2048) % 128
  }

  /** The major version A, `(v >> 25) & 0x7F`: bits 25 to 31. */
  function MajorVersion(v: u32): (r: nat)
    ensures r < 128
  {
    (v / 33554432) % 128
  }

  /** `((v >> 4) & 0x7F) + 2000`; never checked for plausibility. */
  function PatchYearOf(v: u32): (r: nat)
    ensures 2000 <= r <= 2127
  {
    (v / 16) % 128 + 2000
  }

  /** `v & 0x0F`; never checked against 1..12, so 0 and 13..15 pass through. */
  function PatchMonthOf(v: u32): (r: nat)
    ensures r <= 15
  {
    v % 16
  }

  /** The word bootimg.h stores for OS version "a.b.c" and patch level year-month. */
  function PackOsVersion(a: nat, b: nat, c: nat, year: nat, month: nat): (v: u32)
    requires a < 128 && b < 128 && c < 128 && 2000 <= year <= 2127 && month <= 15
  {
    ((a * 128 + b) * 128 + c) * 2048 + (year - 2000) * 16 + month
  }

  /** The accessors recover what was packed: major version, patch year and patch month. */
  lemma UnpackPackOsVersion(a: nat, b: nat, c: nat, year: nat, month: nat)
    requires a < 128 && b < 128 && c < 128 && 2000 <= year <= 2127 && month <= 15
    ensures var v := PackOsVersion(a, b, c, year, month);
      MajorVersion(v) == a && PatchYearOf(v) == year && PatchMonthOf(v) == month &&
      OsVersionAsWritten(v) == c
  {
    var v := PackOsVersion(a, b, c, year, month);
    var y := year - 2000;
    assert v == a * 33554432 + ((b * 128 + c) * 2048 + y * 16 + month);
    assert v / 33554432 == a;
    var abc := a * 16384 + b * 128 + c;
    assert v == abc * 2048 + (y * 16 + month);
    assert v / 2048 == abc;
    assert abc % 128 == c;
    assert v == (abc * 128 + y) * 16 + month;
    assert v / 16 == abc * 128 + y;
  }

  /**
   * The source's "OS Version" is not the OS version: an Android 11.0.0 image
   * with patch level 2021-05 is reported as OS version 0.
   */
  lemma MisreadsVersion()
    ensures var v := PackOsVersion(11, 0, 0, 2021, 5);
      v == 369099093 && OsVersionAsWritten(v) == 0 && MajorVersion(v) == 11
  {
    UnpackPackOsVersion(11, 0, 0, 2021, 5);
  }

  /** The packed word 0x12345678 reads as version 9 (the source: 10), patch level 2103-08. */
  lemma DecodeOsVersionExample()
    ensures MajorVersion(0x1234_5678) == 9 && OsVersionAsWritten(0x1234_5678) == 10
    ensures PatchYearOf(0x1234_5678) == 2103 && PatchMonthOf(0x1234_5678) == 8
  {
  }

  /** `f.read(1648)`: the header is the image's first 1648 bytes, or all of a shorter image. */
  function ReadHeader(image: seq<byte>): (header: seq<byte>)
    ensures header <= image
    ensures |header| == Min(|image|, HeaderSize)
  {
    image[..Min(|image|, HeaderSize)]
  }

  predicate HasMagic(image: seq<byte>)
  {
    |image| >= 8 && image[..8] == Magic
  }

  /** The bytes before the first zero byte, or all of `s` if it has none (`s.split(b'\x00')[0]`). */
  function UntilZero(s: seq<byte>): (r: seq<byte>)
    ensures r <= s
    ensures forall i :: 0 <= i < |r| ==> r[i] != 0
    ensures |r| < |s| ==> s[|r|] == 0
  {
    if s == [] || s[0] == 0 then [] else [s[0]] + UntilZero(s[1..])
  }

  /**
   * `header[64:576].split(b'\x00')[0]`: the command line is the part of the
   * 512-byte window before its first zero byte. The window is cut short by
   * a short header.
   */
  function Cmdline(header: seq<byte>): (r: seq<byte>)
    ensures |r| <= CmdlineSize
    ensures forall i :: 0 <= i < |r| ==> r[i] != 0
    ensures r <= Slice(header, CmdlineOffset, CmdlineOffset + CmdlineSize)
    ensures var w := Slice(header, CmdlineOffset, CmdlineOffset + CmdlineSize);
      |r| < |w| ==> w[|r|] == 0
  {
    UntilZero(Slice(header, CmdlineOffset, CmdlineOffset + CmdlineSize))
  }

  /**
   * A window without a zero byte is taken whole, and otherwise the command
   * line stops exactly at the first zero: no other prefix qualifies.
   */
  lemma UntilZeroUnique(s: seq<byte>, p: seq<byte>)
    requires p <= s
    requires forall i :: 0 <= i < |p| ==> p[i] != 0
    requires |p| < |s| ==> s[|p|] == 0
    ensures UntilZero(s) == p
  {
  }

  lemma CmdlineWholeWindow(header: seq<byte>)
    requires |header| >= CmdlineOffset + CmdlineSize
    requires forall i :: CmdlineOffset <= i < CmdlineOffset + CmdlineSize ==> header[i] != 0
    ensures Cmdline(header) == header[CmdlineOffset..CmdlineOffset + CmdlineSize]
  {
    var w := Slice(header, CmdlineOffset, CmdlineOffset + CmdlineSize);
    UntilZeroUnique(w, w);
  }

  /** The command line depends only on bytes 64..576. */
  lemma CmdlineOfPrefix(image: seq<byte>)
    ensures Cmdline(ReadHeader(image)) == Cmdline(image)
  {
    assert Slice(ReadHeader(image), CmdlineOffset, CmdlineOffset + CmdlineSize)
        == Slice(image, CmdlineOffset, CmdlineOffset + CmdlineSize);
  }

  /**
   * Decoding of the header, in the source's order: the magic is checked
   * first (the source returns False), then the words are unpacked, which
   * fails when the header stops before byte 48 (`struct.unpack` raises).
   */
  function DecodeHeader(image: seq<byte>): (r: Result<Header, UnpackError>)
    ensures r.Err? && r.error.BadMagic? <==> !HasMagic(image)
    ensures !HasMagic(image) ==> r.error.found == image[..Min(|image|, 8)]
    ensures r.Err? && r.error.TruncatedHeader? <==> HasMagic(image) && |image| < WordsEnd
    ensures r.Ok? <==> HasMagic(image) && |image| >= WordsEnd
    ensures r.Ok? ==> r.value.cmdline == Cmdline(image)
    ensures r.Ok? ==>
      r.value.kernelSize == U32At(image, 8) && r.value.kernelAddr == U32At(image, 12) &&
      r.value.ramdiskSize == U32At(image, 16) && r.value.ramdiskAddr == U32At(image, 20) &&
      r.value.secondSize == U32At(image, 24) && r.value.secondAddr == U32At(image, 28) &&
      r.value.tagsAddr == U32At(image, 32) && r.value.pageSize == U32At(image, 36) &&
      r.value.headerVersion == U32At(image, 40) && r.value.osVersionPacked == U32At(image, 44)
  {
    var header := ReadHeader(image);
    var magic := Slice(header, 0, 8);
    if magic != Magic then
      Err(BadMagic(magic))
    else if |header| < WordsEnd then
      Err(TruncatedHeader(|header|))
    else
      CmdlineOfPrefix(image);
      WordsOfPrefix(image);
      Ok(Header(
        U32At(header, 8), U32At(header, 12), U32At(header, 16), U32At(header, 20),
        U32At(header, 24), U32At(header, 28), U32At(header, 32), U32At(header, 36),
        U32At(header, 40), U32At(header, 44),
        Cmdline(header)))
  }

  /** The header words are the image's words. */
  lemma WordsOfPrefix(image: seq<byte>)
    requires |image| >= WordsEnd
    ensures forall k :: 2 <= k < 12 ==> U32At(ReadHeader(image), 4 * k) == U32At(image, 4 * k)
  {
    var header := ReadHeader(image);
    forall k | 2 <= k < 12
      ensures U32At(header, 4 * k) == U32At(image, 4 * k)
    {
      U32AtPrefix(header, image, 4 * k);
    }
  }

  /** A header a writer of the format can lay out: the command line fits its window without a zero byte. */
  predicate Encodable(h: Header)
  {
    |h.cmdline| <= CmdlineSize && forall i :: 0 <= i < |h.cmdline| ==> h.cmdline[i] != 0
  }

  /** The ten words in the order they are stored, from offset 8 on. */
  function Words(h: Header): (ws: seq<u32>)
    ensures |ws| == 10
  {
    [h.kernelSize, h.kernelAddr, h.ramdiskSize, h.ramdiskAddr, h.secondSize,
     h.secondAddr, h.tagsAddr, h.pageSize, h.headerVersion, h.osVersionPacked]
  }

  ghost function EncodeWords(ws: seq<u32>): (s: seq<byte>)
    ensures |s| == 4 * |ws|
  {
    if ws == [] then [] else LeBytes(ws[0]) + EncodeWords(ws[1..])
  }

  lemma {:induction false} EncodeWordsAt(ws: seq<u32>, k: nat)
    requires k < |ws|
    ensures EncodeWords(ws)[4 * k..4 * k + 4] == LeBytes(ws[k])
  {
    if k > 0 {
      EncodeWordsAt(ws[1..], k - 1);
      assert EncodeWords(ws)[4 * k..4 * k + 4] == EncodeWords(ws[1..])[4 * (k - 1)..4 * (k - 1) + 4];
    }
  }

  /**
   * The 1648 header bytes as bootimg.h lays them out: magic, the ten words,
   * a zeroed name, the command line padded with zeros, and zeros for the rest.
   */
  ghost function EncodeHeader(h: Header): (s: seq<byte>)
    requires Encodable(h)
    ensures |s| == HeaderSize
  {
    Magic + (EncodeWords(Words(h)) + (Zeros(CmdlineOffset - WordsEnd)
    + (h.cmdline + Zeros(HeaderSize - CmdlineOffset - |h.cmdline|))))
  }

  /** Decoding what was encoded gives the header back. */
  lemma DecodeEncodeHeader(h: Header)
    requires Encodable(h)
    ensures DecodeHeader(EncodeHeader(h)) == Ok(h)
  {
    var s := EncodeHeader(h);
    assert s[..8] == Magic;
    EncodedWords(h);
    var ws := Words(h);
    assert U32At(s, 8 + 4 * 0) == ws[0] && U32At(s, 8 + 4 * 1) == ws[1];
    assert U32At(s, 8 + 4 * 2) == ws[2] && U32At(s, 8 + 4 * 3) == ws[3];
    assert U32At(s, 8 + 4 * 4) == ws[4] && U32At(s, 8 + 4 * 5) == ws[5];
    assert U32At(s, 8 + 4 * 6) == ws[6] && U32At(s, 8 + 4 * 7) == ws[7];
    assert U32At(s, 8 + 4 * 8) == ws[8] && U32At(s, 8 + 4 * 9) == ws[9];
    EncodedCmdline(h);
  }

  lemma EncodedWords(h: Header)
    requires Encodable(h)
    ensures forall k :: 0 <= k < 10 ==> U32At(EncodeHeader(h), 8 + 4 * k) == Words(h)[k]
  {
    var s := EncodeHeader(h);
    var ws := Words(h);
    var e := EncodeWords(ws);
    var rest := Zeros(CmdlineOffset - WordsEnd) + (h.cmdline + Zeros(HeaderSize - CmdlineOffset - |h.cmdline|));
    assert s == Magic + (e + rest);
    forall k | 0 <= k < 10
      ensures U32At(s, 8 + 4 * k) == ws[k]
    {
      EncodeWordsAt(ws, k);
      InnerSlice(Magic, e, rest, 4 * k, 4 * k + 4);
      WordAt(s, 8 + 4 * k, ws[k]);
    }
  }

  /** A slice inside the middle part of a concatenation. */
  lemma InnerSlice(a: seq<byte>, b: seq<byte>, c: seq<byte>, i: nat, j: nat)
    requires i <= j <= |b|
    ensures (a + (b + c))[|a| + i..|a| + j] == b[i..j]
  {
  }

  lemma EncodedCmdline(h: Header)
    requires Encodable(h)
    ensures Cmdline(EncodeHeader(h)) == h.cmdline
  {
    var s := EncodeHeader(h);
    var w := Slice(s, CmdlineOffset, CmdlineOffset + CmdlineSize);
    assert w[..|h.cmdline|] == h.cmdline;
    UntilZeroUnique(w, h.cmdline);
  }

  lemma WordAt(s: seq<byte>, at: nat, v: u32)
    requires at + 4 <= |s| && s[at..at + 4] == LeBytes(v)
    ensures U32At(s, at) == v
  {
    var w := s[at..at + 4];
    assert s[at] == w[0] && s[at + 1] == w[1] && s[at + 2] == w[2] && s[at + 3] == w[3];
    DecodeEncode(v);
  }

  /** Decoding reads nothing past the first 1648 bytes. */
  lemma DecodeHeaderPrefix(a: seq<byte>, b: seq<byte>)
    requires |a| >= HeaderSize && |b| >= HeaderSize && a[..HeaderSize] == b[..HeaderSize]
    ensures DecodeHeader(a) == DecodeHeader(b)
  {
    assert ReadHeader(a) == ReadHeader(b);
    assert a[..8] == ReadHeader(a)[..8] && b[..8] == ReadHeader(b)[..8];
    CmdlineOfPrefix(a);
    CmdlineOfPrefix(b);
    WordsOfPrefix(a);
    WordsOfPrefix(b);
  }
}

/**
 * Bytes, unsigned 32-bit words and the two ways the unpacker reads a byte
 * string: little-endian words (`struct.unpack('<I', ...)`) and Python slices,
 * whose bounds are clamped to the length of the sequence.
 */
module Bytes {

  type byte = x: int | 0 <= x < 256

  type u32 = x: int | 0 <= x < 0x1_0000_0000

  function Min(a: int, b: int): int { if a <= b then a else b }

  function Pow256(k: nat): (p: nat)
    ensures p >= 1
  {
    if k == 0 then 1 else 256 * Pow256(k - 1)
  }

  /** The unsigned value of `s` read least-significant byte first. */
  function LittleEndian(s: seq<byte>): (v: nat)
    ensures v < Pow256(|s|)
  {
    if s == [] then 0 else s[0] + 256 * LittleEndian(s[1..])
  }

  /** `struct.unpack('<I', s[at:at+4])[0]`: the word stored at byte offset `at`. */
  function U32At(s: seq<byte>, at: nat): (v: u32)
    requires at + 4 <= |s|
    ensures v == s[at] as int + 256 * s[at + 1] as int + 65536 * s[at + 2] as int + 16777216 * s[at + 3] as int
  {
    var w := s[at..at + 4];
    assert LittleEndian(w[3..]) == w[3] by {
      assert w[3..][1..] == [];
    }
    assert LittleEndian(w[2..]) == w[2] + 256 * LittleEndian(w[3..]) by {
      assert w[2..][1..] == w[3..];
    }
    assert LittleEndian(w[1..]) == w[1] + 256 * LittleEndian(w[2..]) by {
      assert w[1..][1..] == w[2..];
    }
    assert LittleEndian(w) == w[0] + 256 * LittleEndian(w[1..]);
    assert w[0] == s[at] && w[1] == s[at + 1] && w[2] == s[at + 2] && w[3] == s[at + 3];
    LittleEndian(w)
  }

  /** The four bytes that store `v` little-endian, as a writer of the format lays them out. */
  function LeBytes(v: u32): (s: seq<byte>)
    ensures |s| == 4
  {
    [v % 256, (v / 256) % 256, (v / 65536) % 256, v / 16777216]
  }

  lemma DecodeEncode(v: u32)
    ensures U32At(LeBytes(v), 0) == v
  {
    var q1 := v / 256;
    var q2 := q1 / 256;
    var q3 := q2 / 256;
    assert v == 256 * q1 + v % 256;
    assert q1 == 256 * q2 + q1 % 256;
    assert q2 == 256 * q3 + q2 % 256;
    assert q2 == v / 65536 && q3 == v / 16777216;
    assert q3 < 256;
  }

  lemma EncodeDecode(s: seq<byte>)
    requires |s| == 4
    ensures LeBytes(U32At(s, 0)) == s
  {
    var v := U32At(s, 0);
    var b0, b1, b2, b3 := s[0] as int, s[1] as int, s[2] as int, s[3] as int;
    assert v == b0 + 256 * (b1 + 256 * (b2 + 256 * b3));
    assert v % 256 == b0 && v / 256 == b1 + 256 * (b2 + 256 * b3);
    assert (v / 256) % 256 == b1 && v / 65536 == b2 + 256 * b3;
    assert (v / 65536) % 256 == b2 && v / 16777216 == b3;
  }

  /** Reading a word depends only on the four bytes it occupies. */
  lemma U32AtPrefix(s: seq<byte>, t: seq<byte>, at: nat)
    requires at + 4 <= |s| && at + 4 <= |t|
    requires s[at..at + 4] == t[at..at + 4]
    ensures U32At(s, at) == U32At(t, at)
  {
    assert s[at + 1] == s[at..at + 4][1] == t[at + 1];
    assert s[at + 2] == s[at..at + 4][2] == t[at + 2];
    assert s[at + 3] == s[at..at + 4][3] == t[at + 3];
    assert s[at] == s[at..at + 4][0] == t[at];
  }

  /**
   * Python's `s[lo:hi]` for non-negative bounds: the bytes from `lo` up to
   * `hi`, both clamped to `|s|`. A read of `size` bytes after a seek to `lo`
   * returns `Slice(s, lo, lo + size)`: fewer bytes at the end of the file and
   * none at all past it.
   */
  function Slice(s: seq<byte>, lo: nat, hi: nat): (r: seq<byte>)
    ensures |r| == if lo < Min(hi, |s|) then Min(hi, |s|) - lo else 0
    ensures forall i :: 0 <= i < |r| ==> r[i] == s[lo + i]
  {
    if lo < Min(hi, |s|) then s[lo..Min(hi, |s|)] else []
  }

  /** Within bounds a Python slice is Dafny's. */
  lemma SliceInBounds(s: seq<byte>, lo: nat, hi: nat)
    requires lo <= hi <= |s|
    ensures Slice(s, lo, hi) == s[lo..hi]
  {
  }

  function Zeros(n: nat): (s: seq<byte>)
    ensures |s| == n && forall i :: 0 <= i < n ==> s[i] == 0
  {
    seq(n, _ => 0)
  }
}

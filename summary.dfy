/**
 * The text of `boot_params.txt`: one `Label: value` line per header field,
 * integers in decimal, the patch month as two zero-padded digits and the
 * load addresses as `0x` and eight lower-case hexadecimal digits.
 */
module Summary {
  import opened Bytes
  import opened BootImage
  import opened Wrappers

  const DigitChars: string := "0123456789abcdef"

  /** `c` is a digit of `base` (10 or 16) as Python writes it: `0`-`9`, then `a`-`f`. */
  predicate IsDigit(c: char, base: nat)
  {
    ('0' <= c <= '9' && (c as int) - ('0' as int) < base) ||
    (base == 16 && 'a' <= c <= 'f')
  }

  function DigitValue(c: char): nat
  {
    if '0' <= c <= '9' then (c as int) - ('0' as int)
    else if 'a' <= c <= 'f' then (c as int) - ('a' as int) + 10
    else 0
  }

  function DigitChar(d: nat, base: nat): (c: char)
    requires (base == 10 || base == 16) && d < base
    ensures IsDigit(c, base) && DigitValue(c) == d
  {
    DigitChars[d]
  }

  /** The number a digit string denotes. */
  function Value(s: string, base: nat): nat
  {
    if s == [] then 0 else Value(s[..|s| - 1], base) * base + DigitValue(s[|s| - 1])
  }

  function Pow(base: nat, k: nat): (p: nat)
  {
    if k == 0 then 1 else base * Pow(base, k - 1)
  }

  /** `n` in base 10 (`{n}`) or 16 (`{n:x}`): most significant digit first, no leading zeros. */
  function Digits(n: nat, base: nat): (s: string)
    requires base == 10 || base == 16
    ensures |s| >= 1
    ensures forall i :: 0 <= i < |s| ==> IsDigit(s[i], base)
    ensures Value(s, base) == n
    ensures |s| > 1 ==> s[0] != '0'
    decreases n
  {
    if n < base then [DigitChar(n, base)]
    else
      var s := Digits(n / base, base) + [DigitChar(n % base, base)];
      assert s[..|s| - 1] == Digits(n / base, base);
      s
  }

  /** A number below `base^k` takes at most `k` digits. */
  lemma {:induction false} DigitsLength(n: nat, base: nat, k: nat)
    requires base == 10 || base == 16
    requires k >= 1 && n < Pow(base, k)
    ensures |Digits(n, base)| <= k
  {
    if n >= base && k >= 2 {
      DivBound(n, base, Pow(base, k - 1));
      DigitsLength(n / base, base, k - 1);
    }
  }

  lemma DivBound(n: nat, b: nat, p: nat)
    requires b > 0 && n < b * p
    ensures n / b < p
  {
    var q := n / b;
    assert (q - p) * b == q * b - p * b;
    NonNegativeProduct(q - p, b);
  }

  lemma NonNegativeProduct(x: int, y: nat)
    ensures x >= 0 ==> x * y >= 0
  {
  }

  /** A year of the patch level, 2000 to 2127, takes four digits. */
  lemma YearDigits(year: nat)
    requires 2000 <= year <= 2127
    ensures |Digits(year, 10)| == 4
  {
    assert Digits(year / 1000, 10) == [DigitChar(2, 10)];
    assert |Digits(year / 100, 10)| == 2;
    assert |Digits(year / 10, 10)| == 3;
  }

  /** Python's zero fill (`{:0Nd}`, `{:0Nx}`): zeros on the left up to `width` characters. */
  function ZeroFill(s: string, width: nat): (r: string)
    ensures |r| == if |s| < width then width else |s|
    ensures r[|r| - |s|..] == s
    ensures forall i :: 0 <= i < |r| - |s| ==> r[i] == '0'
  {
    if |s| < width then seq(width - |s|, _ => '0') + s else s
  }

  /** Leading zeros do not change the value of a digit string. */
  lemma {:induction false} ValueZeroFill(s: string, base: nat, width: nat)
    ensures Value(ZeroFill(s, width), base) == Value(s, base)
  {
    var r := ZeroFill(s, width);
    if s == [] {
      AllZerosValue(r, base);
    } else if |s| < width {
      var s' := s[..|s| - 1];
      assert r[..|r| - 1] == ZeroFill(s', width - 1);
      ValueZeroFill(s', base, width - 1);
    }
  }

  lemma {:induction false} AllZerosValue(z: string, base: nat)
    requires forall i :: 0 <= i < |z| ==> z[i] == '0'
    ensures Value(z, base) == 0
  {
    if z != [] {
      AllZerosValue(z[..|z| - 1], base);
    }
  }

  /** `{n:02d}`: the patch month as exactly two decimal digits. */
  function TwoDigits(n: nat): (r: string)
    requires n < 100
    ensures |r| == 2
    ensures IsDigit(r[0], 10) && IsDigit(r[1], 10)
    ensures Value(r, 10) == n
  {
    DigitsLength(n, 10, 2);
    ValueZeroFill(Digits(n, 10), 10, 2);
    ZeroFill(Digits(n, 10), 2)
  }

  /** `0x{v:08x}`: a 32-bit address as `0x` and exactly eight lower-case hex digits. */
  function Address(v: u32): (r: string)
    ensures |r| == 10 && r[..2] == "0x"
    ensures forall i :: 2 <= i < 10 ==> IsDigit(r[i], 16)
    ensures Value(r[2..], 16) == v
  {
    assert Pow(16, 8) == 0x1_0000_0000;
    DigitsLength(v, 16, 8);
    ValueZeroFill(Digits(v, 16), 16, 8);
    var hex := ZeroFill(Digits(v, 16), 8);
    assert ("0x" + hex)[2..] == hex;
    "0x" + hex
  }

  /** `{year}-{month:02d}`. */
  function PatchLevel(h: Header): (r: string)
    ensures |r| == 7
    ensures forall i :: 0 <= i < 7 && i != 4 ==> IsDigit(r[i], 10)
    ensures Value(r[..4], 10) == h.PatchYear() && r[4] == '-' && Value(r[5..], 10) == h.PatchMonth()
  {
    var year := Digits(h.PatchYear(), 10);
    var month := TwoDigits(h.PatchMonth());
    YearDigits(h.PatchYear());
    Dashed(year, month);
    DashedDigits(year, month);
    year + "-" + month
  }

  lemma DashedDigits(a: string, b: string)
    requires forall i :: 0 <= i < |a| ==> IsDigit(a[i], 10)
    requires forall i :: 0 <= i < |b| ==> IsDigit(b[i], 10)
    ensures forall i :: 0 <= i < |a + "-" + b| && i != |a| ==> IsDigit((a + "-" + b)[i], 10)
  {
    var r := a + "-" + b;
    forall i | 0 <= i < |r| && i != |a|
      ensures IsDigit(r[i], 10)
    {
      if i > |a| {
        assert r[i] == b[i - |a| - 1];
      }
    }
  }

  lemma Dashed(a: string, b: string)
    ensures |a + "-" + b| == |a| + 1 + |b|
    ensures (a + "-" + b)[..|a|] == a && (a + "-" + b)[|a|] == '-' && (a + "-" + b)[|a| + 1..] == b
  {
  }

  const Labels: seq<string> := [
    "Header version", "OS Version", "OS Patch Level", "Page size",
    "Kernel address", "Ramdisk address", "Second address", "Tags address", "Cmdline"]

  /** The text after `name: ` on a line that starts with it, and None on any other line. */
  function FieldOf(line: string, name: string): Option<string>
  {
    if |name| + 2 <= |line| && line[..|name| + 2] == name + ": " then Some(line[|name| + 2..]) else None
  }

  /** One `name: field` line. */
  function Line(name: string, field: string): (line: string)
    ensures FieldOf(line, name) == Some(field)
  {
    var line := name + ": " + field;
    assert line[..|name| + 2] == name + ": ";
    line
  }

  /** The line shows `name: ` followed by the decimal digits of `n`, without leading zeros. */
  predicate ShowsDecimal(line: string, name: string, n: nat)
  {
    var f := FieldOf(line, name);
    f.Some? && |f.value| >= 1 && (forall i :: 0 <= i < |f.value| ==> IsDigit(f.value[i], 10)) &&
    (|f.value| > 1 ==> f.value[0] != '0') && Value(f.value, 10) == n
  }

  /**
   * The lines of `boot_params.txt`, each written with a trailing newline.
   * `cmdlineText` is the command line after the permissive UTF-8 decoding,
   * which this model does not include.
   */
  function ParamsLines(h: Header, cmdlineText: string): (lines: seq<string>)
    ensures |lines| == |Labels| == 9
    ensures ShowsDecimal(lines[0], Labels[0], h.headerVersion)
    ensures ShowsDecimal(lines[1], Labels[1], h.OsVersion())
    ensures FieldOf(lines[2], Labels[2]) == Some(PatchLevel(h))
    ensures ShowsDecimal(lines[3], Labels[3], h.pageSize)
    ensures FieldOf(lines[4], Labels[4]) == Some(Address(h.kernelAddr))
    ensures FieldOf(lines[5], Labels[5]) == Some(Address(h.ramdiskAddr))
    ensures FieldOf(lines[6], Labels[6]) == Some(Address(h.secondAddr))
    ensures FieldOf(lines[7], Labels[7]) == Some(Address(h.tagsAddr))
    ensures FieldOf(lines[8], Labels[8]) == Some(cmdlineText)
  {
    [ Line(Labels[0], Digits(h.headerVersion, 10)),
      Line(Labels[1], Digits(h.OsVersion(), 10)),
      Line(Labels[2], PatchLevel(h)),
      Line(Labels[3], Digits(h.pageSize, 10)),
      Line(Labels[4], Address(h.kernelAddr)),
      Line(Labels[5], Address(h.ramdiskAddr)),
      Line(Labels[6], Address(h.secondAddr)),
      Line(Labels[7], Address(h.tagsAddr)),
      Line(Labels[8], cmdlineText) ]
  }

  /**
   * The "OS Version" line shows bits 11 to 17 of the packed word, so for
   * Android 11.0.0 with patch level 2021-05 it shows 0 and not the major
   * version 11.
   */
  lemma SummaryMisreadsVersion(h: Header, cmdlineText: string)
    requires h.osVersionPacked == PackOsVersion(11, 0, 0, 2021, 5)
    ensures ShowsDecimal(ParamsLines(h, cmdlineText)[1], "OS Version", 0)
    ensures !ShowsDecimal(ParamsLines(h, cmdlineText)[1], "OS Version", MajorVersion(h.osVersionPacked))
  {
    MisreadsVersion();
  }
}

/**
 * Where the payloads sit in a boot image: after the header page, the kernel,
 * the ramdisk and the second-stage blob follow one another, each padded up to
 * a whole number of pages. Offsets are never stored in the image; they are
 * recomputed from the page size and the three sizes.
 */
module Layout {

  /** A product with a factor of at least one in absolute value is at least `d` in absolute value. */
  lemma MulAtLeast(k: int, d: int)
    requires 0 < d
    ensures k >= 1 ==> k * d >= d
    ensures k <= -1 ==> k * d <= -d
  {
    assert k * d - d == (k - 1) * d;
    assert k * d + d == (k + 1) * d;
  }

  /** Division with remainder is unique. */
  lemma DivMod(q: int, r: int, d: int)
    requires 0 < d && 0 <= r < d
    ensures (q * d + r) / d == q && (q * d + r) % d == r
  {
    var n := q * d + r;
    var k := n / d - q;
    assert k * d == r - n % d;
    MulAtLeast(k, d);
  }

  /**
   * `align(size, page_size)`: `size` rounded up to a multiple of the page
   * size. Python's `//` floors; on these non-negative operands it agrees
   * with Dafny's `/`. A page size of zero divides by zero in the source, so
   * callers must rule it out first.
   */
  function Align(n: nat, p: nat): (r: nat)
    requires p > 0
    ensures r % p == 0
    ensures n <= r < n + p
  {
    var q := (n + p - 1) / p;
    DivMod(q, 0, p);
    q * p
  }

  lemma AlignZero(p: nat)
    requires p > 0
    ensures Align(0, p) == 0
  {
    DivMod(0, p - 1, p);
  }

  /** `Align(n, p)` is the least multiple of `p` that is at least `n`. */
  lemma AlignIsLeast(n: nat, p: nat, m: nat)
    requires p > 0 && m % p == 0 && n <= m
    ensures Align(n, p) <= m
  {
    var a := Align(n, p);
    var k := m / p - a / p;
    assert m == (m / p) * p && a == (a / p) * p;
    assert m - a == k * p;
    MulAtLeast(k, p);
  }

  /** Aligning an aligned size changes nothing. */
  lemma AlignIdempotent(n: nat, p: nat)
    requires p > 0
    ensures Align(Align(n, p), p) == Align(n, p)
  {
    var a := Align(n, p);
    AlignIsLeast(a, p, a);
  }

  /** A payload region: `size` bytes starting `offset` bytes into the image. */
  datatype Region = Region(offset: nat, size: nat) {
    function End(): nat { offset + size }
  }

  datatype Regions = Regions(kernel: Region, ramdisk: Region, second: Region)

  /**
   * The offsets computed at scripts/unpack_boot.py:60-62: the kernel starts
   * one page in, and each later region starts at the previous region's
   * offset plus its page-aligned size.
   */
  function Locate(pageSize: nat, kernelSize: nat, ramdiskSize: nat, secondSize: nat): (l: Regions)
    requires pageSize > 0
    ensures l.kernel == Region(pageSize, kernelSize)
    ensures l.ramdisk.size == ramdiskSize && l.second.size == secondSize
    ensures l.kernel.offset % pageSize == 0
    ensures l.ramdisk.offset % pageSize == 0
    ensures l.second.offset % pageSize == 0
    ensures l.kernel.End() <= l.ramdisk.offset < l.kernel.End() + pageSize
    ensures l.ramdisk.End() <= l.second.offset < l.ramdisk.End() + pageSize
  {
    var kernelOffset := pageSize;
    var ramdiskOffset := kernelOffset + Align(kernelSize, pageSize);
    var secondOffset := ramdiskOffset + Align(ramdiskSize, pageSize);
    ModSum(kernelOffset, Align(kernelSize, pageSize), pageSize);
    ModSum(ramdiskOffset, Align(ramdiskSize, pageSize), pageSize);
    Regions(Region(kernelOffset, kernelSize),
            Region(ramdiskOffset, ramdiskSize),
            Region(secondOffset, secondSize))
  }

  lemma ModSum(a: nat, b: nat, p: nat)
    requires p > 0 && a % p == 0 && b % p == 0
    ensures (a + b) % p == 0
  {
    DivMod(a / p + b / p, 0, p);
    assert a + b == (a / p + b / p) * p;
  }

  /** The regions are in file order, each starting on a page boundary no earlier than the previous one. */
  lemma LocateOrdered(pageSize: nat, kernelSize: nat, ramdiskSize: nat, secondSize: nat)
    requires pageSize > 0
    ensures var l := Locate(pageSize, kernelSize, ramdiskSize, secondSize);
      pageSize == l.kernel.offset <= l.ramdisk.offset <= l.second.offset
  {
  }

  /**
   * The offsets are exactly the cumulative aligned sizes: the ramdisk and
   * second offsets are the least page-aligned positions after the preceding region.
   */
  lemma LocateIsCumulativeAlign(pageSize: nat, kernelSize: nat, ramdiskSize: nat, secondSize: nat)
    requires pageSize > 0
    ensures var l := Locate(pageSize, kernelSize, ramdiskSize, secondSize);
      l.ramdisk.offset == pageSize + Align(kernelSize, pageSize) &&
      l.second.offset == l.ramdisk.offset + Align(ramdiskSize, pageSize)
  {
    var l := Locate(pageSize, kernelSize, ramdiskSize, secondSize);
    var a := l.ramdisk.offset - pageSize;
    ModDiff(l.ramdisk.offset, pageSize, pageSize);
    AlignIsLeast(kernelSize, pageSize, a);
    var b := l.second.offset - l.ramdisk.offset;
    ModDiff(l.second.offset, l.ramdisk.offset, pageSize);
    AlignIsLeast(ramdiskSize, pageSize, b);
  }

  lemma ModDiff(a: nat, b: nat, p: nat)
    requires p > 0 && b <= a && a % p == 0 && b % p == 0
    ensures (a - b) % p == 0
  {
    DivMod(a / p - b / p, 0, p);
    assert a - b == (a / p - b / p) * p;
  }

  /** The example of a 2048-byte page, a 5000-byte kernel and a 100-byte ramdisk. */
  lemma LocateExample()
    ensures var l := Locate(2048, 5000, 100, 0);
      l.kernel.offset == 2048 && l.ramdisk.offset == 8192 && l.second.offset == 10240
  {
    var l := Locate(2048, 5000, 100, 0);
    assert l.ramdisk.offset - 2048 == 6144;
  }
}

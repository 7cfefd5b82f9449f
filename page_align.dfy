/**
 * The address arithmetic of `madvise_aligned`: the advised range is widened to whole
 * pages by clearing the low bits of the start address and of the end address rounded up.
 * Integers are 64-bit `usize` values; the bitwise operators are modelled bit by bit.
 */
module PageAlign {
  import opened Common

  function Pow2(n: nat): (r: nat)
    ensures r >= 1
  {
    if n == 0 then 1 else 2 * Pow2(n - 1)
  }

  /** 2^64: the number of distinct `usize` values. */
  const USIZE_LIMIT: nat := Pow2(64)

  /** A page size as `sysconf(PAGE_SIZE)` reports it: a power of two. */
  predicate IsPowerOfTwo(p: nat)
  {
    p == 1 || (p >= 2 && p % 2 == 0 && IsPowerOfTwo(p / 2))
  }

  /** `a & b` on unsigned integers, computed one bit at a time from the least significant. */
  function BitAnd(a: nat, b: nat): nat
  {
    if a == 0 || b == 0 then 0
    else 2 * BitAnd(a / 2, b / 2) + (if a % 2 == 1 && b % 2 == 1 then 1 else 0)
  }

  /** `!x` on a `usize`: every one of the 64 bits flipped. */
  function BitNot(x: nat): nat
    requires x < USIZE_LIMIT
  {
    USIZE_LIMIT - 1 - x
  }

  /** `x & !(p - 1)`, the expression `madvise_aligned` uses to round down to a page boundary. */
  function AlignDown(x: nat, p: nat): nat
    requires x < USIZE_LIMIT && 1 <= p <= USIZE_LIMIT
  {
    BitAnd(x, BitNot(p - 1))
  }

  /** Multiplying by a natural number preserves `<=`. */
  lemma MulMonotone(p: nat, a: nat, b: nat)
    requires a <= b
    ensures p * a <= p * b
  {
    assert p * b == p * a + p * (b - a);
  }

  /** Division by `p` has one quotient and one remainder. */
  lemma DivModUnique(x: nat, p: nat, t: nat, rem: nat)
    requires 0 <= rem < p && x == p * t + rem
    ensures x % p == rem && x / p == t
  {
    var t', rem' := x / p, x % p;
    assert x == p * t' + rem';
    if t' < t {
      MulMonotone(p, t' + 1, t);
      assert false;
    } else if t' > t {
      MulMonotone(p, t + 1, t');
      assert false;
    }
  }

  /** The remainder by an even `p` split into its low bit and the remainder of the upper bits. */
  lemma ModHalves(x: nat, p: nat)
    requires p >= 2 && p % 2 == 0
    ensures x % p == 2 * ((x / 2) % (p / 2)) + x % 2
  {
    var q, r := x / 2, x % 2;
    var t, s := q / (p / 2), q % (p / 2);
    assert q == (p / 2) * t + s;
    assert x == p * t + (2 * s + r);
    DivModUnique(x, p, t, 2 * s + r);
  }

  /** Anding with n one-bits keeps every number below 2^n unchanged. */
  lemma {:induction false} AndAllOnes(x: nat, n: nat)
    requires x < Pow2(n)
    ensures BitAnd(x, Pow2(n) - 1) == x
  {
    if n > 0 && x > 0 {
      AndAllOnes(x / 2, n - 1);
    }
  }

  /**
   * For a power of two p no larger than 2^n, the mask 2^n - p has exactly the bits at and
   * above p set, so anding clears the bits below p: it rounds x down to a multiple of p.
   */
  lemma {:induction false} AndClearsLowBits(x: nat, n: nat, p: nat)
    requires x < Pow2(n) && IsPowerOfTwo(p) && p <= Pow2(n)
    ensures BitAnd(x, Pow2(n) - p) == x - x % p
  {
    var m := Pow2(n) - p;
    if p == 1 {
      AndAllOnes(x, n);
    } else if x == 0 {
      DivModUnique(0, p, 0, 0);
    } else if m == 0 {
      DivModUnique(x, p, 0, x);
    } else {
      PowerOfTwoHalfFits(n, p);
      assert BitAnd(x, m) == 2 * BitAnd(x / 2, m / 2);
      AndClearsLowBits(x / 2, n - 1, p / 2);
      ModHalves(x, p);
    }
  }

  lemma PowerOfTwoHalfFits(n: nat, p: nat)
    requires n > 0 && IsPowerOfTwo(p) && 2 <= p <= Pow2(n)
    ensures p / 2 <= Pow2(n - 1) && (Pow2(n) - p) % 2 == 0 && (Pow2(n) - p) / 2 == Pow2(n - 1) - p / 2
  {
  }

  /** x - x % p is the largest multiple of p not above x. */
  lemma RoundDownFacts(x: nat, p: nat)
    requires p >= 1
    ensures (x - x % p) % p == 0 && x - x % p <= x < x - x % p + p
  {
    DivModUnique(x - x % p, p, x / p, 0);
  }

  /** `x & !(p - 1)` is x rounded down to a multiple of p. */
  lemma AlignDownRounds(x: nat, p: nat)
    requires x < USIZE_LIMIT && IsPowerOfTwo(p) && p <= USIZE_LIMIT
    ensures AlignDown(x, p) == x - x % p
  {
    AndClearsLowBits(x, 64, p);
  }

  /** `x & !(p - 1)` is a multiple of p within one page below x, and zero exactly when x < p. */
  lemma AlignDownFacts(x: nat, p: nat)
    requires x < USIZE_LIMIT && IsPowerOfTwo(p) && p <= USIZE_LIMIT
    ensures var a := AlignDown(x, p);
      a % p == 0 && a <= x < a + p && (a == 0 <==> x < p)
  {
    AlignDownRounds(x, p);
    RoundDownFacts(x, p);
    var a := x - x % p;
    if a < p {
      DivModUnique(a, p, 0, a);
    }
  }

  /** Two distinct multiples of p are at least p apart. */
  lemma MultiplesApart(a: nat, b: nat, p: nat)
    requires p >= 1 && a % p == 0 && b % p == 0 && a < b
    ensures a + p <= b
  {
    var ka, kb := a / p, b / p;
    assert a == p * ka && b == p * kb;
    if kb < ka + 1 {
      MulMonotone(p, kb, ka);
      assert false;
    }
    MulMonotone(p, ka + 1, kb);
  }

  /** The range `madvise_aligned` passes to `madvise`: its start address and its length. */
  datatype Range = Range(start: nat, length: nat)

  /**
   * `madvise_aligned(addr, length, _)` on a system with page size `pageSize`: None stands
   * for the error returned when the aligned start is the null address. The sums
   * `addr + length` and `original_end + page_size - 1` are required not to overflow, as
   * they do not for an address range inside a mapping.
   */
  function AlignedRange(addr: nat, length: nat, pageSize: nat): (r: Option<Range>)
    requires IsPowerOfTwo(pageSize) && addr + length + pageSize - 1 < USIZE_LIMIT
    ensures r.None? <==> addr < pageSize
    ensures r.Some? ==>
      var start, end := r.value.start, r.value.start + r.value.length;
      && start % pageSize == 0 && start <= addr < start + pageSize
      && end % pageSize == 0 && addr + length <= end < addr + length + pageSize
      && length <= r.value.length < length + 2 * pageSize
  {
    var pageAlignedStart := AlignDown(addr, pageSize);
    var originalEnd := addr + length;
    var pageAlignedEnd := AlignDown(originalEnd + pageSize - 1, pageSize);
    AlignDownFacts(addr, pageSize);
    AlignDownFacts(originalEnd + pageSize - 1, pageSize);
    if pageAlignedStart == 0 then None
    else Some(Range(pageAlignedStart, pageAlignedEnd - pageAlignedStart))
  }

  /**
   * The aligned range is the smallest page-aligned one that covers [addr, addr + length):
   * no multiple of the page size at or below addr lies above its start, and none at or
   * above addr + length lies below its end.
   */
  lemma AlignedRangeIsTightest(addr: nat, length: nat, pageSize: nat, m: nat)
    requires IsPowerOfTwo(pageSize) && addr + length + pageSize - 1 < USIZE_LIMIT
    requires AlignedRange(addr, length, pageSize).Some?
    requires m % pageSize == 0
    ensures var r := AlignedRange(addr, length, pageSize).value;
      && (m <= addr ==> m <= r.start)
      && (m >= addr + length ==> m >= r.start + r.length)
  {
    var r := AlignedRange(addr, length, pageSize).value;
    if m <= addr && m > r.start {
      MultiplesApart(r.start, m, pageSize);
    }
    if m >= addr + length && m < r.start + r.length {
      MultiplesApart(m, r.start + r.length, pageSize);
    }
  }
}

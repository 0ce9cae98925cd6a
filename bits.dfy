/** Bits of an integer, read by halving: the integer spelling of Java's `&`,
    `>>` and single-bit masks on the packed lunar-year words, with division
    and remainder by powers of two for the masks and shifts. */
module Bits {

  function Pow2(k: nat): (r: nat)
    ensures r >= 1
  {
    if k == 0 then 1 else Pow2(k - 1) + Pow2(k - 1)
  }

  /** Bit k of w: Java's `(w & (1 << k)) != 0`. */
  predicate Bit(w: int, k: nat) {
    (w / Pow2(k)) % 2 == 1
  }

  /** Bit k of w read as the last bit of w halved k times; `BitByHalving`
      shows it is `Bit`. (The word in the measure keeps a fixed k from
      unrolling the recursion for every word the verifier meets.) */
  predicate HalvedBit(w: int, k: nat)
    decreases k, w
  {
    if k == 0 then w % 2 == 1 else HalvedBit(w / 2, k - 1)
  }

  /** The number of set bits of w among bits lo .. hi-1. */
  function CountBits(w: int, lo: nat, hi: nat): (n: nat)
    ensures n <= if lo <= hi then hi - lo else 0
    decreases hi - lo, w
  {
    if lo >= hi then 0 else (if Bit(w, lo) then 1 else 0) + CountBits(w, lo + 1, hi)
  }

  lemma Pow2AtLeast(k: nat, j: nat)
    requires j <= k
    ensures Pow2(j) <= Pow2(k)
    decreases k
  {
    if j < k { Pow2AtLeast(k - 1, j); }
  }

  lemma {:induction false} MulAtLeast(d: nat, x: nat)
    requires x >= 1
    ensures d * x >= d
  {
    if x > 1 {
      MulAtLeast(d, x - 1);
      assert d * x == d * (x - 1) + d;
    }
  }

  lemma DivModUnique(a: int, d: int, q: int, r: int)
    requires d > 0 && 0 <= r < d && a == d * q + r
    ensures a / d == q && a % d == r
  {
    var q', r' := a / d, a % d;
    assert d * (q - q') == r' - r;
    if q > q' {
      MulAtLeast(d, q - q');
    } else if q < q' {
      MulAtLeast(d, q' - q);
    }
  }

  /** Dividing by 2p is halving and then dividing by p. */
  lemma HalfDivMod(w: int, p: nat)
    requires p >= 1
    ensures w / (p + p) == (w / 2) / p
    ensures w % (p + p) == 2 * ((w / 2) % p) + w % 2
  {
    var q, s, b := (w / 2) / p, (w / 2) % p, w % 2;
    assert w / 2 == p * q + s;
    assert w == 2 * (p * q + s) + b;
    assert w == (p + p) * q + (2 * s + b);
    DivModUnique(w, p + p, q, 2 * s + b);
  }

  /** Dividing by 2^k is halving k times. */
  lemma {:induction false} BitByHalving(w: int, k: nat)
    ensures Bit(w, k) == HalvedBit(w, k)
    decreases k
  {
    if k > 0 {
      BitByHalving(w / 2, k - 1);
      HalfDivMod(w, Pow2(k - 1));
    }
  }

  /** No bit of 0 is set. */
  lemma {:induction false} HalvedOfZero(k: nat)
    ensures !HalvedBit(0, k)
  {
    if k > 0 {
      HalvedOfZero(k - 1);
    }
  }

  /** The bits of x = 2y + b are b followed by the bits of y. */
  lemma HalvedOfDouble(x: int, y: int, b: int, k: nat)
    requires 0 <= b < 2 && x == 2 * y + b
    ensures HalvedBit(x, 0) == (b == 1)
    ensures HalvedBit(x, k + 1) == HalvedBit(y, k)
  {
    assert x / 2 == y && x % 2 == b;
  }

  lemma {:induction false} HalvedOfShift(w: nat, s: nat, k: nat)
    ensures HalvedBit(w / Pow2(s), k) == HalvedBit(w, s + k)
    decreases s
  {
    if s > 0 {
      HalfDivMod(w, Pow2(s - 1));
      HalvedOfShift(w / 2, s - 1, k);
    }
  }

  /** Shifting right by s moves bit s + k to position k. */
  lemma BitOfShift(w: nat, s: nat, k: nat)
    ensures Bit(w / Pow2(s), k) == Bit(w, s + k)
  {
    BitByHalving(w / Pow2(s), k);
    BitByHalving(w, s + k);
    HalvedOfShift(w, s, k);
  }

  /** The low n bits of w, rebuilt bit by bit: `w & (2^n - 1)`. */
  function Low(w: int, n: nat): (r: int)
    decreases n, w
  {
    if n == 0 then 0 else 2 * Low(w / 2, n - 1) + w % 2
  }

  /** The low n bits of a word are its remainder modulo 2^n. */
  lemma {:induction false} LowIsMod(w: int, n: nat)
    ensures Low(w, n) == w % Pow2(n)
    decreases n
  {
    if n > 0 {
      LowIsMod(w / 2, n - 1);
      HalfDivMod(w, Pow2(n - 1));
    }
  }

  lemma {:induction false} HalvedOfLow(w: int, n: nat, k: nat)
    ensures HalvedBit(Low(w, n), k) == (k < n && HalvedBit(w, k))
    decreases n
  {
    if n == 0 {
      HalvedOfZero(k);
    } else {
      HalvedOfDouble(Low(w, n), Low(w / 2, n - 1), w % 2, if k == 0 then 0 else k - 1);
      if k > 0 {
        HalvedOfLow(w / 2, n - 1, k - 1);
      }
    }
  }

  /** Keeping the low n bits clears every bit from n up. */
  lemma BitOfLow(w: int, n: nat, k: nat)
    ensures Bit(Low(w, n), k) == (k < n && Bit(w, k))
  {
    BitByHalving(Low(w, n), k);
    BitByHalving(w, k);
    HalvedOfLow(w, n, k);
  }

  lemma {:induction false} HalvedOfMiddle(w: int, lo: nat, hi: nat, k: nat)
    requires lo <= hi
    ensures HalvedBit(Low(w, hi) - Low(w, lo), k) == (lo <= k < hi && HalvedBit(w, k))
    decreases lo
  {
    if lo == 0 {
      HalvedOfLow(w, hi, k);
    } else {
      var y := Low(w / 2, hi - 1) - Low(w / 2, lo - 1);
      HalvedOfMiddle(w / 2, lo - 1, hi - 1, if k == 0 then 0 else k - 1);
      HalvedOfDouble(Low(w, hi) - Low(w, lo), y, 0, if k == 0 then 0 else k - 1);
    }
  }

  /** `w & (2^hi - 2^lo)`, the low hi bits less the low lo bits, is w masked
      to bits lo .. hi-1. */
  lemma BitOfMiddle(w: int, lo: nat, hi: nat, k: nat)
    requires lo <= hi
    ensures Bit(Low(w, hi) - Low(w, lo), k) == (lo <= k < hi && Bit(w, k))
  {
    BitByHalving(Low(w, hi) - Low(w, lo), k);
    BitByHalving(w, k);
    HalvedOfMiddle(w, lo, hi, k);
  }

  /** Counting the masked word `w & (2^hi - 2^lo)` from any bit s below lo
      counts the bits lo .. hi-1 of w. */
  lemma CountBitsOfMiddle(w: int, m: int, s: nat, lo: nat, hi: nat)
    requires s <= lo <= hi && m == Low(w, hi) - Low(w, lo)
    ensures CountBits(m, s, hi) == CountBits(w, lo, hi)
  {
    forall j: nat
      ensures Bit(m, j) == (lo <= j < hi && Bit(w, j))
    {
      BitOfMiddle(w, lo, hi, j);
    }
    CountBitsSkipClear(m, s, lo, hi);
    CountBitsAgree(m, w, lo, hi);
  }

  /** Two words that agree on bits lo .. hi-1 have the same count there. */
  lemma {:induction false} CountBitsAgree(v: int, w: int, lo: nat, hi: nat)
    requires forall k :: lo <= k < hi ==> Bit(v, k) == Bit(w, k)
    ensures CountBits(v, lo, hi) == CountBits(w, lo, hi)
    decreases hi - lo
  {
    if lo < hi {
      CountBitsAgree(v, w, lo + 1, hi);
    }
  }

  /** Clear bits at the bottom of a range add nothing to its count. */
  lemma {:induction false} CountBitsSkipClear(w: int, lo: nat, mid: nat, hi: nat)
    requires lo <= mid <= hi
    requires forall k :: lo <= k < mid ==> !Bit(w, k)
    ensures CountBits(w, lo, hi) == CountBits(w, mid, hi)
    decreases mid - lo
  {
    if lo < mid {
      CountBitsSkipClear(w, lo + 1, mid, hi);
    }
  }

  /** The differences between the day congruences of consecutive days, inside
      a month and across month, year and century ends, are all 1 (mod 10)
      for the stems and 1 (mod 12) for the branches. */
  lemma StepModulo(step: int, k: int)
    requires (k == 10 && step in {1, -29, -549}) || (k == 12 && step in {1, -23, -35, -551})
    ensures step % k == 1
  {
  }

  /** Numbers one apart (mod k) have positions one apart (mod k). */
  lemma NextModulo(a: int, b: int, k: int)
    requires (k == 10 || k == 12) && (b - a) % k == 1
    ensures (b - 1) % k == ((a - 1) % k + 1) % k
  {
    var q, r, t := (a - 1) / k, (a - 1) % k, (b - a) / k;
    assert b - a == k * t + 1;
    assert a - 1 == k * q + r;
    if r + 1 < k {
      assert b - 1 == k * (q + t) + (r + 1);
      DivModUnique(b - 1, k, q + t, r + 1);
    } else {
      assert b - 1 == k * (q + t + 1) + 0;
      DivModUnique(b - 1, k, q + t + 1, 0);
    }
  }
}

/** Unsigned 64-bit division by shift and subtract, in wrapping 64-bit arithmetic. */
module Division64 {

  const RANGE64: nat := 0x1_0000_0000_0000_0000

  type u64 = x: int | 0 <= x < RANGE64

  function Pow2(k: nat): (p: nat)
    ensures p > 0
  {
    if k == 0 then 1 else 2 * Pow2(k - 1)
  }

  /** Bitwise or. */
  function Or(a: nat, b: nat): nat {
    if a == 0 then b else if b == 0 then a
    else (if a % 2 == 1 || b % 2 == 1 then 1 else 0) + 2 * Or(a / 2, b / 2)
  }

  function ShiftLeft(a: u64, k: nat): u64 {
    a * Pow2(k) % RANGE64
  }

  function ShiftRight(a: u64, k: nat): u64 {
    DivideSmaller(a, Pow2(k));
    a / Pow2(k)
  }

  lemma DivideSmaller(a: nat, p: nat)
    requires p > 0
    ensures 0 <= a / p <= a && a / p * p <= a
  {
    var q := a / p;
    assert a == p * q + a % p;
    MultiplyLarger(q, 1, p);
  }

  lemma MultiplyLarger(q: nat, a: nat, b: nat)
    requires a <= b
    ensures q * a <= q * b
  {
    assert q * (b - a) >= 0;
  }

  lemma MultipleOf(d: nat, e: int)
    ensures e >= 1 ==> d * e >= d
    ensures e <= -1 ==> d * e + d <= 0
  {
    if e >= 1 {
      assert d * (e - 1) >= 0;
    } else if e <= -1 {
      assert d * (-1 - e) >= 0;
    }
  }

  /** Or of numbers without a common bit is their sum. */
  lemma {:induction false} OrIsSum(a: nat, b: nat, k: nat)
    requires b < Pow2(k)
    ensures Or(a * Pow2(k), b) == a * Pow2(k) + b
  {
    if k == 0 {
    } else {
      var x := a * Pow2(k - 1);
      assert a * Pow2(k) == 2 * x;
      OrIsSum(a, b / 2, k - 1);
    }
  }

  lemma PowersOfTwo()
    ensures Pow2(63) == 0x8000_0000_0000_0000 && Pow2(64) == RANGE64
  {
    assert Pow2(8) == 256;
    PowerSum(8, 8);
    PowerSum(16, 16);
    PowerSum(32, 32);
  }

  lemma {:induction false} PowerSum(a: nat, b: nat)
    ensures Pow2(a + b) == Pow2(a) * Pow2(b)
  {
    if a > 0 {
      PowerSum(a - 1, b);
    }
  }

  lemma {:induction false} PowMonotone(j: nat, k: nat)
    requires j <= k
    ensures Pow2(j) <= Pow2(k)
  {
    if j < k {
      PowMonotone(j, k - 1);
    }
  }

  /** Shifting out one bit less appends it. */
  lemma NextBit(n: nat, k: nat)
    ensures n / Pow2(k) == 2 * (n / Pow2(k + 1)) + n / Pow2(k) % 2
  {
    HalfOf(n, Pow2(k));
  }

  lemma HalfOf(n: nat, p: nat)
    requires p > 0
    ensures n / p / 2 == n / (2 * p)
  {
    var q, r := n / p, n % p;
    var h, b := q / 2, q % 2;
    Regroup(p, h, b);
    assert 0 <= p * b + r < 2 * p by {
      assert b == 0 || b == 1;
    }
    UniqueQuotient(n, 2 * p, h, p * b + r);
  }

  lemma Regroup(p: nat, h: nat, b: nat)
    ensures p * (2 * h + b) == 2 * p * h + p * b
  {
  }

  lemma UniqueQuotient(n: nat, d: nat, q: nat, r: nat)
    requires d > 0 && n == d * q + r && r < d
    ensures n / d == q && n % d == r
  {
    var e := n / d - q;
    assert n == d * (n / d) + n % d;
    assert d * e == r - n % d;
    MultipleOf(d, e);
  }

  /** The shift of the remainder never loses a bit, even for divisors above 2^63: before bit
      `bit` is handled it is at most the numerator shifted right by `bit + 1`. */
  lemma NoBitLost(n: u64, bit: nat, rem: nat)
    requires bit < 64 && rem <= n / Pow2(bit + 1)
    ensures rem < 0x8000_0000_0000_0000
    ensures 2 * rem + n / Pow2(bit) % 2 <= n / Pow2(bit) <= n
  {
    NextBit(n, bit);
    DivideSmaller(n, Pow2(bit));
    DivideSmaller(n, Pow2(bit + 1));
    MultiplyLarger(n / Pow2(bit + 1), 2, Pow2(bit + 1));
  }

  lemma ShiftIn(n: u64, bit: nat, rem: u64)
    requires bit < 64 && rem <= n / Pow2(bit + 1)
    ensures Or(ShiftLeft(rem, 1), ShiftRight(n, bit) % 2) == 2 * rem + n / Pow2(bit) % 2
  {
    NoBitLost(n, bit, rem);
    ShiftedOnce(rem);
    OrOne(rem, n / Pow2(bit) % 2);
  }

  lemma ShiftedOnce(rem: u64)
    requires rem < 0x8000_0000_0000_0000
    ensures ShiftLeft(rem, 1) == 2 * rem
  {
    assert Pow2(1) == 2;
  }

  lemma OrOne(a: nat, b: nat)
    requires b < 2
    ensures Or(2 * a, b) == 2 * a + b
  {
    assert Pow2(1) == 2;
    OrIsSum(a, b, 1);
  }

  /** __udivmoddi4: the exact quotient and remainder; zero for a zero divisor. */
  method DivMod(numerator: u64, denominator: u64) returns (quotient: u64, remainder: u64)
    ensures denominator == 0 ==> quotient == 0 && remainder == 0
    ensures denominator != 0 ==> quotient == numerator / denominator && remainder == numerator % denominator
    ensures denominator != 0 ==> numerator == quotient * denominator + remainder && remainder < denominator
  {
    if denominator == 0 {
      return 0, 0;
    }
    quotient := 0;
    var rem: u64 := 0;
    var bit := 63;
    ghost var high: nat := 0;  // the quotient of the bits handled so far
    PowersOfTwo();
    while bit >= 0
      invariant -1 <= bit <= 63
      invariant Dividing(numerator, denominator, bit + 1, high, rem, quotient)
      decreases bit
    {
      Step(numerator, denominator, bit, high, rem, quotient);
      rem := Or(ShiftLeft(rem, 1), ShiftRight(numerator, bit) % 2);
      high := 2 * high;
      if rem >= denominator {
        rem := rem - denominator;
        high := high + 1;
        quotient := Or(quotient, ShiftLeft(1, bit));
      }
      bit := bit - 1;
    }
    UniqueQuotient(numerator, denominator, quotient, rem);
    return quotient, rem;
  }

  /** The state between two rounds. */
  predicate Dividing(n: nat, d: nat, k: nat, high: nat, rem: nat, quotient: nat) {
    Divided(n, d, k, high, rem) && quotient == high * Pow2(k)
  }

  lemma Step(n: u64, d: nat, bit: nat, high: nat, rem: u64, quotient: nat)
    requires bit < 64 && d > 0 && Dividing(n, d, bit + 1, high, rem, quotient)
    ensures var r := Or(ShiftLeft(rem, 1), ShiftRight(n, bit) % 2);
      && r < RANGE64
      && (r < d ==> Dividing(n, d, bit, 2 * high, r, quotient))
      && (r >= d ==>
            && Or(quotient, ShiftLeft(1, bit)) < RANGE64
            && Dividing(n, d, bit, 2 * high + 1, r - d, Or(quotient, ShiftLeft(1, bit))))
  {
    ShiftIn(n, bit, rem);
    NoBitLost(n, bit, rem);
    DividedStep(n, d, bit, high, rem);
    Doubled(high, bit);
    var r := 2 * rem + n / Pow2(bit) % 2;
    if r >= d {
      SetBit(n, d, bit, high, r - d, quotient);
    }
  }

  lemma Doubled(high: nat, bit: nat)
    ensures high * Pow2(bit + 1) == (2 * high) * Pow2(bit)
  {
  }

  /** The numerator without its `k` low bits is divided. */
  predicate Divided(n: nat, d: nat, k: nat, high: nat, rem: nat) {
    n / Pow2(k) == high * d + rem && rem < d && rem <= n / Pow2(k)
  }

  lemma DividedStep(n: nat, d: nat, bit: nat, high: nat, rem: nat)
    requires Divided(n, d, bit + 1, high, rem)
    ensures var r := 2 * rem + n / Pow2(bit) % 2;
      if r >= d then Divided(n, d, bit, 2 * high + 1, r - d) else Divided(n, d, bit, 2 * high, r)
  {
    NextBit(n, bit);
    var r := 2 * rem + n / Pow2(bit) % 2;
    assert (2 * high) * d + r == n / Pow2(bit);
    assert (2 * high + 1) * d == (2 * high) * d + d;
  }

  /** The quotient bit that is set was clear, and the quotient still fits. */
  lemma SetBit(n: u64, d: nat, bit: nat, half: nat, rem: nat, quotient: nat)
    requires bit < 64 && d > 0 && Divided(n, d, bit, 2 * half + 1, rem)
    requires quotient == half * Pow2(bit + 1)
    ensures Or(quotient, ShiftLeft(1, bit)) == (2 * half + 1) * Pow2(bit) < RANGE64
  {
    ShiftOne(bit);
    OrIsSum(half, Pow2(bit), bit + 1);
    OddMultiple(half, Pow2(bit));
    QuotientFits(n, d, bit, 2 * half + 1, rem);
  }

  lemma ShiftOne(bit: nat)
    requires bit < 64
    ensures ShiftLeft(1, bit) == Pow2(bit)
  {
    PowersOfTwo();
    PowMonotone(bit, 63);
  }

  lemma OddMultiple(h: nat, p: nat)
    ensures (2 * h + 1) * p == h * (2 * p) + p
  {
  }

  lemma QuotientFits(n: nat, d: nat, bit: nat, high: nat, rem: nat)
    requires d > 0 && Divided(n, d, bit, high, rem)
    ensures high * Pow2(bit) <= n
  {
    MultiplyLarger(high, 1, d);
    DivideSmaller(n, Pow2(bit));
    MultiplyLarger(Pow2(bit), high, n / Pow2(bit));
  }
}

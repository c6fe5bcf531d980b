/** The MULT instruction of the MIPS interpreter: a 32 by 32 to 64 bit signed product built
    from half-word products, with the carries between the halves dropped. */
module Multiplier {

  const HALF := 0x1_0000
  const WORD := 0x1_0000_0000

  predicate IsWord(x: int) {
    -0x8000_0000 <= x < 0x8000_0000
  }

  /** A C int after wrap-around. */
  function Wrap(x: int): (w: int)
    ensures IsWord(w) && w % WORD == x % WORD
  {
    (x + 0x8000_0000) % WORD - 0x8000_0000
  }

  /** x & 0xffff, for the two's complement of x. */
  function Low(x: int): int {
    x % HALF
  }

  /** (x >> 16) & 0xffff, with an arithmetic shift. */
  function High(x: int): int {
    (x / HALF) % HALF
  }

  /** The signed number in the register pair HI:LO. */
  function Pair(hi: int, lo: int): int {
    hi * WORD + lo % WORD
  }

  function Magnitude(x: int): nat {
    if x < 0 then -x else x
  }

  /** The low parts that the three cross terms lose: their sum would carry into HI. */
  function Dropped(m: nat, n: nat): nat {
    (High(m) * Low(n)) % HALF + (High(n) * Low(m)) % HALF + (Low(m) * Low(n)) / HALF
  }

  lemma Halves(m: nat)
    requires m <= 0x8000_0000
    ensures m == High(m) * HALF + Low(m) && 0 <= High(m) <= 0x8000 && 0 <= Low(m) < HALF
  {
  }

  lemma MulBound(a: nat, b: nat, x: nat, y: nat)
    requires a <= x && b <= y
    ensures 0 <= a * b <= x * y
  {
    assert a * b <= x * b <= x * y;
  }

  lemma ProductOfHalves(m: nat, n: nat)
    requires m <= 0x8000_0000 && n <= 0x8000_0000
    ensures m * n == High(m) * High(n) * WORD + (High(m) * Low(n) + High(n) * Low(m)) * HALF + Low(m) * Low(n)
  {
    Halves(m);
    Halves(n);
    var a, b, c, d := High(m), Low(m), High(n), Low(n);
    calc {
      m * n;
      (a * HALF + b) * (c * HALF + d);
      (a * HALF) * (c * HALF) + (a * HALF) * d + b * (c * HALF) + b * d;
      {
        assert (a * HALF) * (c * HALF) == a * c * WORD;
        assert (a * HALF) * d == a * d * HALF;
        assert b * (c * HALF) == c * b * HALF;
      }
      a * c * WORD + a * d * HALF + c * b * HALF + b * d;
    }
  }

  /** The high word of t*2^32 + (p + q)*2^16 + r, piece by piece. */
  lemma HighWord(t: nat, p: nat, q: nat, r: nat)
    requires r < WORD
    ensures (t * WORD + (p + q) * HALF + r) / WORD == t + p / HALF + q / HALF + (p % HALF + q % HALF + r / HALF) / HALF
  {
    var s := p % HALF + q % HALF + r / HALF;
    var k := s / HALF;
    var rest := (s % HALF) * HALF + r % HALF;
    assert (p + q) * HALF + r == (p / HALF + q / HALF) * WORD + s * HALF + r % HALF;
    assert s * HALF == k * WORD + (s % HALF) * HALF;
    assert 0 <= rest < WORD;
    assert t * WORD + (p + q) * HALF + r == (t + p / HALF + q / HALF + k) * WORD + rest;
  }

  /** Before the sign is fixed, HI is the true high word of the product of the magnitudes less
      the dropped carry, which is 0, 1 or 2. */
  lemma MagnitudeHigh(m: nat, n: nat)
    requires m <= 0x8000_0000 && n <= 0x8000_0000
    ensures Dropped(m, n) / HALF <= 2
    ensures High(m) * High(n) + (High(m) * Low(n)) / HALF + (High(n) * Low(m)) / HALF == m * n / WORD - Dropped(m, n) / HALF
    ensures 0 <= High(m) * High(n) <= 0x4000_0000
    ensures 0 <= High(m) * Low(n) < 0x8000_0000 && 0 <= High(n) * Low(m) < 0x8000_0000
    ensures 0 <= m * n / WORD <= 0x4000_0000
  {
    Halves(m);
    Halves(n);
    ProductOfHalves(m, n);
    MulBound(High(m), High(n), 0x8000, 0x8000);
    MulBound(High(m), Low(n), 0x8000, HALF - 1);
    MulBound(High(n), Low(m), 0x8000, HALF - 1);
    MulBound(Low(m), Low(n), HALF - 1, HALF - 1);
    MulBound(m, n, 0x8000_0000, 0x8000_0000);
    HighWord(High(m) * High(n), High(m) * Low(n), High(n) * Low(m), Low(m) * Low(n));
  }

  /** The magnitude the interpreter works with is exact up to wrap-around: -2^31 stays -2^31,
      and has the halves of 2^31. */
  lemma WrappedMagnitude(x: int)
    requires IsWord(x)
    ensures var t := if x < 0 then Wrap(-x) else x;
            t % WORD == Magnitude(x) && High(t) == High(Magnitude(x)) && Low(t) == Low(Magnitude(x))
  {
  }

  lemma SameProductModulo(s: int, t: int, m: int, n: int)
    requires s % WORD == m % WORD && t % WORD == n % WORD
    ensures (s * t) % WORD == (m * n) % WORD
  {
    SameFactorModulo(s, m, t);
    SameFactorModulo(t, n, m);
    assert t * m == m * t && n * m == m * n;
  }

  lemma SameFactorModulo(s: int, m: int, t: int)
    requires s % WORD == m % WORD
    ensures (s * t) % WORD == (m * t) % WORD
  {
    var a := s / WORD - m / WORD;
    assert s * t == (m + a * WORD) * t == m * t + (a * t) * WORD;
    ModuloShift(m * t, a * t);
  }

  lemma ModuloShift(x: int, k: int)
    ensures (x + k * WORD) % WORD == x % WORD
  {
    assert (x + k * WORD) / WORD == x / WORD + k;
  }

  /** Complementing both words and adding one with carry negates the 64-bit pair. */
  lemma ComplementNegates(hi: int, lo: int)
    requires IsWord(lo) && -0x7fff_ffff <= hi <= 0x7fff_ffff
    ensures var lo1 := Wrap(-1 - lo + 1);
            var hi1 := if lo1 == 0 then Wrap(-1 - hi + 1) else -1 - hi;
            IsWord(hi1) && Pair(hi1, lo1) == -Pair(hi, lo)
  {
    if lo == 0 {
      assert Wrap(0) == 0;
    } else {
      assert (-lo) % WORD == WORD - lo % WORD;
    }
  }

  class Registers {
    var HI: int
    var LO: int

    /** The products of I_MULT, on operands that are the magnitudes m and n up to wrap-around. */
    method MultiplyHalves(t1: int, t2: int, ghost m: nat, ghost n: nat)
      requires m <= 0x8000_0000 && n <= 0x8000_0000
      requires t1 % WORD == m % WORD && High(t1) == High(m) && Low(t1) == Low(m)
      requires t2 % WORD == n % WORD && High(t2) == High(n) && Low(t2) == Low(n)
      modifies this
      ensures LO == Wrap(m * n)
      ensures HI == m * n / WORD - Dropped(m, n) / HALF
      ensures -2 <= HI <= 0x4000_0000
    {
      SameProductModulo(t1, t2, m, n);
      LO := Wrap(t1 * t2);
      WrapUnique(t1 * t2, m * n);
      var t1l, t1h, t2l, t2h := Low(t1), High(t1), Low(t2), High(t2);
      MagnitudeHigh(m, n);
      NoWrapNeeded(High(m) * High(n), High(m) * Low(n), High(n) * Low(m));
      HI := Wrap(Wrap(t1h * t2h) + Wrap(t1h * t2l) / HALF + Wrap(t2h * t1l) / HALF);
    }

    /** The sign fix of I_MULT. */
    method Complement()
      requires IsWord(LO) && -0x7fff_ffff <= HI <= 0x7fff_ffff
      modifies this
      ensures IsWord(HI) && IsWord(LO) && Pair(HI, LO) == -Pair(old(HI), old(LO))
    {
      ComplementNegates(HI, LO);
      LO := -1 - LO;
      HI := -1 - HI;
      LO := Wrap(LO + 1);
      if LO == 0 {
        HI := Wrap(HI + 1);
      }
    }

    /** I_MULT, on the values of its two source registers. */
    method Mult(rs: int, rt: int)
      requires IsWord(rs) && IsWord(rt)
      modifies this
      ensures IsWord(HI) && IsWord(LO)
      ensures LO == Wrap(rs * rt)
      ensures Pair(HI, LO) == MultValue(rs, rt)
    {
      var t1, t2, neg := rs, rt, false;
      if t1 < 0 {
        t1 := Wrap(-t1);
        neg := !neg;
      }
      if t2 < 0 {
        t2 := Wrap(-t2);
        neg := !neg;
      }
      ghost var m, n := Magnitude(rs), Magnitude(rt);
      WrappedMagnitude(rs);
      WrappedMagnitude(rt);
      MultiplyHalves(t1, t2, m, n);
      ghost var hi, lo := HI, LO;
      if neg {
        Complement();
      }
      SignedResult(rs, rt, hi, lo, HI, LO, neg);
    }
  }

  lemma NoWrapNeeded(a: int, p: int, q: int)
    requires 0 <= a <= 0x4000_0000 && 0 <= p < 0x8000_0000 && 0 <= q < 0x8000_0000
    ensures Wrap(Wrap(a) + Wrap(p) / HALF + Wrap(q) / HALF) == a + p / HALF + q / HALF
  {
    WrapWord(a);
    WrapWord(p);
    WrapWord(q);
    WrapWord(a + p / HALF + q / HALF);
  }

  lemma WrapWord(x: int)
    requires IsWord(x)
    ensures Wrap(x) == x
  {
  }

  lemma WrapUnique(x: int, y: int)
    requires x % WORD == y % WORD
    ensures Wrap(x) == Wrap(y)
  {
    assert (x + 0x8000_0000) % WORD == (x % WORD + 0x8000_0000) % WORD;
    assert (y + 0x8000_0000) % WORD == (y % WORD + 0x8000_0000) % WORD;
  }

  /** What HI:LO holds after MULT: the signed product, moved towards zero by the dropped carry. */
  function MultValue(rs: int, rt: int): int {
    var carry := Dropped(Magnitude(rs), Magnitude(rt)) / HALF;
    if (rs < 0) != (rt < 0) then rs * rt + carry * WORD else rs * rt - carry * WORD
  }

  lemma SignOfProduct(rs: int, rt: int)
    ensures rs * rt == if (rs < 0) != (rt < 0) then -(Magnitude(rs) * Magnitude(rt)) else Magnitude(rs) * Magnitude(rt)
  {
    assert (-rs) * rt == -(rs * rt) && rs * (-rt) == -(rs * rt) && (-rs) * (-rt) == rs * rt;
  }

  lemma PairOfMagnitudes(p: nat, carry: int, lo: int)
    requires lo == Wrap(p)
    ensures Pair(p / WORD - carry, lo) == p - carry * WORD
  {
  }

  lemma LowOfPair(hi: int, lo: int, p: int, c: int)
    requires IsWord(lo) && Pair(hi, lo) == p + c * WORD
    ensures lo == Wrap(p)
  {
    ModuloShift(lo, hi - lo / WORD);
    assert lo % WORD == p + (c - hi) * WORD;
    ModuloShift(p, c - hi);
    WrapUnique(lo, p);
    assert Wrap(lo) == lo;
  }

  lemma SignedResult(rs: int, rt: int, hi: int, lo: int, hi1: int, lo1: int, neg: bool)
    requires IsWord(rs) && IsWord(rt) && IsWord(lo1) && neg == ((rs < 0) != (rt < 0))
    requires var m, n := Magnitude(rs), Magnitude(rt);
             lo == Wrap(m * n) && hi == m * n / WORD - Dropped(m, n) / HALF
    requires Pair(hi1, lo1) == if neg then -Pair(hi, lo) else Pair(hi, lo)
    ensures Pair(hi1, lo1) == MultValue(rs, rt) && lo1 == Wrap(rs * rt)
  {
    var m, n := Magnitude(rs), Magnitude(rt);
    var carry := Dropped(m, n) / HALF;
    SignOfProduct(rs, rt);
    PairOfMagnitudes(m * n, carry, lo);
    LowOfPair(hi1, lo1, rs * rt, if neg then carry else -carry);
  }

  /** MULT leaves the exact 64-bit product if and only if the dropped low parts sum below 2^16;
      otherwise it is off by one or two units of the high word. */
  lemma MultExactWhen(rs: int, rt: int)
    requires IsWord(rs) && IsWord(rt)
    ensures MultValue(rs, rt) == rs * rt <==> Dropped(Magnitude(rs), Magnitude(rt)) < HALF
    ensures MultValue(rs, rt) == rs * rt
            || MultValue(rs, rt) - rs * rt in {WORD, 2 * WORD, -WORD, -2 * WORD}
  {
    MagnitudeHigh(Magnitude(rs), Magnitude(rt));
  }

  /** The product can be two units too low, and one unit too high. */
  lemma ErrorsOccur()
    ensures MultValue(0x1_ffff, 0x1_ffff) == 0x1_ffff * 0x1_ffff - 2 * WORD
    ensures MultValue(0x1_ffff, -0x1_0001) == 0x1_ffff * -0x1_0001 + WORD
  {
  }
}

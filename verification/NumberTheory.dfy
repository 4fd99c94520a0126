/** Divisibility, primality and powers of two: the arithmetic that the circuit's field relies on. */
module NumberTheory {

  predicate Divides(d: int, x: int)
    requires d > 0
  {
    x % d == 0
  }

  ghost predicate Prime(p: int) {
    p > 1 && forall k {:trigger Divides(k, p)} :: 1 < k < p ==> !Divides(k, p)
  }

  lemma MultipleDivides(d: int, k: int)
    requires d > 0
    ensures Divides(d, d * k)
  {
    // the quotient of d * k by d is k, so the remainder is 0
    var q, r := (d * k) / d, (d * k) % d;
    assert d * (k - q) == r;
    assert k - q >= 1 ==> d * (k - q) >= d;
    assert k - q <= -1 ==> d * (k - q) <= -d;
  }

  lemma DividesSum(d: int, x: int, y: int)
    requires d > 0 && Divides(d, x) && Divides(d, y)
    ensures Divides(d, x + y)
    ensures Divides(d, x - y)
  {
    assert x == d * (x / d) && y == d * (y / d);
    assert x + y == d * (x / d + y / d);
    assert x - y == d * (x / d - y / d);
    MultipleDivides(d, x / d + y / d);
    MultipleDivides(d, x / d - y / d);
  }

  lemma DividesProduct(d: int, x: int, k: int)
    requires d > 0 && Divides(d, x)
    ensures Divides(d, x * k)
  {
    assert x == d * (x / d);
    assert x * k == d * ((x / d) * k);
    MultipleDivides(d, (x / d) * k);
  }

  /** Two integers less than `d` apart that agree modulo `d` are equal. */
  lemma CloseMultiplesEqual(d: int, x: int, y: int)
    requires d > 0 && Divides(d, x - y)
    requires -d < x - y < d
    ensures x == y
  {
    var k := (x - y) / d;
    assert x - y == d * k;
    assert k >= 1 ==> d * k >= d;
    assert k <= -1 ==> d * k <= -d;
  }

  /** Reduction modulo `d` stays in the residue class. */
  lemma ReductionCongruent(d: int, x: int)
    requires d > 0
    ensures Divides(d, x - x % d)
    ensures Divides(d, x % d - x)
  {
    assert x - x % d == d * (x / d);
    assert x % d - x == d * -(x / d);
    MultipleDivides(d, x / d);
    MultipleDivides(d, -(x / d));
  }

  /** A residue in range is recovered by reduction. */
  lemma ResidueUnique(d: int, x: int, r: int)
    requires 0 <= r < d && Divides(d, x - r)
    ensures x % d == r
  {
    ReductionCongruent(d, x);
    DividesSum(d, x - r, x - x % d);
    assert (x - r) - (x - x % d) == x % d - r;
    CloseMultiplesEqual(d, x % d, r);
  }

  /** Euclid's lemma for a factor already reduced modulo `p`, by Euclid's descent `a -> p % a`. */
  lemma {:induction false} EuclidReduced(p: int, a: int, b: int)
    requires Prime(p) && 0 < a < p && Divides(p, a * b)
    ensures Divides(p, b)
    decreases a
  {
    if a == 1 {
    } else {
      var q, r := p / a, p % a;
      assert !Divides(a, p);
      assert r * b == p * b - (a * b) * q by {
        assert p == a * q + r;
        assert (a * b) * q == (a * q) * b;
      }
      MultipleDivides(p, b);
      DividesProduct(p, a * b, q);
      DividesSum(p, p * b, (a * b) * q);
      EuclidReduced(p, r, b);
    }
  }

  lemma Euclid(p: int, a: int, b: int)
    requires Prime(p) && Divides(p, a * b)
    ensures Divides(p, a) || Divides(p, b)
  {
    var r := a % p;
    if r != 0 {
      ReductionCongruent(p, a);
      DividesProduct(p, a - r, b);
      assert a * b - (a - r) * b == r * b;
      DividesSum(p, a * b, (a - r) * b);
      EuclidReduced(p, r, b);
    }
  }

  /** The Boolean constraint over a prime field: arbitrary field elements that satisfy it are bits. */
  lemma BooleanConstraint(p: int, b: int)
    requires Prime(p) && 0 <= b < p
    ensures Divides(p, (1 - b) * b) <==> b == 0 || b == 1
  {
    if Divides(p, (1 - b) * b) {
      Euclid(p, 1 - b, b);
      if Divides(p, b) {
        CloseMultiplesEqual(p, b, 0);
      } else {
        CloseMultiplesEqual(p, 1, b);
      }
    } else if b == 0 || b == 1 {
      MultipleDivides(p, 0);
    }
  }

  function Pow2(k: nat): (r: nat)
    ensures r >= 1
  {
    if k == 0 then 1 else 2 * Pow2(k - 1)
  }

  lemma DoubleProduct(x: int, m: int)
    ensures x * (2 * m) == 2 * (x * m)
  {
  }

  lemma {:induction false} Pow2Add(a: nat, b: nat)
    ensures Pow2(a + b) == Pow2(a) * Pow2(b)
  {
    if b == 0 {
    } else {
      Pow2Add(a, b - 1);
      assert Pow2(a + b) == 2 * Pow2(a + (b - 1));
      DoubleProduct(Pow2(a), Pow2(b - 1));
    }
  }

  lemma {:induction false} Pow2Mono(a: nat, b: nat)
    requires a <= b
    ensures Pow2(a) <= Pow2(b)
    ensures a < b ==> 2 * Pow2(a) <= Pow2(b)
  {
    if a < b {
      Pow2Mono(a, b - 1);
    }
  }

  const TWO64: int := 0x1_0000_0000_0000_0000

  type u64 = x: int | 0 <= x < 0x1_0000_0000_0000_0000

  /** Four doublings at a time, so that the large powers below need few unfoldings. */
  lemma Pow2Plus4(k: nat)
    ensures Pow2(k + 4) == 16 * Pow2(k)
  {
    assert Pow2(k + 4) == 2 * Pow2(k + 3) == 4 * Pow2(k + 2) == 8 * Pow2(k + 1);
  }

  lemma Pow2Plus16(k: nat)
    ensures Pow2(k + 16) == 0x1_0000 * Pow2(k)
  {
    Pow2Plus4(k);
    Pow2Plus4(k + 4);
    Pow2Plus4(k + 8);
    Pow2Plus4(k + 12);
  }

  lemma Pow2Plus64(k: nat)
    ensures Pow2(k + 64) == TWO64 * Pow2(k)
  {
    Pow2Plus16(k);
    Pow2Plus16(k + 16);
    Pow2Plus16(k + 32);
    Pow2Plus16(k + 48);
  }

  lemma Pow2Word(k: nat)
    ensures k <= 64 ==> Pow2(k) <= TWO64 && Pow2(k + 1) <= 2 * TWO64
    ensures k < 64 ==> Pow2(k) < TWO64
    ensures k == 64 ==> Pow2(k) == TWO64
  {
    Pow2Plus64(0);
    if k <= 64 {
      Pow2Mono(k, 64);
    }
  }
}

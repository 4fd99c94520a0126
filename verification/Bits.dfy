/** Bit vectors of integers: big-endian packing and truncation, and the bit length of a key count. */
module Bits {
  import opened NumberTheory

  function BitValue(b: bool): int {
    if b then 1 else 0
  }

  /** The integer whose big-endian binary digits are `bits` (`from_bits` before reduction). */
  function Pack(bits: seq<bool>): (r: nat)
  {
    if bits == [] then 0
    else 2 * Pack(bits[..|bits| - 1]) + BitValue(bits[|bits| - 1])
  }

  /** The `k` low binary digits of `x`, big-endian (`write_bits` when `k` is the field's bit length). */
  function ToBits(x: nat, k: nat): (bits: seq<bool>)
    ensures |bits| == k
    decreases k, x
  {
    if k == 0 then [] else ToBits(x / 2, k - 1) + [x % 2 == 1]
  }

  /** The `k` low binary digits of `x`, little-endian: repeated `val & 1`, `val >> 1`. */
  function LittleEndianBits(x: nat, k: nat): (bits: seq<bool>)
    ensures |bits| == k
    decreases k, x
  {
    if k == 0 then [] else [x % 2 == 1] + LittleEndianBits(x / 2, k - 1)
  }

  function Reverse<T>(s: seq<T>): (r: seq<T>)
    ensures |r| == |s|
    ensures forall i :: 0 <= i < |s| ==> r[i] == s[|s| - 1 - i]
  {
    seq(|s|, i requires 0 <= i < |s| => s[|s| - 1 - i])
  }

  lemma {:induction false} PackBound(bits: seq<bool>)
    ensures Pack(bits) < Pow2(|bits|)
  {
    if bits != [] {
      PackBound(bits[..|bits| - 1]);
    }
  }

  lemma PackSnoc(bits: seq<bool>, last: bool)
    ensures Pack(bits + [last]) == 2 * Pack(bits) + BitValue(last)
  {
    assert (bits + [last])[..|bits|] == bits;
  }

  lemma Distribute(x: int, m: int, y: int, v: int)
    ensures 2 * (x * m + y) + v == x * (2 * m) + (2 * y + v)
  {
  }

  lemma {:induction false} PackAppend(a: seq<bool>, b: seq<bool>)
    ensures Pack(a + b) == Pack(a) * Pow2(|b|) + Pack(b)
  {
    if b == [] {
      assert a + b == a;
    } else {
      var c, last := b[..|b| - 1], b[|b| - 1];
      assert b == c + [last] && a + b == (a + c) + [last];
      PackSnoc(a + c, last);
      PackSnoc(c, last);
      PackAppend(a, c);
      Distribute(Pack(a), Pow2(|c|), Pack(c), BitValue(last));
    }
  }

  lemma HalveRemainder(x: nat, m: nat)
    requires m > 0
    ensures x % (2 * m) == 2 * ((x / 2) % m) + x % 2
  {
    var q, r := (x / 2) / m, (x / 2) % m;
    assert x / 2 == m * q + r;
    assert x - (2 * r + x % 2) == (2 * m) * q;
    MultipleDivides(2 * m, q);
    ResidueUnique(2 * m, x, 2 * r + x % 2);
  }

  /** Truncation round trip: the low `k` bits pack to the value modulo `2^k`. */
  lemma {:induction false} PackToBits(x: nat, k: nat)
    ensures Pack(ToBits(x, k)) == x % Pow2(k)
  {
    if k != 0 {
      PackToBits(x / 2, k - 1);
      assert ToBits(x, k)[..k - 1] == ToBits(x / 2, k - 1);
      HalveRemainder(x, Pow2(k - 1));
    }
  }

  lemma PackToBitsExact(x: nat, k: nat)
    requires x < Pow2(k)
    ensures Pack(ToBits(x, k)) == x
  {
    PackToBits(x, k);
    ResidueUnique(Pow2(k), x, x) by {
      MultipleDivides(Pow2(k), 0);
    }
  }

  lemma {:induction false} ToBitsPack(bits: seq<bool>)
    ensures ToBits(Pack(bits), |bits|) == bits
  {
    if bits != [] {
      var init, last := bits[..|bits| - 1], bits[|bits| - 1];
      ToBitsPack(init);
      assert Pack(bits) / 2 == Pack(init) && Pack(bits) % 2 == BitValue(last);
      assert init + [last] == bits;
    }
  }

  /** Dropping the leading big-endian bits leaves the low ones: `b_bits[to_skip..]`. */
  lemma {:induction false} ToBitsSuffix(x: nat, n: nat, k: nat)
    requires k <= n
    ensures ToBits(x, n)[n - k..] == ToBits(x, k)
  {
    if k != 0 {
      ToBitsSuffix(x / 2, n - 1, k - 1);
      assert ToBits(x, n)[n - k..] == ToBits(x / 2, n - 1)[n - k..] + [x % 2 == 1];
    }
  }

  lemma {:induction false} ReverseLittleEndian(x: nat, k: nat)
    ensures Reverse(LittleEndianBits(x, k)) == ToBits(x, k)
  {
    if k != 0 {
      ReverseLittleEndian(x / 2, k - 1);
      var le := LittleEndianBits(x / 2, k - 1);
      assert Reverse([x % 2 == 1] + le) == Reverse(le) + [x % 2 == 1];
    }
  }

  // ----- the bit length used for the threshold comparison -----

  /** The exponent of the least power of two that is at least `n`, searched from `k` upwards. */
  function CeilLog2From(n: nat, k: nat): (r: nat)
    ensures r >= k && n <= Pow2(r)
    ensures r > k ==> Pow2(r - 1) < n
    decreases n - Pow2(k)
  {
    if n <= Pow2(k) then k else CeilLog2From(n, k + 1)
  }

  lemma CeilLog2Fits(n: u64)
    ensures CeilLog2From(n, 0) <= 64
  {
    var k := CeilLog2From(n, 0);
    if k > 64 {
      Pow2Word(64);
      Pow2Mono(64, k - 1);
      assert false;
    }
  }

  /** `usize::next_power_of_two` without overflow checks: above 2^63 the result wraps to 0. */
  function NextPowerOfTwo(n: u64): (r: u64)
  {
    var k := CeilLog2From(n, 0);
    Pow2Word(k);
    if k < 64 then Pow2(k) else 0
  }

  /** `u64::trailing_zeros`: 64 for zero. */
  function TrailingZeros(x: u64): (r: nat)
  {
    if x == 0 then 64 else if x % 2 == 1 then 0 else 1 + TrailingZeros(x / 2)
  }

  /** `log_max_pks` as the circuit, its witness constructor and its setup instance compute it. */
  function LogMaxPks(n: u64): nat {
    TrailingZeros(NextPowerOfTwo(n))
  }

  lemma {:induction false} TrailingZerosPow2(k: nat)
    requires k < 64 && Pow2(k) < TWO64
    ensures TrailingZeros(Pow2(k)) == k
  {
    if k != 0 {
      TrailingZerosPow2(k - 1);
    }
  }

  lemma LogMaxPksIsCeilLog2(n: u64)
    ensures LogMaxPks(n) == CeilLog2From(n, 0) <= 64
  {
    var k := CeilLog2From(n, 0);
    CeilLog2Fits(n);
    Pow2Word(k);
    if k < 64 {
      TrailingZerosPow2(k);
    }
  }

  /**
   * Width sufficiency: `max_pks <= 2^log_max_pks`, so every difference in `[0, max_pks]` has a
   * `log_max_pks + 1` bit representation; the smaller width `log_max_pks` would do exactly when
   * `max_pks` is no power of two.
   */
  lemma WidthSufficient(n: u64)
    ensures n <= Pow2(LogMaxPks(n)) < Pow2(LogMaxPks(n) + 1)
    ensures n < Pow2(LogMaxPks(n)) <==> forall k: nat :: n != Pow2(k)
    ensures LogMaxPks(n) <= 64
  {
    LogMaxPksIsCeilLog2(n);
    var log := LogMaxPks(n);
    forall k: nat | n == Pow2(k)
      ensures n == Pow2(log)
    {
      if k < log {
        Pow2Mono(k, log - 1);
        assert false;
      }
      Pow2Mono(log, k);
    }
  }
}

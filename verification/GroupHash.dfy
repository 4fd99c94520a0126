/**
 * The generator table of the VRF group hash: for each segment generator, its multiples by the
 * powers of 16, built by doubling in place.
 */
module GroupHash {
  import opened Wrappers

  const WINDOW_SIZE: nat := 128
  const NUM_WINDOWS: nat := 2

  /** A commutative group, written additively. The laws are applied where a proof names them. */
  datatype Group<!T(!new)> = Group(zero: T, add: (T, T) -> T, neg: T -> T) {
    ghost predicate Assoc(a: T, b: T, c: T) {
      add(add(a, b), c) == add(a, add(b, c))
    }

    ghost predicate Comm(a: T, b: T) {
      add(a, b) == add(b, a)
    }

    ghost predicate Unit(a: T) {
      add(zero, a) == a
    }

    ghost predicate Inverse(a: T) {
      add(neg(a), a) == zero
    }

    ghost predicate Laws() {
      && (forall a, b, c :: Assoc(a, b, c))
      && (forall a, b :: Comm(a, b))
      && (forall a :: Unit(a))
      && (forall a :: Inverse(a))
    }
  }

  /** `k` times `x`, for a natural `k`. */
  function NatMul<T(!new)>(g: Group<T>, k: nat, x: T): T {
    if k == 0 then g.zero else g.add(x, NatMul(g, k - 1, x))
  }

  /** `k` times `x`, for a signed `k`. */
  function Mul<T(!new)>(g: Group<T>, k: int, x: T): T {
    if k >= 0 then NatMul(g, k, x) else g.neg(NatMul(g, -k, x))
  }

  function Pow16(j: nat): (r: nat)
    ensures r >= 1
  {
    if j == 0 then 1 else 16 * Pow16(j - 1)
  }

  // ----- the group -----

  lemma NegUnique<T(!new)>(g: Group<T>, a: T, b: T)
    requires g.Laws() && g.add(a, b) == g.zero
    ensures b == g.neg(a)
  {
    assert g.Assoc(g.neg(a), a, b) && g.Inverse(a) && g.Unit(b);
    assert g.Comm(g.neg(a), g.zero) && g.Unit(g.neg(a));
  }

  lemma AddNeg<T(!new)>(g: Group<T>, a: T)
    requires g.Laws()
    ensures g.add(a, g.neg(a)) == g.zero
  {
    assert g.Comm(a, g.neg(a)) && g.Inverse(a);
  }

  lemma NegZero<T(!new)>(g: Group<T>)
    requires g.Laws()
    ensures g.neg(g.zero) == g.zero
  {
    assert g.Unit(g.zero);
    NegUnique(g, g.zero, g.zero);
  }

  /** Two sums in the other order. */
  lemma Interchange<T(!new)>(g: Group<T>, a: T, b: T, c: T, d: T)
    requires g.Laws()
    ensures g.add(g.add(a, b), g.add(c, d)) == g.add(g.add(a, c), g.add(b, d))
  {
    assert g.Assoc(a, b, g.add(c, d)) && g.Assoc(b, c, d) && g.Comm(b, c);
    assert g.Assoc(c, b, d) && g.Assoc(a, c, g.add(b, d));
  }

  lemma NegAdd<T(!new)>(g: Group<T>, a: T, b: T)
    requires g.Laws()
    ensures g.neg(g.add(a, b)) == g.add(g.neg(a), g.neg(b))
  {
    Interchange(g, a, b, g.neg(a), g.neg(b));
    AddNeg(g, a);
    AddNeg(g, b);
    assert g.Unit(g.zero);
    NegUnique(g, g.add(a, b), g.add(g.neg(a), g.neg(b)));
  }

  lemma {:induction false} NatMulAdd<T(!new)>(g: Group<T>, a: nat, b: nat, x: T)
    requires g.Laws()
    ensures NatMul(g, a + b, x) == g.add(NatMul(g, a, x), NatMul(g, b, x))
  {
    if a == 0 {
      assert g.Unit(NatMul(g, b, x));
    } else {
      NatMulAdd(g, a - 1, b, x);
      assert g.Assoc(x, NatMul(g, a - 1, x), NatMul(g, b, x));
    }
  }

  lemma {:induction false} NatMulMul<T(!new)>(g: Group<T>, a: nat, b: nat, x: T)
    requires g.Laws()
    ensures NatMul(g, a, NatMul(g, b, x)) == NatMul(g, a * b, x)
  {
    if a != 0 {
      NatMulMul(g, a - 1, b, x);
      assert a * b == b + (a - 1) * b;
      NatMulAdd(g, b, (a - 1) * b, x);
    }
  }

  lemma MulOne<T(!new)>(g: Group<T>, x: T)
    requires g.Laws()
    ensures NatMul(g, 1, x) == x
  {
    assert NatMul(g, 1, x) == g.add(x, NatMul(g, 0, x));
    assert g.Comm(x, g.zero) && g.Unit(x);
  }

  lemma AddThenSubtract<T(!new)>(g: Group<T>, d: T, n: T)
    requires g.Laws()
    ensures g.add(g.add(d, n), g.neg(n)) == d
  {
    AddNeg(g, n);
    assert g.Assoc(d, n, g.neg(n)) && g.Comm(d, g.zero) && g.Unit(d);
  }

  lemma SubtractSum<T(!new)>(g: Group<T>, d: T, m: T)
    requires g.Laws()
    ensures g.add(m, g.neg(g.add(d, m))) == g.neg(d)
  {
    NegAdd(g, d, m);
    AddNeg(g, m);
    assert g.Comm(g.neg(d), g.neg(m)) && g.Assoc(m, g.neg(m), g.neg(d)) && g.Unit(g.neg(d));
  }

  /** `(a - b) x = a x - b x` for naturals. */
  lemma MulCancel<T(!new)>(g: Group<T>, a: nat, b: nat, k: int, x: T)
    requires g.Laws() && k == a - b
    ensures Mul(g, k, x) == g.add(NatMul(g, a, x), g.neg(NatMul(g, b, x)))
  {
    if k >= 0 {
      var d: nat := k;
      NatMulAdd(g, d, b, x);
      AddThenSubtract(g, NatMul(g, d, x), NatMul(g, b, x));
      assert NatMul(g, d + b, x) == NatMul(g, a, x);
    } else {
      var d: nat := -k;
      NatMulAdd(g, d, a, x);
      SubtractSum(g, NatMul(g, d, x), NatMul(g, a, x));
      assert NatMul(g, d + a, x) == NatMul(g, b, x);
    }
  }

  /** Signed multiples add up. */
  lemma MulAdd<T(!new)>(g: Group<T>, a: int, b: int, x: T)
    requires g.Laws()
    ensures Mul(g, a + b, x) == g.add(Mul(g, a, x), Mul(g, b, x))
  {
    if a >= 0 && b >= 0 {
      NatMulAdd(g, a, b, x);
    } else if a < 0 && b < 0 {
      NatMulAdd(g, -a, -b, x);
      NegAdd(g, NatMul(g, -a, x), NatMul(g, -b, x));
    } else if a >= 0 {
      MulCancel(g, a, -b, a + b, x);
    } else {
      MulCancel(g, b, -a, a + b, x);
      assert g.Comm(Mul(g, a, x), Mul(g, b, x));
    }
  }

  /** A signed multiple of a natural multiple, with the product named. */
  lemma MulMul<T(!new)>(g: Group<T>, a: int, b: nat, ab: int, x: T)
    requires g.Laws() && ab == a * b
    ensures Mul(g, a, NatMul(g, b, x)) == Mul(g, ab, x)
  {
    if a >= 0 {
      NatMulMul(g, a, b, x);
    } else {
      var k: nat, m: nat := -a, -ab;
      assert m == k * b;
      NatMulMul(g, k, b, x);
      MulNegated(g, m, x);
    }
  }

  lemma MulNegated<T(!new)>(g: Group<T>, k: nat, x: T)
    requires g.Laws()
    ensures Mul(g, 0 - k, x) == g.neg(NatMul(g, k, x))
  {
    if k == 0 {
      NegZero(g);
    }
  }

  // ----- the table -----

  /** `entry` is `16^j` times `generator`. */
  ghost predicate IsEntry<T(!new)>(g: Group<T>, generator: T, j: nat, entry: T) {
    entry == NatMul(g, Pow16(j), generator)
  }

  ghost predicate IsSegment<T(!new)>(g: Group<T>, generator: T, row: seq<T>) {
    forall j :: 0 <= j < |row| ==> IsEntry(g, generator, j, row[j])
  }

  /** Doubling in place four times. */
  method DoubleFourTimes<T(!new)>(g: Group<T>, base0: T) returns (base: T)
    requires g.Laws()
    ensures base == NatMul(g, 16, base0)
  {
    base := base0;
    ghost var k := 1;
    MulOne(g, base0);
    for i := 0 to 4
      invariant k == if i == 0 then 1 else if i == 1 then 2 else if i == 2 then 4 else if i == 3 then 8 else 16
      invariant base == NatMul(g, k, base0)
    {
      NatMulAdd(g, k, k, base0);
      base := g.add(base, base);
      k := k + k;
    }
  }

  /** One row: the base is pushed, then doubled four times. */
  method Segment<T(!new)>(g: Group<T>, generator: T) returns (row: seq<T>)
    requires g.Laws()
    ensures |row| == WINDOW_SIZE && IsSegment(g, generator, row)
  {
    row := [];
    var base := generator;
    MulOne(g, generator);
    for j := 0 to WINDOW_SIZE
      invariant |row| == j && IsSegment(g, generator, row)
      invariant IsEntry(g, generator, j, base)
    {
      row := row + [base];
      var next := DoubleFourTimes(g, base);
      NatMulMul(g, 16, Pow16(j), generator);
      base := next;
    }
  }

  /**
   * `compute_group_hash_table`: with a generator per window, `NUM_WINDOWS` rows of `WINDOW_SIZE`
   * entries whose `[i][j]` is `16^j` times generator `i`; with fewer, an index out of bounds.
   */
  method ComputeGroupHashTable<T(!new)>(g: Group<T>, generators: seq<T>) returns (r: Result<seq<seq<T>>>)
    requires g.Laws()
    ensures r.Ok? <==> |generators| >= 2
    ensures r.Err? ==> r.error == Panicked
    ensures r.Ok? ==> |r.value| == 2
    ensures r.Ok? ==> forall i :: 0 <= i < 2 ==> |r.value[i]| == 128 && IsSegment(g, generators[i], r.value[i])
  {
    var table := [];
    for i := 0 to NUM_WINDOWS
      invariant i <= |generators| && |table| == i
      invariant forall k :: 0 <= k < i ==> |table[k]| == WINDOW_SIZE && IsSegment(g, generators[k], table[k])
    {
      if i >= |generators| {
        return Err(Panicked);
      }
      var row := Segment(g, generators[i]);
      table := table + [row];
    }
    r := Ok(table);
  }

  // ----- what the table is for -----

  /** The sum of digit times table entry. */
  function SegmentSum<T(!new)>(g: Group<T>, row: seq<T>, digits: seq<int>): T
    requires |digits| <= |row|
  {
    if digits == [] then g.zero
    else
      var j := |digits| - 1;
      g.add(SegmentSum(g, row, digits[..j]), Mul(g, digits[j], row[j]))
  }

  /** The scalar of a segment: `sum digits[j] * 16^j`. */
  function Scalar(digits: seq<int>): int {
    if digits == [] then 0
    else Scalar(digits[..|digits| - 1]) + digits[|digits| - 1] * Pow16(|digits| - 1)
  }

  /**
   * The segment form of section 5.4.1.7 of the Zcash Protocol Specification: summing digits times
   * table entries multiplies the generator by the scalar, for any signed digits.
   */
  lemma {:induction false} SegmentIsScalar<T(!new)>(g: Group<T>, generator: T, row: seq<T>, digits: seq<int>)
    requires g.Laws() && IsSegment(g, generator, row) && |digits| <= |row|
    ensures SegmentSum(g, row, digits) == Mul(g, Scalar(digits), generator)
  {
    if digits != [] {
      var j := |digits| - 1;
      SegmentIsScalar(g, generator, row, digits[..j]);
      assert IsEntry(g, generator, j, row[j]);
      MulMul(g, digits[j], Pow16(j), digits[j] * Pow16(j), generator);
      MulAdd(g, Scalar(digits[..j]), digits[j] * Pow16(j), generator);
    }
  }

  /** A digit of that section, `(1 - 2 s2) (1 + s0 + 2 s1)` for bits `s0`, `s1`, `s2`. */
  predicate IsChunkDigit(d: int) {
    -4 <= d <= 4 && d != 0
  }

  /** The digits are exactly the values of that expression. */
  lemma ChunkDigitExact(d: int)
    ensures IsChunkDigit(d)
       <==> exists s0, s1, s2 :: 0 <= s0 <= 1 && 0 <= s1 <= 1 && 0 <= s2 <= 1 && d == ChunkDigit(s0, s1, s2)
  {
    if IsChunkDigit(d) {
      var m := (if d > 0 then d else -d) - 1;
      assert d == ChunkDigit(m % 2, m / 2, if d > 0 then 0 else 1);
    }
  }

  function ChunkDigit(s0: int, s1: int, s2: int): int {
    (1 - 2 * s2) * (1 + s0 + 2 * s1)
  }

  lemma DigitTimes(d: int, p: nat)
    ensures -4 <= d <= 4 ==> -4 * p <= d * p <= 4 * p
    ensures d >= 1 ==> d * p >= p
    ensures d <= -1 ==> p <= -(d * p)
  {
  }

  lemma {:induction false} ScalarBound(digits: seq<int>)
    requires forall j :: 0 <= j < |digits| ==> IsChunkDigit(digits[j])
    ensures 4 - 4 * Pow16(|digits|) <= 15 * Scalar(digits) <= 4 * Pow16(|digits|) - 4
  {
    if digits != [] {
      var k := |digits| - 1;
      ScalarBound(digits[..k]);
      DigitTimes(digits[k], Pow16(k));
    }
  }

  lemma TopDigitEqual(x: int, y: int, p: nat, s: int, t: int)
    requires 4 - 4 * p <= 15 * s <= 4 * p - 4 && 4 - 4 * p <= 15 * t <= 4 * p - 4
    requires s + x * p == t + y * p
    ensures x == y && s == t
  {
    var d := x - y;
    assert d * p == t - s;
    DigitTimes(d, p);
  }

  /** Over the integers the digits are determined: strings of one length with equal scalars are equal. */
  lemma {:induction false} ScalarInjective(a: seq<int>, b: seq<int>)
    requires |a| == |b| && Scalar(a) == Scalar(b)
    requires forall j :: 0 <= j < |a| ==> IsChunkDigit(a[j]) && IsChunkDigit(b[j])
    ensures a == b
  {
    if a != [] {
      var k := |a| - 1;
      var p, x, y := Pow16(k), a[k], b[k];
      ScalarBound(a[..k]);
      ScalarBound(b[..k]);
      TopDigitEqual(x, y, p, Scalar(a[..k]), Scalar(b[..k]));
      ScalarInjective(a[..k], b[..k]);
      assert a == a[..k] + [x] && b == b[..k] + [y];
    }
  }

  // ----- chunk strings in a group of finite order -----

  predicate IsChunkString(digits: seq<int>, c: nat) {
    |digits| == c && forall j :: 0 <= j < c ==> IsChunkDigit(digits[j])
  }

  /** `r` is the order of `x`. */
  ghost predicate HasOrder<T(!new)>(g: Group<T>, x: T, r: nat) {
    r > 0 && NatMul(g, r, x) == g.zero && forall k: nat :: 0 < k < r ==> NatMul(g, k, x) != g.zero
  }

  /** Distinct strings of `c` chunk digits have distinct sums over the row. */
  ghost predicate SegmentInjective<T(!new)>(g: Group<T>, row: seq<T>, c: nat)
    requires c <= |row|
  {
    forall a, b :: IsChunkString(a, c) && IsChunkString(b, c) && SegmentSum(g, row, a) == SegmentSum(g, row, b) ==> a == b
  }

  /** `11...1` in base 16, with `c` ones. */
  function Repunit(c: nat): nat {
    if c == 0 then 0 else 16 * Repunit(c - 1) + 1
  }

  lemma {:induction false} RepunitPow16(c: nat)
    ensures 15 * Repunit(c) == Pow16(c) - 1
  {
    if c != 0 {
      RepunitPow16(c - 1);
    }
  }

  lemma {:induction false} ScalarCons(d: int, digits: seq<int>)
    ensures Scalar([d] + digits) == d + 16 * Scalar(digits)
  {
    var k := |digits|;
    if k == 0 {
      assert Scalar([d] + digits) == Scalar([]) + d * Pow16(0);
    } else {
      assert ([d] + digits)[..k] == [d] + digits[..k - 1];
      ScalarCons(d, digits[..k - 1]);
      assert digits[k - 1] * Pow16(k) == 16 * (digits[k - 1] * Pow16(k - 1));
    }
  }

  /** Two chunk digits with a given difference. */
  function DigitPair(e: int): (xy: (int, int))
    requires -8 <= e <= 8
    ensures IsChunkDigit(xy.0) && IsChunkDigit(xy.1) && xy.0 - xy.1 == e
  {
    if e == -1 then (1, 2) else if 0 <= e <= 1 then (e + 1, 1) else (e / 2, e / 2 - e)
  }

  /** Every difference in reach is the difference of two chunk strings, digit by digit from the lowest. */
  lemma {:induction false} DifferenceStrings(c: nat, d: int) returns (a: seq<int>, b: seq<int>)
    requires -8 * Repunit(c) <= d <= 7 * Repunit(c)
    ensures IsChunkString(a, c) && IsChunkString(b, c)
    ensures Scalar(a) - Scalar(b) == d
  {
    if c == 0 {
      a, b := [], [];
    } else {
      var e := (d + 8) % 16 - 8;
      var (x, y) := DigitPair(e);
      var a', b' := DifferenceStrings(c - 1, (d + 8) / 16);
      ScalarCons(x, a');
      ScalarCons(y, b');
      a, b := [x] + a', [y] + b';
    }
  }

  /** A signed multiple is zero exactly when the multiple by its absolute value is. */
  lemma MulZero<T(!new)>(g: Group<T>, k: int, x: T)
    requires g.Laws() && Mul(g, k, x) == g.zero
    ensures NatMul(g, if k >= 0 then k else -k, x) == g.zero
  {
    if k < 0 {
      AddNeg(g, NatMul(g, -k, x));
      assert g.Comm(NatMul(g, -k, x), g.zero) && g.Unit(NatMul(g, -k, x));
    }
  }

  /** Equal multiples differ by a multiple that vanishes, and conversely. */
  lemma EqualMultiples<T(!new)>(g: Group<T>, m: int, n: int, x: T)
    requires g.Laws()
    ensures Mul(g, m, x) == Mul(g, n, x) <==> Mul(g, m - n, x) == g.zero
  {
    var u, v, d := Mul(g, m, x), Mul(g, n, x), Mul(g, m - n, x);
    MulAdd(g, m - n, n, x);
    assert g.Unit(v);
    AddThenSubtract(g, d, v);
    AddNeg(g, v);
  }

  /** Equal sums of two chunk strings whose scalars are closer than the order. */
  lemma EqualSums<T(!new)>(g: Group<T>, generator: T, row: seq<T>, r: nat, c: nat, a: seq<int>, b: seq<int>)
    requires g.Laws() && IsSegment(g, generator, row) && c <= |row| && HasOrder(g, generator, r)
    requires 8 * (Pow16(c) - 1) < 15 * r
    requires IsChunkString(a, c) && IsChunkString(b, c) && SegmentSum(g, row, a) == SegmentSum(g, row, b)
    ensures a == b
  {
    SegmentIsScalar(g, generator, row, a);
    SegmentIsScalar(g, generator, row, b);
    EqualMultiples(g, Scalar(a), Scalar(b), generator);
    MulZero(g, Scalar(a) - Scalar(b), generator);
    ScalarBound(a);
    ScalarBound(b);
    ScalarInjective(a, b);
  }

  /** Two chunk strings with one sum, when the order is within reach of their differences. */
  lemma CollidingStrings<T(!new)>(g: Group<T>, generator: T, row: seq<T>, r: nat, c: nat)
    returns (a: seq<int>, b: seq<int>)
    requires g.Laws() && IsSegment(g, generator, row) && c <= |row| && HasOrder(g, generator, r)
    requires 15 * r <= 8 * (Pow16(c) - 1)
    ensures IsChunkString(a, c) && IsChunkString(b, c) && a != b
    ensures SegmentSum(g, row, a) == SegmentSum(g, row, b)
  {
    RepunitPow16(c);
    var d: int := 0 - r;
    b, a := DifferenceStrings(c, d);
    SegmentIsScalar(g, generator, row, a);
    SegmentIsScalar(g, generator, row, b);
    EqualMultiples(g, Scalar(a), Scalar(b), generator);
  }

  /**
   * When a segment tells its chunk strings apart: strings of `c` chunks have distinct sums if and only
   * if the order of the generator exceeds the largest difference of two scalars, `8 (16^c - 1) / 15`.
   */
  lemma SegmentInjectiveExact<T(!new)>(g: Group<T>, generator: T, row: seq<T>, r: nat, c: nat)
    requires g.Laws() && IsSegment(g, generator, row) && c <= |row| && HasOrder(g, generator, r)
    ensures SegmentInjective(g, row, c) <==> 8 * (Pow16(c) - 1) < 15 * r
  {
    if 8 * (Pow16(c) - 1) < 15 * r {
      forall a, b | IsChunkString(a, c) && IsChunkString(b, c) && SegmentSum(g, row, a) == SegmentSum(g, row, b)
        ensures a == b
      {
        EqualSums(g, generator, row, r, c, a, b);
      }
    } else {
      var a, b := CollidingStrings(g, generator, row, r, c);
    }
  }

  lemma Pow16Of8()
    ensures Pow16(8) == 0x1_0000_0000
  {
  }

  /** `2^256`, as a power of 16. */
  lemma Pow16Of64()
    ensures Pow16(64) == 0x1_0000_0000_0000_0000_0000_0000_0000_0000_0000_0000_0000_0000_0000_0000_0000_0000
  {
    hide Pow16;
    Pow16Of8();
    Pow16Add(8, 8);
    Pow16Add(16, 16);
    Pow16Add(32, 32);
  }

  lemma {:induction false} Pow16Add(j: nat, k: nat)
    ensures Pow16(j + k) == Pow16(j) * Pow16(k)
  {
    if j != 0 {
      Pow16Add(j - 1, k);
      assert Pow16(j + k) == 16 * Pow16(j - 1 + k);
    }
  }

  /**
   * At the declared window size a full row does not tell its chunk strings apart: whatever generator
   * of an order up to 2^256, two different strings of `WINDOW_SIZE` chunks have the same sum.
   */
  lemma FullWindowCollides<T(!new)>(g: Group<T>, generator: T, row: seq<T>, r: nat)
    returns (a: seq<int>, b: seq<int>)
    requires g.Laws() && IsSegment(g, generator, row) && |row| == WINDOW_SIZE && HasOrder(g, generator, r)
    requires r <= 0x1_0000_0000_0000_0000_0000_0000_0000_0000_0000_0000_0000_0000_0000_0000_0000_0000
    ensures IsChunkString(a, WINDOW_SIZE) && IsChunkString(b, WINDOW_SIZE) && a != b
    ensures SegmentSum(g, row, a) == SegmentSum(g, row, b)
  {
    hide Pow16;
    Pow16Of64();
    Pow16Add(64, 64);
    a, b := CollidingStrings(g, generator, row, r, WINDOW_SIZE);
  }
}

/**
 * The threshold enforcer: `valid - threshold` is forced to be a sum of `d` bits in the prime
 * field. The bits are arbitrary field elements here; nothing is assumed about the prover.
 */
module ThresholdEnforcer {
  import opened NumberTheory
  import opened Bits

  predicate IsBit(x: int) {
    x == 0 || x == 1
  }

  /** Big-endian linear packing of arbitrary field elements. */
  function PackField(zs: seq<int>): int {
    if zs == [] then 0 else 2 * PackField(zs[..|zs| - 1]) + zs[|zs| - 1]
  }

  function ToField(bits: seq<bool>): (zs: seq<int>)
    ensures |zs| == |bits|
  {
    seq(|bits|, i requires 0 <= i < |bits| => BitValue(bits[i]))
  }

  function FromField(zs: seq<int>): (bits: seq<bool>)
    ensures |bits| == |zs|
  {
    seq(|zs|, i requires 0 <= i < |zs| => zs[i] == 1)
  }

  lemma {:induction false} PackFieldOfBits(zs: seq<int>)
    requires forall i :: 0 <= i < |zs| ==> IsBit(zs[i])
    ensures PackField(zs) == Pack(FromField(zs))
  {
    if zs != [] {
      var init := zs[..|zs| - 1];
      PackFieldOfBits(init);
      assert FromField(zs)[..|zs| - 1] == FromField(init);
    }
  }

  lemma FromToField(bits: seq<bool>)
    ensures FromField(ToField(bits)) == bits
    ensures PackField(ToField(bits)) == Pack(bits)
  {
    assert FromField(ToField(bits)) == bits;
    PackFieldOfBits(ToField(bits));
  }

  /** What the allocation of the `b`'s, their packing and the threshold check enforce together. */
  ghost predicate Accepts(p: int, v: int, t: int, bs: seq<int>)
    requires p > 0
  {
    && (forall i :: 0 <= i < |bs| ==> 0 <= bs[i] < p)
    && (forall i :: 0 <= i < |bs| ==> Divides(p, (1 - bs[i]) * bs[i]))
    && Divides(p, (v - t) - PackField(bs))
  }

  lemma AcceptedAreBits(p: int, v: int, t: int, bs: seq<int>)
    requires Prime(p) && Accepts(p, v, t, bs)
    ensures forall i :: 0 <= i < |bs| ==> IsBit(bs[i])
    ensures PackField(bs) == Pack(FromField(bs)) < Pow2(|bs|)
    ensures ToField(FromField(bs)) == bs
  {
    forall i | 0 <= i < |bs|
      ensures IsBit(bs[i])
    {
      BooleanConstraint(p, bs[i]);
    }
    PackFieldOfBits(bs);
    PackBound(FromField(bs));
  }

  lemma BitsAreAccepted(p: int, v: int, t: int, bits: seq<bool>)
    requires p > 1 && Divides(p, (v - t) - Pack(bits))
    ensures Accepts(p, v, t, ToField(bits))
  {
    FromToField(bits);
    MultipleDivides(p, 0);
  }

  /** Field elements that are accepted and bit strings that pack to the difference are the same thing. */
  lemma AcceptedAsBits(p: int, d: nat, v: int, t: int)
    requires Prime(p)
    ensures (exists bs :: |bs| == d && Accepts(p, v, t, bs))
       <==> exists bits: seq<bool> :: |bits| == d && Divides(p, (v - t) - Pack(bits))
  {
    if bs :| |bs| == d && Accepts(p, v, t, bs) {
      AcceptedAreBits(p, v, t, bs);
      assert |FromField(bs)| == d && Divides(p, (v - t) - Pack(FromField(bs)));
    }
    if bits: seq<bool> :| |bits| == d && Divides(p, (v - t) - Pack(bits)) {
      BitsAreAccepted(p, v, t, bits);
      assert |ToField(bits)| == d && Accepts(p, v, t, ToField(bits));
    }
  }

  /**
   * The exact acceptance set over the whole field. A difference that wraps below zero by less
   * than `2^d` is accepted, so the caller must keep the threshold out of that top range.
   */
  lemma AcceptanceSet(p: int, d: nat, v: int, t: int)
    requires Prime(p) && Pow2(d) <= p
    requires 0 <= v < Pow2(d) && 0 <= t < p
    ensures (exists bs :: |bs| == d && Accepts(p, v, t, bs)) <==> t <= v || t > v + p - Pow2(d)
  {
    if bs :| |bs| == d && Accepts(p, v, t, bs) {
      AcceptedAreBits(p, v, t, bs);
      var s := PackField(bs);
      if t > v {
        MultipleDivides(p, 1);
        DividesSum(p, (v - t) - s, p);
        assert ((v - t) - s) + p == (v - t + p) - s;
        CloseMultiplesEqual(p, v - t + p, s);
      }
    }
    if t <= v || t > v + p - Pow2(d) {
      var diff := if t <= v then v - t else v - t + p;
      var bits := ToBits(diff, d);
      PackToBitsExact(diff, d);
      MultipleDivides(p, 0);
      MultipleDivides(p, -1);
      assert (v - t) - Pack(bits) == 0 || (v - t) - Pack(bits) == p * -1;
      BitsAreAccepted(p, v, t, bits);
      assert |ToField(bits)| == d;
    }
  }

  /** Soundness and completeness of the length restriction for two `d`-bit integers. */
  lemma EnforcerExact(p: int, d: nat, v: int, t: int)
    requires Prime(p) && Pow2(d + 1) < p
    requires 0 <= v < Pow2(d) && 0 <= t < Pow2(d)
    ensures (exists bs :: |bs| == d && Accepts(p, v, t, bs)) <==> v >= t
  {
    AcceptanceSet(p, d, v, t);
  }

  /** The satisfying bits are unique, and they are the binary digits of the field difference. */
  lemma AcceptedUnique(p: int, v: int, t: int, bs: seq<int>)
    requires Prime(p) && Pow2(|bs|) <= p && Accepts(p, v, t, bs)
    ensures bs == ToField(ToBits((v - t) % p, |bs|))
    ensures (v - t) % p == PackField(bs)
  {
    AcceptedAreBits(p, v, t, bs);
    ResidueUnique(p, v - t, PackField(bs));
    ToBitsPack(FromField(bs));
  }

  /**
   * Key counts are machine words and thresholds come from a `u64`, so in any field of more than
   * 2^66 elements the wrapped range is empty: bits of the circuit's width exist exactly when
   * enough signatures are valid.
   */
  lemma ThresholdFromU64(p: int, n: u64, v: int, t: u64)
    requires Prime(p) && p > 4 * TWO64 && 0 <= v <= n
    ensures (exists bs :: |bs| == LogMaxPks(n) + 1 && Accepts(p, v, t, bs)) <==> v >= t
    ensures Pow2(LogMaxPks(n) + 1) <= 2 * TWO64
  {
    WidthSufficient(n);
    Pow2Word(LogMaxPks(n));
    AcceptanceSet(p, LogMaxPks(n) + 1, v, t);
  }
}

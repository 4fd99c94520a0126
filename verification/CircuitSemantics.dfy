/**
 * What the synthesized constraints mean for an arbitrary assignment of field elements: it
 * satisfies them exactly when it is the layout of the witness read off it and that witness meets
 * the threshold equation.
 */
module CircuitSemantics {
  import opened NumberTheory
  import opened Bits
  import opened ThresholdEnforcer
  import opened R1cs
  import opened Circuit

  /** A full assignment of field elements, chosen by anyone. */
  ghost predicate IsAssignment(prm: Primitives, n: u64, z: seq<int>) {
    && |z| == NumVars(n)
    && forall v :: 0 <= v < |z| ==> prm.InField(z[v])
  }

  // ----- the witness behind an assignment -----

  function BoolsAt(base: Var, k: nat, z: seq<int>): (r: seq<bool>)
    ensures |r| == k
  {
    seq(k, i requires 0 <= i < k => At(z, base + i) == 1)
  }

  /** The word whose little-endian bits start at `base`. */
  function WordAt(base: Var, z: seq<int>): u64 {
    Pow2Word(64);
    PackBound(Reverse(BoolsAt(base, 64, z)));
    Pack(Reverse(BoolsAt(base, 64, z)))
  }

  function Decode(n: u64, z: seq<int>): (w: Secret)
    ensures Shaped(n, w)
  {
    Secret(seq(n, i requires 0 <= i < n => Pk(At(z, KeyX(i)), At(z, KeyY(i)))),
           seq(n, i requires 0 <= i < n => Sig(At(z, SigE(n, i)), At(z, SigS(n, i)))),
           At(z, ThresholdAt(n)),
           BoolsAt(BAt(n, 0), Width(n), z),
           At(z, ScIdAt(n)), At(z, EpochAt(n)), At(z, RootAt(n)), At(z, MrBtAt(n)),
           WordAt(FtMinAt(n), z), WordAt(BtrFeeAt(n), z))
  }

  /** `valid_signatures - threshold` equals the packed bits in the field. */
  predicate ThresholdEquation(prm: Primitives, w: Secret)
    requires prm.p > 0 && |w.pks| == |w.sigs|
  {
    Divides(prm.p, (Valid(prm, w) - w.t) - Pack(w.b))
  }

  // ----- bits -----

  ghost predicate BitsAt(base: Var, k: nat, z: seq<int>) {
    forall v :: base <= v < base + k ==> IsBit(At(z, v))
  }

  lemma BooleansMeaning(prm: Primitives, base: Var, k: nat, z: seq<int>)
    requires prm.Valid() && base + k <= |z|
    requires forall v :: 0 <= v < |z| ==> prm.InField(z[v])
    ensures Satisfied(prm, BooleanConstraints(base, k), z) <==> BitsAt(base, k, z)
  {
    var cs := BooleanConstraints(base, k);
    forall i | 0 <= i < k
      ensures Holds(prm, cs[i], z) <==> IsBit(At(z, base + i))
    {
      BooleanMeaning(prm, base + i, z);
    }
    if Satisfied(prm, cs, z) {
      forall v | base <= v < base + k
        ensures IsBit(At(z, v))
      {
        assert Holds(prm, cs[v - base], z);
      }
    }
  }

  lemma BoolsAtMeaning(base: Var, k: nat, z: seq<int>)
    ensures BitsAt(base, k, z) <==> LaysBits(base, BoolsAt(base, k, z), z)
  {
    var bits := BoolsAt(base, k, z);
    if LaysBits(base, bits, z) {
      forall v | base <= v < base + k
        ensures IsBit(At(z, v))
      {
        var bit := bits[v - base];
      }
    }
  }

  lemma ReverseInjective<T>(a: seq<T>, b: seq<T>)
    requires Reverse(a) == Reverse(b)
    ensures a == b
  {
    forall i | 0 <= i < |a|
      ensures a[i] == b[i]
    {
      assert Reverse(a)[|a| - 1 - i] == Reverse(b)[|a| - 1 - i];
    }
  }

  /** Any 64 Booleans are the little-endian bits of the word they pack to. */
  lemma WordBitsAt(base: Var, z: seq<int>)
    ensures LittleEndianBits(WordAt(base, z), 64) == BoolsAt(base, 64, z)
  {
    var bits := BoolsAt(base, 64, z);
    ReverseLittleEndian(WordAt(base, z), 64);
    ToBitsPack(Reverse(bits));
    ReverseInjective(LittleEndianBits(WordAt(base, z), 64), bits);
  }

  // ----- section by section -----

  lemma CommitmentMeaning(prm: Primitives, n: u64, z: seq<int>)
    requires prm.Valid() && IsAssignment(prm, n, z)
    ensures Satisfied(prm, KeyConstraints(n), z) <==> LaysCommitment(prm, n, Decode(n, z), z)
    ensures forall xs :: |xs| == n && (forall i :: 0 <= i < n ==> xs[i] == Decode(n, z).pks[i].x) ==>
              (Satisfied(prm, KeyConstraints(n), z)
               <==> At(z, KeysHashAt(n)) == prm.H(xs)
                    && At(z, KeysThresholdHashAt(n)) == prm.H([At(z, KeysHashAt(n)), Decode(n, z).t]))
  {
    var w, cs := Decode(n, z), KeyConstraints(n);
    forall i | 0 <= i < n
      ensures FieldValues(prm.p, KeyXLcs(n), z)[i] == Xs(w.pks)[i]
    {
      FieldValueVar(prm.p, KeyX(i), z);
    }
    assert FieldValues(prm.p, KeyXLcs(n), z) == Xs(w.pks);
    FieldValueVar(prm.p, KeysHashAt(n), z);
    FieldValueVar(prm.p, ThresholdAt(n), z);
    assert FieldValues(prm.p, [LcVar(KeysHashAt(n)), LcVar(ThresholdAt(n))], z) == [At(z, KeysHashAt(n)), w.t];
    SatisfiedPair(prm, cs[0], cs[1], z);
    forall xs | |xs| == n && (forall i :: 0 <= i < n ==> xs[i] == w.pks[i].x)
      ensures xs == Xs(w.pks)
    {
    }
  }

  /** The packed fee variables hold the reversed bits of the two words. */
  lemma FeeBitValues(n: u64, z: seq<int>)
    requires BitsAt(BtrFeeAt(n), 64, z) && BitsAt(FtMinAt(n), 64, z)
    ensures forall i :: 0 <= i < |FeeVars(n)| ==> IsBit(Values(FeeVars(n), z)[i])
    ensures FromField(Values(FeeVars(n), z))
         == Reverse(BoolsAt(BtrFeeAt(n), 64, z)) + Reverse(BoolsAt(FtMinAt(n), 64, z))
  {
  }

  lemma FeePackingMeaning(prm: Primitives, n: u64, z: seq<int>)
    requires prm.Valid() && IsAssignment(prm, n, z)
    requires BitsAt(BtrFeeAt(n), 64, z) && BitsAt(FtMinAt(n), 64, z)
    ensures Holds(prm, PackConstraint(FeeVars(n), FeesAt(n)), z)
       <==> At(z, FeesAt(n)) == PackedFees(WordAt(BtrFeeAt(n), z), WordAt(FtMinAt(n), z))
  {
    hide Divides, BitsAt, FeeVars, FromField, BoolsAt, WordAt, Holds, Width;
    FeeBitValues(n, z);
    PackFieldOfBits(Values(FeeVars(n), z));
    WordBitsAt(BtrFeeAt(n), z);
    WordBitsAt(FtMinAt(n), z);
    FeesPackExactly(WordAt(BtrFeeAt(n), z), WordAt(FtMinAt(n), z));
    PackedFeesInField(prm, WordAt(BtrFeeAt(n), z), WordAt(FtMinAt(n), z));
    PackMeaning(prm, FeeVars(n), FeesAt(n), z);
  }

  lemma DataValues(prm: Primitives, n: u64, z: seq<int>)
    requires prm.Valid() && IsAssignment(prm, n, z)
    ensures var w := Decode(n, z);
            FieldValues(prm.p, DataLcs(n), z) == [w.scId, w.epoch, w.mrBt, w.root, At(z, FeesAt(n))]
  {
    FieldValueVar(prm.p, ScIdAt(n), z);
    FieldValueVar(prm.p, EpochAt(n), z);
    FieldValueVar(prm.p, MrBtAt(n), z);
    FieldValueVar(prm.p, RootAt(n), z);
    FieldValueVar(prm.p, FeesAt(n), z);
  }

  lemma MessageMeaning(prm: Primitives, n: u64, z: seq<int>)
    requires prm.Valid() && IsAssignment(prm, n, z)
    ensures Satisfied(prm, FeeConstraints(n), z)
       <==> LaysFees(n, Decode(n, z), z) && LaysMessage(prm, n, Decode(n, z), z)
    ensures var w := Decode(n, z);
            Satisfied(prm, FeeConstraints(n), z)
            <==> LaysFees(n, w, z)
                 && At(z, MessageAt(n)) == prm.H([w.scId, w.epoch, w.mrBt, w.root, TWO64 * w.btrFee + w.ftMin])
  {
    var btr, ft, rest := BooleanConstraints(BtrFeeAt(n), 64), BooleanConstraints(FtMinAt(n), 64), MessageConstraints(n);
    SatisfiedAppend(prm, btr + ft, rest, z);
    SatisfiedAppend(prm, btr, ft, z);
    BooleansMeaning(prm, BtrFeeAt(n), 64, z);
    BooleansMeaning(prm, FtMinAt(n), 64, z);
    BoolsAtMeaning(BtrFeeAt(n), 64, z);
    BoolsAtMeaning(FtMinAt(n), 64, z);
    WordBitsAt(BtrFeeAt(n), z);
    WordBitsAt(FtMinAt(n), z);
    if BitsAt(BtrFeeAt(n), 64, z) && BitsAt(FtMinAt(n), 64, z) {
      FeePackingMeaning(prm, n, z);
      DataValues(prm, n, z);
      SatisfiedPair(prm, rest[0], rest[1], z);
    }
  }

  lemma VerdictsMeaning(prm: Primitives, n: u64, z: seq<int>)
    requires prm.Valid() && IsAssignment(prm, n, z) && LaysMessage(prm, n, Decode(n, z), z)
    ensures Satisfied(prm, VerdictConstraints(n, n), z) <==> LaysVerdicts(prm, n, Decode(n, z), z)
  {
    var w, cs := Decode(n, z), VerdictConstraints(n, n);
    forall i | 0 <= i < n
      ensures Holds(prm, cs[i], z)
         <==> At(z, VerdictAt(n, i)) == BitValue(prm.Verifies(Message(prm, w), w.pks[i], w.sigs[i]))
    {
      FieldValueVar(prm.p, KeyX(i), z);
      FieldValueVar(prm.p, KeyY(i), z);
      FieldValueVar(prm.p, SigE(n, i), z);
      FieldValueVar(prm.p, SigS(n, i), z);
      FieldValueVar(prm.p, MessageAt(n), z);
    }
    if Satisfied(prm, cs, z) {
      forall i | 0 <= i < n
        ensures At(z, VerdictAt(n, i)) == BitValue(prm.Verifies(Message(prm, w), w.pks[i], w.sigs[i]))
      {
        assert Holds(prm, cs[i], z);
      }
    }
  }

  /** The sum of verdicts is the integer count: at most `n < p` ones, so nothing wraps. */
  lemma {:induction false} CountEvaluates(prm: Primitives, n: u64, z: seq<int>, k: nat)
    requires prm.Valid() && k <= n && LaysVerdicts(prm, n, Decode(n, z), z)
    ensures var w := Decode(n, z);
            Eval(CountLc(n, k), z) == CountValid(prm, Message(prm, w), w.pks, w.sigs, k)
  {
    hide Decode, Width;
    if k != 0 {
      CountEvaluates(prm, n, z, k - 1);
      assert CountTerms(n, k)[..k - 1] == CountTerms(n, k - 1);
      assert CountTerms(n, k)[k - 1] == Term(1, VerdictAt(n, k - 1));
    }
  }

  lemma SysDataValues(prm: Primitives, n: u64, z: seq<int>)
    requires prm.Valid() && IsAssignment(prm, n, z) && LaysVerdicts(prm, n, Decode(n, z), z)
    ensures var w := Decode(n, z);
            FieldValues(prm.p, SysDataLcs(n), z) == [w.scId, w.epoch, w.mrBt, Valid(prm, w), w.root, At(z, FeesAt(n))]
  {
    var w := Decode(n, z);
    CountEvaluates(prm, n, z, n);
    MultipleDivides(prm.p, 0);
    ResidueUnique(prm.p, Valid(prm, w), Valid(prm, w));
    FieldValueVar(prm.p, ScIdAt(n), z);
    FieldValueVar(prm.p, EpochAt(n), z);
    FieldValueVar(prm.p, MrBtAt(n), z);
    FieldValueVar(prm.p, RootAt(n), z);
    FieldValueVar(prm.p, FeesAt(n), z);
  }

  lemma CertDataMeaning(prm: Primitives, n: u64, z: seq<int>)
    requires prm.Valid() && IsAssignment(prm, n, z)
    requires LaysFees(n, Decode(n, z), z) && LaysVerdicts(prm, n, Decode(n, z), z)
    ensures Satisfied(prm, CertHashConstraints(n), z) <==> LaysCert(prm, n, Decode(n, z), z)
  {
    SysDataValues(prm, n, z);
    FieldValueVar(prm.p, SysDataAt(n), z);
    assert FieldValues(prm.p, [LcVar(SysDataAt(n))], z) == [At(z, SysDataAt(n))];
    SatisfiedPair(prm, CertHashConstraints(n)[0], CertHashConstraints(n)[1], z);
  }

  lemma InputsMeaning(prm: Primitives, n: u64, z: seq<int>)
    requires prm.Valid() && IsAssignment(prm, n, z)
    ensures Satisfied(prm, InputConstraints(n), z)
       <==> At(z, KeysInputAt(n)) == At(z, KeysThresholdHashAt(n)) && At(z, CertInputAt(n)) == At(z, CertDataAt(n))
  {
    EqualVarsMeaning(prm, KeysThresholdHashAt(n), KeysInputAt(n), z);
    EqualVarsMeaning(prm, CertDataAt(n), CertInputAt(n), z);
    SatisfiedPair(prm, InputConstraints(n)[0], InputConstraints(n)[1], z);
  }

  lemma DifferenceMeaning(prm: Primitives, n: u64, z: seq<int>, b: seq<bool>)
    requires prm.Valid() && IsAssignment(prm, n, z) && BitsAt(BAt(n, 0), Width(n), z)
    requires b == BoolsAt(BAt(n, 0), Width(n), z)
    ensures Holds(prm, PackConstraint(Range(BAt(n, 0), Width(n)), BFieldAt(n)), z) <==> At(z, BFieldAt(n)) == Pack(b)
  {
    var vs := Range(BAt(n, 0), Width(n));
    PackMeaning(prm, vs, BFieldAt(n), z);
    PackFieldOfBits(Values(vs, z));
    assert FromField(Values(vs, z)) == b;
    PackedWidthInField(prm, n, b);
  }

  lemma CountMinusThreshold(prm: Primitives, n: u64, z: seq<int>)
    requires prm.Valid() && LaysVerdicts(prm, n, Decode(n, z), z)
    ensures Eval(LcSub(CountLc(n, n), LcVar(ThresholdAt(n))), z) == Valid(prm, Decode(n, z)) - Decode(n, z).t
  {
    CountEvaluates(prm, n, z, n);
    EvalSub(CountLc(n, n), LcVar(ThresholdAt(n)), z);
    EvalVar(ThresholdAt(n), z);
  }

  /** The packing and the equality together, for any values of the two sides. */
  lemma ChecksMeaning(prm: Primitives, pack: Constraint, difference: Lc, out: Var, z: seq<int>, d: int, s: int)
    requires prm.p > 0 && Eval(difference, z) == d
    requires Holds(prm, pack, z) <==> At(z, out) == s
    ensures Satisfied(prm, [pack, EqualConstraint(difference, LcVar(out))], z)
       <==> At(z, out) == s && Divides(prm.p, d - s)
  {
    SatisfiedPair(prm, pack, EqualConstraint(difference, LcVar(out)), z);
    EvalVar(out, z);
    EqualMeaning(prm, difference, LcVar(out), z);
  }

  lemma ThresholdMeaning(prm: Primitives, n: u64, z: seq<int>)
    requires prm.Valid() && IsAssignment(prm, n, z) && LaysVerdicts(prm, n, Decode(n, z), z)
    ensures Satisfied(prm, ThresholdConstraints(n), z)
       <==> LaysDifference(n, Decode(n, z), z) && ThresholdEquation(prm, Decode(n, z))
  {
    hide Holds, Divides;
    var w := Decode(n, z);
    SatisfiedAppend(prm, BooleanConstraints(BAt(n, 0), Width(n)), CheckConstraints(n), z);
    BooleansMeaning(prm, BAt(n, 0), Width(n), z);
    BoolsAtMeaning(BAt(n, 0), Width(n), z);
    if BitsAt(BAt(n, 0), Width(n), z) {
      DifferenceMeaning(prm, n, z, w.b);
      CountMinusThreshold(prm, n, z);
      ChecksMeaning(prm, CheckConstraints(n)[0], LcSub(CountLc(n, n), LcVar(ThresholdAt(n))), BFieldAt(n), z,
                    Valid(prm, w) - w.t, Pack(w.b));
    }
  }

  lemma DecodedWitnesses(n: u64, z: seq<int>)
    ensures LaysKeys(n, Decode(n, z), z) && LaysSigs(n, Decode(n, z), z) && LaysData(n, Decode(n, z), z)
  {
  }

  /** The meaning of the whole circuit, both ways, for every assignment of field elements. */
  lemma CircuitMeaning(prm: Primitives, n: u64, z: seq<int>)
    requires prm.Valid() && IsAssignment(prm, n, z)
    ensures Satisfied(prm, Constraints(n), z)
       <==> Lays(prm, n, Decode(n, z), z) && ThresholdEquation(prm, Decode(n, z))
  {
    var k, f, v, c, t :=
      KeyConstraints(n), FeeConstraints(n), VerdictConstraints(n, n), CertConstraints(n), ThresholdConstraints(n);
    SatisfiedAppend(prm, CertHashConstraints(n), InputConstraints(n), z);
    InputsMeaning(prm, n, z);
    SatisfiedAppend(prm, k + f + v + c, t, z);
    SatisfiedAppend(prm, k + f + v, c, z);
    SatisfiedAppend(prm, k + f, v, z);
    SatisfiedAppend(prm, k, f, z);
    DecodedWitnesses(n, z);
    CommitmentMeaning(prm, n, z);
    MessageMeaning(prm, n, z);
    if LaysMessage(prm, n, Decode(n, z), z) {
      VerdictsMeaning(prm, n, z);
      if LaysVerdicts(prm, n, Decode(n, z), z) {
        ThresholdMeaning(prm, n, z);
        if LaysCommitment(prm, n, Decode(n, z), z) && LaysFees(n, Decode(n, z), z) {
          CertDataMeaning(prm, n, z);
        }
      }
    }
  }
}

/**
 * The naive threshold-signature circuit: its witness constructor, its setup instance, and the
 * synthesizer, proved to emit one fixed layout of variables and constraints per key count.
 */
module Circuit {
  import opened NumberTheory
  import opened Bits
  import opened R1cs
  import opened ThresholdEnforcer
  import opened Wrappers

  /** Every witness is optional: the setup instance carries none. */
  datatype Instance = Instance(
    pks: seq<Option<Pk>>,
    sigs: seq<Option<Sig>>,
    threshold: Option<int>,
    b: seq<Option<bool>>,
    scId: Option<int>,
    epoch: Option<int>,
    root: Option<int>,
    mrBt: Option<int>,
    ftMin: Option<u64>,
    btrFee: Option<u64>,
    maxPks: u64)

  /** The plain witness behind a full instance, or behind any assignment of the variables. */
  datatype Secret = Secret(
    pks: seq<Pk>,
    sigs: seq<Sig>,
    t: int,
    b: seq<bool>,
    scId: int,
    epoch: int,
    root: int,
    mrBt: int,
    ftMin: u64,
    btrFee: u64)

  function Width(n: u64): nat {
    LogMaxPks(n) + 1
  }

  /**
   * `NaiveTresholdSignature::new`: `b` is cut to its `log_max_pks + 1` low bits, every other argument
   * is kept, and only a signature can be missing from the witness.
   */
  function New(prm: Primitives, pks: seq<Pk>, sigs: seq<Option<Sig>>, threshold: int, b: nat, scId: int,
               epoch: int, root: int, mrBt: int, ftMin: u64, btrFee: u64, maxPks: u64): (r: Instance)
    requires Width(maxPks) <= prm.bits
    ensures r.sigs == sigs && r.maxPks == maxPks
    ensures KeysKnown(r) && DataKnown(r) && AllSome(r.b)
    ensures Fill(r) == Secret(pks, ValuesOr(sigs, Sig(0, 0)), threshold, ToBits(b, Width(maxPks)), scId, epoch, root,
                              mrBt, ftMin, btrFee)
  {
    var toSkip := prm.bits - Width(maxPks);
    ToBitsSuffix(b, prm.bits, Width(maxPks));
    assert ValuesOr(AllOf(pks), Pk(0, 0)) == pks;
    assert ValuesOr(AllOf(ToBits(b, Width(maxPks))), false) == ToBits(b, Width(maxPks));
    Instance(AllOf(pks), sigs, Some(threshold), AllOf(ToBits(b, prm.bits)[toSkip..]), Some(scId),
             Some(epoch), Some(root), Some(mrBt), Some(ftMin), Some(btrFee), maxPks)
  }

  /** `get_instance_for_setup`. */
  function InstanceForSetup(maxPks: u64): Instance {
    Instance(seq(maxPks, _ => None), seq(maxPks, _ => None), None, seq(Width(maxPks), _ => None),
             None, None, None, None, None, None, maxPks)
  }

  /** The three length assertions at the head of the synthesizer. */
  predicate Consistent(inst: Instance) {
    |inst.pks| == inst.maxPks && |inst.sigs| == inst.maxPks && |inst.b| == Width(inst.maxPks)
  }

  predicate KeysKnown(inst: Instance) {
    AllSome(inst.pks) && inst.threshold.Some?
  }

  predicate DataKnown(inst: Instance) {
    && inst.scId.Some? && inst.epoch.Some? && inst.mrBt.Some? && inst.root.Some?
    && inst.btrFee.Some? && inst.ftMin.Some?
  }

  /** No witness is missing. */
  predicate Complete(inst: Instance) {
    KeysKnown(inst) && DataKnown(inst) && AllSome(inst.sigs) && AllSome(inst.b)
  }

  function Fill(inst: Instance): (w: Secret)
    ensures Consistent(inst) ==> Shaped(inst.maxPks, w)
  {
    Secret(ValuesOr(inst.pks, Pk(0, 0)), ValuesOr(inst.sigs, Sig(0, 0)), inst.threshold.GetOr(0),
           ValuesOr(inst.b, false), inst.scId.GetOr(0), inst.epoch.GetOr(0), inst.root.GetOr(0),
           inst.mrBt.GetOr(0), inst.ftMin.GetOr(0), inst.btrFee.GetOr(0))
  }

  predicate Shaped(n: u64, w: Secret) {
    |w.pks| == n && |w.sigs| == n && |w.b| == Width(n)
  }

  // ----- what the witness determines -----

  function Xs(pks: seq<Pk>): (r: seq<int>)
    ensures |r| == |pks|
  {
    seq(|pks|, i requires 0 <= i < |pks| => pks[i].x)
  }

  function KeysHash(prm: Primitives, xs: seq<int>): int
    requires prm.p > 0
  {
    prm.H(xs)
  }

  /** `H(H(pks), threshold)`. */
  function KeysThresholdHash(prm: Primitives, xs: seq<int>, t: int): int
    requires prm.p > 0
  {
    prm.H([KeysHash(prm, xs), t])
  }

  /** The two fees as one integer. */
  function PackedFees(btrFee: u64, ftMin: u64): int {
    TWO64 * btrFee + ftMin
  }

  /** `H(sc_id, epoch_number, bt_root, end_cumulative_sc_tx_comm_tree_root, fees)`. */
  function MessageHash(prm: Primitives, scId: int, epoch: int, mrBt: int, root: int, fees: int): int
    requires prm.p > 0
  {
    prm.H([scId, epoch, mrBt, root, fees])
  }

  /** `H(H(sc_id, epoch_number, bt_root, valid_sigs, root, fees))`. */
  function CertDataHash(prm: Primitives, scId: int, epoch: int, mrBt: int, valid: int, root: int, fees: int): int
    requires prm.p > 0
  {
    prm.H([SysDataHash(prm, scId, epoch, mrBt, valid, root, fees)])
  }

  function SysDataHash(prm: Primitives, scId: int, epoch: int, mrBt: int, valid: int, root: int, fees: int): int
    requires prm.p > 0
  {
    prm.H([scId, epoch, mrBt, valid, root, fees])
  }

  function Message(prm: Primitives, w: Secret): int
    requires prm.p > 0
  {
    MessageHash(prm, w.scId, w.epoch, w.mrBt, w.root, PackedFees(w.btrFee, w.ftMin))
  }

  /** How many of the first `k` signatures verify on `msg` under their keys. */
  function CountValid(prm: Primitives, msg: int, pks: seq<Pk>, sigs: seq<Sig>, k: nat): (c: nat)
    requires k <= |pks| && k <= |sigs|
    ensures c <= k
  {
    if k == 0 then 0
    else CountValid(prm, msg, pks, sigs, k - 1) + BitValue(prm.Verifies(msg, pks[k - 1], sigs[k - 1]))
  }

  function Valid(prm: Primitives, w: Secret): nat
    requires prm.p > 0 && |w.pks| == |w.sigs|
  {
    CountValid(prm, Message(prm, w), w.pks, w.sigs, |w.pks|)
  }

  // ----- the layout: where each variable sits for `n` keys -----

  function KeyX(i: nat): Var { 2 * i }
  function KeyY(i: nat): Var { 2 * i + 1 }
  function KeysHashAt(n: u64): Var { 2 * n }
  function ThresholdAt(n: u64): Var { 2 * n + 1 }
  function KeysThresholdHashAt(n: u64): Var { 2 * n + 2 }
  function ScIdAt(n: u64): Var { 2 * n + 3 }
  function EpochAt(n: u64): Var { 2 * n + 4 }
  function MrBtAt(n: u64): Var { 2 * n + 5 }
  function RootAt(n: u64): Var { 2 * n + 6 }
  function BtrFeeAt(n: u64): Var { 2 * n + 7 }
  function FtMinAt(n: u64): Var { 2 * n + 71 }
  function FeesAt(n: u64): Var { 2 * n + 135 }
  function MessageAt(n: u64): Var { 2 * n + 136 }
  function SigsAt(n: u64): Var { 2 * n + 137 }
  function SigE(n: u64, i: nat): Var { 2 * n + 137 + 2 * i }
  function SigS(n: u64, i: nat): Var { 2 * n + 138 + 2 * i }
  function VerdictAt(n: u64, i: nat): Var { 4 * n + 137 + i }
  function SysDataAt(n: u64): Var { 5 * n + 137 }
  function CertDataAt(n: u64): Var { 5 * n + 138 }
  function KeysInputAt(n: u64): Var { 5 * n + 139 }
  function CertInputAt(n: u64): Var { 5 * n + 140 }
  function BAt(n: u64, i: nat): Var { 5 * n + 141 + i }
  function BFieldAt(n: u64): Var { 5 * n + 141 + Width(n) }
  function NumVars(n: u64): nat { 5 * n + 142 + Width(n) }

  function KindAt(n: u64, v: Var): Kind {
    if v == KeysInputAt(n) || v == CertInputAt(n) then Public else Witness
  }

  /** The value that a witness gives to each variable. */
  function ValueAt(prm: Primitives, n: u64, w: Secret, v: Var): int
    requires prm.p > 0 && Shaped(n, w)
  {
    if v < KeysHashAt(n) then (if v % 2 == 0 then w.pks[v / 2].x else w.pks[v / 2].y)
    else if v == KeysHashAt(n) then KeysHash(prm, Xs(w.pks))
    else if v == ThresholdAt(n) then w.t
    else if v == KeysThresholdHashAt(n) then KeysThresholdHash(prm, Xs(w.pks), w.t)
    else if v == ScIdAt(n) then w.scId
    else if v == EpochAt(n) then w.epoch
    else if v == MrBtAt(n) then w.mrBt
    else if v == RootAt(n) then w.root
    else if v < FtMinAt(n) then BitValue(LittleEndianBits(w.btrFee, 64)[v - BtrFeeAt(n)])
    else if v < FeesAt(n) then BitValue(LittleEndianBits(w.ftMin, 64)[v - FtMinAt(n)])
    else if v == FeesAt(n) then PackedFees(w.btrFee, w.ftMin)
    else if v == MessageAt(n) then Message(prm, w)
    else if v < VerdictAt(n, 0) then
      var i := v - SigsAt(n);
      if i % 2 == 0 then w.sigs[i / 2].e else w.sigs[i / 2].s
    else if v < SysDataAt(n) then
      var i := v - VerdictAt(n, 0);
      BitValue(prm.Verifies(Message(prm, w), w.pks[i], w.sigs[i]))
    else if v == SysDataAt(n) then
      SysDataHash(prm, w.scId, w.epoch, w.mrBt, Valid(prm, w), w.root, PackedFees(w.btrFee, w.ftMin))
    else if v == CertDataAt(n) || v == CertInputAt(n) then
      CertDataHash(prm, w.scId, w.epoch, w.mrBt, Valid(prm, w), w.root, PackedFees(w.btrFee, w.ftMin))
    else if v == KeysInputAt(n) then KeysThresholdHash(prm, Xs(w.pks), w.t)
    else if v < BFieldAt(n) then BitValue(w.b[v - BAt(n, 0)])
    else Pack(w.b)
  }

  /** The values of the public variables, in the order of their allocation: what a verifier supplies. */
  function PublicInputs(kinds: seq<Kind>, z: seq<int>): seq<int>
    requires |kinds| <= |z|
  {
    if kinds == [] then []
    else
      var k := |kinds| - 1;
      PublicInputs(kinds[..k], z) + if kinds[k] == Public then [z[k]] else []
  }

  /** Exactly two variables are public: the key commitment and then the certificate hash. */
  lemma {:induction false} PublicInputsUpTo(n: u64, z: seq<int>, k: nat)
    requires k <= NumVars(n) == |z|
    ensures PublicInputs(Kinds(n)[..k], z)
         == (if k > KeysInputAt(n) then [At(z, KeysInputAt(n))] else [])
          + (if k > CertInputAt(n) then [At(z, CertInputAt(n))] else [])
  {
    hide Width;
    if k != 0 {
      PublicInputsUpTo(n, z, k - 1);
      assert Kinds(n)[..k][..k - 1] == Kinds(n)[..k - 1];
      assert Kinds(n)[..k][k - 1] == KindAt(n, k - 1);
    }
  }

  lemma PublicInputsExact(n: u64, z: seq<int>)
    requires |z| == NumVars(n)
    ensures PublicInputs(Kinds(n), z) == [At(z, KeysInputAt(n)), At(z, CertInputAt(n))]
  {
    hide Width;
    PublicInputsUpTo(n, z, NumVars(n));
    assert Kinds(n)[..NumVars(n)] == Kinds(n);
  }

  function Kinds(n: u64): (r: seq<Kind>)
    ensures |r| == NumVars(n)
  {
    seq(NumVars(n), v requires 0 <= v < NumVars(n) => KindAt(n, v))
  }

  function Assignment(prm: Primitives, n: u64, w: Secret): (r: seq<int>)
    requires prm.p > 0 && Shaped(n, w)
    ensures |r| == NumVars(n)
  {
    seq(NumVars(n), v requires 0 <= v < NumVars(n) => ValueAt(prm, n, w, v))
  }

  // ----- the same layout, section by section -----

  ghost predicate LaysKeys(n: u64, w: Secret, z: seq<int>)
    requires Shaped(n, w)
  {
    forall i {:trigger w.pks[i]} :: 0 <= i < n ==> At(z, KeyX(i)) == w.pks[i].x && At(z, KeyY(i)) == w.pks[i].y
  }

  ghost predicate LaysCommitment(prm: Primitives, n: u64, w: Secret, z: seq<int>)
    requires prm.p > 0 && Shaped(n, w)
  {
    && At(z, KeysHashAt(n)) == KeysHash(prm, Xs(w.pks))
    && At(z, ThresholdAt(n)) == w.t
    && At(z, KeysThresholdHashAt(n)) == KeysThresholdHash(prm, Xs(w.pks), w.t)
  }

  ghost predicate LaysData(n: u64, w: Secret, z: seq<int>) {
    && At(z, ScIdAt(n)) == w.scId
    && At(z, EpochAt(n)) == w.epoch
    && At(z, MrBtAt(n)) == w.mrBt
    && At(z, RootAt(n)) == w.root
  }

  /** The variables from `base` on hold the Booleans `bits`. */
  ghost predicate LaysBits(base: Var, bits: seq<bool>, z: seq<int>) {
    forall i {:trigger bits[i]} :: 0 <= i < |bits| ==> At(z, base + i) == BitValue(bits[i])
  }

  ghost predicate LaysFees(n: u64, w: Secret, z: seq<int>) {
    && LaysBits(BtrFeeAt(n), LittleEndianBits(w.btrFee, 64), z)
    && LaysBits(FtMinAt(n), LittleEndianBits(w.ftMin, 64), z)
    && At(z, FeesAt(n)) == PackedFees(w.btrFee, w.ftMin)
  }

  ghost predicate LaysMessage(prm: Primitives, n: u64, w: Secret, z: seq<int>)
    requires prm.p > 0
  {
    At(z, MessageAt(n)) == Message(prm, w)
  }

  ghost predicate LaysSigs(n: u64, w: Secret, z: seq<int>)
    requires Shaped(n, w)
  {
    forall i {:trigger w.sigs[i]} :: 0 <= i < n ==> At(z, SigE(n, i)) == w.sigs[i].e && At(z, SigS(n, i)) == w.sigs[i].s
  }

  ghost predicate LaysVerdicts(prm: Primitives, n: u64, w: Secret, z: seq<int>)
    requires prm.p > 0 && Shaped(n, w)
  {
    forall i {:trigger VerdictAt(n, i)} :: 0 <= i < n ==>
      At(z, VerdictAt(n, i)) == BitValue(prm.Verifies(Message(prm, w), w.pks[i], w.sigs[i]))
  }

  ghost predicate LaysCert(prm: Primitives, n: u64, w: Secret, z: seq<int>)
    requires prm.p > 0 && Shaped(n, w)
  {
    var fees := PackedFees(w.btrFee, w.ftMin);
    && At(z, SysDataAt(n)) == SysDataHash(prm, w.scId, w.epoch, w.mrBt, Valid(prm, w), w.root, fees)
    && At(z, CertDataAt(n)) == CertDataHash(prm, w.scId, w.epoch, w.mrBt, Valid(prm, w), w.root, fees)
  }

  ghost predicate LaysInputs(prm: Primitives, n: u64, w: Secret, z: seq<int>)
    requires prm.p > 0 && Shaped(n, w)
  {
    var fees := PackedFees(w.btrFee, w.ftMin);
    && At(z, KeysInputAt(n)) == KeysThresholdHash(prm, Xs(w.pks), w.t)
    && At(z, CertInputAt(n)) == CertDataHash(prm, w.scId, w.epoch, w.mrBt, Valid(prm, w), w.root, fees)
  }

  ghost predicate LaysDifference(n: u64, w: Secret, z: seq<int>)
    requires Shaped(n, w)
  {
    && LaysBits(BAt(n, 0), w.b, z)
    && At(z, BFieldAt(n)) == Pack(w.b)
  }

  ghost predicate Lays(prm: Primitives, n: u64, w: Secret, z: seq<int>)
    requires prm.p > 0 && Shaped(n, w)
  {
    && |z| == NumVars(n)
    && LaysKeys(n, w, z) && LaysCommitment(prm, n, w, z) && LaysData(n, w, z) && LaysFees(n, w, z)
    && LaysMessage(prm, n, w, z) && LaysSigs(n, w, z) && LaysVerdicts(prm, n, w, z)
    && LaysCert(prm, n, w, z) && LaysInputs(prm, n, w, z) && LaysDifference(n, w, z)
  }

  lemma ValueAtKey(prm: Primitives, n: u64, w: Secret, i: nat)
    requires prm.p > 0 && Shaped(n, w) && i < n
    ensures ValueAt(prm, n, w, KeyX(i)) == w.pks[i].x
    ensures ValueAt(prm, n, w, KeyY(i)) == w.pks[i].y
  {
    assert KeyX(i) % 2 == 0 && KeyX(i) / 2 == i;
    assert KeyY(i) % 2 == 1 && KeyY(i) / 2 == i;
  }

  lemma ValueAtSig(prm: Primitives, n: u64, w: Secret, i: nat)
    requires prm.p > 0 && Shaped(n, w) && i < n
    ensures ValueAt(prm, n, w, SigE(n, i)) == w.sigs[i].e
    ensures ValueAt(prm, n, w, SigS(n, i)) == w.sigs[i].s
  {
    assert (SigE(n, i) - SigsAt(n)) % 2 == 0 && (SigE(n, i) - SigsAt(n)) / 2 == i;
    assert (SigS(n, i) - SigsAt(n)) % 2 == 1 && (SigS(n, i) - SigsAt(n)) / 2 == i;
  }

  lemma ValueAtVerdict(prm: Primitives, n: u64, w: Secret, i: nat)
    requires prm.p > 0 && Shaped(n, w) && i < n
    ensures ValueAt(prm, n, w, VerdictAt(n, i)) == BitValue(prm.Verifies(Message(prm, w), w.pks[i], w.sigs[i]))
  {
  }

  lemma ValueAtBits(prm: Primitives, n: u64, w: Secret, i: nat)
    requires prm.p > 0 && Shaped(n, w)
    ensures i < 64 ==> ValueAt(prm, n, w, BtrFeeAt(n) + i) == BitValue(LittleEndianBits(w.btrFee, 64)[i])
    ensures i < 64 ==> ValueAt(prm, n, w, FtMinAt(n) + i) == BitValue(LittleEndianBits(w.ftMin, 64)[i])
    ensures i < Width(n) ==> ValueAt(prm, n, w, BAt(n, i)) == BitValue(w.b[i])
  {
  }

  lemma AssignmentLaysPairs(prm: Primitives, n: u64, w: Secret)
    requires prm.p > 0 && Shaped(n, w)
    ensures LaysKeys(n, w, Assignment(prm, n, w))
    ensures LaysSigs(n, w, Assignment(prm, n, w))
    ensures LaysVerdicts(prm, n, w, Assignment(prm, n, w))
  {
    var z := Assignment(prm, n, w);
    forall i | 0 <= i < n
      ensures At(z, KeyX(i)) == w.pks[i].x && At(z, KeyY(i)) == w.pks[i].y
      ensures At(z, SigE(n, i)) == w.sigs[i].e && At(z, SigS(n, i)) == w.sigs[i].s
      ensures At(z, VerdictAt(n, i)) == BitValue(prm.Verifies(Message(prm, w), w.pks[i], w.sigs[i]))
    {
      ValueAtKey(prm, n, w, i);
      ValueAtSig(prm, n, w, i);
      ValueAtVerdict(prm, n, w, i);
    }
  }

  lemma AssignmentLaysBits(prm: Primitives, n: u64, w: Secret)
    requires prm.p > 0 && Shaped(n, w)
    ensures LaysBits(BtrFeeAt(n), LittleEndianBits(w.btrFee, 64), Assignment(prm, n, w))
    ensures LaysBits(FtMinAt(n), LittleEndianBits(w.ftMin, 64), Assignment(prm, n, w))
    ensures LaysBits(BAt(n, 0), w.b, Assignment(prm, n, w))
  {
    hide LogMaxPks, LittleEndianBits, Pow2;
    var z := Assignment(prm, n, w);
    var btrFee, ftMin := LittleEndianBits(w.btrFee, 64), LittleEndianBits(w.ftMin, 64);
    forall i | 0 <= i < 64
      ensures At(z, BtrFeeAt(n) + i) == BitValue(btrFee[i])
      ensures At(z, FtMinAt(n) + i) == BitValue(ftMin[i])
    {
      ValueAtBits(prm, n, w, i);
    }
    forall i | 0 <= i < |w.b|
      ensures At(z, BAt(n, 0) + i) == BitValue(w.b[i])
    {
      ValueAtBits(prm, n, w, i);
    }
  }

  lemma AssignmentLaysHead(prm: Primitives, n: u64, w: Secret)
    requires prm.p > 0 && Shaped(n, w)
    ensures LaysCommitment(prm, n, w, Assignment(prm, n, w))
    ensures LaysData(n, w, Assignment(prm, n, w))
    ensures At(Assignment(prm, n, w), FeesAt(n)) == PackedFees(w.btrFee, w.ftMin)
    ensures LaysMessage(prm, n, w, Assignment(prm, n, w))
  {
  }

  lemma AssignmentLaysTail(prm: Primitives, n: u64, w: Secret)
    requires prm.p > 0 && Shaped(n, w)
    ensures LaysCert(prm, n, w, Assignment(prm, n, w))
    ensures LaysInputs(prm, n, w, Assignment(prm, n, w))
    ensures At(Assignment(prm, n, w), BFieldAt(n)) == Pack(w.b)
  {
  }

  /** The assignment of a witness is laid out section by section. */
  lemma AssignmentLays(prm: Primitives, n: u64, w: Secret)
    requires prm.p > 0 && Shaped(n, w)
    ensures Lays(prm, n, w, Assignment(prm, n, w))
  {
    hide ValueAt, Width;
    AssignmentLaysHead(prm, n, w);
    AssignmentLaysPairs(prm, n, w);
    AssignmentLaysBits(prm, n, w);
    AssignmentLaysTail(prm, n, w);
  }

  lemma LaidPair(prm: Primitives, n: u64, w: Secret, z: seq<int>, v: Var)
    requires prm.p > 0 && Shaped(n, w) && LaysKeys(n, w, z) && LaysSigs(n, w, z)
    requires v < KeysHashAt(n) || SigsAt(n) <= v < VerdictAt(n, 0)
    ensures At(z, v) == ValueAt(prm, n, w, v)
  {
    hide ValueAt;
    var i := if v < KeysHashAt(n) then v / 2 else (v - SigsAt(n)) / 2;
    var pk, sig := w.pks[i], w.sigs[i];
    assert v == KeyX(i) || v == KeyY(i) || v == SigE(n, i) || v == SigS(n, i);
    ValueAtKey(prm, n, w, i);
    ValueAtSig(prm, n, w, i);
  }

  lemma LaidFeeBit(prm: Primitives, n: u64, w: Secret, z: seq<int>, v: Var)
    requires prm.p > 0 && Shaped(n, w) && LaysFees(n, w, z) && BtrFeeAt(n) <= v < FeesAt(n)
    ensures At(z, v) == ValueAt(prm, n, w, v)
  {
    hide ValueAt, Width, LittleEndianBits;
    if v < FtMinAt(n) {
      ValueAtBits(prm, n, w, v - BtrFeeAt(n));
      var bit := LittleEndianBits(w.btrFee, 64)[v - BtrFeeAt(n)];
    } else {
      ValueAtBits(prm, n, w, v - FtMinAt(n));
      var bit := LittleEndianBits(w.ftMin, 64)[v - FtMinAt(n)];
    }
  }

  lemma LaidDifferenceBit(prm: Primitives, n: u64, w: Secret, z: seq<int>, i: nat)
    requires prm.p > 0 && Shaped(n, w) && LaysDifference(n, w, z) && i < Width(n)
    ensures At(z, BAt(n, i)) == ValueAt(prm, n, w, BAt(n, i))
  {
    hide ValueAt, Width;
    ValueAtBits(prm, n, w, i);
    var bit := w.b[i];
  }

  lemma LaidVerdict(prm: Primitives, n: u64, w: Secret, z: seq<int>, v: Var)
    requires prm.p > 0 && Shaped(n, w) && LaysVerdicts(prm, n, w, z)
    requires VerdictAt(n, 0) <= v < SysDataAt(n)
    ensures At(z, v) == ValueAt(prm, n, w, v)
  {
    hide ValueAt;
    assert v == VerdictAt(n, v - VerdictAt(n, 0));
    ValueAtVerdict(prm, n, w, v - VerdictAt(n, 0));
  }

  /** One variable of the layout, by the section it belongs to. */
  lemma LaidValue(prm: Primitives, n: u64, w: Secret, z: seq<int>, v: Var)
    requires prm.p > 0 && Shaped(n, w) && Lays(prm, n, w, z) && v < NumVars(n)
    ensures At(z, v) == ValueAt(prm, n, w, v)
  {
    hide LogMaxPks, LittleEndianBits, CountValid;
    if v < KeysHashAt(n) || SigsAt(n) <= v < VerdictAt(n, 0) {
      LaidPair(prm, n, w, z, v);
    } else if BtrFeeAt(n) <= v < FeesAt(n) {
      LaidFeeBit(prm, n, w, z, v);
    } else if BAt(n, 0) <= v < BFieldAt(n) {
      LaidDifferenceBit(prm, n, w, z, v - BAt(n, 0));
    } else if VerdictAt(n, 0) <= v < SysDataAt(n) {
      LaidVerdict(prm, n, w, z, v);
    }
  }

  /** The sections cover every variable: the layout pins the whole assignment. */
  lemma LaysIsAssignment(prm: Primitives, n: u64, w: Secret, z: seq<int>)
    requires prm.p > 0 && Shaped(n, w) && Lays(prm, n, w, z)
    ensures z == Assignment(prm, n, w)
  {
    hide ValueAt, LogMaxPks;
    forall v | 0 <= v < NumVars(n)
      ensures z[v] == Assignment(prm, n, w)[v]
    {
      LaidValue(prm, n, w, z, v);
    }
  }

  // ----- the constraints -----

  function Range(base: Var, k: nat): (r: seq<Var>)
    ensures |r| == k
  {
    seq(k, i requires 0 <= i < k => base + i)
  }

  function KeyXLcs(n: u64): (r: seq<Lc>)
    ensures |r| == n
  {
    seq(n, i requires 0 <= i < n => LcVar(KeyX(i)))
  }

  function KeyConstraints(n: u64): seq<Constraint> {
    [HashIs(KeyXLcs(n), KeysHashAt(n)),
     HashIs([LcVar(KeysHashAt(n)), LcVar(ThresholdAt(n))], KeysThresholdHashAt(n))]
  }

  /** `btr_fee` then `ft_min_amount`, each most significant bit first. */
  function FeeVars(n: u64): seq<Var> {
    Reverse(Range(BtrFeeAt(n), 64)) + Reverse(Range(FtMinAt(n), 64))
  }

  function DataLcs(n: u64): seq<Lc> {
    [LcVar(ScIdAt(n)), LcVar(EpochAt(n)), LcVar(MrBtAt(n)), LcVar(RootAt(n)), LcVar(FeesAt(n))]
  }

  function MessageConstraints(n: u64): seq<Constraint> {
    [PackConstraint(FeeVars(n), FeesAt(n)), HashIs(DataLcs(n), MessageAt(n))]
  }

  function FeeConstraints(n: u64): seq<Constraint> {
    BooleanConstraints(BtrFeeAt(n), 64) + BooleanConstraints(FtMinAt(n), 64) + MessageConstraints(n)
  }

  function VerdictConstraintAt(n: u64, i: nat): Constraint {
    VerdictIs(LcVar(KeyX(i)), LcVar(KeyY(i)), LcVar(SigE(n, i)), LcVar(SigS(n, i)), LcVar(MessageAt(n)),
              VerdictAt(n, i))
  }

  function VerdictConstraints(n: u64, k: nat): (r: seq<Constraint>)
    ensures |r| == k
  {
    seq(k, i requires 0 <= i < k => VerdictConstraintAt(n, i))
  }

  /** The sum of the first `k` verdicts. */
  function CountTerms(n: u64, k: nat): (r: seq<Term>)
    ensures |r| == k
  {
    seq(k, i requires 0 <= i < k => Term(1, VerdictAt(n, i)))
  }

  function CountLc(n: u64, k: nat): Lc {
    Lc(0, CountTerms(n, k))
  }

  function SysDataLcs(n: u64): seq<Lc> {
    [LcVar(ScIdAt(n)), LcVar(EpochAt(n)), LcVar(MrBtAt(n)), CountLc(n, n), LcVar(RootAt(n)), LcVar(FeesAt(n))]
  }

  function CertHashConstraints(n: u64): seq<Constraint> {
    [HashIs(SysDataLcs(n), SysDataAt(n)),
     HashIs([LcVar(SysDataAt(n))], CertDataAt(n))]
  }

  /** Each public input equals the digest computed in the circuit. */
  function InputConstraints(n: u64): seq<Constraint> {
    [EqualConstraint(LcVar(KeysThresholdHashAt(n)), LcVar(KeysInputAt(n))),
     EqualConstraint(LcVar(CertDataAt(n)), LcVar(CertInputAt(n)))]
  }

  function CertConstraints(n: u64): seq<Constraint> {
    CertHashConstraints(n) + InputConstraints(n)
  }

  /** `valid_signatures - threshold` equals the packed `b`'s. */
  function DifferenceConstraint(n: u64): Constraint {
    EqualConstraint(LcSub(CountLc(n, n), LcVar(ThresholdAt(n))), LcVar(BFieldAt(n)))
  }

  function CheckConstraints(n: u64): seq<Constraint> {
    [PackConstraint(Range(BAt(n, 0), Width(n)), BFieldAt(n)), DifferenceConstraint(n)]
  }

  function ThresholdConstraints(n: u64): seq<Constraint> {
    BooleanConstraints(BAt(n, 0), Width(n)) + CheckConstraints(n)
  }

  function Constraints(n: u64): seq<Constraint> {
    KeyConstraints(n) + FeeConstraints(n) + VerdictConstraints(n, n) + CertConstraints(n)
    + ThresholdConstraints(n)
  }

  // ----- the synthesizer -----

  /** What is allocated so far is a prefix of the layout and, when proving, of the values `z`. */
  ghost predicate Follows(cs: ConstraintSystem, n: u64, z: seq<int>)
    reads cs
  {
    && cs.Valid()
    && |z| == NumVars(n)
    && |cs.kinds| <= NumVars(n)
    && cs.kinds == Kinds(n)[..|cs.kinds|]
    && (cs.proving ==> cs.assignment == z[..|cs.kinds|])
  }

  /** The gadget that wraps one variable. */
  function GadgetAt(proving: bool, z: seq<int>, v: Var): FpGadget {
    FpGadget(LcVar(v), if proving then Some(At(z, v)) else None)
  }

  /** The key gadgets wrap the coordinate variables, in order. */
  ghost predicate KeysPlaced(proving: bool, n: u64, z: seq<int>, pksG: seq<PkGadget>) {
    && |pksG| == n
    && forall j :: 0 <= j < n ==> pksG[j] == PkGadget(GadgetAt(proving, z, KeyX(j)), GadgetAt(proving, z, KeyY(j)))
  }

  ghost predicate SigsPlaced(proving: bool, n: u64, z: seq<int>, sigsG: seq<SigGadget>) {
    && |sigsG| == n
    && forall j :: 0 <= j < n ==> sigsG[j] == SigGadget(GadgetAt(proving, z, SigE(n, j)), GadgetAt(proving, z, SigS(n, j)))
  }

  /** Allocates the next variable of the layout for a witness that may be missing. */
  method Place(cs: ConstraintSystem, value: Option<int>, ghost n: u64, ghost z: seq<int>) returns (r: Result<FpGadget>)
    requires Follows(cs, n, z) && |cs.kinds| < KeysInputAt(n)
    requires value.Some? ==> value.value == At(z, |cs.kinds|)
    modifies cs
    ensures if cs.proving && value.None? then r == Err(AssignmentMissing) else r.Ok?
    ensures r.Ok? ==> Follows(cs, n, z) && |cs.kinds| == old(|cs.kinds|) + 1
    ensures cs.constraints == old(cs.constraints)
    ensures r.Ok? ==> r.value == GadgetAt(cs.proving, z, old(|cs.kinds|))
  {
    r := cs.AllocField(Witness, value);
  }

  method PlacePair(cs: ConstraintSystem, a: Option<int>, b: Option<int>, ghost n: u64, ghost z: seq<int>)
    returns (r: Result<(FpGadget, FpGadget)>)
    requires Follows(cs, n, z) && |cs.kinds| + 1 < KeysInputAt(n)
    requires a.Some? ==> a.value == At(z, |cs.kinds|)
    requires b.Some? ==> b.value == At(z, |cs.kinds| + 1)
    modifies cs
    ensures if cs.proving && (a.None? || b.None?) then r == Err(AssignmentMissing) else r.Ok?
    ensures r.Ok? ==> Follows(cs, n, z) && |cs.kinds| == old(|cs.kinds|) + 2
    ensures cs.constraints == old(cs.constraints)
    ensures r.Ok? ==> r.value == (GadgetAt(cs.proving, z, old(|cs.kinds|)), GadgetAt(cs.proving, z, old(|cs.kinds|) + 1))
  {
    r := cs.AllocPair(a, b);
  }

  method PlaceHash(cs: ConstraintSystem, inputs: seq<FpGadget>, ghost n: u64, ghost z: seq<int>) returns (g: FpGadget)
    requires Follows(cs, n, z) && |cs.kinds| < KeysInputAt(n)
    requires cs.proving ==> AllKnown(inputs) && cs.prm.H(GadgetValues(inputs)) == At(z, |cs.kinds|)
    modifies cs
    ensures Follows(cs, n, z) && |cs.kinds| == old(|cs.kinds|) + 1
    ensures cs.constraints == old(cs.constraints) + [HashIs(GadgetLcs(inputs), old(|cs.kinds|))]
    ensures g == GadgetAt(cs.proving, z, old(|cs.kinds|))
  {
    g := cs.EnforceHash(inputs);
  }

  method PlacePack(cs: ConstraintSystem, bits: seq<BooleanGadget>, ghost n: u64, ghost z: seq<int>) returns (g: FpGadget)
    requires Follows(cs, n, z) && |cs.kinds| < NumVars(n) && KindAt(n, |cs.kinds|) == Witness
    requires cs.proving ==> AllBitsKnown(bits) && Pack(BitValues(bits)) % cs.prm.p == At(z, |cs.kinds|)
    modifies cs
    ensures Follows(cs, n, z) && |cs.kinds| == old(|cs.kinds|) + 1
    ensures cs.constraints == old(cs.constraints) + [PackConstraint(BitVars(bits), old(|cs.kinds|))]
    ensures g == GadgetAt(cs.proving, z, old(|cs.kinds|))
  {
    g := cs.FromBits(bits);
  }

  method PlaceVerdict(cs: ConstraintSystem, pk: PkGadget, sig: SigGadget, msg: FpGadget, ghost n: u64, ghost z: seq<int>)
    returns (g: BooleanGadget)
    requires Follows(cs, n, z) && |cs.kinds| < KeysInputAt(n)
    requires cs.proving ==> AllKnown([pk.x, pk.y, sig.e, sig.s, msg])
    requires cs.proving ==> BitValue(Verdict(cs.prm, pk, sig, msg)) == At(z, |cs.kinds|)
    modifies cs
    ensures Follows(cs, n, z) && |cs.kinds| == old(|cs.kinds|) + 1
    ensures cs.constraints == old(cs.constraints) + [VerdictConstraint(pk, sig, msg, old(|cs.kinds|))]
    ensures g == BooleanGadget(old(|cs.kinds|), cs.Known(Verdict(cs.prm, pk, sig, msg)))
  {
    g := cs.EnforceVerdict(pk, sig, msg);
  }

  /** A public input equal to a gadget computed before it. */
  method PlaceInput(cs: ConstraintSystem, g: FpGadget, ghost n: u64, ghost z: seq<int>)
    requires Follows(cs, n, z) && |cs.kinds| < NumVars(n) && KindAt(n, |cs.kinds|) == Public
    requires cs.proving ==> g.value == Some(At(z, |cs.kinds|))
    modifies cs
    ensures Follows(cs, n, z) && |cs.kinds| == old(|cs.kinds|) + 1
    ensures cs.constraints == old(cs.constraints) + [EqualConstraint(g.lc, LcVar(old(|cs.kinds|)))]
  {
    var expected := cs.AllocDerived(Public, g.value.GetOr(0));
    cs.Enforce(EqualConstraint(g.lc, LcVar(expected)));
  }

  /** Allocates the public keys, without any check. */
  method AllocKeys(cs: ConstraintSystem, inst: Instance, ghost z: seq<int>) returns (r: Result<seq<PkGadget>>)
    requires Consistent(inst) && Follows(cs, inst.maxPks, z) && cs.kinds == []
    requires LaysKeys(inst.maxPks, Fill(inst), z)
    modifies cs
    ensures if cs.proving && !AllSome(inst.pks) then r == Err(AssignmentMissing) else r.Ok?
    ensures r.Ok? ==> Follows(cs, inst.maxPks, z) && |cs.kinds| == KeysHashAt(inst.maxPks)
    ensures r.Ok? ==> cs.constraints == old(cs.constraints)
    ensures r.Ok? ==> KeysPlaced(cs.proving, inst.maxPks, z, r.value)
  {
    ghost var n, w := inst.maxPks, Fill(inst);
    var pksG := [];
    for i := 0 to |inst.pks|
      invariant Follows(cs, n, z) && |cs.kinds| == KeyX(i)
      invariant cs.constraints == old(cs.constraints)
      invariant cs.proving ==> forall j :: 0 <= j < i ==> inst.pks[j].Some?
      invariant |pksG| == i
      invariant forall j :: 0 <= j < i ==>
                  pksG[j] == PkGadget(GadgetAt(cs.proving, z, KeyX(j)), GadgetAt(cs.proving, z, KeyY(j)))
    {
      var pk := inst.pks[i];
      assert w.pks[i] == pk.GetOr(Pk(0, 0));
      var xy :- PlacePair(cs, if pk.Some? then Some(pk.value.x) else None,
                          if pk.Some? then Some(pk.value.y) else None, n, z);
      pksG := pksG + [PkGadget(xy.0, xy.1)];
    }
    r := Ok(pksG);
  }

  /** Hashes the keys' x-coordinates, then the result with the threshold witness. */
  method EnforceCommitment(cs: ConstraintSystem, inst: Instance, pksG: seq<PkGadget>, ghost z: seq<int>)
    returns (r: Result<(FpGadget, FpGadget)>)
    requires Consistent(inst) && Follows(cs, inst.maxPks, z) && |cs.kinds| == KeysHashAt(inst.maxPks)
    requires LaysKeys(inst.maxPks, Fill(inst), z) && LaysCommitment(cs.prm, inst.maxPks, Fill(inst), z)
    requires KeysPlaced(cs.proving, inst.maxPks, z, pksG)
    modifies cs
    ensures if cs.proving && inst.threshold.None? then r == Err(AssignmentMissing) else r.Ok?
    ensures r.Ok? ==> Follows(cs, inst.maxPks, z) && |cs.kinds| == ScIdAt(inst.maxPks)
    ensures r.Ok? ==> cs.constraints == old(cs.constraints) + KeyConstraints(inst.maxPks)
    ensures r.Ok? ==> r.value == (GadgetAt(cs.proving, z, ThresholdAt(inst.maxPks)),
                                  GadgetAt(cs.proving, z, KeysThresholdHashAt(inst.maxPks)))
  {
    hide LittleEndianBits, CountValid, LogMaxPks, Pow2;
    ghost var n, w := inst.maxPks, Fill(inst);
    var xsG := seq(|pksG|, i requires 0 <= i < |pksG| => pksG[i].x);
    assert GadgetLcs(xsG) == KeyXLcs(n);
    if cs.proving {
      forall i | 0 <= i < n
        ensures GadgetValues(xsG)[i] == Xs(w.pks)[i]
      {
        var pk := w.pks[i];
      }
      assert GadgetValues(xsG) == Xs(w.pks);
    }
    var hashG := PlaceHash(cs, xsG, n, z);
    var tG :- Place(cs, inst.threshold, n, z);
    assert cs.proving ==> GadgetValues([hashG, tG]) == [KeysHash(cs.prm, Xs(w.pks)), w.t];
    assert GadgetLcs([hashG, tG]) == [LcVar(KeysHashAt(n)), LcVar(ThresholdAt(n))];
    hashG := PlaceHash(cs, [hashG, tG], n, z);
    r := Ok((tG, hashG));
  }

  /** One `UInt64::alloc` at variable `base` of the layout. */
  method AllocWord(cs: ConstraintSystem, value: Option<u64>, ghost n: u64, ghost base: Var, ghost z: seq<int>)
    returns (r: Result<seq<BooleanGadget>>)
    requires Follows(cs, n, z) && |cs.kinds| == base && base + 64 <= SigsAt(n)
    requires LaysBits(base, LittleEndianBits(value.GetOr(0), 64), z)
    modifies cs
    ensures if cs.proving && value.None? then r == Err(AssignmentMissing) else r.Ok?
    ensures r.Ok? ==> Follows(cs, n, z) && |cs.kinds| == base + 64
    ensures r.Ok? ==> cs.constraints == old(cs.constraints) + BooleanConstraints(base, 64)
    ensures r.Ok? ==> r.value == BooleanGadgets(base, cs.proving, LittleEndianBits(value.GetOr(0), 64))
  {
    BitsFollow(n, base, LittleEndianBits(value.GetOr(0), 64), z);
    r := cs.AllocUInt64(value);
  }

  /** Big-endian: the bits of `btr_fee` reversed, then those of `ft_min_amount` reversed. */
  function FeesBits(btrFeeG: seq<BooleanGadget>, ftMinG: seq<BooleanGadget>): seq<BooleanGadget> {
    Reverse(btrFeeG) + Reverse(ftMinG)
  }

  lemma FeesBitsMeaning(n: u64, proving: bool, btrFee: u64, ftMin: u64)
    ensures var bits := FeesBits(BooleanGadgets(BtrFeeAt(n), proving, LittleEndianBits(btrFee, 64)),
                                 BooleanGadgets(FtMinAt(n), proving, LittleEndianBits(ftMin, 64)));
            && BitVars(bits) == FeeVars(n)
            && (proving ==> AllBitsKnown(bits) && Pack(BitValues(bits)) == PackedFees(btrFee, ftMin))
  {
    var btrBits, ftBits := LittleEndianBits(btrFee, 64), LittleEndianBits(ftMin, 64);
    var bits := FeesBits(BooleanGadgets(BtrFeeAt(n), proving, btrBits),
                         BooleanGadgets(FtMinAt(n), proving, ftBits));
    assert BitVars(bits) == FeeVars(n);
    if proving {
      assert BitValues(bits) == Reverse(btrBits) + Reverse(ftBits);
      FeesPackExactly(btrFee, ftMin);
    }
  }

  /** Allocates the fees as bits and packs `btr_fee` above `ft_min_amount` into one field element. */
  method PackFees(cs: ConstraintSystem, inst: Instance, ghost z: seq<int>) returns (r: Result<FpGadget>)
    requires Consistent(inst) && Follows(cs, inst.maxPks, z) && cs.prm.Valid()
    requires |cs.kinds| == BtrFeeAt(inst.maxPks) && LaysFees(inst.maxPks, Fill(inst), z)
    modifies cs
    ensures if cs.proving && (inst.btrFee.None? || inst.ftMin.None?) then r == Err(AssignmentMissing) else r.Ok?
    ensures r.Ok? ==> Follows(cs, inst.maxPks, z) && |cs.kinds| == MessageAt(inst.maxPks)
    ensures r.Ok? ==> cs.constraints == old(cs.constraints)
                      + BooleanConstraints(BtrFeeAt(inst.maxPks), 64)
                      + BooleanConstraints(FtMinAt(inst.maxPks), 64)
                      + [PackConstraint(FeeVars(inst.maxPks), FeesAt(inst.maxPks))]
    ensures r.Ok? ==> r.value == GadgetAt(cs.proving, z, FeesAt(inst.maxPks))
  {
    hide LittleEndianBits, CountValid, LogMaxPks, Pow2;
    ghost var n, w := inst.maxPks, Fill(inst);
    var btrFeeG :- AllocWord(cs, inst.btrFee, n, BtrFeeAt(n), z);
    var ftMinG :- AllocWord(cs, inst.ftMin, n, FtMinAt(n), z);
    FeesBitsMeaning(n, cs.proving, w.btrFee, w.ftMin);
    PackedFeesInField(cs.prm, w.btrFee, w.ftMin);
    var feesG := PlacePack(cs, FeesBits(btrFeeG, ftMinG), n, z);
    r := Ok(feesG);
  }

  /** Allocates the field elements of the certificate data. */
  method AllocData(cs: ConstraintSystem, inst: Instance, ghost z: seq<int>) returns (r: Result<seq<FpGadget>>)
    requires Consistent(inst) && Follows(cs, inst.maxPks, z) && |cs.kinds| == ScIdAt(inst.maxPks)
    requires LaysData(inst.maxPks, Fill(inst), z)
    modifies cs
    ensures if cs.proving && !(inst.scId.Some? && inst.epoch.Some? && inst.mrBt.Some? && inst.root.Some?)
            then r == Err(AssignmentMissing) else r.Ok?
    ensures r.Ok? ==> Follows(cs, inst.maxPks, z) && |cs.kinds| == BtrFeeAt(inst.maxPks)
    ensures cs.constraints == old(cs.constraints)
    ensures r.Ok? ==> r.value == DataGadgets(cs.proving, inst.maxPks, z)[..4]
  {
    ghost var n := inst.maxPks;
    var scIdG :- Place(cs, inst.scId, n, z);
    var epochG :- Place(cs, inst.epoch, n, z);
    var mrBtG :- Place(cs, inst.mrBt, n, z);
    var rootG :- Place(cs, inst.root, n, z);
    r := Ok([scIdG, epochG, mrBtG, rootG]);
  }

  /** Allocates the certificate data and the fees, and hashes them into the signed message. */
  method EnforceMessage(cs: ConstraintSystem, inst: Instance, ghost z: seq<int>)
    returns (r: Result<(seq<FpGadget>, FpGadget)>)
    requires Consistent(inst) && Follows(cs, inst.maxPks, z) && cs.prm.Valid()
    requires |cs.kinds| == ScIdAt(inst.maxPks)
    requires LaysData(inst.maxPks, Fill(inst), z) && LaysFees(inst.maxPks, Fill(inst), z)
    requires LaysMessage(cs.prm, inst.maxPks, Fill(inst), z)
    modifies cs
    ensures if cs.proving && !DataKnown(inst) then r == Err(AssignmentMissing) else r.Ok?
    ensures r.Ok? ==> Follows(cs, inst.maxPks, z) && |cs.kinds| == SigsAt(inst.maxPks)
    ensures r.Ok? ==> cs.constraints == old(cs.constraints) + FeeConstraints(inst.maxPks)
    ensures r.Ok? ==> r.value == (DataGadgets(cs.proving, inst.maxPks, z),
                                  GadgetAt(cs.proving, z, MessageAt(inst.maxPks)))
  {
    hide LittleEndianBits, CountValid, LogMaxPks, Pow2;
    ghost var n, w := inst.maxPks, Fill(inst);
    var head :- AllocData(cs, inst, z);
    var feesG :- PackFees(cs, inst, z);
    var data := head + [feesG];
    assert data == DataGadgets(cs.proving, n, z);
    assert cs.proving ==> GadgetValues(data) == [w.scId, w.epoch, w.mrBt, w.root, PackedFees(w.btrFee, w.ftMin)];
    assert GadgetLcs(data) == DataLcs(n);
    var messageG := PlaceHash(cs, data, n, z);
    r := Ok((data, messageG));
  }

  function DataGadgets(proving: bool, n: u64, z: seq<int>): (gs: seq<FpGadget>)
    ensures |gs| == 5
  {
    [GadgetAt(proving, z, ScIdAt(n)), GadgetAt(proving, z, EpochAt(n)), GadgetAt(proving, z, MrBtAt(n)),
     GadgetAt(proving, z, RootAt(n)), GadgetAt(proving, z, FeesAt(n))]
  }

  /** Allocates the signatures as witnesses. */
  method AllocSigs(cs: ConstraintSystem, inst: Instance, ghost z: seq<int>) returns (r: Result<seq<SigGadget>>)
    requires Consistent(inst) && Follows(cs, inst.maxPks, z) && |cs.kinds| == SigsAt(inst.maxPks)
    requires LaysSigs(inst.maxPks, Fill(inst), z)
    modifies cs
    ensures if cs.proving && !AllSome(inst.sigs) then r == Err(AssignmentMissing) else r.Ok?
    ensures r.Ok? ==> Follows(cs, inst.maxPks, z) && |cs.kinds| == VerdictAt(inst.maxPks, 0)
    ensures r.Ok? ==> cs.constraints == old(cs.constraints)
    ensures r.Ok? ==> SigsPlaced(cs.proving, inst.maxPks, z, r.value)
  {
    ghost var n, w := inst.maxPks, Fill(inst);
    var sigsG := [];
    for i := 0 to |inst.sigs|
      invariant Follows(cs, n, z) && |cs.kinds| == SigE(n, i)
      invariant cs.constraints == old(cs.constraints)
      invariant cs.proving ==> forall j :: 0 <= j < i ==> inst.sigs[j].Some?
      invariant |sigsG| == i
      invariant forall j :: 0 <= j < i ==>
                  sigsG[j] == SigGadget(GadgetAt(cs.proving, z, SigE(n, j)), GadgetAt(cs.proving, z, SigS(n, j)))
    {
      var sig := inst.sigs[i];
      assert w.sigs[i] == sig.GetOr(Sig(0, 0));
      var es :- PlacePair(cs, if sig.Some? then Some(sig.value.e) else None,
                          if sig.Some? then Some(sig.value.s) else None, n, z);
      sigsG := sigsG + [SigGadget(es.0, es.1)];
    }
    r := Ok(sigsG);
  }

  /** The Boolean gadget of the verdict on position `i`. */
  function VerdictGadgetAt(prm: Primitives, proving: bool, n: u64, w: Secret, i: nat): BooleanGadget
    requires prm.p > 0 && Shaped(n, w) && i < n
  {
    BooleanGadget(VerdictAt(n, i),
                  if proving then Some(prm.Verifies(Message(prm, w), w.pks[i], w.sigs[i])) else None)
  }

  /** The verdict computed from the placed gadgets is the one that the layout holds. */
  lemma VerdictPlaced(prm: Primitives, n: u64, w: Secret, z: seq<int>, i: nat, pk: PkGadget, sig: SigGadget, msg: FpGadget)
    requires prm.p > 0 && Shaped(n, w) && i < n
    requires LaysKeys(n, w, z) && LaysMessage(prm, n, w, z) && LaysSigs(n, w, z) && LaysVerdicts(prm, n, w, z)
    requires pk == PkGadget(GadgetAt(true, z, KeyX(i)), GadgetAt(true, z, KeyY(i)))
    requires sig == SigGadget(GadgetAt(true, z, SigE(n, i)), GadgetAt(true, z, SigS(n, i)))
    requires msg == GadgetAt(true, z, MessageAt(n))
    ensures Verdict(prm, pk, sig, msg) == prm.Verifies(Message(prm, w), w.pks[i], w.sigs[i])
    ensures BitValue(Verdict(prm, pk, sig, msg)) == At(z, VerdictAt(n, i))
  {
  }

  /** Checks every signature against its key on the message. */
  method EnforceVerdicts(cs: ConstraintSystem, ghost n: u64, ghost w: Secret, pksG: seq<PkGadget>,
                         sigsG: seq<SigGadget>, messageG: FpGadget, ghost z: seq<int>)
    returns (verdicts: seq<BooleanGadget>)
    requires Shaped(n, w) && Follows(cs, n, z) && |cs.kinds| == VerdictAt(n, 0)
    requires LaysKeys(n, w, z) && LaysMessage(cs.prm, n, w, z) && LaysSigs(n, w, z) && LaysVerdicts(cs.prm, n, w, z)
    requires KeysPlaced(cs.proving, n, z, pksG) && SigsPlaced(cs.proving, n, z, sigsG)
    requires messageG == GadgetAt(cs.proving, z, MessageAt(n))
    modifies cs
    ensures Follows(cs, n, z) && |cs.kinds| == SysDataAt(n)
    ensures cs.constraints == old(cs.constraints) + VerdictConstraints(n, n)
    ensures |verdicts| == n
    ensures forall j :: 0 <= j < n ==> verdicts[j] == VerdictGadgetAt(cs.prm, cs.proving, n, w, j)
  {
    hide Width;
    verdicts := [];
    for i := 0 to |pksG|
      invariant Follows(cs, n, z) && |cs.kinds| == VerdictAt(n, i)
      invariant cs.constraints == old(cs.constraints) + VerdictConstraints(n, i)
      invariant |verdicts| == i
      invariant forall j :: 0 <= j < i ==> verdicts[j] == VerdictGadgetAt(cs.prm, cs.proving, n, w, j)
    {
      if cs.proving {
        VerdictPlaced(cs.prm, n, w, z, i, pksG[i], sigsG[i], messageG);
      }
      assert VerdictConstraint(pksG[i], sigsG[i], messageG, VerdictAt(n, i)) == VerdictConstraintAt(n, i);
      assert VerdictConstraints(n, i + 1) == VerdictConstraints(n, i) + [VerdictConstraintAt(n, i)];
      var v := PlaceVerdict(cs, pksG[i], sigsG[i], messageG, n, z);
      verdicts := verdicts + [v];
    }
  }

  /** Adds the verdicts up: the field count never wraps, as there are fewer keys than field elements. */
  method CountVerdicts(prm: Primitives, proving: bool, ghost n: u64, ghost w: Secret, verdicts: seq<BooleanGadget>)
    returns (g: FpGadget)
    requires prm.Valid() && Shaped(n, w) && |verdicts| == n
    requires forall j :: 0 <= j < n ==> verdicts[j] == VerdictGadgetAt(prm, proving, n, w, j)
    ensures g == FpGadget(CountLc(n, n), if proving then Some(Valid(prm, w)) else None)
  {
    g := FpGadget(LcConst(0), if proving then Some(0) else None);
    ghost var msg := Message(prm, w);
    for i := 0 to |verdicts|
      invariant g.lc == CountLc(n, i)
      invariant g.value == if proving then Some(CountValid(prm, msg, w.pks, w.sigs, i)) else None
    {
      assert CountTerms(n, i + 1) == CountTerms(n, i) + [Term(1, VerdictAt(n, i))];
      assert CountValid(prm, msg, w.pks, w.sigs, i + 1) < prm.p;
      MultipleDivides(prm.p, 0);
      ResidueUnique(prm.p, CountValid(prm, msg, w.pks, w.sigs, i + 1), CountValid(prm, msg, w.pks, w.sigs, i + 1));
      g := AddBit(prm.p, g, verdicts[i]);
    }
  }

  /** Hashes the certificate data with the count and exposes both digests as public inputs. */
  method EnforceCert(cs: ConstraintSystem, ghost n: u64, ghost w: Secret, data: seq<FpGadget>, validG: FpGadget,
                     keysThresholdHashG: FpGadget, ghost z: seq<int>)
    requires Shaped(n, w) && Follows(cs, n, z) && |cs.kinds| == SysDataAt(n)
    requires LaysCommitment(cs.prm, n, w, z) && LaysData(n, w, z) && LaysFees(n, w, z)
    requires LaysCert(cs.prm, n, w, z) && LaysInputs(cs.prm, n, w, z)
    requires data == DataGadgets(cs.proving, n, z)
    requires validG == FpGadget(CountLc(n, n), if cs.proving then Some(Valid(cs.prm, w)) else None)
    requires keysThresholdHashG == GadgetAt(cs.proving, z, KeysThresholdHashAt(n))
    modifies cs
    ensures Follows(cs, n, z) && |cs.kinds| == BAt(n, 0)
    ensures cs.constraints == old(cs.constraints) + CertConstraints(n)
  {
    hide LittleEndianBits, CountValid, LogMaxPks, Pow2;
    var sysData := [data[0], data[1], data[2], validG, data[3], data[4]];
    assert GadgetLcs(sysData) == SysDataLcs(n);
    assert cs.proving ==>
             GadgetValues(sysData) == [w.scId, w.epoch, w.mrBt, Valid(cs.prm, w), w.root, PackedFees(w.btrFee, w.ftMin)];
    var sysDataHashG := PlaceHash(cs, sysData, n, z);
    assert GadgetLcs([sysDataHashG]) == [LcVar(SysDataAt(n))];
    assert cs.proving ==> GadgetValues([sysDataHashG]) == [At(z, SysDataAt(n))];
    var certDataHashG := PlaceHash(cs, [sysDataHashG], n, z);
    PlaceInput(cs, keysThresholdHashG, n, z);
    PlaceInput(cs, certDataHashG, n, z);
  }

  /** Allocates the `b`'s, packs them and requires them to equal `valid_signatures - threshold`. */
  method EnforceThreshold(cs: ConstraintSystem, inst: Instance, validG: FpGadget, tG: FpGadget, ghost z: seq<int>)
    returns (r: Result<()>)
    requires Consistent(inst) && Follows(cs, inst.maxPks, z) && |cs.kinds| == BAt(inst.maxPks, 0)
    requires cs.prm.Valid() && LaysDifference(inst.maxPks, Fill(inst), z)
    requires validG.lc == CountLc(inst.maxPks, inst.maxPks) && tG.lc == LcVar(ThresholdAt(inst.maxPks))
    modifies cs
    ensures if cs.proving && !AllSome(inst.b) then r == Err(AssignmentMissing) else r.Ok?
    ensures r.Ok? ==> Follows(cs, inst.maxPks, z) && |cs.kinds| == NumVars(inst.maxPks)
    ensures r.Ok? ==> cs.constraints == old(cs.constraints) + ThresholdConstraints(inst.maxPks)
  {
    hide LittleEndianBits, CountValid, LogMaxPks, Pow2;
    ghost var n, w := inst.maxPks, Fill(inst);
    BitsFollow(n, BAt(n, 0), w.b, z);
    var bsG :- cs.AllocBooleans(inst.b);
    assert BitVars(bsG) == Range(BAt(n, 0), Width(n));
    if cs.proving {
      assert BitValues(bsG) == w.b;
      PackedWidthInField(cs.prm, n, w.b);
    }
    var bField := PlacePack(cs, bsG, n, z);
    cs.Enforce(EqualConstraint(LcSub(validG.lc, tG.lc), bField.lc));
    r := Ok(());
  }

  lemma PackedWidthInField(prm: Primitives, n: u64, b: seq<bool>)
    requires prm.Valid() && |b| == Width(n)
    ensures prm.InField(Pack(b)) && Pack(b) % prm.p == Pack(b)
    ensures Pack(b) < Pow2(Width(n)) <= 2 * TWO64
  {
    ThresholdFromU64(prm.p, n, 0, 0);
    PackBound(b);
    MultipleDivides(prm.p, 0);
    ResidueUnique(prm.p, Pack(b), Pack(b));
  }

  /** The keys, their hash, and its hash with the threshold. */
  method SynthesizeKeys(cs: ConstraintSystem, inst: Instance, ghost z: seq<int>)
    returns (r: Result<(seq<PkGadget>, FpGadget, FpGadget)>)
    requires Consistent(inst) && Follows(cs, inst.maxPks, z) && cs.kinds == []
    requires LaysKeys(inst.maxPks, Fill(inst), z) && LaysCommitment(cs.prm, inst.maxPks, Fill(inst), z)
    modifies cs
    ensures if cs.proving && !KeysKnown(inst) then r == Err(AssignmentMissing) else r.Ok?
    ensures r.Ok? ==> Follows(cs, inst.maxPks, z) && |cs.kinds| == ScIdAt(inst.maxPks)
    ensures r.Ok? ==> cs.constraints == old(cs.constraints) + KeyConstraints(inst.maxPks)
    ensures r.Ok? ==> KeysPlaced(cs.proving, inst.maxPks, z, r.value.0)
    ensures r.Ok? ==> r.value.1 == GadgetAt(cs.proving, z, ThresholdAt(inst.maxPks))
    ensures r.Ok? ==> r.value.2 == GadgetAt(cs.proving, z, KeysThresholdHashAt(inst.maxPks))
  {
    var pksG :- AllocKeys(cs, inst, z);
    var commitment :- EnforceCommitment(cs, inst, pksG, z);
    r := Ok((pksG, commitment.0, commitment.1));
  }

  /** The message, the signatures, their verdicts and the number of valid ones. */
  method SynthesizeSignatures(cs: ConstraintSystem, inst: Instance, pksG: seq<PkGadget>, ghost z: seq<int>)
    returns (r: Result<(seq<FpGadget>, FpGadget)>)
    requires Consistent(inst) && cs.prm.Valid() && Follows(cs, inst.maxPks, z)
    requires |cs.kinds| == ScIdAt(inst.maxPks) && KeysPlaced(cs.proving, inst.maxPks, z, pksG)
    requires LaysKeys(inst.maxPks, Fill(inst), z)
    requires LaysData(inst.maxPks, Fill(inst), z) && LaysFees(inst.maxPks, Fill(inst), z)
    requires LaysMessage(cs.prm, inst.maxPks, Fill(inst), z)
    requires LaysSigs(inst.maxPks, Fill(inst), z) && LaysVerdicts(cs.prm, inst.maxPks, Fill(inst), z)
    modifies cs
    ensures if cs.proving && !(DataKnown(inst) && AllSome(inst.sigs)) then r == Err(AssignmentMissing) else r.Ok?
    ensures r.Ok? ==> Follows(cs, inst.maxPks, z) && |cs.kinds| == SysDataAt(inst.maxPks)
    ensures r.Ok? ==> cs.constraints
                      == old(cs.constraints) + FeeConstraints(inst.maxPks) + VerdictConstraints(inst.maxPks, inst.maxPks)
    ensures r.Ok? ==> r.value.0 == DataGadgets(cs.proving, inst.maxPks, z)
    ensures r.Ok? ==> r.value.1 == FpGadget(CountLc(inst.maxPks, inst.maxPks),
                                            if cs.proving then Some(Valid(cs.prm, Fill(inst))) else None)
  {
    var dataAndMessage :- EnforceMessage(cs, inst, z);
    var sigsG :- AllocSigs(cs, inst, z);
    var verdicts := EnforceVerdicts(cs, inst.maxPks, Fill(inst), pksG, sigsG, dataAndMessage.1, z);
    var validG := CountVerdicts(cs.prm, cs.proving, inst.maxPks, Fill(inst), verdicts);
    r := Ok((dataAndMessage.0, validG));
  }

  /** The two public inputs and the threshold check. */
  method SynthesizeChecks(cs: ConstraintSystem, inst: Instance, tG: FpGadget, keysThresholdHashG: FpGadget,
                          data: seq<FpGadget>, validG: FpGadget, ghost z: seq<int>)
    returns (r: Result<()>)
    requires Consistent(inst) && cs.prm.Valid() && Follows(cs, inst.maxPks, z) && |cs.kinds| == SysDataAt(inst.maxPks)
    requires LaysCommitment(cs.prm, inst.maxPks, Fill(inst), z) && LaysData(inst.maxPks, Fill(inst), z)
    requires LaysFees(inst.maxPks, Fill(inst), z) && LaysCert(cs.prm, inst.maxPks, Fill(inst), z)
    requires LaysInputs(cs.prm, inst.maxPks, Fill(inst), z) && LaysDifference(inst.maxPks, Fill(inst), z)
    requires tG == GadgetAt(cs.proving, z, ThresholdAt(inst.maxPks))
    requires keysThresholdHashG == GadgetAt(cs.proving, z, KeysThresholdHashAt(inst.maxPks))
    requires data == DataGadgets(cs.proving, inst.maxPks, z)
    requires validG == FpGadget(CountLc(inst.maxPks, inst.maxPks),
                                if cs.proving then Some(Valid(cs.prm, Fill(inst))) else None)
    modifies cs
    ensures if cs.proving && !AllSome(inst.b) then r == Err(AssignmentMissing) else r.Ok?
    ensures r.Ok? ==> Follows(cs, inst.maxPks, z) && |cs.kinds| == NumVars(inst.maxPks)
    ensures r.Ok? ==> cs.constraints
                      == old(cs.constraints) + CertConstraints(inst.maxPks) + ThresholdConstraints(inst.maxPks)
  {
    EnforceCert(cs, inst.maxPks, Fill(inst), data, validG, keysThresholdHashG, z);
    r := EnforceThreshold(cs, inst, validG, tG, z);
  }

  /**
   * `generate_constraints` on a fresh constraint system. It panics exactly when a length
   * assertion fails and misses an assignment exactly when it is asked to prove without a full
   * witness. Otherwise the variables and constraints depend on the key count alone, and the
   * assignment, if any, is the one that the witness determines.
   */
  method GenerateConstraints(cs: ConstraintSystem, inst: Instance) returns (r: Result<()>)
    requires cs.Valid() && cs.prm.Valid() && cs.kinds == [] && cs.constraints == []
    modifies cs
    ensures if !Consistent(inst) then r == Err(Panicked)
            else if cs.proving && !Complete(inst) then r == Err(AssignmentMissing)
            else r.Ok?
    ensures r.Ok? ==> cs.Valid() && cs.kinds == Kinds(inst.maxPks) && cs.constraints == Constraints(inst.maxPks)
    ensures r.Ok? && cs.proving ==> cs.assignment == Assignment(cs.prm, inst.maxPks, Fill(inst))
  {
    if !Consistent(inst) {
      return Err(Panicked);
    }
    ghost var z := Assignment(cs.prm, inst.maxPks, Fill(inst));
    AssignmentLays(cs.prm, inst.maxPks, Fill(inst));
    var keys :- SynthesizeKeys(cs, inst, z);
    EmptyPrefix(KeyConstraints(inst.maxPks));
    var sigs :- SynthesizeSignatures(cs, inst, keys.0, z);
    r := SynthesizeChecks(cs, inst, keys.1, keys.2, sigs.0, sigs.1, z);
    FullPrefix(Kinds(inst.maxPks));
    FullPrefix(z);
  }

  lemma EmptyPrefix<T>(s: seq<T>)
    ensures [] + s == s
  {
  }

  lemma FullPrefix<T>(s: seq<T>)
    ensures s[..|s|] == s
  {
  }

  /** A block of witness Booleans extends a prefix of the layout. */
  lemma BitsFollow(n: u64, base: Var, bits: seq<bool>, z: seq<int>)
    requires base + |bits| <= |z| == NumVars(n) && LaysBits(base, bits, z)
    requires base + |bits| <= KeysInputAt(n) || base > CertInputAt(n)
    ensures z[..base] + ToField(bits) == z[..base + |bits|]
    ensures Kinds(n)[..base] + seq(|bits|, _ => Witness) == Kinds(n)[..base + |bits|]
  {
    forall i | 0 <= i < |bits|
      ensures ToField(bits)[i] == z[base + i]
    {
      var bit := bits[i];
    }
  }

  /** Fee packing: no reduction happens, so the packed element determines both amounts. */
  lemma FeesPackExactly(btrFee: u64, ftMin: u64)
    ensures Pack(Reverse(LittleEndianBits(btrFee, 64)) + Reverse(LittleEndianBits(ftMin, 64)))
         == PackedFees(btrFee, ftMin)
  {
    ReverseLittleEndian(btrFee, 64);
    ReverseLittleEndian(ftMin, 64);
    Pow2Word(64);
    PackToBitsExact(btrFee, 64);
    PackToBitsExact(ftMin, 64);
    PackAppend(ToBits(btrFee, 64), ToBits(ftMin, 64));
  }

  lemma PackedFeesInField(prm: Primitives, btrFee: u64, ftMin: u64)
    requires prm.Valid()
    ensures prm.InField(PackedFees(btrFee, ftMin))
    ensures PackedFees(btrFee, ftMin) % prm.p == PackedFees(btrFee, ftMin)
  {
    var f := PackedFees(btrFee, ftMin);
    assert 0 <= f < 0x1_0000_0000_0000_0000_0000_0000_0000_0000;
    MultipleDivides(prm.p, 0);
    ResidueUnique(prm.p, f, f);
  }

  lemma PackedFeesInjective(btrFee: u64, ftMin: u64, btrFee': u64, ftMin': u64)
    requires PackedFees(btrFee, ftMin) == PackedFees(btrFee', ftMin')
    ensures btrFee == btrFee' && ftMin == ftMin'
  {
    assert 0x1_0000_0000_0000_0000 * (btrFee - btrFee') == ftMin' - ftMin;
  }
}

/**
 * The language of the circuit: which pairs of public inputs some assignment satisfies, and which
 * assignments a given witness yields.
 */
module CircuitLanguage {
  import opened NumberTheory
  import opened Bits
  import opened ThresholdEnforcer
  import opened R1cs
  import opened Circuit
  import opened CircuitSemantics
  import opened Wrappers

  /** Every field element of the witness is one. */
  ghost predicate InFieldSecret(prm: Primitives, w: Secret) {
    && (forall i :: 0 <= i < |w.pks| ==> prm.InField(w.pks[i].x) && prm.InField(w.pks[i].y))
    && (forall i :: 0 <= i < |w.sigs| ==> prm.InField(w.sigs[i].e) && prm.InField(w.sigs[i].s))
    && prm.InField(w.t) && prm.InField(w.scId) && prm.InField(w.epoch) && prm.InField(w.root)
    && prm.InField(w.mrBt)
  }

  lemma ValueInField(prm: Primitives, n: u64, w: Secret, v: Var)
    requires prm.Valid() && Shaped(n, w) && InFieldSecret(prm, w) && v < NumVars(n)
    ensures prm.InField(ValueAt(prm, n, w, v))
  {
    PackedFeesInField(prm, w.btrFee, w.ftMin);
    PackedWidthInField(prm, n, w.b);
  }

  lemma AssignmentInField(prm: Primitives, n: u64, w: Secret)
    requires prm.Valid() && Shaped(n, w) && InFieldSecret(prm, w)
    ensures IsAssignment(prm, n, Assignment(prm, n, w))
  {
    forall v | 0 <= v < NumVars(n)
      ensures prm.InField(Assignment(prm, n, w)[v])
    {
      ValueInField(prm, n, w, v);
    }
  }

  lemma DecodedInField(prm: Primitives, n: u64, z: seq<int>)
    requires prm.p > 0 && IsAssignment(prm, n, z)
    ensures InFieldSecret(prm, Decode(n, z))
  {
  }

  lemma BoolsRecovered(base: Var, bits: seq<bool>, z: seq<int>)
    requires LaysBits(base, bits, z)
    ensures BoolsAt(base, |bits|, z) == bits
  {
    forall i | 0 <= i < |bits|
      ensures BoolsAt(base, |bits|, z)[i] == bits[i]
    {
      var bit := bits[i];
    }
  }

  lemma WordRecovered(base: Var, x: u64, z: seq<int>)
    requires LaysBits(base, LittleEndianBits(x, 64), z)
    ensures WordAt(base, z) == x
  {
    BoolsRecovered(base, LittleEndianBits(x, 64), z);
    ReverseLittleEndian(x, 64);
    Pow2Word(64);
    PackToBitsExact(x, 64);
  }

  /** Reading a witness back from its layout returns it. */
  lemma DecodeRecovers(prm: Primitives, n: u64, w: Secret, z: seq<int>)
    requires prm.p > 0 && Shaped(n, w) && Lays(prm, n, w, z)
    ensures Decode(n, z) == w
  {
    var d := Decode(n, z);
    forall i | 0 <= i < n
      ensures d.pks[i] == w.pks[i] && d.sigs[i] == w.sigs[i]
    {
      var pk, sig := w.pks[i], w.sigs[i];
    }
    assert d.pks == w.pks && d.sigs == w.sigs;
    BoolsRecovered(BAt(n, 0), w.b, z);
    WordRecovered(BtrFeeAt(n), w.btrFee, z);
    WordRecovered(FtMinAt(n), w.ftMin, z);
  }

  /**
   * Refinement of the synthesizer: on a full instance the emitted system is satisfied by its own
   * assignment exactly when the packed bits equal count minus threshold in the field.
   */
  lemma OwnAssignment(prm: Primitives, n: u64, w: Secret)
    requires prm.Valid() && Shaped(n, w) && InFieldSecret(prm, w)
    ensures Satisfied(prm, Constraints(n), Assignment(prm, n, w)) <==> ThresholdEquation(prm, w)
  {
    AssignmentInField(prm, n, w);
    AssignmentLays(prm, n, w);
    DecodeRecovers(prm, n, w, Assignment(prm, n, w));
    CircuitMeaning(prm, n, Assignment(prm, n, w));
  }

  /** A satisfying assignment whose public inputs are the two given ones, in this order. */
  ghost predicate Accepted(prm: Primitives, n: u64, keysInput: int, certInput: int, z: seq<int>)
    requires prm.p > 0
  {
    && IsAssignment(prm, n, z)
    && Satisfied(prm, Constraints(n), z)
    && PublicInputs(Kinds(n), z) == [keysInput, certInput]
  }

  lemma AcceptedInputs(prm: Primitives, n: u64, keysInput: int, certInput: int, z: seq<int>)
    requires prm.p > 0 && |z| == NumVars(n)
    ensures PublicInputs(Kinds(n), z) == [keysInput, certInput]
       <==> At(z, KeysInputAt(n)) == keysInput && At(z, CertInputAt(n)) == certInput
  {
    hide Width;
    PublicInputsExact(n, z);
    var inputs := PublicInputs(Kinds(n), z);
    if inputs == [keysInput, certInput] {
      assert inputs[0] == keysInput && inputs[1] == certInput;
    }
  }

  /** The witness hashes to the two public inputs. */
  ghost predicate Opens(prm: Primitives, keysInput: int, certInput: int, w: Secret)
    requires prm.p > 0 && |w.pks| == |w.sigs|
  {
    && KeysThresholdHash(prm, Xs(w.pks), w.t) == keysInput
    && CertDataHash(prm, w.scId, w.epoch, w.mrBt, Valid(prm, w), w.root, PackedFees(w.btrFee, w.ftMin)) == certInput
  }

  /** Enough valid signatures, or a threshold so close to the modulus that the difference wraps. */
  predicate WithinReach(prm: Primitives, n: u64, v: int, t: int) {
    t <= v || t > v + prm.p - Pow2(Width(n))
  }

  /** Some bits of the circuit's width pack to `v - t` in the field exactly within reach. */
  lemma ReachExact(prm: Primitives, n: u64, v: nat, t: int)
    requires prm.Valid() && v <= n && prm.InField(t)
    ensures WithinReach(prm, n, v, t)
       <==> exists bits: seq<bool> :: |bits| == Width(n) && Divides(prm.p, (v - t) - Pack(bits))
  {
    ThresholdFromU64(prm.p, n, v, 0);
    WidthSufficient(n);
    AcceptanceSet(prm.p, Width(n), v, t);
    AcceptedAsBits(prm.p, Width(n), v, t);
  }

  lemma BitsForReach(prm: Primitives, n: u64, v: nat, t: int) returns (bits: seq<bool>)
    requires prm.Valid() && v <= n && prm.InField(t) && WithinReach(prm, n, v, t)
    ensures |bits| == Width(n) && Divides(prm.p, (v - t) - Pack(bits))
  {
    ReachExact(prm, n, v, t);
    bits :| |bits| == Width(n) && Divides(prm.p, (v - t) - Pack(bits));
  }

  lemma BitsWithinReach(prm: Primitives, n: u64, v: nat, t: int, bits: seq<bool>)
    requires prm.Valid() && v <= n && prm.InField(t)
    requires |bits| == Width(n) && Divides(prm.p, (v - t) - Pack(bits))
    ensures WithinReach(prm, n, v, t)
  {
    ReachExact(prm, n, v, t);
  }

  /** Accepted assignments are the layouts of opening witnesses that satisfy the threshold equation. */
  lemma AcceptedMeaning(prm: Primitives, n: u64, keysInput: int, certInput: int, z: seq<int>)
    requires prm.Valid() && Accepted(prm, n, keysInput, certInput, z)
    ensures InFieldSecret(prm, Decode(n, z))
    ensures Opens(prm, keysInput, certInput, Decode(n, z))
    ensures ThresholdEquation(prm, Decode(n, z))
  {
    CircuitMeaning(prm, n, z);
    DecodedInField(prm, n, z);
    AcceptedInputs(prm, n, keysInput, certInput, z);
  }

  /** Nothing is left to choose: an accepted assignment is the one its own witness determines. */
  lemma AcceptedIsCanonical(prm: Primitives, n: u64, keysInput: int, certInput: int, z: seq<int>)
    requires prm.Valid() && Accepted(prm, n, keysInput, certInput, z)
    ensures z == Assignment(prm, n, Decode(n, z))
  {
    hide Satisfied, Divides, Assignment, Decode;
    CircuitMeaning(prm, n, z);
    LaysIsAssignment(prm, n, Decode(n, z), z);
  }

  lemma AcceptedWithinReach(prm: Primitives, n: u64, keysInput: int, certInput: int, z: seq<int>)
    requires prm.Valid() && Accepted(prm, n, keysInput, certInput, z)
    ensures WithinReach(prm, n, Valid(prm, Decode(n, z)), Decode(n, z).t)
  {
    hide Satisfied, Divides;
    var w := Decode(n, z);
    AcceptedMeaning(prm, n, keysInput, certInput, z);
    BitsWithinReach(prm, n, Valid(prm, w), w.t, w.b);
  }

  lemma AssignmentAccepted(prm: Primitives, n: u64, keysInput: int, certInput: int, w: Secret)
    requires prm.Valid() && Shaped(n, w) && InFieldSecret(prm, w)
    ensures Accepted(prm, n, keysInput, certInput, Assignment(prm, n, w))
       <==> Opens(prm, keysInput, certInput, w) && ThresholdEquation(prm, w)
  {
    OwnAssignment(prm, n, w);
    AssignmentInField(prm, n, w);
    AssignmentLays(prm, n, w);
    AcceptedInputs(prm, n, keysInput, certInput, Assignment(prm, n, w));
  }

  /** The bits an honest prover would choose, for any witness within reach. */
  lemma WitnessAccepted(prm: Primitives, n: u64, keysInput: int, certInput: int, w: Secret) returns (z: seq<int>)
    requires prm.Valid() && Shaped(n, w) && InFieldSecret(prm, w)
    requires Opens(prm, keysInput, certInput, w) && WithinReach(prm, n, Valid(prm, w), w.t)
    ensures Accepted(prm, n, keysInput, certInput, z)
  {
    hide Accepted, WithinReach, Divides, Width;
    var bits := BitsForReach(prm, n, Valid(prm, w), w.t);
    var w' := w.(b := bits);
    assert Valid(prm, w') == Valid(prm, w);
    AssignmentAccepted(prm, n, keysInput, certInput, w');
    z := Assignment(prm, n, w');
  }

  /**
   * The exact language, with no assumption on the hash: two public inputs are provable if and only
   * if they open to some witness whose count and threshold are within reach.
   */
  lemma LanguageExact(prm: Primitives, n: u64, keysInput: int, certInput: int)
    requires prm.Valid()
    ensures (exists z :: Accepted(prm, n, keysInput, certInput, z))
       <==> exists w :: Shaped(n, w) && InFieldSecret(prm, w) && Opens(prm, keysInput, certInput, w)
                        && WithinReach(prm, n, Valid(prm, w), w.t)
  {
    if z :| Accepted(prm, n, keysInput, certInput, z) {
      AcceptedMeaning(prm, n, keysInput, certInput, z);
      AcceptedWithinReach(prm, n, keysInput, certInput, z);
      var w := Decode(n, z);
    }
    if w :| Shaped(n, w) && InFieldSecret(prm, w) && Opens(prm, keysInput, certInput, w)
            && WithinReach(prm, n, Valid(prm, w), w.t) {
      var z := WitnessAccepted(prm, n, keysInput, certInput, w);
    }
  }

  // ----- soundness -----

  /** Two different inputs of one length with one digest. */
  predicate Collides(prm: Primitives, a: seq<int>, b: seq<int>)
    requires prm.p > 0
  {
    |a| == |b| && a != b && prm.H(a) == prm.H(b)
  }

  /** The two openings of a key commitment collide in its inner or its outer hash. */
  predicate KeysCollide(prm: Primitives, xs: seq<int>, t: int, xs': seq<int>, t': int)
    requires prm.p > 0
  {
    Collides(prm, xs, xs') || Collides(prm, [KeysHash(prm, xs), t], [KeysHash(prm, xs'), t'])
  }

  /** Two lists collide under the double hash of the certificate. */
  predicate CertCollide(prm: Primitives, a: seq<int>, b: seq<int>)
    requires prm.p > 0
  {
    Collides(prm, a, b) || Collides(prm, [prm.H(a)], [prm.H(b)])
  }

  lemma KeysBound(prm: Primitives, xs: seq<int>, t: int, xs': seq<int>, t': int)
    requires prm.p > 0 && |xs| == |xs'|
    requires KeysThresholdHash(prm, xs, t) == KeysThresholdHash(prm, xs', t')
    ensures (xs == xs' && t == t') || KeysCollide(prm, xs, t, xs', t')
  {
    var outer, outer' := [KeysHash(prm, xs), t], [KeysHash(prm, xs'), t'];
    if outer == outer' {
      assert outer[0] == outer'[0] && outer[1] == outer'[1];
    }
  }

  lemma CertBound(prm: Primitives, a: seq<int>, b: seq<int>)
    requires prm.p > 0 && |a| == |b| && prm.H([prm.H(a)]) == prm.H([prm.H(b)])
    ensures a == b || CertCollide(prm, a, b)
  {
    var outer, outer' := [prm.H(a)], [prm.H(b)];
    if outer == outer' {
      assert outer[0] == outer'[0];
    }
  }

  /** Any list of the x-coordinates opens the commitment to the keys: the y-coordinates play no part. */
  lemma CommitmentOpens(prm: Primitives, pks: seq<Pk>, t: int, xs: seq<int>)
    requires prm.p > 0 && |xs| == |pks| && forall i :: 0 <= i < |pks| ==> xs[i] == pks[i].x
    ensures KeysThresholdHash(prm, Xs(pks), t) == prm.H([prm.H(xs), t])
  {
    assert Xs(pks) == xs;
  }

  /** Keys with the same x-coordinates have one commitment, whatever their y-coordinates. */
  lemma CommitmentIgnoresY(prm: Primitives, pks: seq<Pk>, pks': seq<Pk>, t: int)
    requires prm.p > 0 && |pks| == |pks'| && forall i :: 0 <= i < |pks| ==> pks[i].x == pks'[i].x
    ensures KeysThresholdHash(prm, Xs(pks), t) == KeysThresholdHash(prm, Xs(pks'), t)
  {
    CommitmentOpens(prm, pks, t, Xs(pks'));
  }

  /** Two openings of one commitment agree in every x-coordinate and the threshold, or collide. */
  lemma CommitmentBinds(prm: Primitives, pks: seq<Pk>, t: int, xs: seq<int>, pks': seq<Pk>, t': int, xs': seq<int>)
    requires prm.p > 0 && |xs| == |pks| == |pks'| == |xs'|
    requires forall i :: 0 <= i < |pks| ==> xs[i] == pks[i].x && xs'[i] == pks'[i].x
    requires KeysThresholdHash(prm, Xs(pks), t) == KeysThresholdHash(prm, Xs(pks'), t')
    ensures || (t == t' && forall i :: 0 <= i < |pks| ==> pks[i].x == pks'[i].x)
            || Collides(prm, xs, xs')
            || Collides(prm, [prm.H(xs), t], [prm.H(xs'), t'])
  {
    CommitmentOpens(prm, pks, t, xs);
    CommitmentOpens(prm, pks', t', xs');
    KeysBound(prm, xs, t, xs', t');
  }

  /** One message means one list of data under it, field by field, or a collision. */
  lemma MessageBinds(prm: Primitives, scId: int, epoch: int, mrBt: int, root: int, fees: int,
                     scId': int, epoch': int, mrBt': int, root': int, fees': int)
    requires prm.p > 0
    requires MessageHash(prm, scId, epoch, mrBt, root, fees) == MessageHash(prm, scId', epoch', mrBt', root', fees')
    ensures || (scId == scId' && epoch == epoch' && mrBt == mrBt' && root == root' && fees == fees')
            || Collides(prm, [scId, epoch, mrBt, root, fees], [scId', epoch', mrBt', root', fees'])
  {
    var a, b := [scId, epoch, mrBt, root, fees], [scId', epoch', mrBt', root', fees'];
    if a == b {
      assert a[0] == b[0] && a[1] == b[1] && a[2] == b[2] && a[3] == b[3] && a[4] == b[4];
    }
  }

  /** The positions whose signature verifies on `msg` under the key beside it. */
  lemma {:induction false} CountIsCardinality(prm: Primitives, msg: int, pks: seq<Pk>, sigs: seq<Sig>, k: nat)
    requires k <= |pks| && k <= |sigs|
    ensures CountValid(prm, msg, pks, sigs, k) == |set i | 0 <= i < k && prm.verify(msg, pks[i], sigs[i]) == Ok(true)|
  {
    var now := set i | 0 <= i < k && prm.verify(msg, pks[i], sigs[i]) == Ok(true);
    if k == 0 {
      assert now == {};
    } else {
      CountIsCardinality(prm, msg, pks, sigs, k - 1);
      var before := set i | 0 <= i < k - 1 && prm.verify(msg, pks[i], sigs[i]) == Ok(true);
      assert now == before + if prm.verify(msg, pks[k - 1], sigs[k - 1]) == Ok(true) then {k - 1} else {};
    }
  }

  /**
   * End-to-end soundness. Whoever produced the assignment, if it is accepted for the commitment to
   * `xs` and a u64 `t`, and for the hash of the certificate data with quality `q`, then its keys have
   * exactly the committed x-coordinates in order, exactly `q` of its signatures verify on the message
   * hashed from that same data, and `q >= t`; or else it hands over a collision of the hash.
   */
  lemma Soundness(prm: Primitives, n: u64, xs: seq<int>, t: u64, scId: int, epoch: int, mrBt: int, q: int,
                  root: int, fees: int, z: seq<int>)
    requires prm.Valid() && |xs| == n
    requires Accepted(prm, n, prm.H([prm.H(xs), t]), prm.H([prm.H([scId, epoch, mrBt, q, root, fees])]), z)
    ensures var w, msg := Decode(n, z), prm.H([scId, epoch, mrBt, root, fees]);
            || (&& |w.pks| == |w.sigs| == n
                && (forall i :: 0 <= i < n ==> w.pks[i].x == xs[i])
                && q == |set i | 0 <= i < n && prm.verify(msg, w.pks[i], w.sigs[i]) == Ok(true)|
                && q >= t)
            || KeysCollide(prm, Xs(w.pks), w.t, xs, t)
            || CertCollide(prm, [w.scId, w.epoch, w.mrBt, Valid(prm, w), w.root, PackedFees(w.btrFee, w.ftMin)],
                           [scId, epoch, mrBt, q, root, fees])
  {
    hide Satisfied, Collides;
    var w, msg := Decode(n, z), prm.H([scId, epoch, mrBt, root, fees]);
    var keysInput, certInput := prm.H([prm.H(xs), t]), prm.H([prm.H([scId, epoch, mrBt, q, root, fees])]);
    var a := [w.scId, w.epoch, w.mrBt, Valid(prm, w), w.root, PackedFees(w.btrFee, w.ftMin)];
    var b := [scId, epoch, mrBt, q, root, fees];
    AcceptedMeaning(prm, n, keysInput, certInput, z);
    AcceptedWithinReach(prm, n, keysInput, certInput, z);
    KeysBound(prm, Xs(w.pks), w.t, xs, t);
    CertBound(prm, a, b);
    if a == b {
      assert a[0] == b[0] && a[1] == b[1] && a[2] == b[2] && a[3] == b[3] && a[4] == b[4] && a[5] == b[5];
      EnoughFromU64(prm, n, Valid(prm, w), t);
      CountIsCardinality(prm, msg, w.pks, w.sigs, n);
    }
  }

  /** No u64 threshold is close enough to the modulus to wrap. */
  lemma EnoughFromU64(prm: Primitives, n: u64, v: nat, t: u64)
    requires prm.Valid() && v <= n
    ensures WithinReach(prm, n, v, t) <==> v >= t
  {
    ThresholdFromU64(prm.p, n, v, t);
  }
}

/**
 * The native code around the circuit: the digests it computes, its own count of valid signatures,
 * and the witness it hands to the synthesizer.
 */
module CctpCalls {
  import opened NumberTheory
  import opened Bits
  import opened R1cs
  import opened Circuit
  import opened CircuitSemantics
  import opened CircuitLanguage
  import opened Wrappers

  type u32 = x: int | 0 <= x < 0x1_0000_0000

  /** The signature that stands in for a missing one: `e = s = 1`. */
  const NULL_SIG: Sig := Sig(1, 1)

  /** A fixed-length digest: it must be updated exactly `size` times before it is finalized. */
  class FieldHash {
    const prm: Primitives
    const size: nat
    var inputs: seq<int>

    constructor InitConstantLength(prm: Primitives, size: nat)
      ensures this.prm == prm && this.size == size && inputs == []
    {
      this.prm, this.size := prm, size;
      inputs := [];
    }

    method Update(x: int)
      modifies this
      ensures inputs == old(inputs) + [x]
    {
      inputs := inputs + [x];
    }

    method Finalize() returns (r: Result<int>)
      requires prm.p > 0
      ensures r.Ok? <==> |inputs| == size
      ensures r.Ok? ==> r.value == prm.H(inputs)
      ensures r.Err? ==> r.error == CryptoError
    {
      r := if |inputs| == size then Ok(prm.H(inputs)) else Err(CryptoError);
    }
  }

  /** A digest declared for `|xs|` elements and updated with each in order is the hash of the list. */
  method HashAll(prm: Primitives, xs: seq<int>) returns (r: Result<int>)
    requires prm.p > 0
    ensures r == Ok(prm.H(xs))
  {
    var h := new FieldHash.InitConstantLength(prm, |xs|);
    for i := 0 to |xs|
      invariant h.inputs == xs[..i]
      invariant fresh(h)
    {
      h.Update(xs[i]);
    }
    assert xs[..|xs|] == xs;
    r := h.Finalize();
  }

  /** `compute_pks_threshold_hash`: the constant declared at sidechain creation. */
  method ComputePksThresholdHash(prm: Primitives, pks: seq<Pk>, threshold: u64) returns (r: Result<int>)
    requires prm.p > 0
    ensures r == Ok(KeysThresholdHash(prm, Xs(pks), threshold))
    ensures forall xs :: |xs| == |pks| && (forall i :: 0 <= i < |pks| ==> xs[i] == pks[i].x) ==>
              r == Ok(prm.H([prm.H(xs), threshold]))
  {
    var h := new FieldHash.InitConstantLength(prm, |pks|);
    for i := 0 to |pks|
      invariant h.inputs == Xs(pks)[..i]
      invariant fresh(h)
    {
      h.Update(pks[i].x);
    }
    assert Xs(pks)[..|pks|] == Xs(pks);
    var pksHash := h.Finalize();
    var outer := new FieldHash.InitConstantLength(prm, 2);
    outer.Update(pksHash.Extract());
    outer.Update(threshold);
    assert outer.inputs == [KeysHash(prm, Xs(pks)), threshold];
    r := outer.Finalize();
    forall xs | |xs| == |pks| && (forall i :: 0 <= i < |pks| ==> xs[i] == pks[i].x)
      ensures xs == Xs(pks)
    {
    }
  }

  /**
   * `compute_msg_to_sign`: the Merkle root of the transfers is computed elsewhere and may have failed,
   * the accumulator may fail, and the fees must fit one accumulated field element.
   */
  method ComputeMsgToSign(prm: Primitives, scId: int, epoch: u32, root: int, btrFee: u64, ftMin: u64, mrBt: Result<int>)
    returns (r: Result<(int, int)>)
    requires prm.p > 0
    ensures r == MsgToSign(prm, scId, epoch, root, btrFee, ftMin, mrBt)
    ensures mrBt.Err? ==> r == Err(mrBt.error)
    ensures var fes := prm.accumulate(btrFee, ftMin);
            && (mrBt.Ok? && fes.Err? ==> r == Err(fes.error))
            && (mrBt.Ok? && fes.Ok? && |fes.value| != 1 ==> r == Err(Panicked))
            && (mrBt.Ok? && fes.Ok? && |fes.value| == 1 ==>
                  r == Ok((mrBt.value, prm.H([scId, epoch, mrBt.value, root, fes.value[0]]))))
  {
    var mr :- mrBt;
    var fes :- prm.accumulate(btrFee, ftMin);
    if |fes| != 1 {
      return Err(Panicked);
    }
    var msg := HashAll(prm, [scId, epoch, mr, root, fes[0]]);
    r := Ok((mr, msg.Extract()));
  }

  function MsgToSign(prm: Primitives, scId: int, epoch: u32, root: int, btrFee: u64, ftMin: u64, mrBt: Result<int>)
    : Result<(int, int)>
    requires prm.p > 0
  {
    var fes := prm.accumulate(btrFee, ftMin);
    if mrBt.Err? then Err(mrBt.error)
    else if fes.Err? then Err(fes.error)
    else if |fes.value| != 1 then Err(Panicked)
    else Ok((mrBt.value, MessageHash(prm, scId, epoch, mrBt.value, root, fes.value[0])))
  }

  /**
   * A native message stands for its data: two calls that return one message were given the same
   * identifiers, roots and accumulated fees, or their data collide.
   */
  lemma NativeMessageBinds(prm: Primitives, scId: int, epoch: u32, root: int, btrFee: u64, ftMin: u64, mr: int,
                           scId': int, epoch': u32, root': int, btrFee': u64, ftMin': u64, mr': int)
    requires prm.p > 0
    requires var a := MsgToSign(prm, scId, epoch, root, btrFee, ftMin, Ok(mr));
             var b := MsgToSign(prm, scId', epoch', root', btrFee', ftMin', Ok(mr'));
             a.Ok? && b.Ok? && a.value.1 == b.value.1
    ensures var fes, fes' := prm.accumulate(btrFee, ftMin), prm.accumulate(btrFee', ftMin');
            && fes.Ok? && fes'.Ok? && |fes.value| == |fes'.value| == 1
            && (|| (scId == scId' && epoch == epoch' && mr == mr' && root == root' && fes.value == fes'.value)
                || Collides(prm, [scId, epoch, mr, root, fes.value[0]], [scId', epoch', mr', root', fes'.value[0]]))
  {
    var fes, fes' := prm.accumulate(btrFee, ftMin).value, prm.accumulate(btrFee', ftMin').value;
    MessageBinds(prm, scId, epoch, mr, root, fes[0], scId', epoch', mr', root', fes'[0]);
  }

  // ----- the native count -----

  /** Signatures that are present and verify, among the first `k`. */
  function NativeCount(prm: Primitives, msg: int, pks: seq<Pk>, sigs: seq<Option<Sig>>, k: nat): (c: nat)
    requires k <= |pks| && k <= |sigs|
    ensures c <= k
  {
    if k == 0 then 0
    else NativeCount(prm, msg, pks, sigs, k - 1)
         + BitValue(sigs[k - 1].Some? && prm.Verifies(msg, pks[k - 1], sigs[k - 1].value))
  }

  /** The native check of position `i` returns an error; a missing signature is not checked. */
  predicate CheckFails(prm: Primitives, msg: int, pks: seq<Pk>, sigs: seq<Option<Sig>>, i: nat)
    requires i < |sigs| == |pks|
  {
    sigs[i].Some? && prm.verify(msg, pks[i], sigs[i].value).Err?
  }

  /** No check of a present signature returns an error. */
  predicate ChecksSucceed(prm: Primitives, msg: int, pks: seq<Pk>, sigs: seq<Option<Sig>>)
    requires |sigs| == |pks|
  {
    forall i :: 0 <= i < |sigs| ==> !CheckFails(prm, msg, pks, sigs, i)
  }

  /** The first check that fails is that of position `i`, and it fails with `error`. */
  predicate FailsFirst(prm: Primitives, msg: int, pks: seq<Pk>, sigs: seq<Option<Sig>>, i: nat, error: Error)
    requires |sigs| == |pks|
  {
    && i < |sigs|
    && (forall j :: 0 <= j < i ==> !CheckFails(prm, msg, pks, sigs, j))
    && sigs[i].Some?
    && prm.verify(msg, pks[i], sigs[i].value) == Err(error)
  }

  /** The null signature verifies for no key whose signature is missing. */
  predicate GapsRejectNull(prm: Primitives, msg: int, pks: seq<Pk>, sigs: seq<Option<Sig>>, k: nat)
    requires k <= |pks| && k <= |sigs|
  {
    forall i :: 0 <= i < k && sigs[i].None? ==> !prm.Verifies(msg, pks[i], NULL_SIG)
  }

  /** The native count is the number of positions with a signature that verifies. */
  lemma {:induction false} NativeCountIsCardinality(prm: Primitives, msg: int, pks: seq<Pk>, sigs: seq<Option<Sig>>, k: nat)
    requires k <= |pks| && k <= |sigs|
    ensures NativeCount(prm, msg, pks, sigs, k)
         == |set i | 0 <= i < k && sigs[i].Some? && prm.verify(msg, pks[i], sigs[i].value) == Ok(true)|
  {
    var now := set i | 0 <= i < k && sigs[i].Some? && prm.verify(msg, pks[i], sigs[i].value) == Ok(true);
    if k == 0 {
      assert now == {};
    } else {
      NativeCountIsCardinality(prm, msg, pks, sigs, k - 1);
      var before := set i | 0 <= i < k - 1 && sigs[i].Some? && prm.verify(msg, pks[i], sigs[i].value) == Ok(true);
      var last := sigs[k - 1].Some? && prm.verify(msg, pks[k - 1], sigs[k - 1].value) == Ok(true);
      assert now == before + if last then {k - 1} else {};
    }
  }

  /**
   * The native count is never more than the circuit's count on the filled signatures, and the two
   * agree exactly when the null signature fails at every gap.
   */
  lemma {:induction false} NativeVersusCircuit(prm: Primitives, msg: int, pks: seq<Pk>, sigs: seq<Option<Sig>>, k: nat)
    requires k <= |pks| && k <= |sigs|
    ensures NativeCount(prm, msg, pks, sigs, k) <= CountValid(prm, msg, pks, ValuesOr(sigs, NULL_SIG), k)
    ensures NativeCount(prm, msg, pks, sigs, k) == CountValid(prm, msg, pks, ValuesOr(sigs, NULL_SIG), k)
       <==> GapsRejectNull(prm, msg, pks, sigs, k)
  {
    if k != 0 {
      NativeVersusCircuit(prm, msg, pks, sigs, k - 1);
    }
  }

  /** The two conditions on the signatures, in terms of verification alone. */
  lemma NativeChecksMean(prm: Primitives, msg: int, pks: seq<Pk>, sigs: seq<Option<Sig>>)
    requires |sigs| == |pks|
    ensures ChecksSucceed(prm, msg, pks, sigs)
       <==> forall i :: 0 <= i < |sigs| && sigs[i].Some? ==> prm.verify(msg, pks[i], sigs[i].value).Ok?
    ensures GapsRejectNull(prm, msg, pks, sigs, |pks|)
       <==> forall i :: 0 <= i < |sigs| && sigs[i].None? ==> prm.verify(msg, pks[i], Sig(1, 1)) != Ok(true)
  {
    forall i | 0 <= i < |sigs| && sigs[i].Some?
      ensures CheckFails(prm, msg, pks, sigs, i) <==> prm.verify(msg, pks[i], sigs[i].value).Err?
    {
    }
    if ChecksSucceed(prm, msg, pks, sigs) {
      forall i | 0 <= i < |sigs| && sigs[i].Some?
        ensures prm.verify(msg, pks[i], sigs[i].value).Ok?
      {
        assert !CheckFails(prm, msg, pks, sigs, i);
      }
    }
  }

  lemma FirstFailure(prm: Primitives, msg: int, pks: seq<Pk>, sigs: seq<Option<Sig>>, i: nat, error: Error)
    requires |sigs| == |pks| && FailsFirst(prm, msg, pks, sigs, i, error)
    ensures forall j :: 0 <= j < i && sigs[j].Some? ==> prm.verify(msg, pks[j], sigs[j].value).Ok?
  {
    forall j | 0 <= j < i && sigs[j].Some?
      ensures prm.verify(msg, pks[j], sigs[j].value).Ok?
    {
      assert !CheckFails(prm, msg, pks, sigs, j);
    }
  }

  /** Counts the valid signatures and replaces the missing ones, stopping at the first failed check. */
  method CountAndFill(prm: Primitives, msg: int, pks: seq<Pk>, sigs: seq<Option<Sig>>)
    returns (r: Result<(seq<Option<Sig>>, u64)>)
    requires |sigs| == |pks| < 0x1_0000_0000_0000_0000
    ensures r.Ok? <==> ChecksSucceed(prm, msg, pks, sigs)
    ensures r.Ok? <==> forall i :: 0 <= i < |sigs| && sigs[i].Some? ==> prm.verify(msg, pks[i], sigs[i].value).Ok?
    ensures r.Err? ==> exists i :: FailsFirst(prm, msg, pks, sigs, i, r.error)
    ensures r.Err? ==> exists i ::
              && 0 <= i < |sigs| && sigs[i].Some? && prm.verify(msg, pks[i], sigs[i].value) == Err(r.error)
              && forall j :: 0 <= j < i && sigs[j].Some? ==> prm.verify(msg, pks[j], sigs[j].value).Ok?
    ensures r.Ok? ==> r.value.0 == AllOf(ValuesOr(sigs, NULL_SIG))
    ensures r.Ok? ==> |r.value.0| == |sigs|
    ensures r.Ok? ==> forall i :: 0 <= i < |sigs| ==>
                        r.value.0[i] == Some(if sigs[i].Some? then sigs[i].value else Sig(1, 1))
    ensures r.Ok? ==> r.value.1 == NativeCount(prm, msg, pks, sigs, |pks|)
  {
    NativeChecksMean(prm, msg, pks, sigs);
    var filled := sigs;
    var validSignatures := 0;
    for i := 0 to |pks|
      invariant |filled| == |sigs|
      invariant forall j :: 0 <= j < i ==> filled[j] == Some(sigs[j].GetOr(NULL_SIG))
      invariant forall j :: i <= j < |sigs| ==> filled[j] == sigs[j]
      invariant validSignatures == NativeCount(prm, msg, pks, sigs, i)
      invariant forall j :: 0 <= j < i ==> !CheckFails(prm, msg, pks, sigs, j)
    {
      if filled[i].Some? {
        var checked := prm.verify(msg, pks[i], filled[i].value);
        if checked.Err? {
          assert FailsFirst(prm, msg, pks, sigs, i, checked.error) && CheckFails(prm, msg, pks, sigs, i);
          FirstFailure(prm, msg, pks, sigs, i, checked.error);
        }
        var isVerified :- checked;
        if isVerified {
          validSignatures := validSignatures + 1;
        }
      } else {
        filled := filled[i := Some(NULL_SIG)];
      }
    }
    assert filled == AllOf(ValuesOr(sigs, NULL_SIG));
    r := Ok((filled, validSignatures));
  }

  // ----- the prover -----

  /** `valid_signatures - threshold` as a u64: it wraps unless overflow checks are compiled in. */
  function WrappedDifference(v: u64, t: u64): (d: u64)
    ensures Divides(TWO64, d - (v - t))
  {
    MultipleDivides(TWO64, if v >= t then 0 else 1);
    if v >= t then v - t else v - t + 0x1_0000_0000_0000_0000
  }

  /** The inputs of a certificate, shared by its prover and its verifier. */
  datatype Certificate = Certificate(scId: int, epoch: u32, root: int, mrBt: int, btrFee: u64, ftMin: u64) {
    /** The accumulator returns the element that the circuit packs. */
    predicate FeesAgree(prm: Primitives) {
      prm.accumulate(btrFee, ftMin) == Ok([PackedFees(btrFee, ftMin)])
    }

    function Msg(prm: Primitives): int
      requires prm.p > 0
    {
      MessageHash(prm, scId, epoch, mrBt, root, PackedFees(btrFee, ftMin))
    }

    /** The public input for quality `q`. */
    function DataHash(prm: Primitives, q: int): int
      requires prm.p > 0
    {
      CertDataHash(prm, scId, epoch, mrBt, q, root, PackedFees(btrFee, ftMin))
    }
  }

  /**
   * A signature is of use for one certificate only: two certificates with one message are the same in
   * every field, both fees included, or their data collide.
   */
  lemma CertificatesSeparated(prm: Primitives, a: Certificate, b: Certificate)
    requires prm.p > 0 && a.Msg(prm) == b.Msg(prm)
    ensures || a == b
            || Collides(prm, [a.scId, a.epoch, a.mrBt, a.root, TWO64 * a.btrFee + a.ftMin],
                        [b.scId, b.epoch, b.mrBt, b.root, TWO64 * b.btrFee + b.ftMin])
  {
    var fees, fees' := PackedFees(a.btrFee, a.ftMin), PackedFees(b.btrFee, b.ftMin);
    MessageBinds(prm, a.scId, a.epoch, a.mrBt, a.root, fees, b.scId, b.epoch, b.mrBt, b.root, fees');
    if fees == fees' {
      PackedFeesInjective(a.btrFee, a.ftMin, b.btrFee, b.ftMin);
    }
  }

  /** The witness of the instance that the prover builds. */
  function ProverSecret(pks: seq<Pk>, sigs: seq<Option<Sig>>, cert: Certificate, threshold: u64, valid: u64): Secret
    requires |pks| < 0x1_0000_0000_0000_0000
  {
    Secret(pks, ValuesOr(sigs, NULL_SIG), threshold, ToBits(WrappedDifference(valid, threshold), Width(|pks|)),
           cert.scId, cert.epoch, cert.root, cert.mrBt, cert.ftMin, cert.btrFee)
  }

  lemma WidthWithinModulus(prm: Primitives, n: u64)
    requires prm.Valid()
    ensures Width(n) <= prm.bits
  {
    WidthSufficient(n);
    if prm.bits < 65 {
      Pow2Word(64);
      Pow2Mono(prm.bits, 64);
      assert false;
    }
  }

  /** The constructor keeps every argument and exactly the low bits of the difference. */
  lemma NewFilled(prm: Primitives, pks: seq<Pk>, filled: seq<Sig>, threshold: int, b: nat, scId: int, epoch: int,
                  root: int, mrBt: int, ftMin: u64, btrFee: u64)
    requires prm.Valid() && |filled| == |pks| < 0x1_0000_0000_0000_0000
    ensures Width(|pks|) <= prm.bits
    ensures var inst := New(prm, pks, AllOf(filled), threshold, b, scId, epoch, root, mrBt, ftMin, btrFee, |pks|);
            && Consistent(inst)
            && Complete(inst)
            && Fill(inst) == Secret(pks, filled, threshold, ToBits(b, Width(|pks|)), scId, epoch, root, mrBt, ftMin, btrFee)
  {
    WidthWithinModulus(prm, |pks|);
    var inst := New(prm, pks, AllOf(filled), threshold, b, scId, epoch, root, mrBt, ftMin, btrFee, |pks|);
    assert ValuesOr(AllOf(filled), Sig(0, 0)) == filled;
  }

  /** A proof, idealised: the assignment that the prover commits to. */
  datatype Proof = Proof(assignment: seq<int>)

  /**
   * `create_naive_threshold_sig_proof`. It panics on lists of different lengths, on fees that do not
   * fit one element and, with overflow checks, on too few signatures; it fails on a failed Merkle
   * root or accumulator, and with the error of the first signature check that fails. Otherwise it
   * returns the assignment of its witness and the native count.
   */
  method CreateProof(prm: Primitives, pks: seq<Pk>, sigs: seq<Option<Sig>>, scId: int, epoch: u32, root: int,
                     btrFee: u64, ftMin: u64, mrBt: Result<int>, threshold: u64, overflowChecks: bool)
    returns (r: Result<(Proof, u64)>)
    requires prm.Valid() && |pks| < 0x1_0000_0000_0000_0000
    ensures |sigs| != |pks| ==> r == Err(Panicked)
    ensures var m := MsgToSign(prm, scId, epoch, root, btrFee, ftMin, mrBt);
            |sigs| == |pks| && m.Err? ==> r == Err(m.error)
    ensures var m := MsgToSign(prm, scId, epoch, root, btrFee, ftMin, mrBt);
            |sigs| == |pks| && m.Ok? && !ChecksSucceed(prm, m.value.1, pks, sigs) ==>
              r.Err? && exists i :: FailsFirst(prm, m.value.1, pks, sigs, i, r.error)
    ensures var m := MsgToSign(prm, scId, epoch, root, btrFee, ftMin, mrBt);
            |sigs| == |pks| && m.Ok? && ChecksSucceed(prm, m.value.1, pks, sigs) ==>
              var v := NativeCount(prm, m.value.1, pks, sigs, |pks|);
              var cert := Certificate(scId, epoch, root, m.value.0, btrFee, ftMin);
              r == if overflowChecks && v < threshold then Err(Panicked)
                   else Ok((Proof(Assignment(prm, |pks|, ProverSecret(pks, sigs, cert, threshold, v))), v))
  {
    var maxPks := |pks|;
    if |sigs| != maxPks {
      return Err(Panicked);
    }
    var mrAndMsg :- ComputeMsgToSign(prm, scId, epoch, root, btrFee, ftMin, mrBt);
    var filledAndCount :- CountAndFill(prm, mrAndMsg.1, pks, sigs);
    var (filled, validSignatures) := filledAndCount;
    if overflowChecks && validSignatures < threshold {
      return Err(Panicked);
    }
    var b := WrappedDifference(validSignatures, threshold);
    NewFilled(prm, pks, ValuesOr(sigs, NULL_SIG), threshold, b, scId, epoch, root, mrAndMsg.0, ftMin, btrFee);
    var c := New(prm, pks, filled, threshold, b, scId, epoch, root, mrAndMsg.0, ftMin, btrFee, maxPks);
    var cs := new ConstraintSystem(prm, true);
    var _ := GenerateConstraints(cs, c);
    r := Ok((Proof(cs.assignment), validSignatures));
  }

  /** `verify_naive_threshold_sig_proof` against the setup for `n` keys. */
  ghost predicate VerifyProof(prm: Primitives, n: u64, constant: int, cert: Certificate, validSigs: u64, proof: Proof)
    requires prm.p > 0
  {
    Accepted(prm, n, constant, cert.DataHash(prm, validSigs), proof.assignment)
  }

  // ----- completeness -----

  /** A power of two either divides 2^64 or exceeds it. */
  lemma Pow2DividesWord(k: nat)
    ensures k <= 64 ==> Divides(Pow2(k), TWO64)
    ensures k > 64 ==> Pow2(k) > TWO64
  {
    Pow2Word(64);
    if k <= 64 {
      Pow2Add(k, 64 - k);
      MultipleDivides(Pow2(k), Pow2(64 - k));
    } else {
      Pow2Mono(64, k);
    }
  }

  /** A natively wrapped difference, reduced modulo `m`, is no genuine difference of a count and the threshold. */
  lemma WrappedNeverMeets(m: int, n: int, v: nat, t: int, c: nat)
    requires 0 <= n < m && n < TWO64 && v <= n && c <= n && v < t <= TWO64
    requires Divides(m, TWO64) || m > TWO64
    ensures (v - t + TWO64) % m != c - t
  {
    var d := v - t + TWO64;
    var r := d % m;
    if r == c - t {
      ReductionCongruent(m, d);
      assert d - r == (v - c) + TWO64;
      if Divides(m, TWO64) {
        DividesSum(m, d - r, TWO64);
        assert (d - r) - TWO64 == v - c;
        CloseMultiplesEqual(m, v, c);
      } else {
        CloseMultiplesEqual(m, d, r);
      }
    }
  }

  /** The low bits of the difference pack to `c - t` exactly when there are enough signatures and `c` is their number. */
  lemma LowBitsMeet(n: u64, v: u64, t: u64, c: nat)
    requires v <= n && c <= n
    ensures Pack(ToBits(WrappedDifference(v, t), Width(n))) == c - t <==> v >= t && c == v
  {
    var k, d := Width(n), WrappedDifference(v, t);
    WidthSufficient(n);
    PackToBits(d, k);
    if v >= t {
      PackToBitsExact(d, k);
    } else {
      Pow2DividesWord(k);
      WrappedNeverMeets(Pow2(k), n, v, t, c);
    }
  }

  /**
   * The field equation for the prover's own bits, where `c` is the circuit's count: it holds exactly
   * when there are enough signatures and the circuit counts no more than the prover did.
   */
  lemma ProverEquation(prm: Primitives, n: u64, v: u64, t: u64, c: nat)
    requires prm.Valid() && v <= n && c <= n
    ensures Divides(prm.p, (c - t) - Pack(ToBits(WrappedDifference(v, t), Width(n)))) <==> v >= t && c == v
  {
    var b := Pack(ToBits(WrappedDifference(v, t), Width(n)));
    PackedWidthInField(prm, n, ToBits(WrappedDifference(v, t), Width(n)));
    LowBitsMeet(n, v, t, c);
    SmallDifference(prm.p, c - t, b);
  }

  lemma SmallResidue(prm: Primitives, n: u64, d: nat)
    requires prm.Valid() && d <= n
    ensures d % prm.p == d
    ensures Pack(ToBits(d, Width(n))) == d
  {
    hide Divides, ToBits;
    WidthSufficient(n);
    MultipleDivides(prm.p, 0);
    ResidueUnique(prm.p, d, d);
    PackToBitsExact(d, Width(n));
  }

  /** The same for a witness built from the field difference, as the circuit's own tests build it. */
  lemma FieldDifferenceEquation(prm: Primitives, n: u64, v: nat, t: u64)
    requires prm.Valid() && v <= n
    ensures Divides(prm.p, (v - t) - Pack(ToBits((v - t) % prm.p, Width(n)))) <==> v >= t
  {
    hide Width, WithinReach, Divides;
    var b := ToBits((v - t) % prm.p, Width(n));
    EnoughFromU64(prm, n, v, t);
    if v >= t {
      SmallResidue(prm, n, v - t);
      MultipleDivides(prm.p, 0);
    } else if Divides(prm.p, (v - t) - Pack(b)) {
      BitsWithinReach(prm, n, v, t, b);
    }
  }

  lemma SmallDifference(p: int, x: int, y: int)
    requires -p < x - y < p
    ensures Divides(p, x - y) <==> x == y
  {
    if x == y {
      MultipleDivides(p, 0);
    } else if Divides(p, x - y) {
      CloseMultiplesEqual(p, x, y);
    }
  }

  lemma ProverThreshold(prm: Primitives, pks: seq<Pk>, sigs: seq<Option<Sig>>, cert: Certificate, threshold: u64, v: u64)
    requires prm.Valid() && |sigs| == |pks| < 0x1_0000_0000_0000_0000
    requires v == NativeCount(prm, cert.Msg(prm), pks, sigs, |pks|)
    ensures ThresholdEquation(prm, ProverSecret(pks, sigs, cert, threshold, v))
       <==> v >= threshold && GapsRejectNull(prm, cert.Msg(prm), pks, sigs, |pks|)
    ensures Valid(prm, ProverSecret(pks, sigs, cert, threshold, v)) == v
       <==> GapsRejectNull(prm, cert.Msg(prm), pks, sigs, |pks|)
  {
    hide Divides, Width, Pack, ToBits;
    var n, msg := |pks|, cert.Msg(prm);
    var w := ProverSecret(pks, sigs, cert, threshold, v);
    var c := CountValid(prm, msg, pks, ValuesOr(sigs, NULL_SIG), n);
    assert Valid(prm, w) == c;
    NativeVersusCircuit(prm, msg, pks, sigs, n);
    ProverEquation(prm, n, v, threshold, c);
  }

  /**
   * Completeness, and its exact limits. The prover's own proof verifies under the constant of its
   * keys and threshold and the certificate with the returned quality, if and only if enough
   * signatures are valid and the null signature verifies at no gap.
   */
  lemma ProverAccepted(prm: Primitives, pks: seq<Pk>, sigs: seq<Option<Sig>>, cert: Certificate, threshold: u64, v: u64)
    requires prm.Valid() && |sigs| == |pks| < 0x1_0000_0000_0000_0000
    requires InFieldSecret(prm, ProverSecret(pks, sigs, cert, threshold, v))
    requires v == NativeCount(prm, cert.Msg(prm), pks, sigs, |pks|)
    ensures VerifyProof(prm, |pks|, KeysThresholdHash(prm, Xs(pks), threshold), cert, v,
                        Proof(Assignment(prm, |pks|, ProverSecret(pks, sigs, cert, threshold, v))))
       <==> v >= threshold && GapsRejectNull(prm, cert.Msg(prm), pks, sigs, |pks|)
  {
    hide Divides, Accepted, Width, ThresholdEquation;
    var w := ProverSecret(pks, sigs, cert, threshold, v);
    var keysInput, certInput := KeysThresholdHash(prm, Xs(pks), threshold), cert.DataHash(prm, v);
    ProverThreshold(prm, pks, sigs, cert, threshold, v);
    AssignmentAccepted(prm, |pks|, keysInput, certInput, w);
    assert Valid(prm, w) == v ==> Opens(prm, keysInput, certInput, w);
  }

  /**
   * Prover and verifier together, in the order of the sample calls: the returned quality is the native
   * count, and the returned proof verifies against it under the declared constant exactly when
   * enough signatures are valid and the null signature fills no gap. With overflow checks too few
   * signatures panic; without them the proof does not verify.
   */
  method ProveForVerifier(prm: Primitives, pks: seq<Pk>, sigs: seq<Option<Sig>>, cert: Certificate, threshold: u64,
                          overflowChecks: bool)
    returns (constant: int, r: Result<(Proof, u64)>)
    requires prm.Valid() && |sigs| == |pks| < 0x1_0000_0000_0000_0000 && cert.FeesAgree(prm)
    requires InFieldSecret(prm, ProverSecret(pks, sigs, cert, threshold, 0))
    ensures constant == KeysThresholdHash(prm, Xs(pks), threshold)
    ensures var msg := prm.H([cert.scId, cert.epoch, cert.mrBt, cert.root, TWO64 * cert.btrFee + cert.ftMin]);
            var count := |set i | 0 <= i < |pks| && sigs[i].Some? && prm.verify(msg, pks[i], sigs[i].value) == Ok(true)|;
            var checked := forall i :: 0 <= i < |sigs| && sigs[i].Some? ==> prm.verify(msg, pks[i], sigs[i].value).Ok?;
            var nullFails := forall i :: 0 <= i < |sigs| && sigs[i].None? ==> prm.verify(msg, pks[i], Sig(1, 1)) != Ok(true);
            && (r.Ok? ==> r.value.1 == count)
            && (checked && overflowChecks ==> (r.Err? <==> count < threshold))
            && (checked ==>
                  (r.Ok? && VerifyProof(prm, |pks|, constant, cert, r.value.1, r.value.0)
                   <==> count >= threshold && nullFails))
  {
    hide VerifyProof, Width, Assignment;
    var h := ComputePksThresholdHash(prm, pks, threshold);
    constant := h.Extract();
    r := CreateProof(prm, pks, sigs, cert.scId, cert.epoch, cert.root, cert.btrFee, cert.ftMin, Ok(cert.mrBt),
                     threshold, overflowChecks);
    ghost var v: u64 := NativeCount(prm, cert.Msg(prm), pks, sigs, |pks|);
    ProverAccepted(prm, pks, sigs, cert, threshold, v);
    NativeCountIsCardinality(prm, cert.Msg(prm), pks, sigs, |pks|);
    NativeChecksMean(prm, cert.Msg(prm), pks, sigs);
  }

  lemma SetupConsistent(n: u64)
    ensures Consistent(InstanceForSetup(n)) && InstanceForSetup(n).maxPks == n
  {
  }

  /**
   * Setup and prover synthesise the same system: for equal key counts the variables and constraints
   * agree, and setup asks for no value.
   */
  method SetupMatchesProver(prm: Primitives, inst: Instance)
    returns (setup: ConstraintSystem, prover: ConstraintSystem)
    requires prm.Valid() && Consistent(inst) && Complete(inst)
    ensures fresh(setup) && fresh(prover)
    ensures setup.kinds == prover.kinds && setup.constraints == prover.constraints
    ensures setup.assignment == [] && |prover.assignment| == |prover.kinds|
  {
    hide Kinds, Constraints, Assignment, Width, Fill, Complete;
    SetupConsistent(inst.maxPks);
    setup := new ConstraintSystem(prm, false);
    prover := new ConstraintSystem(prm, true);
    var s := GenerateConstraints(setup, InstanceForSetup(inst.maxPks));
    var p := GenerateConstraints(prover, inst);
    assert s.Ok? && p.Ok?;
  }
}

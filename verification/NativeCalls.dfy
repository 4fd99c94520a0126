/**
 * Native calls across the whole boundary: the null checks of their objects as thrown exceptions, and
 * `createProof`, which reads its signatures as nullable.
 */
module NativeCalls {
  import opened Wrappers
  import opened NumberTheory
  import opened R1cs
  import opened Circuit
  import opened CctpCalls
  import opened Handles
  import Exceptions

  // ----- null checks and exceptions -----

  const RECEIVED_NULL: Exceptions.Exception :=
    Exceptions.Exception("java/lang/NullPointerException", "Received null pointer")

  /**
   * The null checks of a call as steps of its body: one `throw_and_exit!` per check that fails, whose
   * own JNI calls may fail.
   */
  function NullChecks(s: State, inputs: seq<Read>, fault: Exceptions.Fault): seq<Exceptions.Action>
    requires ReadsAllowed(s, inputs)
    decreases |inputs|
  {
    if inputs == [] then []
    else
      (if Passes(s, inputs[0]) then [] else [Exceptions.ThrowAndExit(RECEIVED_NULL, fault)])
      + NullChecks(s, inputs[1..], fault)
  }

  /** A native body that reads its objects and then returns a value. */
  function NativeBody(s: State, inputs: seq<Read>, fault: Exceptions.Fault, value: Exceptions.JniValue): Exceptions.Body
    requires ReadsAllowed(s, inputs)
  {
    Exceptions.Body(NullChecks(s, inputs, fault), value)
  }

  lemma {:induction false} NullChecksExact(s: State, inputs: seq<Read>, fault: Exceptions.Fault)
    requires ReadsAllowed(s, inputs)
    ensures AllPass(s, inputs) ==> NullChecks(s, inputs, fault) == []
    ensures !AllPass(s, inputs) ==>
              NullChecks(s, inputs, fault) != []
              && NullChecks(s, inputs, fault)[0] == Exceptions.ThrowAndExit(RECEIVED_NULL, fault)
    decreases |inputs|
  {
    if inputs != [] && Passes(s, inputs[0]) {
      NullChecksExact(s, inputs[1..], fault);
      if AllPass(s, inputs[1..]) {
        assert forall k :: 0 < k < |inputs| ==> inputs[k] == inputs[1..][k - 1];
      }
    }
  }

  /** How that body leaves: panicking exactly when a check fails, with at most one exception raised. */
  lemma NativeBodyLeaves(s: State, inputs: seq<Read>, fault: Exceptions.Fault, value: Exceptions.JniValue)
    requires ReadsAllowed(s, inputs)
    ensures var body := NativeBody(s, inputs, fault, value);
            && Exceptions.First(None, body) == (if AllPass(s, inputs) || !fault.NoFault? then None else Some(RECEIVED_NULL))
            && (Exceptions.Panicking(None, body) <==> !AllPass(s, inputs))
            && (AllPass(s, inputs) ==> Exceptions.ResultOf(body) == value)
            && (!AllPass(s, inputs) ==> Exceptions.SilentMessage(body) == Exceptions.FaultMessage(RECEIVED_NULL, fault))
  {
    NullChecksExact(s, inputs, fault);
  }

  /**
   * A native call whose Java guards passed, on the heap and in the JVM at once. When every object that
   * is not read as nullable is open, the call returns its value with nothing pending. Otherwise heap
   * and objects are as they were; if the throw succeeds a `NullPointerException` is pending; and the
   * call returns the default of its form exactly when the handler does not panic in its turn.
   */
  lemma NativeCallThrows(s: State, guards: seq<nat>, inputs: seq<Read>, results: seq<NewBox>, value: Exceptions.JniValue,
                         variant: Exceptions.Variant, fault: Exceptions.Fault, handlerFault: Exceptions.Fault,
                         stderrError: Option<string>)
    requires Inv(s) && Allowed(s, Native(guards, inputs, results)) && AllOpen(s, guards)
    ensures var (t, outcome) := Step(s, Native(guards, inputs, results));
            var (pending, r) :=
              Exceptions.Export(None, NativeBody(s, inputs, fault, value), variant, handlerFault, stderrError);
            if AllPass(s, inputs) then outcome.Returned? && pending == None && r == Exceptions.Returned(value)
            else
              && outcome.NullPointer? && t == s
              && (fault.NoFault? ==> pending == Some(Exceptions.Exception("java/lang/NullPointerException",
                                                                          "Received null pointer")))
              && (fault.FindClassFails? && handlerFault.NoFault? ==>
                    pending == Some(Exceptions.Exception("java/lang/RuntimeException",
                                                         "Unable to find " + RECEIVED_NULL.name + " class")))
              && (fault.ThrowNewFails? && handlerFault.NoFault? ==>
                    pending == Some(Exceptions.Exception("java/lang/RuntimeException",
                                                         "Should be able to throw " + RECEIVED_NULL.name)))
              && (r.Returned? ==> match variant
                                  case ForObject => r.value == Exceptions.Reference(0)
                                  case ForByteArray => r.value == Exceptions.Reference(0)
                                  case ForDefault => r.value == Exceptions.Number(0)
                                  case ForVoid => r.value == Exceptions.Void)
              && (r.Returned? <==> handlerFault.NoFault? || (fault.NoFault? && !handlerFault.CheckFails?))
  {
    hide Inv, NativeBody, AllPass, Exceptions.First, Exceptions.Panicking, Exceptions.ResultOf, Exceptions.SilentMessage;
    hide Exceptions.Export, Step;
    NativeCallExact(s, guards, inputs, results);
    NativeBodyLeaves(s, inputs, fault, value);
    Exceptions.ExportExact(None, NativeBody(s, inputs, fault, value), variant, handlerFault, stderrError);
    var r := Exceptions.Export(None, NativeBody(s, inputs, fault, value), variant, handlerFault, stderrError).1;
    assert r.Returned? || r.Aborted? || r.Unwound?;
  }

  // ----- the reads of `createProof` -----

  function PairReads(sigs: seq<nat>, pks: seq<nat>, k: nat): (r: seq<Read>)
    requires k <= |sigs| == |pks|
    ensures |r| == 2 * k
    ensures forall i :: 0 <= i < k ==> r[2 * i] == Nullable(sigs[i]) && r[2 * i + 1] == Required(pks[i])
  {
    if k == 0 then [] else PairReads(sigs, pks, k - 1) + [Nullable(sigs[k - 1]), Required(pks[k - 1])]
  }

  /** Per position the signature, which may be null, and the key; then the two field elements. */
  function CreateProofReads(sigs: seq<nat>, pks: seq<nat>, scId: nat, root: nat): (r: seq<Read>)
    requires |sigs| == |pks|
  {
    PairReads(sigs, pks, |sigs|) + [Required(scId), Required(root)]
  }

  predicate OfKind(s: State, handles: seq<nat>, kind: BoxKind) {
    InRange(s, handles) && forall k :: 0 <= k < |handles| ==> s.objs[handles[k]].kind == kind
  }

  predicate IsElement(s: State, i: nat) {
    i < |s.objs| && s.objs[i].kind == FieldElementBox
  }

  /** The Java types of the arguments of `createProof`. */
  predicate ProofObjects(s: State, sigs: seq<nat>, pks: seq<nat>, scId: nat, root: nat) {
    && OfKind(s, sigs, SignatureBox)
    && OfKind(s, pks, PublicKeyBox)
    && IsElement(s, scId)
    && IsElement(s, root)
  }

  /** Everything that the prover cannot do without is open. */
  predicate Provable(s: State, pks: seq<nat>, scId: nat, root: nat)
    requires InRange(s, pks) && IsElement(s, scId) && IsElement(s, root)
  {
    AllOpen(s, pks) && Open(s, scId) && Open(s, root)
  }

  /** The signatures in the boxes, missing exactly at objects that were closed or built around null. */
  ghost function SigsIn(s: State, sigs: seq<nat>): (r: seq<Option<Sig>>)
    requires Inv(s) && OfKind(s, sigs, SignatureBox)
    ensures |r| == |sigs|
    ensures forall i :: 0 <= i < |sigs| ==> (r[i].None? <==> s.objs[sigs[i]].pointer == 0)
    ensures forall i :: 0 <= i < |sigs| && r[i].Some? ==>
              var p := s.objs[sigs[i]].pointer; p in s.live && s.live[p].content == Signature(r[i].value)
  {
    seq(|sigs|, i requires 0 <= i < |sigs| => if Open(s, sigs[i]) then Some(ContentOf(s, sigs[i]).sig) else None)
  }

  ghost function KeysIn(s: State, pks: seq<nat>): (r: seq<Pk>)
    requires Inv(s) && OfKind(s, pks, PublicKeyBox) && AllOpen(s, pks)
    ensures |r| == |pks|
    ensures forall i :: 0 <= i < |pks| ==>
              var p := s.objs[pks[i]].pointer; p in s.live && s.live[p].content == PublicKey(r[i])
  {
    seq(|pks|, i requires 0 <= i < |pks| => ContentOf(s, pks[i]).pk)
  }

  ghost function FeIn(s: State, i: nat): (r: int)
    requires Inv(s) && IsElement(s, i) && Open(s, i)
    ensures s.objs[i].pointer in s.live && s.live[s.objs[i].pointer].content == Element(r)
  {
    ContentOf(s, i).fe
  }

  lemma PairReadsExact(s: State, sigs: seq<nat>, pks: seq<nat>, scId: nat, root: nat)
    requires |sigs| == |pks| && ProofObjects(s, sigs, pks, scId, root)
    ensures ReadsAllowed(s, CreateProofReads(sigs, pks, scId, root))
    ensures AllPass(s, CreateProofReads(sigs, pks, scId, root)) <==> Provable(s, pks, scId, root)
  {
    hide PairReads;
    var inputs, n := CreateProofReads(sigs, pks, scId, root), |sigs|;
    assert inputs[2 * n] == Required(scId) && inputs[2 * n + 1] == Required(root);
    assert forall i :: 0 <= i < n ==> inputs[2 * i] == Nullable(sigs[i]) && inputs[2 * i + 1] == Required(pks[i]);
    forall k | 0 <= k < |inputs|
      ensures inputs[k].Allowed(s)
      ensures Provable(s, pks, scId, root) ==> Passes(s, inputs[k])
    {
      var i := k / 2;
      if i < n {
        assert inputs[2 * i] == Nullable(sigs[i]) && inputs[2 * i + 1] == Required(pks[i]);
      } else {
        assert k == 2 * n || k == 2 * n + 1;
      }
    }
    if AllPass(s, inputs) {
      forall i | 0 <= i < n
        ensures Open(s, pks[i])
      {
        assert Passes(s, inputs[2 * i + 1]);
      }
      assert Passes(s, inputs[2 * n]) && Passes(s, inputs[2 * n + 1]);
    }
  }

  /** What the body collects from its reads: signatures that were there, keys, and two elements. */
  function SigAt(seen: seq<Seen>, i: nat): Option<Sig>
    requires 2 * i < |seen|
  {
    if seen[2 * i].Present? && seen[2 * i].content.Signature? then Some(seen[2 * i].content.sig) else None
  }

  predicate SeesKey(seen: seq<Seen>, i: nat)
    requires 2 * i + 1 < |seen|
  {
    seen[2 * i + 1].Present? && seen[2 * i + 1].content.PublicKey?
  }

  function KeyAt(seen: seq<Seen>, i: nat): Pk
    requires 2 * i + 1 < |seen| && SeesKey(seen, i)
  {
    seen[2 * i + 1].content.pk
  }

  predicate SeesElement(seen: seq<Seen>, k: nat)
    requires k < |seen|
  {
    seen[k].Present? && seen[k].content.Element?
  }

  /**
   * The objects given to `createProof`: whatever the signatures, it reads all of them exactly when the
   * keys and the two field elements are open. Then every signature is missing for the prover exactly
   * when its object was closed or built around null, and is otherwise the one in its box.
   */
  lemma CreateProofSees(s: State, sigs: seq<nat>, pks: seq<nat>, scId: nat, root: nat)
    requires Inv(s) && |sigs| == |pks| && ProofObjects(s, sigs, pks, scId, root)
    ensures ReadsAllowed(s, CreateProofReads(sigs, pks, scId, root))
    ensures ReadAll(s, CreateProofReads(sigs, pks, scId, root)).1.Some? <==> Provable(s, pks, scId, root)
    ensures var r := ReadAll(s, CreateProofReads(sigs, pks, scId, root)).1;
            r.Some? ==>
              var seen, n := r.value, |sigs|;
              && |seen| == 2 * n + 2
              && (forall i :: 0 <= i < n ==> SigAt(seen, i) == SigsIn(s, sigs)[i])
              && (forall i :: 0 <= i < n ==> SeesKey(seen, i) && KeyAt(seen, i) == KeysIn(s, pks)[i])
              && SeesElement(seen, 2 * n) && seen[2 * n].content.fe == FeIn(s, scId)
              && SeesElement(seen, 2 * n + 1) && seen[2 * n + 1].content.fe == FeIn(s, root)
  {
    hide Inv, PairReads;
    var inputs, n := CreateProofReads(sigs, pks, scId, root), |sigs|;
    PairReadsExact(s, sigs, pks, scId, root);
    ReadsExact(s, inputs);
    var r := ReadAll(s, inputs).1;
    if r.Some? {
      var seen := r.value;
      OpenIsLive(s, scId);
      OpenIsLive(s, root);
      assert SeesRight(s, inputs[2 * n], seen[2 * n]) && SeesRight(s, inputs[2 * n + 1], seen[2 * n + 1]);
      forall i | 0 <= i < n
        ensures SigAt(seen, i) == SigsIn(s, sigs)[i]
        ensures SeesKey(seen, i) && KeyAt(seen, i) == KeysIn(s, pks)[i]
      {
        OpenIsLive(s, pks[i]);
        if Open(s, sigs[i]) {
          OpenIsLive(s, sigs[i]);
        }
        assert SeesRight(s, inputs[2 * i], seen[2 * i]) && SeesRight(s, inputs[2 * i + 1], seen[2 * i + 1]);
      }
    }
  }

  /** Closing drops the boxes of the closed objects, and the box of any other open object outlives it. */
  lemma OpenSurvives(s: State, closed: seq<nat>, i: nat)
    requires Inv(s) && InRange(s, closed) && i < |s.objs|
    ensures |CloseAll(s, closed).objs| == |s.objs|
    ensures i in closed ==> CloseAll(s, closed).objs[i] == JavaObject(s.objs[i].kind, 0)
    ensures i in closed ==> s.objs[i].pointer !in CloseAll(s, closed).live
    ensures i !in closed ==> CloseAll(s, closed).objs[i] == s.objs[i]
    ensures i !in closed && Open(s, i) ==>
              s.objs[i].pointer in CloseAll(s, closed).live
              && CloseAll(s, closed).live[s.objs[i].pointer] == s.live[s.objs[i].pointer]
  {
    hide Conserved, Owned, CloseAll;
    CloseAllExact(s, closed);
    if i in closed {
      assert i in SetOf(closed);
      assert OwnedBy(s.objs, SetOf(closed), s.objs[i].pointer);
    } else if Open(s, i) {
      assert HitsLiveBox(s, s.objs[i]);
      assert !OwnedBy(s.objs, SetOf(closed), s.objs[i].pointer);
    }
  }

  /** Closing objects before a proof takes away exactly the signatures in them. */
  lemma ClosedIsMissing(s: State, sigs: seq<nat>, closed: seq<nat>)
    requires Inv(s) && OfKind(s, sigs, SignatureBox) && InRange(s, closed)
    ensures var t := CloseAll(s, closed);
            && Inv(t) && OfKind(t, sigs, SignatureBox)
            && forall i :: 0 <= i < |sigs| ==>
                 SigsIn(t, sigs)[i] == if sigs[i] in closed then None else SigsIn(s, sigs)[i]
  {
    hide Inv, CloseAll;
    var t := CloseAll(s, closed);
    CloseAllKeeps(s, closed);
    CloseAllExact(s, closed);
    forall i | 0 <= i < |sigs|
      ensures sigs[i] in closed ==> !Open(t, sigs[i])
      ensures sigs[i] !in closed ==> t.objs[sigs[i]] == s.objs[sigs[i]]
      ensures sigs[i] !in closed && Open(s, sigs[i]) ==>
                s.objs[sigs[i]].pointer in t.live && t.live[s.objs[sigs[i]].pointer] == s.live[s.objs[sigs[i]].pointer]
    {
      OpenSurvives(s, closed, sigs[i]);
    }
  }

  // ----- `createProof` -----

  /** Reads all objects of the call and collects what the prover is given. */
  method ReadProofObjects(s: State, sigs: seq<nat>, pks: seq<nat>, scId: nat, root: nat)
    returns (r: Option<(seq<Option<Sig>>, seq<Pk>, int, int)>)
    requires Inv(s) && |sigs| == |pks| && ProofObjects(s, sigs, pks, scId, root)
    ensures r.Some? <==> Provable(s, pks, scId, root)
    ensures r.Some? ==> r.value == (SigsIn(s, sigs), KeysIn(s, pks), FeIn(s, scId), FeIn(s, root))
  {
    hide Inv, PairReads, ReadAll;
    CreateProofSees(s, sigs, pks, scId, root);
    var (_, read) := ReadAll(s, CreateProofReads(sigs, pks, scId, root));
    if read.None? {
      return None;
    }
    var seen, n := read.value, |sigs|;
    var options := seq(n, i requires 0 <= i < n => SigAt(seen, i));
    var keys := seq(n, i requires 0 <= i < n => KeyAt(seen, i));
    assert options == SigsIn(s, sigs) && keys == KeysIn(s, pks);
    r := Some((options, keys, seen[2 * n].content.fe, seen[2 * n + 1].content.fe));
  }

  /** What the JVM sees of `createProof`; errors other than panics come back as a null object. */
  datatype ProofResult = NullPointerThrown | RuntimeThrown | NullReturned | Proved(proof: Proof, quality: u64)

  function ToJvm(r: Result<(Proof, u64)>): ProofResult {
    match r
    case Ok(p) => Proved(p.0, p.1)
    case Err(Panicked) => RuntimeThrown
    case Err(_) => NullReturned
  }

  /**
   * `createProof` from the objects to the result. Lists of different lengths panic before anything is
   * read, a closed key or field element throws, and otherwise the prover runs on what the boxes hold.
   * The quality counts the open signature objects whose signature verifies under the key beside it.
   */
  method NativeCreateProof(prm: Primitives, s: State, sigs: seq<nat>, pks: seq<nat>, scId: nat, root: nat, epoch: u32,
                           btrFee: u64, ftMin: u64, mrBt: Result<int>, threshold: u64, overflowChecks: bool)
    returns (r: ProofResult)
    requires prm.Valid() && Inv(s) && ProofObjects(s, sigs, pks, scId, root) && |pks| < 0x8000_0000
    ensures |sigs| != |pks| ==> r.RuntimeThrown?
    ensures |sigs| == |pks| ==> (r.NullPointerThrown? <==> !Provable(s, pks, scId, root))
    ensures |sigs| == |pks| ==>
              (r.NullPointerThrown? <==> || s.objs[scId].pointer == 0 || s.objs[root].pointer == 0
                                         || exists i :: 0 <= i < |pks| && s.objs[pks[i]].pointer == 0)
    ensures |sigs| == |pks| && Provable(s, pks, scId, root) ==>
              var m := MsgToSign(prm, FeIn(s, scId), epoch, FeIn(s, root), btrFee, ftMin, mrBt);
              var keys, options := KeysIn(s, pks), SigsIn(s, sigs);
              if m.Err? then r == if m.error.Panicked? then RuntimeThrown else NullReturned
              else if !ChecksSucceed(prm, m.value.1, keys, options) then
                exists i, e :: FailsFirst(prm, m.value.1, keys, options, i, e)
                               && r == if e.Panicked? then RuntimeThrown else NullReturned
              else
                var v := NativeCount(prm, m.value.1, keys, options, |pks|);
                var cert := Certificate(FeIn(s, scId), epoch, FeIn(s, root), m.value.0, btrFee, ftMin);
                r == if overflowChecks && v < threshold then RuntimeThrown
                     else Proved(Proof(Assignment(prm, |pks|, ProverSecret(keys, options, cert, threshold, v))), v)
  {
    hide Inv, SigsIn, KeysIn, FeIn, MsgToSign, NativeCount, ChecksSucceed, FailsFirst, ProverSecret, Assignment;
    if |sigs| != |pks| {
      return RuntimeThrown;
    }
    assert AllOpen(s, pks) <==> !exists i :: 0 <= i < |pks| && s.objs[pks[i]].pointer == 0;
    var read := ReadProofObjects(s, sigs, pks, scId, root);
    if read.None? {
      return NullPointerThrown;
    }
    var (options, keys, id, endRoot) := read.value;
    var proved := CreateProof(prm, keys, options, id, epoch, endRoot, btrFee, ftMin, mrBt, threshold, overflowChecks);
    r := ToJvm(proved);
  }
}

/**
 * The Java classes over native boxes, as objects whose pointer field is set at construction and
 * zeroed by `free`; each method is proved against the ownership state machine.
 */
module JavaObjects {
  import opened Handles
  import opened Wrappers

  /** `FieldElement`, `SchnorrSignature`, `SchnorrSecretKey`, `SchnorrPublicKey`, `PoseidonHash`. */
  class Handle {
    const kind: BoxKind
    var pointer: nat

    constructor (kind: BoxKind, pointer: nat)
      ensures this.kind == kind && this.pointer == pointer
    {
      this.kind, this.pointer := kind, pointer;
    }
  }

  /** All objects created so far, and the native heap behind them. */
  class Jvm {
    var handles: seq<Handle>
    var live: map<nat, Box>
    var dropped: multiset<nat>
    var next: nat
    var fault: bool

    /** Objects have identity: no handle occurs twice. */
    ghost predicate Valid()
      reads this
    {
      forall i, j :: 0 <= i < j < |handles| ==> handles[i] != handles[j]
    }

    ghost function Objects(): (objs: seq<JavaObject>)
      reads this, handles
      ensures |objs| == |handles|
    {
      seq(|handles|, i requires 0 <= i < |handles| reads this, handles => JavaObject(handles[i].kind, handles[i].pointer))
    }

    ghost function Abs(): State
      reads this, handles
    {
      State(live, Objects(), dropped, next, fault)
    }

    constructor ()
      ensures Valid() && Abs() == INIT && handles == []
    {
      handles := [];
      live, dropped, next, fault := map[], multiset{}, 0, false;
    }

    /** The object's pointer is that of a live box of its type. */
    predicate Hits(i: nat)
      requires i < |handles|
      reads this, handles[i]
    {
      handles[i].pointer in live && live[handles[i].pointer].content.Kind() == handles[i].kind
    }

    /** `return_jobject`: box the value at a fresh address and hand the address to a new object. */
    method ReturnJObject(content: Content, addr: nat) returns (h: Handle)
      requires Valid()
      modifies this
      ensures Valid() && fresh(h) && h.kind == content.Kind() && h.pointer == addr
      ensures handles == old(handles) + [h]
      ensures Abs() == Alloc(old(Abs()), content, addr)
    {
      h := new Handle(content.Kind(), addr);
      live := live[addr := Box(next, content)];
      next := next + 1;
      handles := handles + [h];
      assert Objects() == old(Objects()) + [JavaObject(content.Kind(), addr)];
    }

    /** What is at a non-null pointer: its content, or nothing known when it misses its box. */
    method Dereference(i: nat) returns (seen: Seen)
      requires Valid() && i < |handles| && handles[i].pointer != 0
      modifies this`fault
      ensures handles == old(handles)
      ensures (Abs(), seen) == ReadOne(old(Abs()), Required(i))
    {
      if Hits(i) {
        seen := Present(live[handles[i].pointer].content);
      } else {
        fault := true;
        seen := Undefined;
      }
      assert Objects() == old(Objects());
    }

    /** `read_raw_pointer` and `read_mut_raw_pointer` through the object's field: null throws. */
    method ReadRawPointer(i: nat) returns (seen: Seen)
      requires Valid() && i < |handles|
      modifies this`fault
      ensures handles == old(handles)
      ensures (Abs(), seen) == ReadOne(old(Abs()), Required(i))
    {
      if handles[i].pointer == 0 {
        return Threw;
      }
      seen := Dereference(i);
    }

    /** `read_nullable_raw_pointer` through the object's field: null is an absent value. */
    method ReadNullableRawPointer(i: nat) returns (seen: Seen)
      requires Valid() && i < |handles|
      modifies this`fault
      ensures handles == old(handles)
      ensures (Abs(), seen) == ReadOne(old(Abs()), Nullable(i))
    {
      if handles[i].pointer == 0 {
        return Absent;
      }
      seen := Dereference(i);
    }

    /** `freeX` and `close`: drop the box unless the field is already zero, then zero the field. */
    method Free(i: nat)
      requires Valid() && i < |handles|
      modifies this`live, this`dropped, this`fault, handles[i]
      ensures Valid() && handles == old(handles)
      ensures Abs() == Handles.Free(old(Abs()), i)
    {
      ghost var s := Abs();
      var h := handles[i];
      if h.pointer != 0 {
        if Hits(i) {
          dropped := dropped + multiset{live[h.pointer].id};
          live := live - {h.pointer};
        } else {
          fault := true;
        }
        h.pointer := 0;
        assert Objects() == s.objs[i := s.objs[i].(pointer := 0)];
      }
    }

    /** `SchnorrKeyPair.close`: the public key, then the secret key. */
    method CloseKeyPair(secretKey: nat, publicKey: nat)
      requires Valid() && secretKey < |handles| && publicKey < |handles|
      modifies this`live, this`dropped, this`fault, handles[secretKey], handles[publicKey]
      ensures Valid() && handles == old(handles)
      ensures Abs() == CloseAll(old(Abs()), [publicKey, secretKey])
    {
      ghost var s := Abs();
      Free(publicKey);
      ghost var t := Abs();
      Free(secretKey);
      assert [publicKey, secretKey][1..] == [secretKey];
      assert CloseAll(t, [secretKey]) == CloseAll(Handles.Free(t, secretKey), []);
    }

    /**
     * `FieldElement.equals` on two field elements. One object equals itself without touching the heap,
     * even when closed; two open objects are equal exactly when they box the same element; and a
     * closed object throws on either side.
     */
    method Equals(i: nat, j: nat) returns (outcome: Outcome, equal: bool)
      requires Valid() && Inv(Abs()) && i < |handles| && j < |handles|
      requires handles[i].kind == FieldElementBox && handles[j].kind == FieldElementBox
      modifies this`fault
      ensures handles == old(handles) && Abs() == old(Abs())
      ensures outcome == if i == j || AllOpen(Abs(), [i, j]) then Returned else NullPointer
      ensures outcome.Returned? && i == j ==> equal
      ensures outcome.Returned? && i != j ==>
                Open(Abs(), i) && Open(Abs(), j) && (equal <==> ContentOf(Abs(), i) == ContentOf(Abs(), j))
    {
      hide Conserved, Owned;
      if handles[i] == handles[j] {
        return Returned, true;
      }
      assert AllOpen(Abs(), [i, j]) <==> Open(Abs(), [i, j][0]) && Open(Abs(), [i, j][1]);
      var first := ReadRawPointer(i);
      if first.Threw? {
        return NullPointer, false;
      }
      var second := ReadRawPointer(j);
      if second.Threw? {
        return NullPointer, false;
      }
      outcome, equal := Returned, first.content.fe == second.content.fe;
    }

    ghost predicate FreshAddress(addr: nat)
      reads this
    {
      addr != 0 && addr !in live
    }

    /**
     * `update`: the Java guard on the digest, the null checks on digest and input, and then the
     * element joins the digest's inputs. A rejected update changes nothing.
     */
    method Update(d: nat, i: nat) returns (outcome: Outcome)
      requires Valid() && Inv(Abs()) && d < |handles| && i < |handles|
      requires handles[d].kind == PoseidonBox && handles[i].kind == FieldElementBox
      modifies this`fault, this`live
      ensures handles == old(handles)
      ensures outcome == if !Open(old(Abs()), d) then GuardRejects
                         else if !Open(old(Abs()), i) then NullPointer else Returned
      ensures Abs() == if outcome.Returned? then Write(old(Abs()), Mutable(d, Absorb(old(Abs()), d, i))) else old(Abs())
      ensures outcome.Returned? ==>
                var p, q := handles[d].pointer, handles[i].pointer;
                && p in old(live) && q in old(live) && old(live)[p].content.Digest? && old(live)[q].content.Element?
                && var digest, x := old(live)[p].content, old(live)[q].content.fe;
                   live == old(live)[p := Box(old(live)[p].id, Digest(digest.size, digest.inputs + [x]))]
    {
      hide Conserved, Owned;
      if handles[d].pointer == 0 {
        return GuardRejects;
      }
      var digest := ReadRawPointer(d);
      var input := ReadRawPointer(i);
      if input.Threw? {
        return NullPointer;
      }
      var p := handles[d].pointer;
      live := live[p := live[p].(content := digest.content.(inputs := digest.content.inputs + [input.content.fe]))];
      assert Objects() == old(Objects());
      outcome := Returned;
    }

    /** The updates of a fresh digest: the first closed input throws, with those before it absorbed. */
    method UpdateAll(d: nat, inputs: seq<nat>) returns (outcome: Outcome)
      requires Valid() && Inv(Abs()) && FieldElements(Abs(), inputs)
      requires d < |handles| && handles[d].kind == PoseidonBox && handles[d].pointer != 0
      requires ContentOf(Abs(), d) == Digest(|inputs|, [])
      modifies this`fault, this`live
      ensures handles == old(handles)
      ensures outcome == if AllOpen(old(Abs()), inputs) then Returned else NullPointer
      ensures Abs() == Write(old(Abs()), Mutable(d, Digest(|inputs|, Absorbed(old(Abs()), inputs))))
    {
      hide Inv, HitsLiveBox, Absorbed, Absorb, Write;
      ghost var t, n := Abs(), |inputs|;
      ghost var sofar: seq<int> := [];
      WriteSame(t, d);
      assert inputs[0..] == inputs;
      for k := 0 to |inputs|
        invariant Valid() && handles == old(handles)
        invariant Abs() == Write(t, Mutable(d, Digest(n, sofar)))
        invariant sofar + Absorbed(t, inputs[k..]) == Absorbed(t, inputs)
        invariant AllOpen(t, inputs[..k])
      {
        AbsorbWritten(t, d, n, sofar, inputs[k]);
        AbsorbStep(t, inputs, k, sofar);
        outcome := Update(d, inputs[k]);
        if !outcome.Returned? {
          return;
        }
        sofar := sofar + [FeOf(t, inputs[k])];
      }
      outcome := Returned;
      AbsorbStep(t, inputs, |inputs|, sofar);
      assert inputs[..|inputs|] == inputs;
    }

    /**
     * `finalizeHash`: a digest updated as often as declared gives a new field element with the hash of
     * its inputs in order; otherwise there is no result.
     */
    method FinalizeHash(hash: seq<int> -> int, d: nat, addr: nat) returns (outcome: Outcome, output: Option<Handle>)
      requires Valid() && Inv(Abs()) && d < |handles| && handles[d].kind == PoseidonBox
      modifies this
      ensures Valid() && old(handles) <= handles
      ensures outcome == if Open(old(Abs()), d) then Returned else GuardRejects
      ensures output.Some? <==> Open(old(Abs()), d) && var c := ContentOf(old(Abs()), d); |c.inputs| == c.size
      ensures output.Some? ==>
                && fresh(output.value) && handles == old(handles) + [output.value]
                && output.value.kind == FieldElementBox && output.value.pointer == addr
      ensures Abs() == if output.Some? then Alloc(old(Abs()), Element(hash(ContentOf(old(Abs()), d).inputs)), addr)
                       else old(Abs())
    {
      hide Conserved, Owned;
      if handles[d].pointer == 0 {
        return GuardRejects, None;
      }
      var digest := ReadRawPointer(d);
      if |digest.content.inputs| != digest.content.size {
        return Returned, None;
      }
      var h := ReturnJObject(Element(hash(digest.content.inputs)), addr);
      outcome, output := Returned, Some(h);
    }

    /**
     * `computePoseidonHash`: allocate a digest, update it with every input, finalize it into a new
     * field element, free it. Reading a closed input throws out of the loop, past the free.
     */
    method ComputePoseidonHash(hash: seq<int> -> int, inputs: seq<nat>, digestAddr: nat, outputAddr: nat)
      returns (outcome: Outcome, output: Option<Handle>)
      requires Valid() && Inv(Abs()) && FieldElements(Abs(), inputs)
      requires FreshAddress(digestAddr) && FreshAddress(outputAddr) && digestAddr != outputAddr
      modifies this
      ensures Valid() && old(handles) <= handles
      ensures outcome == if AllOpen(old(Abs()), inputs) then Returned else NullPointer
      ensures output.Some? <==> outcome.Returned?
      ensures output.Some? ==>
                && |handles| == |old(handles)| + 2 && handles[|old(handles)| + 1] == output.value
                && output.value.kind == FieldElementBox && output.value.pointer == outputAddr
      ensures Abs() == AfterPoseidonHash(old(Abs()), hash, inputs, digestAddr, outputAddr)
    {
      hide Inv, HitsLiveBox, NativeFree, Alloc;
      ghost var s := Abs();
      var d := |handles|;
      var digest := ReturnJObject(Digest(|inputs|, []), digestAddr);
      DigestStarted(s, inputs, digestAddr);
      DigestWritten(s, |inputs|, Absorbed(s, inputs), digestAddr);
      outcome := UpdateAll(d, inputs);
      output := None;
      if outcome.NullPointer? {
        return;
      }
      AllocKeeps(s, Digest(|inputs|, Absorbed(s, inputs)), digestAddr);
      AbsorbedAll(s, inputs);
      outcome, output := FinalizeHash(hash, d, outputAddr);
      Free(d);
      outcome := Returned;
    }
  }

  // ----- the digest of `computePoseidonHash` -----

  ghost predicate FieldElements(s: State, inputs: seq<nat>) {
    InRange(s, inputs) && forall k :: 0 <= k < |inputs| ==> s.objs[inputs[k]].kind == FieldElementBox
  }

  /** The element boxed by an open object. */
  ghost function FeOf(s: State, i: nat): (r: int)
    requires Inv(s) && i < |s.objs| && s.objs[i].kind == FieldElementBox && Open(s, i)
    ensures s.objs[i].pointer in s.live && s.live[s.objs[i].pointer].content == Element(r)
  {
    ContentOf(s, i).fe
  }

  /** The digest of `d` with the element of `i` added. */
  ghost function Absorb(s: State, d: nat, i: nat): (c: Content)
    requires Inv(s) && d < |s.objs| && i < |s.objs| && Open(s, d) && Open(s, i)
    requires s.objs[d].kind == PoseidonBox && s.objs[i].kind == FieldElementBox
    ensures c.Digest?
  {
    var c := ContentOf(s, d);
    Digest(c.size, c.inputs + [FeOf(s, i)])
  }

  /** The elements of the inputs up to the first closed one, in order. */
  ghost function Absorbed(s: State, inputs: seq<nat>): seq<int>
    requires Inv(s) && FieldElements(s, inputs)
    decreases |inputs|
  {
    if inputs == [] || !Open(s, inputs[0]) then [] else [FeOf(s, inputs[0])] + Absorbed(s, inputs[1..])
  }

  /** One step along the inputs: an open one is absorbed next, and a closed one ends it. */
  lemma AbsorbStep(t: State, inputs: seq<nat>, k: nat, sofar: seq<int>)
    requires Inv(t) && FieldElements(t, inputs) && k <= |inputs|
    requires sofar + Absorbed(t, inputs[k..]) == Absorbed(t, inputs)
    ensures k < |inputs| && Open(t, inputs[k]) ==>
              sofar + [FeOf(t, inputs[k])] + Absorbed(t, inputs[k + 1..]) == Absorbed(t, inputs)
    ensures k == |inputs| || !Open(t, inputs[k]) ==> Absorbed(t, inputs) == sofar
  {
    hide Inv;
    if k < |inputs| {
      assert inputs[k..][0] == inputs[k] && inputs[k..][1..] == inputs[k + 1..];
    } else {
      assert inputs[k..] == [];
    }
  }

  lemma {:induction false} AbsorbedAll(s: State, inputs: seq<nat>)
    requires Inv(s) && FieldElements(s, inputs)
    ensures |Absorbed(s, inputs)| <= |inputs|
    ensures |Absorbed(s, inputs)| == |inputs| <==> AllOpen(s, inputs)
    ensures forall k :: 0 <= k < |Absorbed(s, inputs)| ==>
              Open(s, inputs[k]) && Absorbed(s, inputs)[k] == FeOf(s, inputs[k])
    ensures !AllOpen(s, inputs) ==> !Open(s, inputs[|Absorbed(s, inputs)|])
    decreases |inputs|
  {
    hide Inv;
    if inputs != [] && Open(s, inputs[0]) {
      AbsorbedAll(s, inputs[1..]);
      assert AllOpen(s, inputs[1..]) ==> AllOpen(s, inputs) by {
        assert forall k :: 0 < k < |inputs| ==> inputs[k] == inputs[1..][k - 1];
      }
      assert AllOpen(s, inputs) ==> AllOpen(s, inputs[1..]);
    }
  }

  /** Writing what is there already changes nothing. */
  lemma WriteSame(t: State, d: nat)
    requires Inv(t) && d < |t.objs| && Open(t, d)
    ensures Write(t, Mutable(d, ContentOf(t, d))) == t
  {
    assert HitsLiveBox(t, t.objs[d]);
  }

  /** One more element in the digest, on top of those written so far. */
  lemma AbsorbWritten(t: State, d: nat, n: nat, sofar: seq<int>, i: nat)
    requires Inv(t) && d < |t.objs| && i < |t.objs| && Open(t, d)
    requires t.objs[d].kind == PoseidonBox && t.objs[i].kind == FieldElementBox
    ensures var u := Write(t, Mutable(d, Digest(n, sofar)));
            && Inv(u) && u.objs == t.objs
            && (Open(t, i) ==> Write(u, Mutable(d, Absorb(u, d, i))) == Write(t, Mutable(d, Digest(n, sofar + [FeOf(t, i)]))))
  {
    hide Inv;
    var u := Write(t, Mutable(d, Digest(n, sofar)));
    WriteKeeps(t, Mutable(d, Digest(n, sofar)));
    if Open(t, i) {
      DistinctBoxes(t, d, i);
      assert ContentOf(u, d) == Digest(n, sofar) && FeOf(u, i) == FeOf(t, i);
    }
  }

  /** Open objects of different kinds have different, live boxes. */
  lemma DistinctBoxes(t: State, d: nat, i: nat)
    requires Inv(t) && d < |t.objs| && i < |t.objs| && Open(t, d) && Open(t, i)
    requires t.objs[d].kind != t.objs[i].kind
    ensures t.objs[d].pointer != t.objs[i].pointer
    ensures HitsLiveBox(t, t.objs[d]) && HitsLiveBox(t, t.objs[i])
  {
  }

  /** Objects and their boxes that stay as they are absorb the same. */
  lemma {:induction false} AbsorbedSame(s: State, t: State, inputs: seq<nat>)
    requires Inv(s) && Inv(t) && FieldElements(s, inputs) && s.objs <= t.objs
    requires forall a :: a in s.live ==> a in t.live && t.live[a] == s.live[a]
    ensures FieldElements(t, inputs) && Absorbed(t, inputs) == Absorbed(s, inputs)
    decreases |inputs|
  {
    hide Conserved, Owned;
    if inputs != [] {
      AbsorbedSame(s, t, inputs[1..]);
      assert t.objs[inputs[0]] == s.objs[inputs[0]];
    }
  }

  /** Behind a digest just allocated the inputs are unchanged. */
  lemma DigestStarted(s: State, inputs: seq<nat>, digestAddr: nat)
    requires Inv(s) && FieldElements(s, inputs) && digestAddr != 0 && digestAddr !in s.live
    ensures var t := Alloc(s, Digest(|inputs|, []), digestAddr);
            && Inv(t) && FieldElements(t, inputs)
            && Absorbed(t, inputs) == Absorbed(s, inputs)
            && (AllOpen(t, inputs) <==> AllOpen(s, inputs))
  {
    hide Inv, HitsLiveBox;
    AllocKeeps(s, Digest(|inputs|, []), digestAddr);
    AbsorbedSame(s, Alloc(s, Digest(|inputs|, []), digestAddr), inputs);
  }

  /** Writing into a digest just allocated is allocating it with that content. */
  lemma DigestWritten(s: State, n: nat, xs: seq<int>, addr: nat)
    requires addr != 0
    ensures var t, d := Alloc(s, Digest(n, []), addr), |s.objs|;
            && HitsLiveBox(t, t.objs[d])
            && ContentOf(t, d) == Digest(n, [])
            && Write(t, Mutable(d, Digest(n, xs))) == Alloc(s, Digest(n, xs), addr)
  {
    assert Write(Alloc(s, Digest(n, []), addr), Mutable(|s.objs|, Digest(n, xs))).live == Alloc(s, Digest(n, xs), addr).live;
  }

  /** The heap with the digest of a call in it, as far as its inputs could be read. */
  ghost function WithDigest(s: State, inputs: seq<nat>, digestAddr: nat): State
    requires Inv(s) && FieldElements(s, inputs)
  {
    Alloc(s, Digest(|inputs|, Absorbed(s, inputs)), digestAddr)
  }

  /** Where `computePoseidonHash` leaves the heap, whether it returns or throws. */
  ghost function AfterPoseidonHash(s: State, hash: seq<int> -> int, inputs: seq<nat>, digestAddr: nat, outputAddr: nat): State
    requires Inv(s) && FieldElements(s, inputs)
  {
    var filled := WithDigest(s, inputs, digestAddr);
    if AllOpen(s, inputs)
    then Handles.Free(Alloc(filled, Element(hash(Absorbed(s, inputs))), outputAddr), |s.objs|)
    else filled
  }

  /** The addresses of live digests. */
  function Digests(s: State): set<nat> {
    set a | a in s.live && s.live[a].content.Digest?
  }

  /**
   * For every input length, the digest population is unchanged exactly when every input is open. Then
   * the one new box holds the hash of the inputs' elements in order; otherwise the call throws and its
   * digest, with the inputs before the first closed one, stays live with no handle to close it by.
   */
  lemma PoseidonHashPopulation(s: State, hash: seq<int> -> int, inputs: seq<nat>, digestAddr: nat, outputAddr: nat)
    requires Inv(s) && FieldElements(s, inputs)
    requires digestAddr != 0 && outputAddr != 0 && digestAddr != outputAddr
    requires digestAddr !in s.live && outputAddr !in s.live
    ensures var end := AfterPoseidonHash(s, hash, inputs, digestAddr, outputAddr);
            && Inv(end)
            && (Digests(end) == Digests(s) <==> AllOpen(s, inputs))
            && (AllOpen(s, inputs) ==>
                  && |Absorbed(s, inputs)| == |inputs|
                  && (forall k :: 0 <= k < |inputs| ==> Absorbed(s, inputs)[k] == FeOf(s, inputs[k]))
                  && end.live == s.live[outputAddr := Box(s.next + 1, Element(hash(Absorbed(s, inputs))))])
            && (!AllOpen(s, inputs) ==>
                  end.live == s.live[digestAddr := Box(s.next, Digest(|inputs|, Absorbed(s, inputs)))])
  {
    hide Inv, NativeFree, HitsLiveBox, Owning, Owned, Conserved;
    var xs := Absorbed(s, inputs);
    var t := WithDigest(s, inputs, digestAddr);
    AllocKeeps(s, Digest(|inputs|, xs), digestAddr);
    AbsorbedAll(s, inputs);
    if AllOpen(s, inputs) {
      var u := Alloc(t, Element(hash(xs)), outputAddr);
      AllocKeeps(t, Element(hash(xs)), outputAddr);
      FreeKeeps(u, |s.objs|);
      assert u.live - {digestAddr} == s.live[outputAddr := Box(s.next + 1, Element(hash(xs)))];
    } else {
      assert digestAddr in Digests(t);
    }
  }
}

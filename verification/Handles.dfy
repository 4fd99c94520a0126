/**
 * Ownership of native boxes by Java objects: native calls leak a box into an object's pointer
 * field, later calls read through it, and closing drops the box and zeroes the field.
 */
module Handles {
  import opened Wrappers
  import R1cs

  datatype BoxKind = FieldElementBox | SecretKeyBox | PublicKeyBox | SignatureBox | PoseidonBox

  /** What is boxed; a digest is its declared length and the elements it was updated with. */
  datatype Content =
    | Element(fe: int)
    | SecretKey(sk: int)
    | PublicKey(pk: R1cs.Pk)
    | Signature(sig: R1cs.Sig)
    | Digest(size: nat, inputs: seq<int>)
  {
    function Kind(): BoxKind {
      match this
      case Element(_) => FieldElementBox
      case SecretKey(_) => SecretKeyBox
      case PublicKey(_) => PublicKeyBox
      case Signature(_) => SignatureBox
      case Digest(_, _) => PoseidonBox
    }
  }

  /** A heap allocation; its number tells apart boxes that reuse an address. */
  datatype Box = Box(id: nat, content: Content)

  /** A Java object with its pointer field; 0 is null. */
  datatype JavaObject = JavaObject(kind: BoxKind, pointer: nat)

  /**
   * How a call ends: normally, rejected by a Java-side guard (`IllegalStateException`, for a
   * signature `IllegalArgumentException`), or by the native null check.
   */
  datatype Outcome = Returned | GuardRejects | NullPointer

  /** `fault` records that some read or drop missed a live box of the right type. */
  datatype State = State(live: map<nat, Box>, objs: seq<JavaObject>, dropped: multiset<nat>, next: nat, fault: bool)

  const INIT: State := State(map[], [], multiset{}, 0, false)

  predicate HitsLiveBox(s: State, obj: JavaObject) {
    obj.pointer in s.live && s.live[obj.pointer].content.Kind() == obj.kind
  }

  predicate InRange(s: State, handles: seq<nat>) {
    forall k :: 0 <= k < |handles| ==> handles[k] < |s.objs|
  }

  /**
   * How a native call reads one of its objects: `read_raw_pointer`, `read_nullable_raw_pointer`, or
   * `read_mut_raw_pointer` with what the call leaves in the box.
   */
  datatype Read = Required(handle: nat) | Nullable(handle: nat) | Mutable(handle: nat, becomes: Content) {
    predicate Allowed(s: State) {
      && handle < |s.objs|
      && (Mutable? ==> becomes.Kind() == s.objs[handle].kind)
    }
  }

  predicate ReadsAllowed(s: State, inputs: seq<Read>) {
    forall k :: 0 <= k < |inputs| ==> inputs[k].Allowed(s)
  }

  /** What a read gives the call; nothing is known of memory that is no live box of the right type. */
  datatype Seen = Threw | Absent | Present(content: Content) | Undefined

  /** A box that a call makes for its caller. */
  datatype NewBox = NewBox(content: Content, addr: nat)

  // ----- single actions -----

  /** `return_jobject`: a fresh box whose address goes into a new object. */
  function Alloc(s: State, content: Content, addr: nat): State {
    s.(live := s.live[addr := Box(s.next, content)], objs := s.objs + [JavaObject(content.Kind(), addr)], next := s.next + 1)
  }

  /** The `nativeFree*` functions: nothing for null, otherwise `Box::from_raw` and drop. */
  function NativeFree(s: State, obj: JavaObject): State {
    if obj.pointer == 0 then s
    else if HitsLiveBox(s, obj) then
      s.(live := s.live - {obj.pointer}, dropped := s.dropped + multiset{s.live[obj.pointer].id})
    else s.(fault := true)
  }

  /** `free` and `close`: guarded by the Java side, which zeroes the field afterwards. */
  function Free(s: State, i: nat): (s': State)
    requires i < |s.objs|
    ensures |s'.objs| == |s.objs|
  {
    if s.objs[i].pointer == 0 then s
    else
      var freed := NativeFree(s, s.objs[i]);
      freed.(objs := s.objs[i := s.objs[i].(pointer := 0)])
  }

  /** One read: null throws unless the read is nullable, and a miss of the heap is recorded. */
  function ReadOne(s: State, read: Read): (State, Seen)
    requires read.Allowed(s)
  {
    var obj := s.objs[read.handle];
    if obj.pointer == 0 then (s, if read.Nullable? then Absent else Threw)
    else if HitsLiveBox(s, obj) then (s, Present(s.live[obj.pointer].content))
    else (s.(fault := true), Undefined)
  }

  /** The reads of a call, in order; the first that throws ends them. */
  function ReadAll(s: State, inputs: seq<Read>): (r: (State, Option<seq<Seen>>))
    requires ReadsAllowed(s, inputs)
    ensures r.0 == s.(fault := r.0.fault)
    decreases |inputs|
  {
    if inputs == [] then (s, Some([]))
    else
      var (t, seen) := ReadOne(s, inputs[0]);
      if seen.Threw? then (t, None)
      else
        var (u, rest) := ReadAll(t, inputs[1..]);
        (u, if rest.None? then None else Some([seen] + rest.value))
  }

  /** What a call that has read its objects leaves in one of them. */
  function Write(s: State, read: Read): State
    requires read.Allowed(s)
  {
    if !read.Mutable? then s
    else
      var obj := s.objs[read.handle];
      if HitsLiveBox(s, obj) then s.(live := s.live[obj.pointer := s.live[obj.pointer].(content := read.becomes)])
      else s.(fault := true)
  }

  function WriteAll(s: State, inputs: seq<Read>): State
    requires ReadsAllowed(s, inputs)
    decreases |inputs|
  {
    if inputs == [] then s else WriteAll(Write(s, inputs[0]), inputs[1..])
  }

  function AllocAll(s: State, results: seq<NewBox>): State
    decreases |results|
  {
    if results == [] then s
    else AllocAll(Alloc(s, results[0].content, results[0].addr), results[1..])
  }

  function CloseAll(s: State, handles: seq<nat>): State
    requires InRange(s, handles)
    decreases |handles|
  {
    if handles == [] then s else CloseAll(Free(s, handles[0]), handles[1..])
  }

  // ----- runs -----

  /**
   * What Java code can do: call a native method (Java checks the guarded objects; Rust reads the
   * listed ones, writes the mutable ones and boxes the results), construct an object around null, or
   * close objects in order, as a key pair closes its public and then its secret key.
   */
  datatype Op =
    | Native(guards: seq<nat>, inputs: seq<Read>, results: seq<NewBox>)
    | NewNull(kind: BoxKind)
    | Close(handles: seq<nat>)

  /** The allocator returns distinct, non-null addresses that are not in use. */
  predicate FreshBoxes(s: State, results: seq<NewBox>) {
    && (forall k :: 0 <= k < |results| ==> results[k].addr != 0 && results[k].addr !in s.live)
    && (forall j, k :: 0 <= j < k < |results| ==> results[j].addr != results[k].addr)
  }

  predicate Allowed(s: State, op: Op) {
    match op
    case Native(guards, inputs, results) => InRange(s, guards) && ReadsAllowed(s, inputs) && FreshBoxes(s, results)
    case NewNull(_) => true
    case Close(handles) => InRange(s, handles)
  }

  function Step(s: State, op: Op): (State, Outcome)
    requires Allowed(s, op)
  {
    match op
    case Native(guards, inputs, results) =>
      if exists k :: 0 <= k < |guards| && s.objs[guards[k]].pointer == 0 then (s, GuardRejects)
      else
        var (t, seen) := ReadAll(s, inputs);
        if seen.None? then (t, NullPointer) else (AllocAll(WriteAll(t, inputs), results), Returned)
    case NewNull(kind) => (s.(objs := s.objs + [JavaObject(kind, 0)]), Returned)
    case Close(handles) => (CloseAll(s, handles), Returned)
  }

  ghost predicate IsRun(s: State, ops: seq<Op>, end: State)
    decreases |ops|
  {
    if ops == [] then end == s
    else Allowed(s, ops[0]) && IsRun(Step(s, ops[0]).0, ops[1..], end)
  }

  // ----- what every run keeps -----

  /** Open objects own distinct live boxes of their own type. */
  ghost predicate Owning(s: State) {
    && (forall i :: 0 <= i < |s.objs| && s.objs[i].pointer != 0 ==> HitsLiveBox(s, s.objs[i]))
    && (forall i, j :: 0 <= i < j < |s.objs| && s.objs[i].pointer != 0 ==> s.objs[i].pointer != s.objs[j].pointer)
  }

  /** Every live box is owned by some object: nothing leaks. */
  ghost predicate Owned(s: State) {
    0 !in s.live && forall a :: a in s.live ==> exists i :: 0 <= i < |s.objs| && s.objs[i].pointer == a
  }

  ghost predicate IsLive(s: State, id: nat) {
    exists a :: a in s.live && s.live[a].id == id
  }

  /** Each allocation so far is either live or dropped exactly once, and nothing else was dropped. */
  ghost predicate Conserved(s: State) {
    && (forall a :: a in s.live ==> s.live[a].id < s.next)
    && (forall a, b :: a in s.live && b in s.live && s.live[a].id == s.live[b].id ==> a == b)
    && (forall id: nat :: s.dropped[id] == if id < s.next && !IsLive(s, id) then 1 else 0)
  }

  ghost predicate Inv(s: State) {
    !s.fault && Owning(s) && Owned(s) && Conserved(s)
  }

  lemma OwnedExtends(s: State, t: State, a: nat)
    requires Owned(s) && a in s.live && |s.objs| <= |t.objs|
    requires forall i :: 0 <= i < |s.objs| && s.objs[i].pointer == a ==> t.objs[i] == s.objs[i]
    ensures exists i :: 0 <= i < |t.objs| && t.objs[i].pointer == a
  {
    var i :| 0 <= i < |s.objs| && s.objs[i].pointer == a;
    assert t.objs[i].pointer == a;
  }

  lemma AllocOwned(s: State, content: Content, addr: nat)
    requires Inv(s) && addr != 0 && addr !in s.live
    ensures Owned(Alloc(s, content, addr))
  {
    var t := Alloc(s, content, addr);
    forall a | a in t.live
      ensures exists i :: 0 <= i < |t.objs| && t.objs[i].pointer == a
    {
      if a == addr {
        assert t.objs[|s.objs|].pointer == a;
      } else {
        OwnedExtends(s, t, a);
      }
    }
  }

  lemma AllocConserved(s: State, content: Content, addr: nat)
    requires Inv(s) && addr != 0 && addr !in s.live
    ensures Conserved(Alloc(s, content, addr))
  {
    var t := Alloc(s, content, addr);
    forall id: nat
      ensures IsLive(t, id) <==> IsLive(s, id) || id == s.next
    {
      if a :| a in s.live && s.live[a].id == id {
        assert a in t.live && t.live[a].id == id;
      }
      assert addr in t.live && t.live[addr].id == s.next;
    }
  }

  lemma AllocKeeps(s: State, content: Content, addr: nat)
    requires Inv(s) && addr != 0 && addr !in s.live
    ensures Inv(Alloc(s, content, addr))
  {
    AllocOwned(s, content, addr);
    AllocConserved(s, content, addr);
  }

  lemma FreeOwned(s: State, i: nat)
    requires Inv(s) && i < |s.objs| && s.objs[i].pointer != 0
    ensures Owned(Free(s, i))
  {
    var t := Free(s, i);
    assert HitsLiveBox(s, s.objs[i]);
    forall a | a in t.live
      ensures exists j :: 0 <= j < |t.objs| && t.objs[j].pointer == a
    {
      OwnedExtends(s, t, a);
    }
  }

  lemma FreeConserved(s: State, i: nat)
    requires Inv(s) && i < |s.objs| && s.objs[i].pointer != 0
    ensures Conserved(Free(s, i))
  {
    var p, t := s.objs[i].pointer, Free(s, i);
    assert HitsLiveBox(s, s.objs[i]);
    forall id: nat
      ensures IsLive(t, id) <==> IsLive(s, id) && id != s.live[p].id
    {
      if a :| a in s.live && s.live[a].id == id {
        if a != p {
          assert a in t.live && t.live[a].id == id;
        }
      }
    }
  }

  lemma FreeKeeps(s: State, i: nat)
    requires Inv(s) && i < |s.objs|
    ensures Inv(Free(s, i))
    ensures Free(s, i).objs == s.objs[i := JavaObject(s.objs[i].kind, 0)]
    ensures s.objs[i].pointer == 0 ==> Free(s, i) == s
    ensures s.objs[i].pointer != 0 ==>
              Free(s, i).live == s.live - {s.objs[i].pointer}
              && Free(s, i).dropped == s.dropped + multiset{s.live[s.objs[i].pointer].id}
  {
    if s.objs[i].pointer != 0 {
      assert HitsLiveBox(s, s.objs[i]);
      FreeOwned(s, i);
      FreeConserved(s, i);
    }
  }

  predicate Open(s: State, handle: nat)
    requires handle < |s.objs|
  {
    s.objs[handle].pointer != 0
  }

  predicate AllOpen(s: State, handles: seq<nat>)
    requires InRange(s, handles)
  {
    forall k :: 0 <= k < |handles| ==> Open(s, handles[k])
  }

  /** The null check passes: only a nullable read may find a closed object. */
  predicate Passes(s: State, read: Read)
    requires read.Allowed(s)
  {
    read.Nullable? || Open(s, read.handle)
  }

  predicate AllPass(s: State, inputs: seq<Read>)
    requires ReadsAllowed(s, inputs)
  {
    forall k :: 0 <= k < |inputs| ==> Passes(s, inputs[k])
  }

  /** The content of an open object's box. */
  function ContentOf(s: State, handle: nat): (content: Content)
    requires handle < |s.objs| && Open(s, handle) && HitsLiveBox(s, s.objs[handle])
    ensures content.Kind() == s.objs[handle].kind
    ensures s.live[s.objs[handle].pointer] == Box(s.live[s.objs[handle].pointer].id, content)
  {
    s.live[s.objs[handle].pointer].content
  }

  /** What a read that passes must give, straight from the heap. */
  predicate SeesRight(s: State, read: Read, seen: Seen)
    requires read.Allowed(s)
  {
    var p := s.objs[read.handle].pointer;
    if p == 0 then seen == Absent else p in s.live && seen == Present(s.live[p].content)
  }

  /**
   * The reads of a call: no read misses a live box of its type, the call is stopped exactly by a closed
   * object whose read is not nullable, and otherwise it sees every box's content, and nothing at
   * exactly the closed objects.
   */
  lemma {:induction false} ReadsExact(s: State, inputs: seq<Read>)
    requires Inv(s) && ReadsAllowed(s, inputs)
    ensures ReadAll(s, inputs).0 == s
    ensures ReadAll(s, inputs).1.Some? <==> AllPass(s, inputs)
    ensures var seen := ReadAll(s, inputs).1;
            seen.Some? ==> |seen.value| == |inputs|
                           && forall k :: 0 <= k < |inputs| ==> SeesRight(s, inputs[k], seen.value[k])
    decreases |inputs|
  {
    if inputs != [] && Passes(s, inputs[0]) {
      ReadsExact(s, inputs[1..]);
      if AllPass(s, inputs[1..]) {
        assert forall k :: 0 < k < |inputs| ==> inputs[k] == inputs[1..][k - 1];
      }
    }
  }

  /** The null checks fail exactly when a closed object is read other than as nullable. */
  lemma AllPassExact(s: State, inputs: seq<Read>)
    requires ReadsAllowed(s, inputs)
    ensures AllPass(s, inputs)
       <==> forall k :: 0 <= k < |inputs| ==> inputs[k].Nullable? || s.objs[inputs[k].handle].pointer != 0
  {
    assert forall k :: 0 <= k < |inputs| ==>
             (Passes(s, inputs[k]) <==> inputs[k].Nullable? || s.objs[inputs[k].handle].pointer != 0);
  }

  lemma WriteOwned(s: State, read: Read)
    requires Inv(s) && read.Allowed(s) && Passes(s, read)
    ensures Owned(Write(s, read))
  {
    hide Conserved;
    var t := Write(s, read);
    assert read.Mutable? ==> HitsLiveBox(s, s.objs[read.handle]);
    forall a | a in t.live
      ensures exists i :: 0 <= i < |t.objs| && t.objs[i].pointer == a
    {
      OwnedExtends(s, t, a);
    }
  }

  lemma WriteConserved(s: State, read: Read)
    requires Inv(s) && read.Allowed(s) && Passes(s, read)
    ensures Conserved(Write(s, read))
  {
    hide Owned;
    var t := Write(s, read);
    assert read.Mutable? ==> HitsLiveBox(s, s.objs[read.handle]);
    forall id: nat
      ensures IsLive(t, id) <==> IsLive(s, id)
    {
      if a :| a in s.live && s.live[a].id == id {
        assert a in t.live && t.live[a].id == id;
      }
    }
  }

  /** Writing changes contents only: no box moves, is made or is dropped. */
  lemma WriteKeeps(s: State, read: Read)
    requires Inv(s) && read.Allowed(s) && Passes(s, read)
    ensures Inv(Write(s, read)) && Write(s, read).objs == s.objs && Write(s, read).live.Keys == s.live.Keys
    ensures Write(s, read) == s.(live := Write(s, read).live)
    ensures var p := s.objs[read.handle].pointer;
            forall a :: a in s.live ==>
              Write(s, read).live[a] == if read.Mutable? && a == p then Box(s.live[a].id, read.becomes) else s.live[a]
  {
    WriteOwned(s, read);
    WriteConserved(s, read);
    hide Owned, Conserved;
    assert read.Mutable? ==> HitsLiveBox(s, s.objs[read.handle]);
  }

  lemma {:induction false} WriteAllKeeps(s: State, inputs: seq<Read>)
    requires Inv(s) && ReadsAllowed(s, inputs) && AllPass(s, inputs)
    ensures WriteAll(s, inputs) == s.(live := WriteAll(s, inputs).live)
    ensures Inv(WriteAll(s, inputs)) && WriteAll(s, inputs).objs == s.objs && WriteAll(s, inputs).live.Keys == s.live.Keys
    decreases |inputs|
  {
    hide Inv;
    if inputs != [] {
      WriteKeeps(s, inputs[0]);
      WriteAllKeeps(Write(s, inputs[0]), inputs[1..]);
    }
  }

  lemma {:induction false} AllocAllKeeps(s: State, results: seq<NewBox>)
    requires Inv(s) && FreshBoxes(s, results)
    ensures Inv(AllocAll(s, results))
    decreases |results|
  {
    hide Inv;
    if results != [] {
      AllocKeeps(s, results[0].content, results[0].addr);
      AllocAllKeeps(Alloc(s, results[0].content, results[0].addr), results[1..]);
    }
  }

  lemma {:induction false} CloseAllKeeps(s: State, handles: seq<nat>)
    requires Inv(s) && InRange(s, handles)
    ensures Inv(CloseAll(s, handles))
    decreases |handles|
  {
    if handles != [] {
      FreeKeeps(s, handles[0]);
      CloseAllKeeps(Free(s, handles[0]), handles[1..]);
    }
  }

  /** An object built around null: it owns nothing, is missing for a nullable read, and closes for free. */
  lemma NewNullKeeps(s: State, kind: BoxKind)
    requires Inv(s)
    ensures var t, i := Step(s, NewNull(kind)).0, |s.objs|;
            && Inv(t) && Step(s, NewNull(kind)).1.Returned?
            && |t.objs| == i + 1 && t.objs[..i] == s.objs && t.objs[i].kind == kind
            && t.live == s.live && t.dropped == s.dropped && t.next == s.next
            && ReadOne(t, Nullable(i)) == (t, Absent) && ReadOne(t, Required(i)) == (t, Threw)
            && Free(t, i) == t
  {
    var t := Step(s, NewNull(kind)).0;
    forall a | a in t.live
      ensures exists i :: 0 <= i < |t.objs| && t.objs[i].pointer == a
    {
      OwnedExtends(s, t, a);
    }
    forall id: nat
      ensures IsLive(t, id) <==> IsLive(s, id)
    {
    }
  }

  lemma StepKeeps(s: State, op: Op)
    requires Inv(s) && Allowed(s, op)
    ensures Inv(Step(s, op).0)
  {
    hide Inv;
    match op
    case Native(guards, inputs, results) =>
      ReadsExact(s, inputs);
      if AllPass(s, inputs) {
        WriteAllKeeps(s, inputs);
        AllocAllKeeps(WriteAll(s, inputs), results);
      }
    case NewNull(kind) =>
      NewNullKeeps(s, kind);
    case Close(handles) =>
      CloseAllKeeps(s, handles);
  }

  /** Input `k` is the last of the call that writes to its object. */
  predicate LastWrite(inputs: seq<Read>, k: nat)
    requires k < |inputs|
  {
    inputs[k].Mutable? && forall m :: k < m < |inputs| && inputs[m].Mutable? ==> inputs[m].handle != inputs[k].handle
  }

  lemma OpenIsLive(s: State, i: nat)
    requires Inv(s) && i < |s.objs| && Open(s, i)
    ensures HitsLiveBox(s, s.objs[i])
    ensures forall j :: 0 <= j < |s.objs| && j != i ==> s.objs[j].pointer != s.objs[i].pointer
  {
  }

  /** What the writes of a call leave: the last value written to each object, and the rest untouched. */
  lemma {:induction false} WriteAllExact(s: State, inputs: seq<Read>)
    requires Inv(s) && ReadsAllowed(s, inputs) && AllPass(s, inputs)
    ensures WriteAll(s, inputs).live.Keys == s.live.Keys
    ensures forall k :: 0 <= k < |inputs| && LastWrite(inputs, k) ==>
              var p := s.objs[inputs[k].handle].pointer;
              p in s.live && WriteAll(s, inputs).live[p] == Box(s.live[p].id, inputs[k].becomes)
    ensures forall a :: a in s.live && (forall k :: 0 <= k < |inputs| && inputs[k].Mutable? ==>
                                          s.objs[inputs[k].handle].pointer != a) ==>
              WriteAll(s, inputs).live[a] == s.live[a]
    decreases |inputs|
  {
    hide Inv;
    if inputs != [] {
      var t, rest := Write(s, inputs[0]), inputs[1..];
      WriteKeeps(s, inputs[0]);
      WriteAllExact(t, rest);
      forall k | 0 <= k < |inputs| && LastWrite(inputs, k)
        ensures var p := s.objs[inputs[k].handle].pointer;
                p in s.live && WriteAll(s, inputs).live[p] == Box(s.live[p].id, inputs[k].becomes)
      {
        assert Passes(s, inputs[k]);
        OpenIsLive(s, inputs[k].handle);
        if k == 0 {
          assert forall m :: 0 <= m < |rest| ==> rest[m] == inputs[m + 1];
        } else {
          assert LastWrite(rest, k - 1) && rest[k - 1] == inputs[k];
        }
      }
      forall a | a in s.live && (forall k :: 0 <= k < |inputs| && inputs[k].Mutable? ==>
                                   s.objs[inputs[k].handle].pointer != a)
        ensures WriteAll(s, inputs).live[a] == s.live[a]
      {
        assert forall k :: 0 <= k < |rest| ==> rest[k] == inputs[k + 1];
      }
    }
  }

  /** The new objects of a call, with the addresses of their boxes, in order after those there were. */
  lemma {:induction false} AllocAllObjects(s: State, results: seq<NewBox>)
    ensures var t := AllocAll(s, results);
            && |t.objs| == |s.objs| + |results|
            && (forall i :: 0 <= i < |s.objs| ==> t.objs[i] == s.objs[i])
            && (forall i :: |s.objs| <= i < |t.objs| ==>
                  t.objs[i] == JavaObject(results[i - |s.objs|].content.Kind(), results[i - |s.objs|].addr))
            && t.dropped == s.dropped && t.next == s.next + |results| && t.fault == s.fault
    decreases |results|
  {
    if results != [] {
      AllocAllObjects(Alloc(s, results[0].content, results[0].addr), results[1..]);
    }
  }

  /** The boxes behind them, with their contents, beside those there were. */
  lemma {:induction false} AllocAllBoxes(s: State, results: seq<NewBox>)
    requires FreshBoxes(s, results)
    ensures var t := AllocAll(s, results);
            && (forall a :: a in s.live ==> a in t.live && t.live[a] == s.live[a])
            && (forall k :: 0 <= k < |results| ==>
                  results[k].addr in t.live && t.live[results[k].addr] == Box(s.next + k, results[k].content))
            && (forall a :: a in t.live ==> a in s.live || exists k :: 0 <= k < |results| && results[k].addr == a)
    decreases |results|
  {
    if results != [] {
      var u, t, rest := Alloc(s, results[0].content, results[0].addr), AllocAll(s, results), results[1..];
      assert forall k :: 0 <= k < |rest| ==> rest[k] == results[k + 1];
      AllocAllBoxes(u, rest);
      forall k | 0 <= k < |results|
        ensures results[k].addr in t.live && t.live[results[k].addr] == Box(s.next + k, results[k].content)
      {
        if k > 0 {
          assert results[k] == rest[k - 1];
        }
      }
      forall a | a in t.live
        ensures a in s.live || exists k :: 0 <= k < |results| && results[k].addr == a
      {
        if a !in u.live {
          var k :| 0 <= k < |rest| && rest[k].addr == a;
          assert results[k + 1].addr == a;
        } else if a !in s.live {
          assert results[0].addr == a;
        }
      }
    }
  }

  /**
   * Outcome of a native call: Java rejects closed guarded objects, Rust rejects the remaining closed
   * ones that it does not read as nullable, and a rejected call changes nothing.
   */
  lemma NativeCallExact(s: State, guards: seq<nat>, inputs: seq<Read>, results: seq<NewBox>)
    requires Inv(s) && Allowed(s, Native(guards, inputs, results))
    ensures var outcome := Step(s, Native(guards, inputs, results)).1;
            && (outcome.GuardRejects? <==> exists k :: 0 <= k < |guards| && s.objs[guards[k]].pointer == 0)
            && (outcome.NullPointer? <==>
                  && !outcome.GuardRejects?
                  && exists k :: 0 <= k < |inputs| && !inputs[k].Nullable? && s.objs[inputs[k].handle].pointer == 0)
            && (outcome.Returned? <==> AllOpen(s, guards) && AllPass(s, inputs))
    ensures !AllOpen(s, guards) || !AllPass(s, inputs) ==> Step(s, Native(guards, inputs, results)).0 == s
    ensures AllOpen(s, guards) && AllPass(s, inputs) ==>
              Step(s, Native(guards, inputs, results)).0 == AllocAll(WriteAll(s, inputs), results)
  {
    hide Inv, ReadAll, AllPass;
    ReadsExact(s, inputs);
    AllPassExact(s, inputs);
  }

  /**
   * The whole effect of an accepted call. In every object that it writes it leaves the last value
   * written there; every other box keeps its content; the results become new objects with their
   * addresses and contents, in order; and nothing else comes, goes or moves.
   */
  lemma NativeCallEffect(s: State, guards: seq<nat>, inputs: seq<Read>, results: seq<NewBox>)
    requires Inv(s) && Allowed(s, Native(guards, inputs, results))
    requires Step(s, Native(guards, inputs, results)).1.Returned?
    ensures var t := Step(s, Native(guards, inputs, results)).0;
            && (forall k :: 0 <= k < |inputs| && inputs[k].Mutable?
                            && (forall m :: k < m < |inputs| && inputs[m].Mutable? ==> inputs[m].handle != inputs[k].handle) ==>
                  var p := s.objs[inputs[k].handle].pointer;
                  p in s.live && p in t.live && t.live[p] == Box(s.live[p].id, inputs[k].becomes))
            && (forall a :: a in s.live && (forall k :: 0 <= k < |inputs| && inputs[k].Mutable? ==>
                                              s.objs[inputs[k].handle].pointer != a) ==>
                  a in t.live && t.live[a] == s.live[a])
    ensures var t := Step(s, Native(guards, inputs, results)).0;
            && |t.objs| == |s.objs| + |results|
            && (forall i :: 0 <= i < |s.objs| ==> t.objs[i] == s.objs[i])
            && (forall i :: |s.objs| <= i < |t.objs| ==>
                  t.objs[i] == JavaObject(results[i - |s.objs|].content.Kind(), results[i - |s.objs|].addr))
            && (forall k :: 0 <= k < |results| ==>
                  && results[k].addr in t.live
                  && t.live[results[k].addr] == Box(s.next + k, results[k].content))
            && (forall a :: a in t.live ==> a in s.live || exists k :: 0 <= k < |results| && results[k].addr == a)
            && t.dropped == s.dropped && t.next == s.next + |results| && !t.fault
  {
    assert !s.fault;
    hide Inv, ReadAll, WriteAll, AllocAll;
    NativeCallExact(s, guards, inputs, results);
    WriteAllKeeps(s, inputs);
    WriteAllExact(s, inputs);
    var u := WriteAll(s, inputs);
    AllocAllObjects(u, results);
    AllocAllBoxes(u, results);
    forall k | 0 <= k < |inputs| && inputs[k].Mutable?
               && (forall m :: k < m < |inputs| && inputs[m].Mutable? ==> inputs[m].handle != inputs[k].handle)
      ensures LastWrite(inputs, k)
    {
    }
  }

  /**
   * Ownership over every run: whatever Java does, no read or drop ever misses a live box of the
   * right type, open objects own distinct boxes, no box outlives its objects' closing, and each
   * allocation is dropped at most once.
   */
  lemma {:induction false} EveryRunSafe(s: State, ops: seq<Op>, end: State)
    requires Inv(s) && IsRun(s, ops, end)
    ensures Inv(end)
    decreases |ops|
  {
    if ops != [] {
      StepKeeps(s, ops[0]);
      EveryRunSafe(Step(s, ops[0]).0, ops[1..], end);
    }
  }

  lemma InitSafe()
    ensures Inv(INIT)
  {
  }

  /** Once everything is closed, every box ever allocated has been dropped exactly once. */
  lemma AllClosedAllDropped(s: State)
    requires Inv(s) && AllClosed(s)
    ensures s.live == map[]
    ensures forall id: nat :: s.dropped[id] == if id < s.next then 1 else 0
  {
    assert forall a :: a !in s.live;
    assert s.live == map[];
  }

  ghost predicate AllClosed(s: State) {
    forall i :: 0 <= i < |s.objs| ==> s.objs[i].pointer == 0
  }

  /**
   * Every run from the empty heap: no read or drop ever misses, and if the run ends with everything
   * closed, nothing is live and every box made during the run was dropped exactly once.
   */
  lemma RunsFromInit(ops: seq<Op>, end: State)
    requires IsRun(INIT, ops, end)
    ensures Inv(end) && !end.fault
    ensures forall i :: 0 <= i < |end.objs| && end.objs[i].pointer != 0 ==>
              var p := end.objs[i].pointer;
              && p in end.live && end.live[p].content.Kind() == end.objs[i].kind
              && forall j :: 0 <= j < |end.objs| && j != i ==> end.objs[j].pointer != p
    ensures forall a :: a in end.live ==> exists i :: 0 <= i < |end.objs| && end.objs[i].pointer == a
    ensures forall id: nat :: end.dropped[id] <= 1
    ensures end.next == Boxed(INIT, ops)
    ensures AllClosed(end) ==> end.live == map[]
    ensures AllClosed(end) ==> forall id: nat :: end.dropped[id] == if id < Boxed(INIT, ops) then 1 else 0
  {
    InitSafe();
    EveryRunSafe(INIT, ops, end);
    BoxedCounts(INIT, ops, end);
    if AllClosed(end) {
      AllClosedAllDropped(end);
    }
  }

  /** The number of boxes that a run makes: those of the calls that return. */
  ghost function Boxed(s: State, ops: seq<Op>): nat
    decreases |ops|
  {
    if ops == [] || !Allowed(s, ops[0]) then 0
    else
      var (t, outcome) := Step(s, ops[0]);
      (if ops[0].Native? && outcome.Returned? then |ops[0].results| else 0) + Boxed(t, ops[1..])
  }

  lemma {:induction false} AllocAllCounts(s: State, results: seq<NewBox>)
    ensures AllocAll(s, results).next == s.next + |results|
    decreases |results|
  {
    if results != [] {
      AllocAllCounts(Alloc(s, results[0].content, results[0].addr), results[1..]);
    }
  }

  lemma {:induction false} WriteAllCounts(s: State, inputs: seq<Read>)
    requires ReadsAllowed(s, inputs)
    ensures WriteAll(s, inputs).next == s.next
    decreases |inputs|
  {
    if inputs != [] {
      WriteAllCounts(Write(s, inputs[0]), inputs[1..]);
    }
  }

  lemma {:induction false} CloseAllCounts(s: State, handles: seq<nat>)
    requires InRange(s, handles)
    ensures CloseAll(s, handles).next == s.next
    decreases |handles|
  {
    if handles != [] {
      CloseAllCounts(Free(s, handles[0]), handles[1..]);
    }
  }

  lemma {:induction false} BoxedCounts(s: State, ops: seq<Op>, end: State)
    requires IsRun(s, ops, end)
    ensures end.next == s.next + Boxed(s, ops)
    decreases |ops|
  {
    if ops != [] {
      match ops[0] {
        case Native(guards, inputs, results) =>
          var t := ReadAll(s, inputs).0;
          WriteAllCounts(t, inputs);
          AllocAllCounts(WriteAll(t, inputs), results);
        case NewNull(_) =>
        case Close(handles) =>
          CloseAllCounts(s, handles);
      }
      BoxedCounts(Step(s, ops[0]).0, ops[1..], end);
    }
  }

  // ----- closing, in any order and any number of times -----

  function SetOf(handles: seq<nat>): set<nat> {
    set i | i in handles
  }

  /** The objects with the pointers in `closed` zeroed. */
  function Zeroed(objs: seq<JavaObject>, closed: set<nat>): (r: seq<JavaObject>)
    ensures |r| == |objs|
  {
    seq(|objs|, i requires 0 <= i < |objs| => if i in closed then objs[i].(pointer := 0) else objs[i])
  }

  /** Some object in `closed` owns address `a`. */
  ghost predicate OwnedBy(objs: seq<JavaObject>, closed: set<nat>, a: nat) {
    exists i :: i in closed && i < |objs| && objs[i].pointer == a
  }

  /** The boxes that stay: those owned by no closed object. */
  ghost function Remaining(s: State, closed: set<nat>): map<nat, Box> {
    map a | a in s.live && !OwnedBy(s.objs, closed, a) :: s.live[a]
  }

  lemma OwnedAfterFree(s: State, h: nat, rest: set<nat>, a: nat)
    requires Inv(s) && h < |s.objs| && a in s.live
    ensures a in Free(s, h).live && !OwnedBy(Free(s, h).objs, rest, a) <==> !OwnedBy(s.objs, {h} + rest, a)
  {
    hide Conserved, HitsLiveBox;
    var t, p := Free(s, h), s.objs[h].pointer;
    FreeKeeps(s, h);
    if a == p {
      assert OwnedBy(s.objs, {h} + rest, a);
    } else {
      if i :| i in rest && i < |t.objs| && t.objs[i].pointer == a {
        assert i in {h} + rest && s.objs[i].pointer == a;
      }
      if i :| i in {h} + rest && i < |s.objs| && s.objs[i].pointer == a {
        assert i in rest && t.objs[i].pointer == a;
      }
    }
  }

  lemma RemainingAfterFree(s: State, h: nat, rest: set<nat>)
    requires Inv(s) && h < |s.objs|
    ensures Remaining(Free(s, h), rest) == Remaining(s, {h} + rest)
    ensures Zeroed(Free(s, h).objs, rest) == Zeroed(s.objs, {h} + rest)
  {
    hide OwnedBy, Inv;
    var t, r, r' := Free(s, h), Remaining(Free(s, h), rest), Remaining(s, {h} + rest);
    FreeKeeps(s, h);
    forall a | a in s.live
      ensures a in r <==> a in r'
    {
      OwnedAfterFree(s, h, rest, a);
    }
    assert t.live.Keys <= s.live.Keys;
    assert forall a :: a in r ==> r[a] == s.live[a];
    assert r == r';
  }

  lemma RemainingNone(s: State)
    ensures Remaining(s, {}) == s.live
    ensures Zeroed(s.objs, {}) == s.objs
  {
    assert Zeroed(s.objs, {}) == s.objs;
  }

  /**
   * Idempotent closing with sharing: the result depends only on which objects occur in the list,
   * not on the order or on repetitions, as when key pairs share a secret key.
   */
  lemma {:induction false} CloseAllExact(s: State, handles: seq<nat>)
    requires Inv(s) && InRange(s, handles)
    ensures CloseAll(s, handles).objs == Zeroed(s.objs, SetOf(handles))
    ensures CloseAll(s, handles).live == Remaining(s, SetOf(handles))
    ensures CloseAll(s, handles).next == s.next
    decreases |handles|
  {
    hide OwnedBy, Inv, Remaining, Zeroed;
    if handles == [] {
      RemainingNone(s);
      assert SetOf(handles) == {};
    } else {
      FreeKeeps(s, handles[0]);
      CloseAllExact(Free(s, handles[0]), handles[1..]);
      assert handles == [handles[0]] + handles[1..];
      assert SetOf(handles) == {handles[0]} + SetOf(handles[1..]);
      RemainingAfterFree(s, handles[0], SetOf(handles[1..]));
    }
  }

  lemma CloseOrderIrrelevant(s: State, a: seq<nat>, b: seq<nat>)
    requires Inv(s) && InRange(s, a) && InRange(s, b) && SetOf(a) == SetOf(b)
    ensures CloseAll(s, a).objs == CloseAll(s, b).objs
    ensures CloseAll(s, a).live == CloseAll(s, b).live
    ensures CloseAll(s, a).dropped == CloseAll(s, b).dropped
  {
    CloseAllExact(s, a);
    CloseAllExact(s, b);
    CloseAllKeeps(s, a);
    CloseAllKeeps(s, b);
    var t, u := CloseAll(s, a), CloseAll(s, b);
    forall id: nat
      ensures t.dropped[id] == u.dropped[id]
    {
      assert IsLive(t, id) <==> IsLive(u, id);
    }
  }
}

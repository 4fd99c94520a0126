/**
 * Constraint systems over a prime field, and the library gadgets in terms of what they
 * allocate and enforce.
 */
module R1cs {
  import opened NumberTheory
  import opened Bits
  import opened ThresholdEnforcer
  import opened Wrappers

  datatype Pk = Pk(x: int, y: int)
  datatype Sig = Sig(e: int, s: int)

  /**
   * What the circuit and the native code take from elsewhere: the field modulus and its bit
   * length, the fixed-length field hash, Schnorr verification of (message, key, signature), and
   * the byte accumulator that turns two u64 into field elements.
   */
  datatype Primitives = Primitives(
    p: int,
    bits: nat,
    hash: seq<int> -> int,
    verify: (int, Pk, Sig) -> Result<bool>,
    accumulate: (int, int) -> Result<seq<int>>)
  {
    /** The modulus is a prime of exactly `bits` bits, large enough to hold two u64 and a carry. */
    ghost predicate Valid() {
      && Prime(p)
      && p > 0x2_0000_0000_0000_0000_0000_0000_0000_0000
      && bits > 0
      && Pow2(bits - 1) <= p < Pow2(bits)
    }

    predicate InField(x: int) {
      0 <= x < p
    }

    /** The digest of `xs`; a field element whatever function `hash` is. */
    function H(xs: seq<int>): (h: int)
      requires p > 0
      ensures InField(h)
      ensures Divides(p, hash(xs) - h)
    {
      ReductionCongruent(p, hash(xs));
      hash(xs) % p
    }

    predicate Verifies(msg: int, pk: Pk, sig: Sig) {
      verify(msg, pk, sig) == Ok(true)
    }
  }

  // ----- linear combinations and constraints -----

  type Var = nat

  datatype Term = Term(coeff: int, v: Var)

  /** `constant + sum(coeff * v)`; coefficients stand for their residues. */
  datatype Lc = Lc(constant: int, terms: seq<Term>)

  function LcVar(v: Var): Lc {
    Lc(0, [Term(1, v)])
  }

  function LcConst(k: int): Lc {
    Lc(k, [])
  }

  function LcSub(a: Lc, b: Lc): Lc {
    Lc(a.constant - b.constant, a.terms + Negate(b.terms))
  }

  function Negate(ts: seq<Term>): (r: seq<Term>)
    ensures |r| == |ts|
  {
    seq(|ts|, i requires 0 <= i < |ts| => Term(-ts[i].coeff, ts[i].v))
  }

  datatype Constraint =
    | Product(a: Lc, b: Lc, c: Lc)
    | HashIs(inputs: seq<Lc>, out: Var)
    | VerdictIs(pkX: Lc, pkY: Lc, e: Lc, s: Lc, msg: Lc, verdict: Var)

  /** The value of a variable; one outside the assignment reads 0. */
  function At(z: seq<int>, v: Var): int {
    if v < |z| then z[v] else 0
  }

  function EvalTerms(ts: seq<Term>, z: seq<int>): int {
    if ts == [] then 0
    else EvalTerms(ts[..|ts| - 1], z) + ts[|ts| - 1].coeff * At(z, ts[|ts| - 1].v)
  }

  function Eval(lc: Lc, z: seq<int>): int {
    lc.constant + EvalTerms(lc.terms, z)
  }

  function FieldValue(p: int, lc: Lc, z: seq<int>): (r: int)
    requires p > 0
    ensures 0 <= r < p
  {
    Eval(lc, z) % p
  }

  function FieldValues(p: int, lcs: seq<Lc>, z: seq<int>): (r: seq<int>)
    requires p > 0
    ensures |r| == |lcs|
  {
    seq(|lcs|, i requires 0 <= i < |lcs| => FieldValue(p, lcs[i], z))
  }

  predicate Holds(prm: Primitives, c: Constraint, z: seq<int>)
    requires prm.p > 0
  {
    match c
    case Product(a, b, c) => Divides(prm.p, Eval(a, z) * Eval(b, z) - Eval(c, z))
    case HashIs(inputs, out) => At(z, out) == prm.H(FieldValues(prm.p, inputs, z))
    case VerdictIs(pkX, pkY, e, s, msg, verdict) =>
      At(z, verdict) == BitValue(prm.Verifies(FieldValue(prm.p, msg, z),
                                              Pk(FieldValue(prm.p, pkX, z), FieldValue(prm.p, pkY, z)),
                                              Sig(FieldValue(prm.p, e, z), FieldValue(prm.p, s, z))))
  }

  predicate Satisfied(prm: Primitives, cs: seq<Constraint>, z: seq<int>)
    requires prm.p > 0
  {
    forall i :: 0 <= i < |cs| ==> Holds(prm, cs[i], z)
  }

  lemma SatisfiedAppend(prm: Primitives, a: seq<Constraint>, b: seq<Constraint>, z: seq<int>)
    requires prm.p > 0
    ensures Satisfied(prm, a + b, z) <==> Satisfied(prm, a, z) && Satisfied(prm, b, z)
  {
    if Satisfied(prm, a + b, z) {
      forall i | 0 <= i < |a|
        ensures Holds(prm, a[i], z)
      {
        assert (a + b)[i] == a[i];
      }
      forall i | 0 <= i < |b|
        ensures Holds(prm, b[i], z)
      {
        assert (a + b)[|a| + i] == b[i];
      }
    }
  }

  lemma SatisfiedPair(prm: Primitives, a: Constraint, b: Constraint, z: seq<int>)
    requires prm.p > 0
    ensures Satisfied(prm, [a, b], z) <==> Holds(prm, a, z) && Holds(prm, b, z)
  {
    var cs := [a, b];
    assert cs[0] == a && cs[1] == b;
  }

  // ----- evaluation of the combinations that occur -----

  lemma EvalVar(v: Var, z: seq<int>)
    ensures Eval(LcVar(v), z) == At(z, v)
  {
    var ts := [Term(1, v)];
    assert ts[..0] == [];
    assert EvalTerms(ts, z) == EvalTerms([], z) + 1 * At(z, v);
  }

  lemma FieldValueVar(p: int, v: Var, z: seq<int>)
    requires p > 0 && 0 <= At(z, v) < p
    ensures FieldValue(p, LcVar(v), z) == At(z, v)
  {
    EvalVar(v, z);
    MultipleDivides(p, 0);
    ResidueUnique(p, At(z, v), At(z, v));
  }

  lemma {:induction false} EvalTermsAppend(a: seq<Term>, b: seq<Term>, z: seq<int>)
    ensures EvalTerms(a + b, z) == EvalTerms(a, z) + EvalTerms(b, z)
  {
    if b == [] {
      assert a + b == a;
    } else {
      assert (a + b)[..|a + b| - 1] == a + b[..|b| - 1];
      EvalTermsAppend(a, b[..|b| - 1], z);
    }
  }

  lemma {:induction false} EvalNegate(ts: seq<Term>, z: seq<int>)
    ensures EvalTerms(Negate(ts), z) == -EvalTerms(ts, z)
  {
    if ts != [] {
      EvalNegate(ts[..|ts| - 1], z);
      assert Negate(ts)[..|ts| - 1] == Negate(ts[..|ts| - 1]);
    }
  }

  lemma EvalSub(a: Lc, b: Lc, z: seq<int>)
    ensures Eval(LcSub(a, b), z) == Eval(a, z) - Eval(b, z)
  {
    EvalTermsAppend(a.terms, Negate(b.terms), z);
    EvalNegate(b.terms, z);
  }

  // ----- library gadgets: the constraints they add -----

  /** `Boolean::alloc`: `(1 - v) * v = 0`. */
  function BooleanConstraintOn(v: Var): Constraint {
    Product(LcSub(LcConst(1), LcVar(v)), LcVar(v), LcConst(0))
  }

  function BooleanConstraints(base: Var, k: nat): (r: seq<Constraint>)
    ensures |r| == k
  {
    seq(k, i requires 0 <= i < k => BooleanConstraintOn(base + i))
  }

  /** `enforce_equal`: `(a - b) * 1 = 0`. */
  function EqualConstraint(a: Lc, b: Lc): Constraint {
    Product(LcSub(a, b), LcConst(1), LcConst(0))
  }

  /** The sum that `from_bits` accumulates: last bit first, the coefficient doubling. */
  function PackTerms(vs: seq<Var>, coeff: int): (ts: seq<Term>)
    ensures |ts| == |vs|
  {
    if vs == [] then []
    else [Term(coeff, vs[|vs| - 1])] + PackTerms(vs[..|vs| - 1], 2 * coeff)
  }

  function Values(vs: seq<Var>, z: seq<int>): (r: seq<int>)
    ensures |r| == |vs|
  {
    seq(|vs|, i requires 0 <= i < |vs| => At(z, vs[i]))
  }

  /** `from_bits`: the accumulated sum times one equals the fresh variable. */
  function PackConstraint(vs: seq<Var>, out: Var): Constraint {
    Product(Lc(0, PackTerms(vs, 1)), LcConst(1), LcVar(out))
  }

  lemma {:induction false} EvalPackTerms(vs: seq<Var>, coeff: int, z: seq<int>)
    ensures EvalTerms(PackTerms(vs, coeff), z) == coeff * PackField(Values(vs, z))
  {
    if vs != [] {
      var init, last := vs[..|vs| - 1], vs[|vs| - 1];
      var head := [Term(coeff, last)];
      EvalPackTerms(init, 2 * coeff, z);
      EvalTermsAppend(head, PackTerms(init, 2 * coeff), z);
      assert head[..0] == [];
      assert Values(vs, z)[..|vs| - 1] == Values(init, z);
      assert coeff * PackField(Values(vs, z))
          == 2 * coeff * PackField(Values(init, z)) + coeff * At(z, last);
    }
  }

  lemma BooleanMeaning(prm: Primitives, v: Var, z: seq<int>)
    requires prm.Valid() && prm.InField(At(z, v))
    ensures Holds(prm, BooleanConstraintOn(v), z) <==> IsBit(At(z, v))
  {
    EvalSub(LcConst(1), LcVar(v), z);
    EvalVar(v, z);
    BooleanConstraint(prm.p, At(z, v));
  }

  lemma EqualMeaning(prm: Primitives, a: Lc, b: Lc, z: seq<int>)
    requires prm.p > 0
    ensures Holds(prm, EqualConstraint(a, b), z) <==> Divides(prm.p, Eval(a, z) - Eval(b, z))
  {
    EvalSub(a, b, z);
  }

  lemma EqualVarsMeaning(prm: Primitives, a: Var, b: Var, z: seq<int>)
    requires prm.p > 0 && prm.InField(At(z, a)) && prm.InField(At(z, b))
    ensures Holds(prm, EqualConstraint(LcVar(a), LcVar(b)), z) <==> At(z, a) == At(z, b)
  {
    EqualMeaning(prm, LcVar(a), LcVar(b), z);
    EvalVar(a, z);
    EvalVar(b, z);
    if Divides(prm.p, At(z, a) - At(z, b)) {
      CloseMultiplesEqual(prm.p, At(z, a), At(z, b));
    } else {
      MultipleDivides(prm.p, 0);
    }
  }

  lemma PackMeaning(prm: Primitives, vs: seq<Var>, out: Var, z: seq<int>)
    requires prm.p > 0 && prm.InField(At(z, out))
    ensures Holds(prm, PackConstraint(vs, out), z) <==> At(z, out) == PackField(Values(vs, z)) % prm.p
  {
    var s := PackField(Values(vs, z));
    EvalPackTerms(vs, 1, z);
    EvalVar(out, z);
    if Divides(prm.p, s - At(z, out)) {
      ResidueUnique(prm.p, s, At(z, out));
    } else {
      ReductionCongruent(prm.p, s);
    }
  }

  // ----- the constraint system -----

  function AllOf<T>(xs: seq<T>): (r: seq<Option<T>>)
    ensures |r| == |xs|
  {
    seq(|xs|, i requires 0 <= i < |xs| => Some(xs[i]))
  }

  function ValuesOr<T>(xs: seq<Option<T>>, default: T): (r: seq<T>)
    ensures |r| == |xs|
  {
    seq(|xs|, i requires 0 <= i < |xs| => xs[i].GetOr(default))
  }

  predicate AllSome<T>(xs: seq<Option<T>>) {
    forall i :: 0 <= i < |xs| ==> xs[i].Some?
  }

  datatype Kind = Witness | Public

  /** A field-element gadget: its linear combination and, when proving, its value. */
  datatype FpGadget = FpGadget(lc: Lc, value: Option<int>)

  datatype BooleanGadget = BooleanGadget(v: Var, value: Option<bool>)

  /** The affine coordinates of a public key; the two scalars of a signature. */
  datatype PkGadget = PkGadget(x: FpGadget, y: FpGadget)
  datatype SigGadget = SigGadget(e: FpGadget, s: FpGadget)

  /**
   * In setup mode values are never asked for; in proving mode every allocation needs one and
   * extends the assignment.
   */
  class ConstraintSystem {
    const prm: Primitives
    const proving: bool
    var kinds: seq<Kind>
    var assignment: seq<int>
    var constraints: seq<Constraint>

    ghost predicate Valid()
      reads this
    {
      && prm.p > 0
      && |assignment| == if proving then |kinds| else 0
    }

    constructor (prm: Primitives, proving: bool)
      requires prm.p > 0
      ensures Valid() && this.prm == prm && this.proving == proving
      ensures kinds == [] && assignment == [] && constraints == []
    {
      this.prm := prm;
      this.proving := proving;
      kinds, assignment, constraints := [], [], [];
    }

    /** `cs.alloc` / `cs.alloc_input`: a fresh variable, its value taken only when proving. */
    method Alloc(kind: Kind, value: Option<int>) returns (r: Result<Var>)
      requires Valid()
      modifies this`kinds, this`assignment
      ensures Valid()
      ensures r.Err? <==> proving && value.None?
      ensures r.Err? ==> r.error == AssignmentMissing && unchanged(this)
      ensures r.Ok? ==> r.value == |old(kinds)| && kinds == old(kinds) + [kind]
      ensures r.Ok? ==> assignment == old(assignment) + if proving then [value.value] else []
    {
      if proving && value.None? {
        return Err(AssignmentMissing);
      }
      r := Ok(|kinds|);
      kinds := kinds + [kind];
      if proving {
        assignment := assignment + [value.value];
      }
    }

    method Enforce(c: Constraint)
      requires Valid()
      modifies this`constraints
      ensures Valid()
      ensures constraints == old(constraints) + [c]
    {
      constraints := constraints + [c];
    }

    /** The value a gadget keeps: present exactly when proving. */
    function Known<T>(x: T): Option<T> {
      if proving then Some(x) else None
    }

    method AllocField(kind: Kind, value: Option<int>) returns (r: Result<FpGadget>)
      requires Valid()
      modifies this`kinds, this`assignment
      ensures Valid()
      ensures r.Err? <==> proving && value.None?
      ensures r.Err? ==> r.error == AssignmentMissing
      ensures r.Ok? ==> r.value == FpGadget(LcVar(|old(kinds)|), if proving then value else None)
      ensures r.Ok? ==> kinds == old(kinds) + [kind]
      ensures r.Ok? ==> assignment == old(assignment) + if proving then [value.value] else []
    {
      var v :- Alloc(kind, value);
      r := Ok(FpGadget(LcVar(v), if proving then value else None));
    }

    /** Two witnesses in a row: the coordinates of a key or the scalars of a signature. */
    method AllocPair(a: Option<int>, b: Option<int>) returns (r: Result<(FpGadget, FpGadget)>)
      requires Valid()
      modifies this`kinds, this`assignment
      ensures Valid()
      ensures r.Err? <==> proving && (a.None? || b.None?)
      ensures r.Err? ==> r.error == AssignmentMissing
      ensures r.Ok? ==> r.value.0 == FpGadget(LcVar(|old(kinds)|), if proving then a else None)
      ensures r.Ok? ==> r.value.1 == FpGadget(LcVar(|old(kinds)| + 1), if proving then b else None)
      ensures r.Ok? ==> kinds == old(kinds) + [Witness, Witness]
      ensures r.Ok? ==> assignment == old(assignment) + if proving then [a.value, b.value] else []
    {
      var aG :- AllocField(Witness, a);
      var bG :- AllocField(Witness, b);
      r := Ok((aG, bG));
    }

    method AllocBoolean(value: Option<bool>) returns (r: Result<BooleanGadget>)
      requires Valid()
      modifies this
      ensures Valid()
      ensures r.Err? <==> proving && value.None?
      ensures r.Err? ==> r.error == AssignmentMissing
      ensures r.Ok? ==> r.value == BooleanGadget(|old(kinds)|, if proving then value else None)
      ensures r.Ok? ==> kinds == old(kinds) + [Witness]
      ensures r.Ok? ==> assignment == old(assignment) + if proving then [BitValue(value.value)] else []
      ensures r.Ok? ==> constraints == old(constraints) + [BooleanConstraintOn(|old(kinds)|)]
    {
      var v :- Alloc(Witness, if value.Some? then Some(BitValue(value.value)) else None);
      Enforce(BooleanConstraintOn(v));
      r := Ok(BooleanGadget(v, if proving then value else None));
    }

    /** `Boolean::alloc` on each value in turn. */
    method AllocBooleans(values: seq<Option<bool>>) returns (r: Result<seq<BooleanGadget>>)
      requires Valid()
      modifies this
      ensures Valid()
      ensures r.Err? <==> proving && !AllSome(values)
      ensures r.Err? ==> r.error == AssignmentMissing
      ensures r.Ok? ==> r.value == BooleanGadgets(|old(kinds)|, proving, ValuesOr(values, false))
      ensures r.Ok? ==> kinds == old(kinds) + seq(|values|, _ => Witness)
      ensures r.Ok? ==> assignment == old(assignment) + if proving then ToField(ValuesOr(values, false)) else []
      ensures r.Ok? ==> constraints == old(constraints) + BooleanConstraints(|old(kinds)|, |values|)
    {
      ghost var bs := ValuesOr(values, false);
      var bits := [];
      for i := 0 to |values|
        invariant Valid()
        invariant proving ==> forall j :: 0 <= j < i ==> values[j].Some?
        invariant bits == BooleanGadgets(|old(kinds)|, proving, bs[..i])
        invariant kinds == old(kinds) + seq(i, _ => Witness)
        invariant assignment == old(assignment) + if proving then ToField(bs[..i]) else []
        invariant constraints == old(constraints) + BooleanConstraints(|old(kinds)|, i)
      {
        var bit :- AllocBoolean(values[i]);
        bits := bits + [bit];
        assert bs[..i + 1] == bs[..i] + [bs[i]];
        assert ToField(bs[..i + 1]) == ToField(bs[..i]) + [BitValue(bs[i])];
      }
      assert bs[..|values|] == bs;
      r := Ok(bits);
    }

    /** `UInt64::alloc`: 64 Booleans, least significant first. */
    method AllocUInt64(value: Option<u64>) returns (r: Result<seq<BooleanGadget>>)
      requires Valid()
      modifies this
      ensures Valid()
      ensures r.Err? <==> proving && value.None?
      ensures r.Err? ==> r.error == AssignmentMissing
      ensures r.Ok? ==> r.value == BooleanGadgets(|old(kinds)|, proving, LittleEndianBits(value.GetOr(0), 64))
      ensures r.Ok? ==> kinds == old(kinds) + seq(64, _ => Witness)
      ensures r.Ok? ==> assignment == old(assignment)
                                      + if proving then ToField(LittleEndianBits(value.value, 64)) else []
      ensures r.Ok? ==> constraints == old(constraints) + BooleanConstraints(|old(kinds)|, 64)
    {
      if value.None? {
        if proving {
          return Err(AssignmentMissing);
        }
        r := AllocBooleans(seq(64, _ => None));
      } else {
        var bits := WordBits(value.value, 64);
        assert ValuesOr(AllOf(bits), false) == bits;
        r := AllocBooleans(AllOf(bits));
      }
    }

    /** An allocation whose value follows from gadgets that already carry theirs. */
    method AllocDerived(kind: Kind, value: int) returns (v: Var)
      requires Valid()
      modifies this`kinds, this`assignment
      ensures Valid()
      ensures v == |old(kinds)| && kinds == old(kinds) + [kind]
      ensures assignment == old(assignment) + if proving then [value] else []
    {
      v := |kinds|;
      kinds := kinds + [kind];
      if proving {
        assignment := assignment + [value];
      }
    }

    /** `enforce_hash_constant_length`: one output variable tied to the inputs. */
    method EnforceHash(inputs: seq<FpGadget>) returns (g: FpGadget)
      requires Valid()
      requires proving ==> AllKnown(inputs)
      modifies this
      ensures Valid()
      ensures g == FpGadget(LcVar(|old(kinds)|), Known(prm.H(GadgetValues(inputs))))
      ensures kinds == old(kinds) + [Witness]
      ensures assignment == old(assignment) + if proving then [prm.H(GadgetValues(inputs))] else []
      ensures constraints == old(constraints) + [HashIs(GadgetLcs(inputs), |old(kinds)|)]
    {
      var digest := prm.H(GadgetValues(inputs));
      var out := AllocDerived(Witness, digest);
      Enforce(HashIs(GadgetLcs(inputs), out));
      g := FpGadget(LcVar(out), Known(digest));
    }

    /** `enforce_signature_verdict`: a Boolean that is true exactly when the signature verifies. */
    method EnforceVerdict(pk: PkGadget, sig: SigGadget, msg: FpGadget) returns (g: BooleanGadget)
      requires Valid()
      requires proving ==> AllKnown([pk.x, pk.y, sig.e, sig.s, msg])
      modifies this
      ensures Valid()
      ensures g == BooleanGadget(|old(kinds)|, Known(Verdict(prm, pk, sig, msg)))
      ensures kinds == old(kinds) + [Witness]
      ensures assignment == old(assignment) + if proving then [BitValue(Verdict(prm, pk, sig, msg))] else []
      ensures constraints == old(constraints) + [VerdictConstraint(pk, sig, msg, |old(kinds)|)]
    {
      var verdict := Verdict(prm, pk, sig, msg);
      var v := AllocDerived(Witness, BitValue(verdict));
      Enforce(VerdictConstraint(pk, sig, msg, v));
      g := BooleanGadget(v, Known(verdict));
    }

    /** `from_bits` on a big-endian vector of Booleans. */
    method FromBits(bits: seq<BooleanGadget>) returns (g: FpGadget)
      requires Valid()
      requires proving ==> AllBitsKnown(bits)
      modifies this
      ensures Valid()
      ensures g == FpGadget(LcVar(|old(kinds)|), Known(Pack(BitValues(bits)) % prm.p))
      ensures kinds == old(kinds) + [Witness]
      ensures assignment == old(assignment) + if proving then [Pack(BitValues(bits)) % prm.p] else []
      ensures constraints == old(constraints) + [PackConstraint(BitVars(bits), |old(kinds)|)]
    {
      var packed := Pack(BitValues(bits)) % prm.p;
      var out := AllocDerived(Witness, packed);
      Enforce(PackConstraint(BitVars(bits), out));
      g := FpGadget(LcVar(out), Known(packed));
    }
  }

  /** The Booleans allocated from variable `base` on. */
  function BooleanGadgets(base: Var, proving: bool, bits: seq<bool>): (r: seq<BooleanGadget>)
    ensures |r| == |bits|
  {
    seq(|bits|, i requires 0 <= i < |bits| => BooleanGadget(base + i, if proving then Some(bits[i]) else None))
  }

  /** Splits a word into bits by `val & 1` and `val >>= 1`. */
  method WordBits(value: nat, width: nat) returns (bits: seq<bool>)
    ensures bits == LittleEndianBits(value, width)
  {
    bits := [];
    var val := value;
    for i := 0 to width
      invariant |bits| == i
      invariant LittleEndianBits(value, width) == bits + LittleEndianBits(val, width - i)
    {
      bits := bits + [val % 2 == 1];
      val := val / 2;
    }
  }

  predicate AllKnown(gs: seq<FpGadget>) {
    forall i :: 0 <= i < |gs| ==> gs[i].value.Some?
  }

  predicate AllBitsKnown(gs: seq<BooleanGadget>) {
    forall i :: 0 <= i < |gs| ==> gs[i].value.Some?
  }

  function Verdict(prm: Primitives, pk: PkGadget, sig: SigGadget, msg: FpGadget): bool {
    prm.Verifies(msg.value.GetOr(0),
                 Pk(pk.x.value.GetOr(0), pk.y.value.GetOr(0)),
                 Sig(sig.e.value.GetOr(0), sig.s.value.GetOr(0)))
  }

  function VerdictConstraint(pk: PkGadget, sig: SigGadget, msg: FpGadget, out: Var): Constraint {
    VerdictIs(pk.x.lc, pk.y.lc, sig.e.lc, sig.s.lc, msg.lc, out)
  }

  function GadgetLcs(gs: seq<FpGadget>): (r: seq<Lc>)
    ensures |r| == |gs|
  {
    seq(|gs|, i requires 0 <= i < |gs| => gs[i].lc)
  }

  function GadgetValues(gs: seq<FpGadget>): (r: seq<int>)
    ensures |r| == |gs|
  {
    seq(|gs|, i requires 0 <= i < |gs| => gs[i].value.GetOr(0))
  }

  function BitVars(gs: seq<BooleanGadget>): (r: seq<Var>)
    ensures |r| == |gs|
  {
    seq(|gs|, i requires 0 <= i < |gs| => gs[i].v)
  }

  function BitValues(gs: seq<BooleanGadget>): (r: seq<bool>)
    ensures |r| == |gs|
  {
    seq(|gs|, i requires 0 <= i < |gs| => gs[i].value.GetOr(false))
  }

  /** `conditionally_add_constant(bit, 1)`: no constraint, the combination and the value grow. */
  function AddBit(p: int, g: FpGadget, bit: BooleanGadget): FpGadget
    requires p > 0
  {
    FpGadget(Lc(g.lc.constant, g.lc.terms + [Term(1, bit.v)]),
             if g.value.Some? && bit.value.Some?
             then Some((g.value.value + BitValue(bit.value.value)) % p)
             else None)
  }
}

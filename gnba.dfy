/**
 * `VisitHelper`, `can_visit` and `GNBA::build` of csrc/cpp/gnba.cpp: the
 * generalised Büchi automaton of a formula.
 *
 * The states are the elementary sets.  State `x` may move to state `y`
 * when `can_visit(x, y)` holds: every next entry of `x` is what `y` says
 * of its operand, and every until entry follows its expansion law.
 * `VisitHelper` computes the same relation faster: from `x` alone it
 * derives a list of required bits (`require` at the positions marked in
 * `indices`) and tests each `y` with one masked comparison.  The helper
 * modelled here treats `X true` and `X false` as `can_visit` does; the
 * source's handling of those two cases is kept as `VisitStepAsWritten`.
 */
module Gnba {
  import opened Wrappers
  import opened Formulas
  import opened FixedBitset
  import opened LtlTree
  import opened Collector
  import opened ElementarySets

  // ---------------------------------------------------------------------------
  // `can_visit`

  /** What entry `i` of `x` demands of a successor `y`. */
  predicate EntryVisit(formulas: seq<Formula>, numAps: nat, x: Bitset, y: Bitset, i: nat)
    requires WfSet(formulas, numAps, x) && WfSet(formulas, numAps, y) && numAps <= i < |formulas|
  {
    var f := formulas[i];
    assert EntryOk(f, i);
    if IsUnary(f) then Test(x, i) == Holds(y, f.lhs)
    else if IsUntil(f) then
      if Holds(x, f.rhs) then true
      else if Test(x, i) then Test(y, i)
      else !(Holds(x, f.lhs) && Test(y, i))
    else true
  }

  /** The `can_visit` lambda. */
  predicate CanVisit(formulas: seq<Formula>, numAps: nat, x: Bitset, y: Bitset)
    requires WfSet(formulas, numAps, x) && WfSet(formulas, numAps, y)
  {
    forall i :: numAps <= i < |formulas| ==> EntryVisit(formulas, numAps, x, y, i)
  }

  // ---------------------------------------------------------------------------
  // The constraints `VisitHelper::build` collects

  /** `new_r`, `new_i` and `early_reject` while `build` runs. */
  datatype VisitState = VisitState(require: Bitset, indices: Bitset, reject: bool)

  /** Both bitsets have one bit per entry, and only marked positions carry a required value. */
  predicate WfVisit(v: VisitState, n: nat) {
    && Valid(v.require) && Valid(v.indices) && v.require.length == n && v.indices.length == n
    && forall m :: 0 <= m < n && Test(v.require, m) ==> Test(v.indices, m)
  }

  /** A successor meets the constraints: no early rejection, and every marked bit has its required value. */
  predicate Satisfies(v: VisitState, y: Bitset)
    requires Valid(y) && WfVisit(v, y.length)
  {
    !v.reject && forall m :: 0 <= m < y.length && Test(v.indices, m) ==> Test(y, m) == Test(v.require, m)
  }

  /** The `insert` lambda: a conflicting second requirement rejects, any other one is recorded. */
  function Insert(v: VisitState, n: nat, p: nat, value: bool): (r: VisitState)
    requires WfVisit(v, n) && p < n
    ensures WfVisit(r, n)
  {
    if Test(v.indices, p) && Test(v.require, p) != value then v.(reject := true)
    else VisitState(Assign(v.require, p, value), Assign(v.indices, p, true), v.reject)
  }

  /** Inserting a requirement adds exactly that requirement. */
  lemma InsertMeaning(v: VisitState, p: nat, value: bool, y: Bitset)
    requires Valid(y) && WfVisit(v, y.length) && p < y.length
    ensures Satisfies(Insert(v, y.length, p, value), y) <==> Satisfies(v, y) && Test(y, p) == value
  {
    var r := Insert(v, y.length, p, value);
    if Satisfies(v, y) && Test(y, p) == value {
      assert !r.reject;
      forall m | 0 <= m < y.length && Test(r.indices, m) ensures Test(y, m) == Test(r.require, m) {
      }
    }
    if Satisfies(r, y) && !(Test(v.indices, p) && Test(v.require, p) != value) {
      forall m | 0 <= m < y.length && Test(v.indices, m) ensures Test(y, m) == Test(v.require, m) {
        if m != p {
          assert Test(r.indices, m);
        }
      }
    }
  }

  /** One round of the loop of `VisitHelper::build`, with `X true` and `X false` checked against `x`. */
  function VisitStep(formulas: seq<Formula>, numAps: nat, x: Bitset, v: VisitState, i: nat): (r: VisitState)
    requires WfSet(formulas, numAps, x) && WfVisit(v, |formulas|) && numAps <= i < |formulas|
    ensures WfVisit(r, |formulas|)
  {
    if v.reject then v
    else
      var f := formulas[i];
      assert EntryOk(f, i);
      if IsUnary(f) then
        if f.lhs == True then (if Test(x, i) then v else v.(reject := true))
        else if f.lhs == False then (if Test(x, i) then v.(reject := true) else v)
        else Insert(v, |formulas|, Original(f.lhs), IsNegation(f.lhs) != Test(x, i))
      else if IsUntil(f) then
        if Holds(x, f.rhs) then v
        else if Test(x, i) then Insert(v, |formulas|, i, true)
        else if Holds(x, f.lhs) then Insert(v, |formulas|, i, false)
        else v
      else v
  }

  function EmptyVisit(n: nat): (r: VisitState)
    requires n <= Width
    ensures WfVisit(r, n) && !r.reject
  {
    VisitState(New(n), New(n), false)
  }

  /** The constraints after entries `num_aps .. k-1`. */
  function VisitFrom(formulas: seq<Formula>, numAps: nat, x: Bitset, k: nat): (r: VisitState)
    requires WfSet(formulas, numAps, x) && k <= |formulas|
    ensures WfVisit(r, |formulas|)
    decreases k
  {
    if k <= numAps then EmptyVisit(|formulas|)
    else VisitStep(formulas, numAps, x, VisitFrom(formulas, numAps, x, k - 1), k - 1)
  }

  /** A round adds exactly the demand of its entry. */
  lemma StepMeaning(formulas: seq<Formula>, numAps: nat, x: Bitset, v: VisitState, i: nat, y: Bitset)
    requires WfSet(formulas, numAps, x) && WfSet(formulas, numAps, y) && WfVisit(v, |formulas|)
    requires numAps <= i < |formulas|
    ensures Satisfies(VisitStep(formulas, numAps, x, v, i), y) <==>
      Satisfies(v, y) && EntryVisit(formulas, numAps, x, y, i)
  {
    if !v.reject {
      var f := formulas[i];
      assert EntryOk(f, i);
      Constants();
      if IsUnary(f) && f.lhs != True && f.lhs != False {
        InsertMeaning(v, Original(f.lhs), IsNegation(f.lhs) != Test(x, i), y);
      } else if IsUntil(f) && !Holds(x, f.rhs) && Test(x, i) {
        InsertMeaning(v, i, true, y);
      } else if IsUntil(f) && !Holds(x, f.rhs) && Holds(x, f.lhs) {
        InsertMeaning(v, i, false, y);
      }
    }
  }

  /** The constraints after `k` rounds hold of `y` exactly when the entries below `k` allow `y`. */
  lemma {:induction false} VisitFromMeaning(formulas: seq<Formula>, numAps: nat, x: Bitset, y: Bitset, k: nat)
    requires WfSet(formulas, numAps, x) && WfSet(formulas, numAps, y) && k <= |formulas|
    ensures Satisfies(VisitFrom(formulas, numAps, x, k), y) <==>
      forall j :: numAps <= j < k ==> EntryVisit(formulas, numAps, x, y, j)
    decreases k
  {
    if k > numAps {
      VisitFromMeaning(formulas, numAps, x, y, k - 1);
      StepMeaning(formulas, numAps, x, VisitFrom(formulas, numAps, x, k - 1), k - 1, y);
    }
  }

  /** Once rejected, later rounds change nothing (the `break`). */
  lemma {:induction false} RejectStays(formulas: seq<Formula>, numAps: nat, x: Bitset, k: nat, m: nat)
    requires WfSet(formulas, numAps, x) && k <= m <= |formulas|
    requires VisitFrom(formulas, numAps, x, k).reject
    ensures VisitFrom(formulas, numAps, x, m) == VisitFrom(formulas, numAps, x, k)
    decreases m
  {
    if m > k {
      RejectStays(formulas, numAps, x, k, m - 1);
    }
  }

  /** The masked comparison of `accept` tests exactly the marked bits. */
  lemma MaskedEqual(v: VisitState, y: Bitset)
    requires Valid(y) && WfVisit(v, y.length)
    ensures Equal(And(y, v.indices), v.require) <==>
      forall m :: 0 <= m < y.length && Test(v.indices, m) ==> Test(y, m) == Test(v.require, m)
  {
    var a := And(y, v.indices);
    EqualIffSameBits(a, v.require);
  }

  class VisitHelper {
    const numAps: nat
    const formulas: seq<Formula>
    var require: Bitset
    var indices: Bitset
    var earlyReject: bool
    /** The state the constraints were last built from. */
    ghost var source: Bitset

    /** The fields hold the constraints of `source`. */
    ghost predicate Valid()
      reads this
    {
      && WfSet(formulas, numAps, source)
      && VisitState(require, indices, earlyReject) == VisitFrom(formulas, numAps, source, |formulas|)
    }

    constructor(numAps: nat, formulas: seq<Formula>)
      requires WfList(formulas, numAps)
      ensures this.numAps == numAps && this.formulas == formulas
    {
      this.numAps := numAps;
      this.formulas := formulas;
      require := New(0);
      indices := New(0);
      earlyReject := false;
      source := New(0);
    }

    /** `build(x)`: collect what `x` demands of its successors. */
    method Build(x: Bitset)
      requires WfSet(formulas, numAps, x) && Elementary(formulas, numAps, x)
      modifies this
      ensures Valid() && source == x
    {
      require, indices, earlyReject := Requirements(formulas, numAps, x);
      source := x;
    }

    /** The loop of `build(x)` over the entries after the propositions, on local copies of the three fields. */
    static method Requirements(formulas: seq<Formula>, numAps: nat, x: Bitset)
      returns (newR: Bitset, newI: Bitset, earlyReject: bool)
      requires WfSet(formulas, numAps, x) && Elementary(formulas, numAps, x)
      ensures VisitState(newR, newI, earlyReject) == VisitFrom(formulas, numAps, x, |formulas|)
    {
      var n := |formulas|;
      newR := New(n);
      newI := New(n);
      earlyReject := false;
      var i := numAps;
      while i < n
        invariant numAps <= i <= n
        invariant VisitState(newR, newI, earlyReject) == VisitFrom(formulas, numAps, x, i)
      {
        if earlyReject {
          RejectStays(formulas, numAps, x, i, n);
          break;
        }
        var f := formulas[i];
        assert EntryOk(f, i);
        if IsUnary(f) {
          if f.lhs == True {
            if !Test(x, i) {
              earlyReject := true;
            }
          } else if f.lhs == False {
            if Test(x, i) {
              earlyReject := true;
            }
          } else {
            newR, newI, earlyReject := InsertInto(newR, newI, earlyReject, Original(f.lhs), IsNegation(f.lhs) != Test(x, i));
          }
        } else if IsUntil(f) {
          if Holds(x, f.rhs) {
          } else if Test(x, i) {
            assert UntilOk(formulas, numAps, x, i);
            assert Holds(x, f.lhs);
            newR, newI, earlyReject := InsertInto(newR, newI, earlyReject, i, true);
          } else if Holds(x, f.lhs) {
            newR, newI, earlyReject := InsertInto(newR, newI, earlyReject, i, false);
          }
        }
        i := i + 1;
      }
    }

    /** The `insert` lambda over `new_r`, `new_i` and `early_reject`. */
    static method InsertInto(newR: Bitset, newI: Bitset, reject: bool, p: nat, value: bool)
      returns (r: Bitset, i: Bitset, rejected: bool)
      requires WfVisit(VisitState(newR, newI, reject), newR.length) && p < newR.length
      ensures VisitState(r, i, rejected) == Insert(VisitState(newR, newI, reject), newR.length, p, value)
    {
      if Test(newI, p) && Test(newR, p) != value {
        r, i, rejected := newR, newI, true;
      } else {
        r, i, rejected := Assign(newR, p, value), Assign(newI, p, true), reject;
      }
    }

    /** `accept(y)`: agrees with `can_visit(source, y)`. */
    method Accept(y: Bitset) returns (b: bool)
      requires Valid() && WfSet(formulas, numAps, y)
      ensures b == CanVisit(formulas, numAps, source, y)
    {
      var v := VisitState(require, indices, earlyReject);
      MaskedEqual(v, y);
      VisitFromMeaning(formulas, numAps, source, y, |formulas|);
      b := !earlyReject && Equal(And(y, indices), require);
    }

    /** Early rejection means no successor at all. */
    lemma RejectMeansNoSuccessor(y: Bitset)
      requires Valid() && WfSet(formulas, numAps, y) && earlyReject
      ensures !CanVisit(formulas, numAps, source, y)
    {
      VisitFromMeaning(formulas, numAps, source, y, |formulas|);
    }
  }

  // ---------------------------------------------------------------------------
  // The source's handling of `X true` and `X false`

  /**
   * One round of `VisitHelper::build` as the source writes it: `X true` adds
   * nothing, and `X false` sets `early_reject` and then inserts at
   * `original(False)`, an index past every bitset (`None`: the subscript
   * check of `bitset::operator[]` fails).
   */
  function VisitStepAsWritten(formulas: seq<Formula>, numAps: nat, x: Bitset, v: VisitState, i: nat): Option<VisitState>
    requires WfSet(formulas, numAps, x) && WfVisit(v, |formulas|) && numAps <= i < |formulas|
  {
    if v.reject then Some(v)
    else
      var f := formulas[i];
      if IsUnary(f) && f.lhs == True then Some(v)
      else if IsUnary(f) then
        var w := if f.lhs == False then v.(reject := true) else v;
        var p := Original(f.lhs);
        if p < |formulas| then Some(Insert(w, |formulas|, p, IsNegation(f.lhs) != Test(x, i))) else None
      else Some(VisitStep(formulas, numAps, x, v, i))
  }

  function VisitFromAsWritten(formulas: seq<Formula>, numAps: nat, x: Bitset, k: nat): Option<VisitState>
    requires WfSet(formulas, numAps, x) && k <= |formulas|
    decreases k
  {
    if k <= numAps then Some(EmptyVisit(|formulas|))
    else
      match VisitFromAsWritten(formulas, numAps, x, k - 1)
      case None => None
      case Some(v) => if WfVisit(v, |formulas|) then VisitStepAsWritten(formulas, numAps, x, v, k - 1) else None
  }

  /** The formula list of `X true`: proposition 0, then `X True`. */
  function NextTrueList(): seq<Formula> {
    [MakeAtomic(0), MakeNext(True)]
  }

  /**
   * For `X true`, the elementary set that denies `X true` has no successor
   * under `can_visit`, yet the source's helper accepts every set.
   */
  lemma NextTrueAsWrittenAcceptsAll(y: Bitset)
    requires WfSet(NextTrueList(), 1, y)
    ensures WfSet(NextTrueList(), 1, New(2)) && Elementary(NextTrueList(), 1, New(2))
    ensures VisitFromAsWritten(NextTrueList(), 1, New(2), 2) == Some(EmptyVisit(2))
    ensures Satisfies(EmptyVisit(2), y)
    ensures !CanVisit(NextTrueList(), 1, New(2), y)
  {
    var formulas := NextTrueList();
    assert EntryOk(formulas[1], 1);
    var x := New(2);
    assert !EntryVisit(formulas, 1, x, y, 1) by {
      Constants();
    }
  }

  /** For `X false`, the source's helper asks for a bit past the end of the set. */
  lemma NextFalseAsWrittenOutOfRange()
    ensures WfSet([MakeAtomic(0), MakeNext(False)], 1, New(2))
    ensures Original(False) >= Width
    ensures VisitFromAsWritten([MakeAtomic(0), MakeNext(False)], 1, New(2), 2) == None
  {
    Constants();
    var formulas := [MakeAtomic(0), MakeNext(False)];
    assert EntryOk(formulas[1], 1);
  }

  // ---------------------------------------------------------------------------
  // `GNBA::build`

  /** `Automa`: the fields `GNBA` and `NBA` share. */
  datatype Automa = Automa(
    numStates: nat,
    numTriggers: nat,
    initialStates: Bitset,
    transitions: seq<map<Bitset, Bitset>>,
    usedApMask: Bitset)

  datatype GnbaResult = GnbaResult(automa: Automa, finalStatesList: seq<Bitset>)

  /** The sets `build` works with: elementary sets over one formula list. */
  predicate WfSets(formulas: seq<Formula>, numAps: nat, sets: seq<Bitset>) {
    && WfList(formulas, numAps)
    && forall i :: 0 <= i < |sets| ==> WfSet(formulas, numAps, sets[i]) && Elementary(formulas, numAps, sets[i])
  }

  /**
   * The test of `make_initial`, as written: the root's own bit, flipped for
   * a negation.  It needs the root to name an entry.
   */
  function InitialBitAsWritten(s: Bitset, root: Fid): bool
    requires Valid(s) && Original(root) < s.length
  {
    Test(s, Original(root)) != IsNegation(root)
  }

  /** For a root that names an entry, that test is the truth of the root in the set. */
  lemma InitialBitIsHolds(s: Bitset, root: Fid)
    requires Valid(s) && Original(root) < s.length
    ensures ValidOperand(root, s.length)
    ensures InitialBitAsWritten(s, root) == Holds(s, root)
  {
    OriginalOfNot(root);
  }

  /**
   * A constant root (the formula `!false` is collected as `True`) names no
   * entry: the subscript of `make_initial` is past the end of every set,
   * while its truth in a set is fixed.
   */
  lemma ConstantRootOutOfRange(s: Bitset)
    requires Valid(s)
    ensures Rewrite(NotNode(AtomicNode(0, FalseConst))) == CTrue
    ensures Original(True) >= s.length && Original(False) >= s.length
    ensures ValidOperand(True, s.length) && Holds(s, True) && !Holds(s, False)
  {
    Constants();
  }

  /** `make_initial`: the states in which the root formula holds. */
  method MakeInitial(formulas: seq<Formula>, numAps: nat, sets: seq<Bitset>, root: Fid) returns (initial: Bitset)
    requires WfSets(formulas, numAps, sets) && |sets| <= Width && ValidOperand(root, |formulas|)
    ensures Valid(initial) && initial.length == |sets|
    ensures forall i :: 0 <= i < |sets| ==> Test(initial, i) == Holds(sets[i], root)
  {
    initial := New(|sets|);
    for i := 0 to |sets|
      invariant Valid(initial) && initial.length == |sets|
      invariant forall k :: 0 <= k < i ==> Test(initial, k) == Holds(sets[k], root)
      invariant forall k :: i <= k < |sets| ==> !Test(initial, k)
    {
      if Holds(sets[i], root) {
        initial := Assign(initial, i, true);
      }
    }
  }

  /** The targets of state `i`: every state `can_visit` allows. */
  function Targets(formulas: seq<Formula>, numAps: nat, sets: seq<Bitset>, i: nat): (r: Bitset)
    requires WfSets(formulas, numAps, sets) && |sets| <= Width && i < |sets|
    ensures Valid(r) && r.length == |sets|
    ensures forall j :: 0 <= j < |sets| ==> Test(r, j) == CanVisit(formulas, numAps, sets[i], sets[j])
  {
    Bitset(seq(Width, j requires 0 <= j < Width => j < |sets| && CanVisit(formulas, numAps, sets[i], sets[j])), |sets|)
  }

  /**
   * `make_transition`: state `i` has the single trigger made of its own
   * propositional bits, leading to the states `can_visit` allows.
   */
  method MakeTransition(formulas: seq<Formula>, numAps: nat, sets: seq<Bitset>) returns (transition: seq<map<Bitset, Bitset>>)
    requires WfSets(formulas, numAps, sets) && |sets| <= Width && numAps < Width
    ensures |transition| == |sets|
    ensures forall i :: 0 <= i < |sets| ==>
      transition[i] == map[Subset(sets[i], numAps) := Targets(formulas, numAps, sets, i)]
  {
    var visit := new VisitHelper(numAps, formulas);
    transition := [];
    for i := 0 to |sets|
      invariant |transition| == i
      invariant visit.numAps == numAps && visit.formulas == formulas
      invariant forall k :: 0 <= k < i ==>
        transition[k] == map[Subset(sets[k], numAps) := Targets(formulas, numAps, sets, k)]
    {
      var s := sets[i];
      var trigger := Subset(s, numAps);
      visit.Build(s);
      var targets := CollectTargets(visit, sets, i);
      ghost var before := transition;
      transition := transition + [map[trigger := targets]];
      assert forall k :: 0 <= k < i ==> transition[k] == before[k];
    }
  }

  /** The inner loop of `make_transition`: ask the helper about every state. */
  method CollectTargets(visit: VisitHelper, sets: seq<Bitset>, i: nat) returns (targets: Bitset)
    requires visit.Valid() && WfSets(visit.formulas, visit.numAps, sets) && |sets| <= Width
    requires i < |sets| && visit.source == sets[i]
    ensures targets == Targets(visit.formulas, visit.numAps, sets, i)
  {
    var formulas, numAps := visit.formulas, visit.numAps;
    targets := New(|sets|);
    if !visit.earlyReject {
      for j := 0 to |sets|
        invariant Valid(targets) && targets.length == |sets|
        invariant forall k :: 0 <= k < j ==> Test(targets, k) == CanVisit(formulas, numAps, sets[i], sets[k])
        invariant forall k :: j <= k < |sets| ==> !Test(targets, k)
      {
        var ok := visit.Accept(sets[j]);
        if ok {
          targets := Assign(targets, j, true);
        }
      }
    } else {
      forall k | 0 <= k < |sets| ensures !CanVisit(formulas, numAps, sets[i], sets[k]) {
        visit.RejectMeansNoSuccessor(sets[k]);
      }
    }
    EqualIffSameBits(targets, Targets(formulas, numAps, sets, i));
  }

  /** The until entries among `num_aps .. k-1`, in order. */
  function UntilEntries(formulas: seq<Formula>, numAps: nat, k: nat): (r: seq<nat>)
    requires k <= |formulas|
    ensures forall t :: 0 <= t < |r| ==> numAps <= r[t] < k && IsUntil(formulas[r[t]])
    ensures forall e :: numAps <= e < k && IsUntil(formulas[e]) ==> e in r
    ensures forall t, u :: 0 <= t < u < |r| ==> r[t] < r[u]
  {
    if k <= numAps then []
    else UntilEntries(formulas, numAps, k - 1) + (if IsUntil(formulas[k - 1]) then [k - 1] else [])
  }

  /** The acceptance set of until entry `e`, `p U q`: the states without `p U q`, or with `q`. */
  function FinalSet(formulas: seq<Formula>, numAps: nat, sets: seq<Bitset>, e: nat): (r: Bitset)
    requires WfSets(formulas, numAps, sets) && |sets| <= Width && numAps <= e < |formulas|
    ensures Valid(r) && r.length == |sets|
  {
    var f := formulas[e];
    assert EntryOk(f, e);
    Bitset(seq(Width, j requires 0 <= j < Width =>
      j < |sets| && (!Test(sets[j], e) || (IsBinary(f) && Holds(sets[j], f.rhs)))), |sets|)
  }

  /** `make_final`: one acceptance set per until entry, in list order. */
  method MakeFinal(formulas: seq<Formula>, numAps: nat, sets: seq<Bitset>) returns (final: seq<Bitset>)
    requires WfSets(formulas, numAps, sets) && |sets| <= Width
    ensures |final| == |UntilEntries(formulas, numAps, |formulas|)|
    ensures forall t :: 0 <= t < |final| ==>
      var e := UntilEntries(formulas, numAps, |formulas|)[t];
      && final[t] == FinalSet(formulas, numAps, sets, e)
      && forall j :: 0 <= j < |sets| ==>
           (Test(final[t], j) <==> !Test(sets[j], e) || Holds(sets[j], formulas[e].rhs))
  {
    final := [];
    for i := numAps to |formulas|
      invariant final == seq(|UntilEntries(formulas, numAps, i)|, t requires 0 <= t < |UntilEntries(formulas, numAps, i)| =>
        FinalSet(formulas, numAps, sets, UntilEntries(formulas, numAps, i)[t]))
    {
      var f := formulas[i];
      assert EntryOk(f, i);
      if IsUntil(f) {
        var finalSet := New(|sets|);
        for j := 0 to |sets|
          invariant Valid(finalSet) && finalSet.length == |sets|
          invariant forall k :: 0 <= k < j ==> Test(finalSet, k) == (!Test(sets[k], i) || Holds(sets[k], f.rhs))
          invariant forall k :: j <= k < |sets| ==> !Test(finalSet, k)
        {
          if !Test(sets[j], i) || Holds(sets[j], f.rhs) {
            finalSet := Assign(finalSet, j, true);
          }
        }
        EqualIffSameBits(finalSet, FinalSet(formulas, numAps, sets, i));
        final := final + [finalSet];
      }
    }
  }

  /**
   * `GNBA::build(ptr, num_atomics, negate)`, with the corrected `map`, the
   * corrected `prepare` (the root's proposition is enumerated) and the
   * corrected successor helper.  The result is `None` exactly where the
   * source stops: no atomic proposition, more formula entries or more
   * elementary sets than a 64-bit set holds, or 32 or more enumerated bits.
   */
  method Build(node: Node, numAtomics: nat, negate: bool)
    returns (r: Option<GnbaResult>, formulas: seq<Formula>, root: Fid, indices: seq<nat>, sets: seq<Bitset>)
    requires AtomsBelow(node, numAtomics) && numAtomics < Width && numAtomics + Count(node) < Int64Max
    ensures numAtomics > 0 ==> Collected(node, numAtomics, negate, formulas, root)
    ensures numAtomics > 0 && |formulas| <= Width ==> Enumeration(formulas, numAtomics, root, indices, sets)
    ensures r.None? <==> numAtomics == 0 || |formulas| > Width || |indices| >= 32 || |sets| > Width
    ensures r.Some? ==>
      && Collected(node, numAtomics, negate, formulas, root) && WfList(formulas, numAtomics)
      && SetsOf(formulas, numAtomics, root, indices, sets)
      && AutomatonOf(r.value, formulas, numAtomics, root, sets)
  {
    formulas, root, indices, sets := [], 0, [], [];
    if numAtomics == 0 {
      return None, formulas, root, indices, sets;
    }
    var collector, built := Collector.From(node, numAtomics);
    collector.CorrectedMapSound(node);
    collector.PassesDebugCheck();
    formulas := collector.formulas;
    var mapped := collector.CorrectedMap(node);
    DenoteNot(formulas, numAtomics, mapped);
    if negate {
      SameNeg(Denote(formulas, numAtomics, mapped), Rewrite(node));
    }
    root := if negate then Not(mapped) else mapped;
    if |formulas| > Width {
      return None, formulas, root, indices, sets;
    }
    r, indices, sets := FromFormulas(formulas, numAtomics, root);
  }

  /**
   * The formula list and root of a build: the collector's list, which
   * passes `debug_check_formula`, and a root index denoting the rewritten
   * formula, negated when `negate` is set.
   */
  ghost predicate Collected(node: Node, numAtomics: nat, negate: bool, formulas: seq<Formula>, root: Fid) {
    && Topological(formulas, numAtomics) && DebugCheckFormula(formulas, numAtomics)
    && ValidOperand(root, |formulas|)
    && Same(Denote(formulas, numAtomics, root), if negate then Neg(Rewrite(node)) else Rewrite(node))
  }

  /**
   * What `SetBuilder::from` computes before it can stop: the enumerated
   * entries, exactly the free entries of `root` and without repeats, and,
   * when there are fewer than 32 of them, the kept assignments.
   */
  ghost predicate Enumeration(formulas: seq<Formula>, numAtomics: nat, root: Fid, indices: seq<nat>, sets: seq<Bitset>)
    requires WfList(formulas, numAtomics)
  {
    && (forall k :: k in indices <==> Free(formulas, numAtomics, root, k))
    && Distinct(indices)
    && (|indices| < 32 ==> sets == Accepted(formulas, numAtomics, indices, Pow2(|indices|)))
  }

  /**
   * The elementary sets of a build: `indices` are exactly the free entries
   * of `root`, fewer than 32 and without repeats; `sets` are the kept
   * assignments, exactly the elementary sets whose free bits are an
   * assignment, at most as many as a 64-bit set holds.
   */
  ghost predicate SetsOf(formulas: seq<Formula>, numAtomics: nat, root: Fid, indices: seq<nat>, sets: seq<Bitset>)
    requires WfList(formulas, numAtomics)
  {
    && (forall k :: k in indices <==> Free(formulas, numAtomics, root, k))
    && Distinct(indices) && |indices| < 32
    && sets == Accepted(formulas, numAtomics, indices, Pow2(|indices|))
    && WfSets(formulas, numAtomics, sets) && |sets| <= Width
    && (forall t :: t in sets <==>
          WfSet(formulas, numAtomics, t) && Elementary(formulas, numAtomics, t) && Reachable(formulas, numAtomics, indices, t))
  }

  /**
   * The automaton of a build: one state per elementary set, initial where
   * the set holds `root`, one trigger per state made of its propositional
   * bits, the used-proposition mask, and one final set per until entry.
   */
  ghost predicate AutomatonOf(g: GnbaResult, formulas: seq<Formula>, numAtomics: nat, root: Fid, sets: seq<Bitset>)
    requires WfList(formulas, numAtomics) && ValidOperand(root, |formulas|) && numAtomics < Width
    requires WfSets(formulas, numAtomics, sets) && |sets| <= Width
  {
    var a := g.automa;
    && a.numStates == |sets| && a.numTriggers == numAtomics
    && Valid(a.initialStates) && a.initialStates.length == |sets|
    && (forall i :: 0 <= i < |sets| ==> Test(a.initialStates, i) == Holds(sets[i], root))
    && |a.transitions| == |sets|
    && (forall i :: 0 <= i < |sets| ==>
          a.transitions[i] == map[Subset(sets[i], numAtomics) := Targets(formulas, numAtomics, sets, i)])
    && Valid(a.usedApMask) && a.usedApMask.length == numAtomics
    && (forall n :: 0 <= n < numAtomics ==>
          (Test(a.usedApMask, n) <==> UsedApBefore(formulas, numAtomics, n, |formulas|) || RootAp(numAtomics, root, n)))
    && |g.finalStatesList| == |UntilEntries(formulas, numAtomics, |formulas|)|
    && (forall t :: 0 <= t < |g.finalStatesList| ==>
          g.finalStatesList[t] == FinalSet(formulas, numAtomics, sets, UntilEntries(formulas, numAtomics, |formulas|)[t]))
  }

  /**
   * The part of `GNBA::build` after the formula list is built: sets, then
   * initial states, transitions and final sets.  `None` exactly when 32 or
   * more bits are enumerated or the sets do not fit a 64-bit set.
   */
  method FromFormulas(formulas: seq<Formula>, numAtomics: nat, root: Fid)
    returns (r: Option<GnbaResult>, indices: seq<nat>, sets: seq<Bitset>)
    requires WfList(formulas, numAtomics) && ValidOperand(root, |formulas|) && numAtomics < Width
    ensures Enumeration(formulas, numAtomics, root, indices, sets)
    ensures r.None? <==> |indices| >= 32 || |sets| > Width
    ensures r.Some? ==> SetsOf(formulas, numAtomics, root, indices, sets)
    ensures r.Some? ==> AutomatonOf(r.value, formulas, numAtomics, root, sets)
  {
    var ok, usedAp;
    ok, indices, sets, usedAp := ElementarySets.From(formulas, numAtomics, root);
    if !ok || |sets| > Width {
      return None, indices, sets;
    }
    AcceptedExact(formulas, numAtomics, indices);
    var initial := MakeInitial(formulas, numAtomics, sets, root);
    var transition := MakeTransition(formulas, numAtomics, sets);
    var final := MakeFinal(formulas, numAtomics, sets);
    var automa := Automa(|sets|, numAtomics, initial, transition, usedAp);
    r := Some(GnbaResult(automa, final));
  }

  // ---------------------------------------------------------------------------
  // The root's proposition

  /** The formula list of `a` on its own: proposition 0 and nothing else. */
  function PropList(): seq<Formula> {
    [MakeAtomic(0)]
  }

  /**
   * `prepare` as written finds nothing to enumerate for the formula `a`,
   * so its only elementary set leaves `a` false and no state satisfies the
   * root: the automaton for a satisfiable formula has no initial state.
   */
  lemma PrepareMissesRootAp()
    ensures WfList(PropList(), 1)
    ensures !Enumerated(PropList(), 1, 0)
    ensures forall t :: t in Accepted(PropList(), 1, [], Pow2(0)) ==> WfSet(PropList(), 1, t) && !Holds(t, 0)
  {
    var formulas := PropList();
    assert Accepted(formulas, 1, [], 1) == [Assignment(1, [], 0)] by {
      var s := Assignment(1, [], 0);
      assert Close(formulas, 1, s, 1) == s;
      assert Elementary(formulas, 1, s);
    }
  }

  /** With the root's proposition enumerated, both truth values of `a` have an elementary set. */
  lemma RootApEnumerated()
    ensures Free(PropList(), 1, 0, 0)
    ensures exists t :: t in Accepted(PropList(), 1, [0], Pow2(1)) && WfSet(PropList(), 1, t) && Holds(t, 0)
    ensures exists t :: t in Accepted(PropList(), 1, [0], Pow2(1)) && WfSet(PropList(), 1, t) && !Holds(t, 0)
  {
    var formulas := PropList();
    var on := Assignment(1, [0], 1);
    var off := Assignment(1, [0], 0);
    assert Test(on, 0) && !Test(off, 0);
    AcceptedComplete(formulas, 1, [0], on);
    AcceptedComplete(formulas, 1, [0], off);
  }
}

/**
 * The earlier GNBA construction of csrc/cpp/automa.cpp.
 *
 * Its formula collector and its `check` are those of csrc/cpp/gnba.cpp
 * (modelled by `Collector.FormulaCollector` and `ElementarySets.Check`);
 * `prepare` keeps no used-proposition mask and does not add the root's
 * proposition; `map` has no shortcut for an atomic node, so a formula that
 * is a bare proposition stops the construction.  The `VisitHelper` differs:
 * `insert` overwrites an earlier requirement on the same index, `X true`
 * and `X false` add nothing, and there is no early rejection.  The helper
 * therefore accepts every successor `can_visit` allows, and agrees with it
 * exactly when no two requirements conflict.
 */
module GnbaVariant {
  import opened Wrappers
  import opened Formulas
  import opened FixedBitset
  import opened LtlTree
  import opened Collector
  import opened ElementarySets
  import opened Gnba

  /** The overwriting `insert` lambda. */
  function Overwrite(v: VisitState, n: nat, p: nat, value: bool): (r: VisitState)
    requires WfVisit(v, n) && p < n
    ensures WfVisit(r, n) && r.reject == v.reject
    ensures Test(r.indices, p) && Test(r.require, p) == value
    ensures forall m :: 0 <= m < n && m != p ==> Test(r.indices, m) == Test(v.indices, m) && Test(r.require, m) == Test(v.require, m)
  {
    VisitState(Assign(v.require, p, value), Assign(v.indices, p, true), v.reject)
  }

  /** One round of the loop of this `VisitHelper::build`. */
  function VariantStep(formulas: seq<Formula>, numAps: nat, x: Bitset, v: VisitState, i: nat): (r: VisitState)
    requires WfSet(formulas, numAps, x) && WfVisit(v, |formulas|) && numAps <= i < |formulas|
    ensures WfVisit(r, |formulas|) && r.reject == v.reject
  {
    var f := formulas[i];
    assert EntryOk(f, i);
    if IsUnary(f) then
      if f.lhs == True || f.lhs == False then v
      else Overwrite(v, |formulas|, Original(f.lhs), IsNegation(f.lhs) != Test(x, i))
    else if IsUntil(f) then
      if Holds(x, f.rhs) then v
      else if Test(x, i) then Overwrite(v, |formulas|, i, true)
      else if Holds(x, f.lhs) then Overwrite(v, |formulas|, i, false)
      else v
    else v
  }

  /** The requirements after entries `num_aps .. k-1`. */
  function VariantFrom(formulas: seq<Formula>, numAps: nat, x: Bitset, k: nat): (r: VisitState)
    requires WfSet(formulas, numAps, x) && k <= |formulas|
    ensures WfVisit(r, |formulas|) && !r.reject
    decreases k
  {
    if k <= numAps then EmptyVisit(|formulas|)
    else VariantStep(formulas, numAps, x, VariantFrom(formulas, numAps, x, k - 1), k - 1)
  }

  /** What this `accept(y)` computes for the requirements built from `x`. */
  predicate VariantAccept(formulas: seq<Formula>, numAps: nat, x: Bitset, y: Bitset)
    requires WfSet(formulas, numAps, x) && WfSet(formulas, numAps, y)
  {
    Satisfies(VariantFrom(formulas, numAps, x, |formulas|), y)
  }

  /** Until rejection, the overwriting helper records exactly what the conflict-checking one does. */
  lemma {:induction false} VariantAgrees(formulas: seq<Formula>, numAps: nat, x: Bitset, k: nat)
    requires WfSet(formulas, numAps, x) && k <= |formulas|
    requires !VisitFrom(formulas, numAps, x, k).reject
    ensures VariantFrom(formulas, numAps, x, k) == VisitFrom(formulas, numAps, x, k)
    decreases k
  {
    if k > numAps {
      var v := VisitFrom(formulas, numAps, x, k - 1);
      assert !v.reject;
      VariantAgrees(formulas, numAps, x, k - 1);
    }
  }

  /**
   * The helper accepts every successor `can_visit` allows, and accepts
   * exactly those when building from `x` raises no conflict.
   */
  lemma VariantAcceptMeaning(formulas: seq<Formula>, numAps: nat, x: Bitset, y: Bitset)
    requires WfSet(formulas, numAps, x) && WfSet(formulas, numAps, y)
    ensures CanVisit(formulas, numAps, x, y) ==> VariantAccept(formulas, numAps, x, y)
    ensures !VisitFrom(formulas, numAps, x, |formulas|).reject ==>
      (VariantAccept(formulas, numAps, x, y) <==> CanVisit(formulas, numAps, x, y))
  {
    VisitFromMeaning(formulas, numAps, x, y, |formulas|);
    if !VisitFrom(formulas, numAps, x, |formulas|).reject {
      VariantAgrees(formulas, numAps, x, |formulas|);
    }
  }

  /** `[a, X a, X !a]`: two next entries that ask opposite things of `a`. */
  function ConflictList(): seq<Formula> {
    [MakeAtomic(0), MakeNext(0), MakeNext(Not(0))]
  }

  /** The set holding both `X a` and `X !a`. */
  function ConflictSet(): Bitset {
    Assign(Assign(New(3), 1, true), 2, true)
  }

  /**
   * A state holding `X a` and `X !a` has no successor, but the later
   * requirement overwrites the earlier one and the helper accepts the set
   * where `a` is false.
   */
  lemma OverwriteAcceptsConflict()
    ensures WfSet(ConflictList(), 1, ConflictSet()) && Elementary(ConflictList(), 1, ConflictSet())
    ensures WfSet(ConflictList(), 1, New(3))
    ensures VariantAccept(ConflictList(), 1, ConflictSet(), New(3))
    ensures !CanVisit(ConflictList(), 1, ConflictSet(), New(3))
  {
    var formulas, x, y := ConflictList(), ConflictSet(), New(3);
    assert EntryOk(formulas[1], 1) && EntryOk(formulas[2], 2);
    assert Test(x, 1) && Test(x, 2);
    assert !EntryVisit(formulas, 1, x, y, 1);
    var v := VariantFrom(formulas, 1, x, 3);
    assert Test(v.indices, 0) && !Test(v.require, 0);
    assert forall m :: 0 < m < 3 ==> !Test(v.indices, m);
  }

  class VariantVisitHelper {
    const numAps: nat
    const formulas: seq<Formula>
    var require: Bitset
    var indices: Bitset
    ghost var source: Bitset

    ghost predicate Valid()
      reads this
    {
      && WfSet(formulas, numAps, source)
      && VisitState(require, indices, false) == VariantFrom(formulas, numAps, source, |formulas|)
    }

    constructor(numAps: nat, formulas: seq<Formula>)
      ensures this.numAps == numAps && this.formulas == formulas
    {
      this.numAps := numAps;
      this.formulas := formulas;
      require := New(0);
      indices := New(0);
      source := New(0);
    }

    /** `build(x)`: the requirements of `x`, the last one on an index winning. */
    method Build(x: Bitset)
      requires WfSet(formulas, numAps, x) && Elementary(formulas, numAps, x)
      modifies this
      ensures Valid() && source == x
    {
      require, indices := Requirements(formulas, numAps, x);
      source := x;
    }

    /** The loop of `build(x)` over the entries after the propositions, on local copies of the two fields. */
    static method Requirements(formulas: seq<Formula>, numAps: nat, x: Bitset) returns (newR: Bitset, newI: Bitset)
      requires WfSet(formulas, numAps, x) && Elementary(formulas, numAps, x)
      ensures VisitState(newR, newI, false) == VariantFrom(formulas, numAps, x, |formulas|)
    {
      var n := |formulas|;
      var v := EmptyVisit(n);
      for i := numAps to n
        invariant v == VariantFrom(formulas, numAps, x, i)
      {
        assert VariantFrom(formulas, numAps, x, i + 1) == VariantStep(formulas, numAps, x, v, i);
        var f := formulas[i];
        assert EntryOk(f, i);
        if IsUnary(f) {
          if f.lhs != True && f.lhs != False {
            v := Overwrite(v, n, Original(f.lhs), IsNegation(f.lhs) != Test(x, i));
          }
        } else if IsUntil(f) {
          if Holds(x, f.rhs) {
          } else if Test(x, i) {
            assert UntilOk(formulas, numAps, x, i);
            assert Holds(x, f.lhs);
            v := Overwrite(v, n, i, true);
          } else if Holds(x, f.lhs) {
            v := Overwrite(v, n, i, false);
          }
        }
      }
      newR, newI := v.require, v.indices;
    }

    /** `accept(y)`: the masked comparison, on sets of one size. */
    method Accept(y: Bitset) returns (b: bool)
      requires Valid() && WfSet(formulas, numAps, y)
      ensures b == VariantAccept(formulas, numAps, source, y)
    {
      MaskedEqual(VisitState(require, indices, false), y);
      b := Equal(And(y, indices), require);
    }
  }

  /** The targets of state `i` under this helper. */
  function VariantTargets(formulas: seq<Formula>, numAps: nat, sets: seq<Bitset>, i: nat): (r: Bitset)
    requires WfSets(formulas, numAps, sets) && |sets| <= Width && i < |sets|
    ensures Valid(r) && r.length == |sets|
    ensures forall j :: 0 <= j < |sets| ==> Test(r, j) == VariantAccept(formulas, numAps, sets[i], sets[j])
  {
    Bitset(seq(Width, j requires 0 <= j < Width => j < |sets| && VariantAccept(formulas, numAps, sets[i], sets[j])), |sets|)
  }

  /** Every edge of the corrected construction is an edge here, and a state without conflicts has the same edges. */
  lemma VariantTargetsContain(formulas: seq<Formula>, numAps: nat, sets: seq<Bitset>, i: nat)
    requires WfSets(formulas, numAps, sets) && |sets| <= Width && i < |sets|
    ensures forall j :: 0 <= j < |sets| && Test(Targets(formulas, numAps, sets, i), j) ==>
      Test(VariantTargets(formulas, numAps, sets, i), j)
    ensures !VisitFrom(formulas, numAps, sets[i], |formulas|).reject ==>
      VariantTargets(formulas, numAps, sets, i) == Targets(formulas, numAps, sets, i)
  {
    forall j | 0 <= j < |sets| {
      VariantAcceptMeaning(formulas, numAps, sets[i], sets[j]);
    }
    EqualIffSameBits(VariantTargets(formulas, numAps, sets, i), Targets(formulas, numAps, sets, i));
  }

  /** The `transition` lambda of this `GNBA::build`. */
  method MakeTransition(formulas: seq<Formula>, numAps: nat, sets: seq<Bitset>) returns (transition: seq<map<Bitset, Bitset>>)
    requires WfSets(formulas, numAps, sets) && |sets| <= Width && numAps < Width
    ensures |transition| == |sets|
    ensures forall i :: 0 <= i < |sets| ==>
      transition[i] == map[Subset(sets[i], numAps) := VariantTargets(formulas, numAps, sets, i)]
  {
    var visit := new VariantVisitHelper(numAps, formulas);
    transition := [];
    for i := 0 to |sets|
      invariant |transition| == i
      invariant visit.numAps == numAps && visit.formulas == formulas
      invariant forall k :: 0 <= k < i ==>
        transition[k] == map[Subset(sets[k], numAps) := VariantTargets(formulas, numAps, sets, k)]
    {
      var s := sets[i];
      visit.Build(s);
      var targets := CollectVariantTargets(visit, sets, i);
      ghost var before := transition;
      transition := transition + [map[Subset(s, numAps) := targets]];
      assert forall k :: 0 <= k < i ==> transition[k] == before[k];
    }
  }

  /** The inner loop of `make_transition`: ask the helper about every state. */
  method CollectVariantTargets(visit: VariantVisitHelper, sets: seq<Bitset>, i: nat) returns (targets: Bitset)
    requires visit.Valid() && WfSets(visit.formulas, visit.numAps, sets) && |sets| <= Width
    requires i < |sets| && visit.source == sets[i]
    ensures targets == VariantTargets(visit.formulas, visit.numAps, sets, i)
  {
    var formulas, numAps := visit.formulas, visit.numAps;
    targets := New(|sets|);
    for j := 0 to |sets|
      invariant Valid(targets) && targets.length == |sets|
      invariant forall k :: 0 <= k < j ==> Test(targets, k) == VariantAccept(formulas, numAps, sets[i], sets[k])
      invariant forall k :: j <= k < |sets| ==> !Test(targets, k)
    {
      var ok := visit.Accept(sets[j]);
      if ok {
        targets := Assign(targets, j, true);
      }
    }
    EqualIffSameBits(targets, VariantTargets(formulas, numAps, sets, i));
  }

  /** The automaton of this construction: the stale `Automa` record has no used-proposition mask. */
  datatype VariantGnba = VariantGnba(
    numStates: nat,
    numTriggers: nat,
    initialStates: Bitset,
    transitions: seq<map<Bitset, Bitset>>,
    finalStatesList: seq<Bitset>)

  /** The elementary sets of `SetBuilder::from`: `prepare`, then every assignment that `check` completes. */
  method Sets(formulas: seq<Formula>, numAps: nat) returns (ok: bool, indices: seq<nat>, sets: seq<Bitset>)
    requires WfList(formulas, numAps)
    ensures Distinct(indices) && (ok <==> |indices| < 32)
    ensures forall k :: k in indices <==> Enumerated(formulas, numAps, k)
    ensures ok ==> sets == Accepted(formulas, numAps, indices, Pow2(|indices|))
  {
    var usedAp;
    indices, usedAp := Prepare(formulas, numAps);
    ok := |indices| < 32;
    sets := [];
    if ok {
      sets := Enumerate(formulas, numAps, indices);
    }
  }

  /**
   * `GNBA::build(ptr, num_atomics)` of csrc/cpp/automa.cpp.  `None` exactly
   * where the source stops: no proposition, a bare proposition as the formula
   * (`map` finds no entry), more entries or sets than a 64-bit set holds,
   * 32 or more enumerated bits, or a constant root read past the end of a
   * set.
   */
  method Build(node: Node, numAtomics: nat)
    returns (r: Option<VariantGnba>, formulas: seq<Formula>, root: Fid, indices: seq<nat>, sets: seq<Bitset>)
    requires AtomsBelow(node, numAtomics) && numAtomics < Width && numAtomics + Count(node) < Int64Max
    ensures numAtomics > 0 ==> Topological(formulas, numAtomics) && DebugCheckFormula(formulas, numAtomics)
    ensures numAtomics > 0 && !node.AtomicNode? ==>
      ValidOperand(root, |formulas|) && Same(Denote(formulas, numAtomics, root), Rewrite(node))
    ensures numAtomics > 0 && !node.AtomicNode? && |formulas| <= Width ==>
      && (forall k :: k in indices <==> Enumerated(formulas, numAtomics, k)) && Distinct(indices)
      && (|indices| < 32 ==> sets == Accepted(formulas, numAtomics, indices, Pow2(|indices|)))
    ensures r.None? <==>
      || numAtomics == 0 || node.AtomicNode? || |formulas| > Width || |indices| >= 32 || |sets| > Width
      || (Original(root) >= |formulas| && |sets| > 0)
    ensures r.Some? ==>
      && WfList(formulas, numAtomics) && DebugCheckFormula(formulas, numAtomics)
      && ValidOperand(root, |formulas|) && Same(Denote(formulas, numAtomics, root), Rewrite(node))
      && (forall k :: k in indices <==> Enumerated(formulas, numAtomics, k)) && Distinct(indices)
      && sets == Accepted(formulas, numAtomics, indices, Pow2(|indices|))
      && WfSets(formulas, numAtomics, sets) && |sets| <= Width
      && (forall t :: t in sets <==>
            WfSet(formulas, numAtomics, t) && Elementary(formulas, numAtomics, t) && Reachable(formulas, numAtomics, indices, t))
    ensures r.Some? ==>
      var a := r.value;
      && a.numStates == |sets| && a.numTriggers == numAtomics
      && Valid(a.initialStates) && a.initialStates.length == |sets|
      && (forall i :: 0 <= i < |sets| ==> Test(a.initialStates, i) == Holds(sets[i], root))
      && |a.transitions| == |sets|
      && (forall i :: 0 <= i < |sets| ==>
            a.transitions[i] == map[Subset(sets[i], numAtomics) := VariantTargets(formulas, numAtomics, sets, i)])
      && |a.finalStatesList| == |UntilEntries(formulas, numAtomics, |formulas|)|
      && (forall t :: 0 <= t < |a.finalStatesList| ==>
            a.finalStatesList[t] == FinalSet(formulas, numAtomics, sets, UntilEntries(formulas, numAtomics, |formulas|)[t]))
  {
    formulas, root, indices, sets := [], 0, [], [];
    if numAtomics == 0 {
      return None, formulas, root, indices, sets;
    }
    var collector, built := Collector.From(node, numAtomics);
    collector.PassesDebugCheck();
    formulas := collector.formulas;
    if node.AtomicNode? {
      return None, formulas, root, indices, sets;
    }
    root := collector.mapping[node];
    if |formulas| > Width {
      return None, formulas, root, indices, sets;
    }
    var ok;
    ok, indices, sets := Sets(formulas, numAtomics);
    if !ok || |sets| > Width || (Original(root) >= |formulas| && |sets| > 0) {
      return None, formulas, root, indices, sets;
    }
    forall t | t in sets ensures WfSet(formulas, numAtomics, t) && Elementary(formulas, numAtomics, t)
      && Reachable(formulas, numAtomics, indices, t)
    {
      AcceptedSound(formulas, numAtomics, indices, Pow2(|indices|), t);
    }
    forall t | WfSet(formulas, numAtomics, t) && Elementary(formulas, numAtomics, t) && Reachable(formulas, numAtomics, indices, t)
      ensures t in sets
    {
      AcceptedComplete(formulas, numAtomics, indices, t);
    }
    var initial := MakeInitial(formulas, numAtomics, sets, root);
    var transition := MakeTransition(formulas, numAtomics, sets);
    var final := MakeFinal(formulas, numAtomics, sets);
    r := Some(VariantGnba(|sets|, numAtomics, initial, transition, final));
  }
}

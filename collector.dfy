/**
 * `FormulaCollector` and `debug_check_formula` of csrc/cpp/gnba.cpp (the
 * same code appears in csrc/cpp/automa.cpp): the syntax tree is flattened
 * into a list of formula nodes over {atomic, next, and, until}, the first
 * `num_atomics` of them the atomic propositions, every later one referring
 * only to earlier entries or to the constants.  Structurally equal nodes are
 * stored once (`visited`).
 *
 * `Denote` reads an index back as a core formula; `Build` is proved to
 * return an index that denotes `Rewrite` of the tree, up to the order of
 * conjunction operands, while keeping the list topologically ordered and
 * free of duplicates.
 */
module Collector {
  import opened Formulas
  import opened LtlTree

  /** The `valid` lambda of `debug_check_formula`: an earlier entry or a constant. */
  predicate ValidOperand(f: Fid, i: nat) {
    Original(f) < i || f == True || f == False
  }

  /** The shape `debug_check_formula` asserts, apart from `num_ap > 0`. */
  predicate Topological(formulas: seq<Formula>, numAp: nat) {
    && numAp <= |formulas|
    && (forall i :: 0 <= i < numAp ==> IsAtomic(formulas[i]))
    && (forall i :: numAp <= i < |formulas| ==> EntryOk(formulas[i], i))
  }

  /** Entry `i` past the atomic propositions: unary or binary, with valid operands. */
  predicate EntryOk(f: Formula, i: nat) {
    && (IsBinary(f) || IsUnary(f))
    && ValidOperand(f.lhs, i)
    && (IsBinary(f) ==> ValidOperand(f.rhs, i))
  }

  /** `debug_check_formula(formulas, num_ap)` passes all its assertions. */
  predicate DebugCheckFormula(formulas: seq<Formula>, numAp: nat) {
    numAp > 0 && Topological(formulas, numAp)
  }

  /** A measure under which every operand is smaller than the entry that uses it. */
  function Rank(f: Fid): nat {
    if f == True || f == False then 0 else Original(f) + 1
  }

  /** The core formula an index stands for. */
  function Denote(formulas: seq<Formula>, numAp: nat, f: Fid): Core
    requires Topological(formulas, numAp) && ValidOperand(f, |formulas|)
    decreases Rank(f), 1
  {
    if f == True then CTrue
    else if f == False then CNot(CTrue)
    else if IsNegation(f) then CNot(DenoteEntry(formulas, numAp, Not(f)))
    else DenoteEntry(formulas, numAp, f)
  }

  /** The core formula entry `i` stands for; never a negation. */
  function DenoteEntry(formulas: seq<Formula>, numAp: nat, i: nat): (c: Core)
    requires Topological(formulas, numAp) && i < |formulas|
    ensures !c.CNot?
    decreases i + 1, 0
  {
    if i < numAp then CAtom(i)
    else
      var f := formulas[i];
      assert EntryOk(f, i);
      match f.op
      case Next => CNext(Denote(formulas, numAp, f.lhs))
      case Conj => CAnd(Denote(formulas, numAp, f.lhs), Denote(formulas, numAp, f.rhs))
      case Until => CUntil(Denote(formulas, numAp, f.lhs), Denote(formulas, numAp, f.rhs))
      case Atomic => CAtom(i)
  }

  /** The complement of an index denotes the negation of what the index denotes. */
  lemma DenoteNot(formulas: seq<Formula>, numAp: nat, f: Fid)
    requires Topological(formulas, numAp) && ValidOperand(f, |formulas|)
    ensures ValidOperand(Not(f), |formulas|)
    ensures Denote(formulas, numAp, Not(f)) == Neg(Denote(formulas, numAp, f))
  {
    NotNot(f);
    Constants();
    if f != True && f != False {
      NotInjective(f, False);
      NotInjective(f, True);
    }
  }

  /** Appending entries does not change what the existing indices denote. */
  lemma {:induction false} DenoteExtend(small: seq<Formula>, large: seq<Formula>, numAp: nat, f: Fid)
    requires Topological(small, numAp) && Topological(large, numAp) && small <= large
    requires ValidOperand(f, |small|)
    ensures ValidOperand(f, |large|)
    ensures Denote(large, numAp, f) == Denote(small, numAp, f)
    decreases Rank(f), 1
  {
    if f != True && f != False {
      DenoteEntryExtend(small, large, numAp, Original(f));
    }
  }

  lemma {:induction false} DenoteEntryExtend(small: seq<Formula>, large: seq<Formula>, numAp: nat, i: nat)
    requires Topological(small, numAp) && Topological(large, numAp) && small <= large
    requires i < |small|
    ensures DenoteEntry(large, numAp, i) == DenoteEntry(small, numAp, i)
    decreases i + 1, 0
  {
    if i >= numAp {
      var f := small[i];
      assert large[i] == f;
      assert EntryOk(f, i);
      DenoteExtend(small, large, numAp, f.lhs);
      if IsBinary(f) {
        DenoteExtend(small, large, numAp, f.rhs);
      }
    }
  }

  /** The index `build` gives an atomic node: the constants for `true`/`false`, else the proposition. */
  function AtomFid(node: Node): Fid
    requires node.AtomicNode? && (node.kind == Prop ==> node.index <= Int64Max)
  {
    if node.kind == TrueConst then True else if node.kind == FalseConst then False else node.index
  }

  class FormulaCollector {
    const numAtomics: nat
    var formulas: seq<Formula>
    /** `mapping`, keyed by the node value rather than by its address. */
    var mapping: map<Node, Fid>
    var visited: map<Formula, nat>

    ghost predicate Valid()
      reads this
    {
      && Topological(formulas, numAtomics)
      && |formulas| < Int64Max
      && (forall i :: 0 <= i < numAtomics ==> formulas[i] == MakeAtomic(i))
      && (forall f :: f in visited ==> numAtomics <= visited[f] < |formulas| && formulas[visited[f]] == f)
      && (forall i :: numAtomics <= i < |formulas| ==> formulas[i] in visited && visited[formulas[i]] == i)
      && (forall n :: n in mapping ==> !n.AtomicNode? && MappingOk(n, mapping[n]))
    }

    /** What `mapping` promises about a node: its index denotes the node's rewrite. */
    ghost predicate MappingOk(n: Node, f: Fid)
      reads this
      requires Topological(formulas, numAtomics)
    {
      ValidOperand(f, |formulas|) && Same(Denote(formulas, numAtomics, f), Rewrite(n))
    }

    /** The constructor: one atomic entry per proposition, nothing visited or mapped. */
    constructor(numAtomics: nat)
      requires numAtomics < Int64Max
      ensures Valid() && this.numAtomics == numAtomics
      ensures |formulas| == numAtomics && mapping == map[] && visited == map[]
    {
      this.numAtomics := numAtomics;
      formulas := [];
      mapping := map[];
      visited := map[];
      new;
      for i := 0 to numAtomics
        invariant |formulas| == i && mapping == map[] && visited == map[]
        invariant forall k :: 0 <= k < i ==> formulas[k] == MakeAtomic(k)
      {
        formulas := formulas + [MakeAtomic(i)];
      }
    }

    /** Appending leaves every mapped node's promise intact. */
    lemma MappingStable(small: seq<Formula>, m: map<Node, Fid>)
      requires Topological(small, numAtomics) && Topological(formulas, numAtomics) && small <= formulas
      requires forall n :: n in m ==> ValidOperand(m[n], |small|) && Same(Denote(small, numAtomics, m[n]), Rewrite(n))
      ensures forall n :: n in m ==> MappingOk(n, m[n])
    {
      forall n | n in m ensures MappingOk(n, m[n]) {
        DenoteExtend(small, formulas, numAtomics, m[n]);
      }
    }

    /**
     * The `for2id` lambda: the index of an equal node already stored, or
     * a new entry at the end of the list.
     */
    method Intern(f: Formula) returns (id: Fid)
      requires Valid() && !IsAtomic(f) && EntryOk(f, |formulas|) && |formulas| + 1 < Int64Max
      modifies this
      ensures Valid() && mapping == old(mapping) && old(formulas) <= formulas
      ensures f in old(visited) ==> formulas == old(formulas) && id == old(visited)[f]
      ensures f !in old(visited) ==> formulas == old(formulas) + [f] && id == |old(formulas)|
      ensures numAtomics <= id < |formulas| && formulas[id] == f
    {
      if f in visited {
        return visited[f];
      }
      ghost var before := formulas;
      id := |formulas|;
      visited := visited[f := id];
      formulas := formulas + [f];
      assert forall i :: 0 <= i < |before| ==> formulas[i] == before[i];
      MappingStable(before, mapping);
    }

    /** `update`: record the node's index. */
    method Update(node: Node, id: Fid)
      requires Valid() && !node.AtomicNode? && MappingOk(node, id)
      modifies this
      ensures Valid() && formulas == old(formulas) && visited == old(visited)
      ensures mapping == old(mapping)[node := id]
    {
      mapping := mapping[node := id];
    }

    /**
     * `build(ptr)`: flatten a tree.  The result denotes the rewrite of the
     * tree; the list only grows, by at most one entry per node; every
     * non-atomic node ends up mapped to the result.
     */
    method Build(node: Node) returns (id: Fid)
      requires Valid() && AtomsBelow(node, numAtomics) && |formulas| + Count(node) < Int64Max
      modifies this
      decreases Count(node), 2
      ensures Valid() && old(formulas) <= formulas && |formulas| <= |old(formulas)| + Count(node)
      ensures ValidOperand(id, |formulas|)
      ensures Same(Denote(formulas, numAtomics, id), Rewrite(node))
      ensures node.AtomicNode? ==> id == AtomFid(node)
      ensures !node.AtomicNode? ==> node in mapping && mapping[node] == id
      ensures forall n :: n in old(mapping) ==> n in mapping
    {
      if node in mapping {
        return mapping[node];
      }
      if node.AtomicNode? {
        id := AtomFid(node);
        Constants();
        assert Denote(formulas, numAtomics, id) == Rewrite(node);
        SameRefl(Rewrite(node));
      } else {
        if node.NotNode? || node.NextNode? || node.EventualNode? || node.AlwaysNode? {
          id := BuildUnary(node);
        } else {
          id := BuildBinary(node);
        }
        Update(node, id);
      }
    }

    /** The unary operators of `build`, before `update`. */
    method BuildUnary(node: Node) returns (id: Fid)
      requires node.NotNode? || node.NextNode? || node.EventualNode? || node.AlwaysNode?
      requires Valid() && AtomsBelow(node, numAtomics) && |formulas| + Count(node) < Int64Max
      modifies this
      decreases Count(node), 1
      ensures Valid() && old(formulas) <= formulas && |formulas| <= |old(formulas)| + Count(node)
      ensures MappingOk(node, id)
      ensures forall n :: n in old(mapping) ==> n in mapping
    {
      var c := node.child;
      var child := Build(c);
      match node
      case NotNode(_) =>
        id := Negated(child, Rewrite(c));
      case NextNode(_) =>
        id := BuildNext(child, c);
      case EventualNode(_) =>
        id := BuildEventual(child, c);
      case AlwaysNode(_) =>
        id := BuildAlways(child, c);
    }

    /** The binary operators of `build`, before `update`. */
    method BuildBinary(node: Node) returns (id: Fid)
      requires node.ConjNode? || node.DisjNode? || node.UntilNode? || node.ImplNode?
      requires Valid() && AtomsBelow(node, numAtomics) && |formulas| + Count(node) < Int64Max
      modifies this
      decreases Count(node), 1
      ensures Valid() && old(formulas) <= formulas && |formulas| <= |old(formulas)| + Count(node)
      ensures MappingOk(node, id)
      ensures forall n :: n in old(mapping) ==> n in mapping
    {
      var l, r := node.lhs, node.rhs;
      var lhs, rhs := BuildPair(l, r);
      match node
      case ConjNode(_, _) =>
        id := BuildConj(lhs, rhs, Rewrite(l), Rewrite(r));
      case UntilNode(_, _) =>
        id := BuildUntil(lhs, rhs, Rewrite(l), Rewrite(r));
      case DisjNode(_, _) =>
        var nl := Negated(lhs, Rewrite(l));
        var nr := Negated(rhs, Rewrite(r));
        var conj := BuildConj(nl, nr, Neg(Rewrite(l)), Neg(Rewrite(r)));
        id := Negated(conj, CAnd(Neg(Rewrite(l)), Neg(Rewrite(r))));
      case ImplNode(_, _) =>
        var nr := Negated(rhs, Rewrite(r));
        var conj := BuildConj(lhs, nr, Rewrite(l), Neg(Rewrite(r)));
        id := Negated(conj, CAnd(Rewrite(l), Neg(Rewrite(r))));
    }

    /** Build both operands of a binary node, left first. */
    method BuildPair(l: Node, r: Node) returns (lhs: Fid, rhs: Fid)
      requires Valid() && AtomsBelow(l, numAtomics) && AtomsBelow(r, numAtomics)
      requires |formulas| + Count(l) + Count(r) + 1 < Int64Max
      modifies this
      decreases Count(l) + Count(r), 0
      ensures Valid() && old(formulas) <= formulas && |formulas| <= |old(formulas)| + Count(l) + Count(r)
      ensures ValidOperand(lhs, |formulas|) && ValidOperand(rhs, |formulas|)
      ensures Same(Denote(formulas, numAtomics, lhs), Rewrite(l))
      ensures Same(Denote(formulas, numAtomics, rhs), Rewrite(r))
      ensures forall n :: n in old(mapping) ==> n in mapping
    {
      lhs := Build(l);
      ghost var middle := formulas;
      rhs := Build(r);
      DenoteExtend(middle, formulas, numAtomics, lhs);
    }

    /** The complement of an index, which denotes the negation. */
    method Negated(x: Fid, ghost target: Core) returns (id: Fid)
      requires Valid() && ValidOperand(x, |formulas|) && Same(Denote(formulas, numAtomics, x), target)
      ensures ValidOperand(id, |formulas|) && Same(Denote(formulas, numAtomics, id), Neg(target))
      ensures id == Not(x)
    {
      DenoteNot(formulas, numAtomics, x);
      SameNeg(Denote(formulas, numAtomics, x), target);
      id := Not(x);
    }

    /** `for2id(unary<NEXT>(child))`. */
    method BuildNext(child: Fid, ghost c: Node) returns (id: Fid)
      requires Valid() && ValidOperand(child, |formulas|) && |formulas| + 1 < Int64Max
      requires Same(Denote(formulas, numAtomics, child), Rewrite(c))
      modifies this
      ensures Valid() && mapping == old(mapping) && old(formulas) <= formulas && |formulas| <= |old(formulas)| + 1
      ensures ValidOperand(id, |formulas|) && Same(Denote(formulas, numAtomics, id), CNext(Rewrite(c)))
    {
      ghost var before := formulas;
      id := Intern(MakeNext(child));
      DenoteExtend(before, formulas, numAtomics, child);
      assert Denote(formulas, numAtomics, id) == CNext(Denote(formulas, numAtomics, child));
    }

    /** `for2id(binary<UNTIL>(True, child))`. */
    method BuildEventual(child: Fid, ghost c: Node) returns (id: Fid)
      requires Valid() && ValidOperand(child, |formulas|) && |formulas| + 1 < Int64Max
      requires Same(Denote(formulas, numAtomics, child), Rewrite(c))
      modifies this
      ensures Valid() && mapping == old(mapping) && old(formulas) <= formulas && |formulas| <= |old(formulas)| + 1
      ensures ValidOperand(id, |formulas|) && Same(Denote(formulas, numAtomics, id), CUntil(CTrue, Rewrite(c)))
    {
      id := BuildUntil(True, child, CTrue, Rewrite(c));
    }

    /** `~for2id(binary<UNTIL>(True, ~child))`. */
    method BuildAlways(child: Fid, ghost c: Node) returns (id: Fid)
      requires Valid() && ValidOperand(child, |formulas|) && |formulas| + 1 < Int64Max
      requires Same(Denote(formulas, numAtomics, child), Rewrite(c))
      modifies this
      ensures Valid() && mapping == old(mapping) && old(formulas) <= formulas && |formulas| <= |old(formulas)| + 1
      ensures ValidOperand(id, |formulas|)
      ensures Same(Denote(formulas, numAtomics, id), Neg(CUntil(CTrue, Neg(Rewrite(c)))))
    {
      var negated := Negated(child, Rewrite(c));
      var until := BuildUntil(True, negated, CTrue, Neg(Rewrite(c)));
      id := Negated(until, CUntil(CTrue, Neg(Rewrite(c))));
    }

    /** `for2id(binary<UNTIL>(lhs, rhs))`. */
    method BuildUntil(lhs: Fid, rhs: Fid, ghost l: Core, ghost r: Core) returns (id: Fid)
      requires Valid() && ValidOperand(lhs, |formulas|) && ValidOperand(rhs, |formulas|) && |formulas| + 1 < Int64Max
      requires Same(Denote(formulas, numAtomics, lhs), l) && Same(Denote(formulas, numAtomics, rhs), r)
      modifies this
      ensures Valid() && mapping == old(mapping) && old(formulas) <= formulas && |formulas| <= |old(formulas)| + 1
      ensures ValidOperand(id, |formulas|) && Same(Denote(formulas, numAtomics, id), CUntil(l, r))
    {
      ghost var before := formulas;
      id := Intern(MakeUntil(lhs, rhs));
      DenoteExtend(before, formulas, numAtomics, lhs);
      DenoteExtend(before, formulas, numAtomics, rhs);
      assert Denote(formulas, numAtomics, id)
        == CUntil(Denote(formulas, numAtomics, lhs), Denote(formulas, numAtomics, rhs));
    }

    /** `for2id(binary<CONJ>(lhs, rhs))`: the stored operand order does not matter under `Same`. */
    method BuildConj(lhs: Fid, rhs: Fid, ghost l: Core, ghost r: Core) returns (id: Fid)
      requires Valid() && ValidOperand(lhs, |formulas|) && ValidOperand(rhs, |formulas|) && |formulas| + 1 < Int64Max
      requires Same(Denote(formulas, numAtomics, lhs), l) && Same(Denote(formulas, numAtomics, rhs), r)
      modifies this
      ensures Valid() && mapping == old(mapping) && old(formulas) <= formulas && |formulas| <= |old(formulas)| + 1
      ensures ValidOperand(id, |formulas|) && Same(Denote(formulas, numAtomics, id), CAnd(l, r))
    {
      ghost var before := formulas;
      id := Intern(MakeConj(lhs, rhs));
      DenoteExtend(before, formulas, numAtomics, lhs);
      DenoteExtend(before, formulas, numAtomics, rhs);
      var a, b := Denote(formulas, numAtomics, lhs), Denote(formulas, numAtomics, rhs);
      assert Denote(formulas, numAtomics, id) == CAnd(a, b) || Denote(formulas, numAtomics, id) == CAnd(b, a);
    }

    /** `map(node)` of gnba.cpp: an atomic node maps to its own index, whatever its type. */
    function Map(node: Node): Fid
      reads this
      requires node.AtomicNode? ==> node.index <= Int64Max
      requires !node.AtomicNode? ==> node in mapping
    {
      if node.AtomicNode? then node.index else mapping[node]
    }

    /** `map(node)` with the constants of `build`: the index `Build` returned for the node. */
    function CorrectedMap(node: Node): Fid
      reads this
      requires node.AtomicNode? && node.kind == Prop ==> node.index <= Int64Max
      requires !node.AtomicNode? ==> node in mapping
    {
      if node.AtomicNode? then AtomFid(node) else mapping[node]
    }

    /**
     * The corrected `map` of a node that `build` has seen denotes the node's
     * rewrite: non-atomic nodes through `mapping`, atomic ones directly.
     */
    lemma CorrectedMapSound(node: Node)
      requires Valid() && AtomsBelow(node, numAtomics)
      requires !node.AtomicNode? ==> node in mapping
      ensures ValidOperand(CorrectedMap(node), |formulas|)
      ensures Same(Denote(formulas, numAtomics, CorrectedMap(node)), Rewrite(node))
    {
      if node.AtomicNode? {
        Constants();
        assert Denote(formulas, numAtomics, CorrectedMap(node)) == Rewrite(node);
        SameRefl(Rewrite(node));
      }
    }

    /**
     * The formula `true` on its own: `map` reads the node's index 0 (the
     * one the parser gives constants) as the first atomic proposition.
     */
    lemma MapReadsTrueAsProposition()
      requires Valid() && numAtomics > 0
      ensures Map(AtomicNode(0, TrueConst)) == 0
      ensures Denote(formulas, numAtomics, Map(AtomicNode(0, TrueConst))) == CAtom(0)
      ensures !Same(Denote(formulas, numAtomics, Map(AtomicNode(0, TrueConst))), Rewrite(AtomicNode(0, TrueConst)))
    {
    }

    /** A valid collector passes `debug_check_formula` whenever there is a proposition. */
    lemma PassesDebugCheck()
      requires Valid() && numAtomics > 0
      ensures DebugCheckFormula(formulas, numAtomics)
    {
    }

    /** Hash-consing: no two non-atomic entries are equal. */
    lemma NoDuplicates()
      requires Valid()
      ensures forall i, j :: numAtomics <= i < j < |formulas| ==> formulas[i] != formulas[j]
    {
      forall i, j | numAtomics <= i < j < |formulas| ensures formulas[i] != formulas[j] {
        assert visited[formulas[i]] == i && visited[formulas[j]] == j;
      }
    }
  }

  /** `FormulaCollector::from(ptr, num_atomics)`: a fresh collector that has built the tree. */
  method From(node: Node, numAtomics: nat) returns (c: FormulaCollector, root: Fid)
    requires AtomsBelow(node, numAtomics) && numAtomics + Count(node) < Int64Max
    ensures fresh(c) && c.Valid() && c.numAtomics == numAtomics
    ensures |c.formulas| <= numAtomics + Count(node)
    ensures ValidOperand(root, |c.formulas|) && Same(Denote(c.formulas, numAtomics, root), Rewrite(node))
    ensures node.AtomicNode? ==> root == AtomFid(node)
    ensures !node.AtomicNode? ==> node in c.mapping && c.mapping[node] == root
  {
    c := new FormulaCollector(numAtomics);
    root := c.Build(node);
  }
}

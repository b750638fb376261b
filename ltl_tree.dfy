/**
 * The LTL syntax tree of csrc/include/LTL/node_impl.h, and the core logic
 * over {true, atomic propositions, not, next, and, until} into which
 * csrc/cpp/gnba.cpp rewrites it.
 *
 * `Rewrite` is the reference definition of the rewrites of
 * `FormulaCollector::build`: `F x = true U x`, `G x = not (true U not x)`,
 * `x or y = not (not x and not y)` and `x -> y = not (x and not y)`.  A
 * negation of a negation cancels, because `~` is an involution on indices.
 */
module LtlTree {

  /** `AtomicNode::Type`. */
  datatype AtomType = Prop | TrueConst | FalseConst

  /** The `BaseNode` hierarchy; every node owns its children. */
  datatype Node =
    | AtomicNode(index: nat, kind: AtomType)
    | NotNode(child: Node)
    | NextNode(child: Node)
    | AlwaysNode(child: Node)
    | EventualNode(child: Node)
    | ConjNode(lhs: Node, rhs: Node)
    | DisjNode(lhs: Node, rhs: Node)
    | ImplNode(lhs: Node, rhs: Node)
    | UntilNode(lhs: Node, rhs: Node)

  /** The number of nodes of a tree. */
  function Count(n: Node): (c: nat)
    ensures c >= 1
  {
    match n
    case AtomicNode(_, _) => 1
    case NotNode(c) => 1 + Count(c)
    case NextNode(c) => 1 + Count(c)
    case AlwaysNode(c) => 1 + Count(c)
    case EventualNode(c) => 1 + Count(c)
    case ConjNode(l, r) => 1 + Count(l) + Count(r)
    case DisjNode(l, r) => 1 + Count(l) + Count(r)
    case ImplNode(l, r) => 1 + Count(l) + Count(r)
    case UntilNode(l, r) => 1 + Count(l) + Count(r)
  }

  /** Every atomic proposition of the tree is one of the first `n`. */
  predicate AtomsBelow(node: Node, n: nat) {
    match node
    case AtomicNode(i, kind) => kind == Prop ==> i < n
    case NotNode(c) => AtomsBelow(c, n)
    case NextNode(c) => AtomsBelow(c, n)
    case AlwaysNode(c) => AtomsBelow(c, n)
    case EventualNode(c) => AtomsBelow(c, n)
    case ConjNode(l, r) => AtomsBelow(l, n) && AtomsBelow(r, n)
    case DisjNode(l, r) => AtomsBelow(l, n) && AtomsBelow(r, n)
    case ImplNode(l, r) => AtomsBelow(l, n) && AtomsBelow(r, n)
    case UntilNode(l, r) => AtomsBelow(l, n) && AtomsBelow(r, n)
  }

  /** The core logic. */
  datatype Core =
    | CTrue
    | CAtom(index: nat)
    | CNot(arg: Core)
    | CNext(arg: Core)
    | CAnd(left: Core, right: Core)
    | CUntil(left: Core, right: Core)

  /** Negation with a double negation cancelled. */
  function Neg(c: Core): Core {
    if c.CNot? then c.arg else CNot(c)
  }

  /** No negation of a negation at the top. */
  predicate Normal(c: Core) {
    !(c.CNot? && c.arg.CNot?)
  }

  lemma NegNeg(c: Core)
    requires Normal(c)
    ensures Normal(Neg(c)) && Neg(Neg(c)) == c
  {
  }

  /** `Rewrite` never produces a double negation. */
  lemma {:induction false} RewriteNormal(node: Node)
    ensures Normal(Rewrite(node))
  {
    if node.NotNode? {
      RewriteNormal(node.child);
      NegNeg(Rewrite(node.child));
    }
  }

  /** The rewrites of `FormulaCollector::build`, as a function of the tree. */
  function Rewrite(node: Node): Core {
    match node
    case AtomicNode(i, kind) =>
      if kind == TrueConst then CTrue else if kind == FalseConst then Neg(CTrue) else CAtom(i)
    case NotNode(c) => Neg(Rewrite(c))
    case NextNode(c) => CNext(Rewrite(c))
    case EventualNode(c) => CUntil(CTrue, Rewrite(c))
    case AlwaysNode(c) => Neg(CUntil(CTrue, Neg(Rewrite(c))))
    case ConjNode(l, r) => CAnd(Rewrite(l), Rewrite(r))
    case DisjNode(l, r) => Neg(CAnd(Neg(Rewrite(l)), Neg(Rewrite(r))))
    case UntilNode(l, r) => CUntil(Rewrite(l), Rewrite(r))
    case ImplNode(l, r) => Neg(CAnd(Rewrite(l), Neg(Rewrite(r))))
  }

  /** Equality of core formulas up to the order of conjunction operands. */
  predicate Same(a: Core, b: Core) {
    match a
    case CTrue => b.CTrue?
    case CAtom(i) => b == CAtom(i)
    case CNot(x) => b.CNot? && Same(x, b.arg)
    case CNext(x) => b.CNext? && Same(x, b.arg)
    case CUntil(x, y) => b.CUntil? && Same(x, b.left) && Same(y, b.right)
    case CAnd(x, y) => b.CAnd? && ((Same(x, b.left) && Same(y, b.right)) || (Same(x, b.right) && Same(y, b.left)))
  }

  lemma {:induction false} SameRefl(a: Core)
    ensures Same(a, a)
  {
    match a
    case CTrue =>
    case CAtom(_) =>
    case CNot(x) => SameRefl(x);
    case CNext(x) => SameRefl(x);
    case CUntil(x, y) => SameRefl(x); SameRefl(y);
    case CAnd(x, y) => SameRefl(x); SameRefl(y);
  }

  /** Negation respects `Same`, because `Same` keeps the outermost operator. */
  lemma SameNeg(a: Core, b: Core)
    requires Same(a, b)
    ensures Same(Neg(a), Neg(b))
  {
    if !a.CNot? {
      assert !b.CNot?;
    }
  }

  /** A double negation rewrites to the formula itself. */
  lemma RewriteNotNot(x: Node)
    ensures Rewrite(NotNode(NotNode(x))) == Rewrite(x)
  {
    RewriteNormal(x);
    NegNeg(Rewrite(x));
  }
}

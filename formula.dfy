/**
 * The formula indices and formula nodes of csrc/cpp/automa_aux.h.
 *
 * A formula index (`fid`) is a signed 64-bit integer: a non-negative value
 * names an entry of the formula list, and its bitwise complement `~i`
 * (that is, `-i - 1`) names the negation of that entry.  The two constants
 * `True` (INT64_MAX) and `False` (`~True`, INT64_MIN) sit at the ends of the
 * range.  Formula nodes are kept in a canonical form: a conjunction stores
 * its operand with the smaller raw index first, so the two operand orders
 * give one node.
 */
module Formulas {

  const Int64Max: int := 0x7FFF_FFFF_FFFF_FFFF

  /** `std::int64_t`. */
  type Fid = i: int | -Int64Max - 1 <= i <= Int64Max

  /** `FormulaIndex::True`. */
  const True: Fid := Int64Max

  /** `FormulaIndex::False`, defined as `~True`. */
  const False: Fid := -Int64Max - 1

  /** `is_negation()`: a negative raw index. */
  predicate IsNegation(f: Fid) {
    f < 0
  }

  /** `operator~`: the bitwise complement of a two's-complement integer. */
  function Not(f: Fid): (r: Fid)
    ensures r + f == -1
    ensures IsNegation(r) <==> !IsNegation(f)
  {
    var x: int := f; -x - 1
  }

  /** `original()`: the index of the entry a (possibly negated) index refers to. */
  function Original(f: Fid): (n: nat)
    ensures n <= Int64Max
    ensures n == f || n == Not(f)
    ensures !IsNegation(f) ==> n == f
  {
    if IsNegation(f) then Not(f) else f
  }

  /** `~` is an involution. */
  lemma NotNot(f: Fid)
    ensures Not(Not(f)) == f
  {
  }

  /** An index and its complement refer to the same entry. */
  lemma OriginalOfNot(f: Fid)
    ensures Original(Not(f)) == Original(f)
    ensures IsNegation(Not(f)) == !IsNegation(f)
  {
  }

  /** `True` is positive, `False` is its negation, and both refer to entry INT64_MAX. */
  lemma Constants()
    ensures !IsNegation(True) && IsNegation(False)
    ensures Not(True) == False && Not(False) == True
    ensures Original(True) == Original(False) == Int64Max
  {
  }

  /** Two indices are equal iff their complements are. */
  lemma NotInjective(f: Fid, g: Fid)
    ensures Not(f) == Not(g) <==> f == g
  {
  }

  /** `Formula::op`. */
  datatype Op = Atomic | Next | Conj | Until

  /** A formula node: an operator, a left operand, and a right operand that unary nodes leave at 0. */
  datatype Formula = Formula(op: Op, lhs: Fid, rhs: Fid)

  /** `atomic<ATOMIC>(x)`. */
  function MakeAtomic(x: Fid): (r: Formula)
    ensures r.op == Atomic && r.lhs == x && r.rhs == 0
  {
    Formula(Atomic, x, 0)
  }

  /** `unary<NEXT>(x)`: the right operand takes its default `fid(0)`. */
  function MakeNext(x: Fid): (r: Formula)
    ensures r.op == Next && r.lhs == x && r.rhs == 0
  {
    Formula(Next, x, 0)
  }

  /** `binary<CONJ>(l, r)`: the operands ordered by raw index. */
  function MakeConj(l: Fid, r: Fid): (f: Formula)
    ensures f.op == Conj
    ensures f.lhs <= f.rhs
    ensures (f.lhs == l && f.rhs == r) || (f.lhs == r && f.rhs == l)
  {
    if l < r then Formula(Conj, l, r) else Formula(Conj, r, l)
  }

  /** `binary<UNTIL>(l, r)`: the operand order is kept. */
  function MakeUntil(l: Fid, r: Fid): (f: Formula)
    ensures f.op == Until && f.lhs == l && f.rhs == r
  {
    Formula(Until, l, r)
  }

  /** A conjunction node does not depend on the order of its operands. */
  lemma ConjCommutes(a: Fid, b: Fid)
    ensures MakeConj(a, b) == MakeConj(b, a)
  {
  }

  /** Conjunction nodes are equal exactly when their operand pairs are equal up to order. */
  lemma ConjEqual(a: Fid, b: Fid, c: Fid, d: Fid)
    ensures MakeConj(a, b) == MakeConj(c, d) <==> (a == c && b == d) || (a == d && b == c)
  {
  }

  predicate IsAtomic(f: Formula) {
    f.op == Atomic
  }

  /** `is_unary()`: the only unary operator is `NEXT`. */
  predicate IsUnary(f: Formula) {
    f.op == Next
  }

  predicate IsConj(f: Formula) {
    f.op == Conj
  }

  predicate IsUntil(f: Formula) {
    f.op == Until
  }

  predicate IsBinary(f: Formula) {
    f.op == Conj || f.op == Until
  }

  /** `is_uncertain()`: the operators whose truth is not fixed by the current position alone. */
  predicate IsUncertain(f: Formula) {
    f.op == Next || f.op == Until
  }

  /** `operator[](right)`. */
  function Operand(f: Formula, right: bool): Fid {
    if right then f.rhs else f.lhs
  }

  /** Every formula is exactly one of atomic, unary or binary, and uncertain ones are next or until. */
  lemma Classification(f: Formula)
    ensures IsAtomic(f) || IsUnary(f) || IsBinary(f)
    ensures !(IsAtomic(f) && IsUnary(f)) && !(IsAtomic(f) && IsBinary(f)) && !(IsUnary(f) && IsBinary(f))
    ensures IsUncertain(f) <==> IsUnary(f) || IsUntil(f)
    ensures IsBinary(f) <==> IsConj(f) || IsUntil(f)
  {
  }
}

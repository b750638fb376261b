/**
 * `formula_bitset` and `SetBuilder` of csrc/cpp/gnba.cpp: the elementary
 * sets of a collected formula list.
 *
 * A set is a 64-bit bitset with one bit per formula entry.  `prepare`
 * chooses the entries whose bit is free (the atomic propositions some
 * entry uses, and every next/until entry), `build` enumerates every
 * assignment of those bits and `check` completes each one: a conjunction's
 * bit is computed from its operands, and an until entry must satisfy its
 * local expansion law.  The reference definitions are `Close` (the
 * completion) and `Elementary` (the consistency conditions); the sets
 * `build` keeps are proved to be exactly the elementary sets whose free
 * bits range over all assignments.
 */
module ElementarySets {
  import opened Wrappers
  import opened Formulas
  import opened FixedBitset
  import opened Collector

  /** A formula list as the builder receives it: collected, and one bit per entry fits a `bitset`. */
  predicate WfList(formulas: seq<Formula>, numAps: nat) {
    Topological(formulas, numAps) && |formulas| <= Width
  }

  /** A set over the formula list. */
  predicate WfSet(formulas: seq<Formula>, numAps: nat, s: Bitset) {
    WfList(formulas, numAps) && Valid(s) && s.length == |formulas|
  }

  /** `formula_bitset::operator[](fid)`: constants are fixed, a negation reads the complement. */
  function Holds(s: Bitset, f: Fid): bool
    requires Valid(s) && ValidOperand(f, s.length)
  {
    if IsNegation(f) then (if f == False then false else !Test(s, Not(f)))
    else (if f == True then true else Test(s, f))
  }

  /** `True` always holds, `False` never does, and a complement holds exactly when the index does not. */
  lemma HoldsNot(s: Bitset, f: Fid)
    requires Valid(s) && ValidOperand(f, s.length)
    ensures ValidOperand(Not(f), s.length)
    ensures Holds(s, Not(f)) == !Holds(s, f)
    ensures Holds(s, True) && !Holds(s, False)
  {
    NotNot(f);
    Constants();
    if f != True && f != False {
      NotInjective(f, False);
      NotInjective(f, True);
    }
  }

  /** Two sets with the same first `k` bits. */
  predicate AgreeBelow(s: Bitset, t: Bitset, k: nat) {
    && Valid(s) && Valid(t) && s.length == t.length && k <= s.length
    && forall m :: 0 <= m < k ==> Test(s, m) == Test(t, m)
  }

  /** An index below `k` reads the same in two sets that agree below `k`. */
  lemma HoldsAgree(s: Bitset, t: Bitset, f: Fid, k: nat)
    requires AgreeBelow(s, t, k) && ValidOperand(f, k)
    ensures Holds(s, f) == Holds(t, f)
  {
    if IsNegation(f) && f != False {
      assert Original(f) == Not(f);
    }
  }

  predicate IsConjEntry(formulas: seq<Formula>, numAps: nat, k: nat) {
    numAps <= k < |formulas| && IsConj(formulas[k])
  }

  /** The conjunction law at entry `i`. */
  predicate ConjOk(formulas: seq<Formula>, numAps: nat, t: Bitset, i: nat)
    requires WfSet(formulas, numAps, t) && numAps <= i < |formulas|
  {
    var f := formulas[i];
    assert EntryOk(f, i);
    IsConj(f) ==> Test(t, i) == (Holds(t, f.lhs) && Holds(t, f.rhs))
  }

  /** The local until law at entry `i`: `rhs` implies the until, and the until implies `lhs` or `rhs`. */
  predicate UntilOk(formulas: seq<Formula>, numAps: nat, t: Bitset, i: nat)
    requires WfSet(formulas, numAps, t) && numAps <= i < |formulas|
  {
    var f := formulas[i];
    assert EntryOk(f, i);
    IsUntil(f) ==>
      && (Holds(t, f.rhs) ==> Test(t, i))
      && (Test(t, i) ==> Holds(t, f.lhs) || Holds(t, f.rhs))
  }

  predicate ConjClosed(formulas: seq<Formula>, numAps: nat, t: Bitset)
    requires WfSet(formulas, numAps, t)
  {
    forall i :: numAps <= i < |formulas| ==> ConjOk(formulas, numAps, t, i)
  }

  /** An elementary set: every conjunction law and every local until law holds. */
  predicate Elementary(formulas: seq<Formula>, numAps: nat, t: Bitset)
    requires WfSet(formulas, numAps, t)
  {
    forall i :: numAps <= i < |formulas| ==> ConjOk(formulas, numAps, t, i) && UntilOk(formulas, numAps, t, i)
  }

  /** Two sets that can differ only at conjunction entries. */
  predicate AgreeOffConj(formulas: seq<Formula>, numAps: nat, s: Bitset, t: Bitset)
    requires WfSet(formulas, numAps, s) && WfSet(formulas, numAps, t)
  {
    forall k :: 0 <= k < |formulas| && !IsConjEntry(formulas, numAps, k) ==> Test(s, k) == Test(t, k)
  }

  /** The effect of the loop of `check` on entries `num_aps .. k-1`: conjunction bits are recomputed in order. */
  function Close(formulas: seq<Formula>, numAps: nat, s: Bitset, k: nat): (r: Bitset)
    requires WfSet(formulas, numAps, s) && k <= |formulas|
    ensures WfSet(formulas, numAps, r)
    decreases k
  {
    if k <= numAps then s
    else
      var t := Close(formulas, numAps, s, k - 1);
      var f := formulas[k - 1];
      assert EntryOk(f, k - 1);
      if IsConj(f) then Assign(t, k - 1, Holds(t, f.lhs) && Holds(t, f.rhs)) else t
  }

  /**
   * `Close` changes only conjunction bits below `k`, and makes each of them
   * satisfy its law.
   */
  lemma {:induction false} CloseFacts(formulas: seq<Formula>, numAps: nat, s: Bitset, k: nat)
    requires WfSet(formulas, numAps, s) && k <= |formulas|
    ensures forall m :: k <= m < |formulas| ==> Test(Close(formulas, numAps, s, k), m) == Test(s, m)
    ensures forall m :: 0 <= m < |formulas| && !IsConjEntry(formulas, numAps, m) ==>
      Test(Close(formulas, numAps, s, k), m) == Test(s, m)
    ensures forall j :: numAps <= j < k ==> ConjOk(formulas, numAps, Close(formulas, numAps, s, k), j)
    decreases k
  {
    if k > numAps {
      CloseFacts(formulas, numAps, s, k - 1);
      var t := Close(formulas, numAps, s, k - 1);
      var r := Close(formulas, numAps, s, k);
      assert AgreeBelow(r, t, k - 1);
      forall j | numAps <= j < k ensures ConjOk(formulas, numAps, r, j) {
        var f := formulas[j];
        assert EntryOk(f, j);
        if IsConj(f) {
          assert AgreeBelow(r, t, j);
          HoldsAgree(r, t, f.lhs, j);
          HoldsAgree(r, t, f.rhs, j);
          if j < k - 1 {
            assert ConjOk(formulas, numAps, t, j);
            assert Test(r, j) == Test(t, j);
          }
        }
      }
    }
  }

  /** Later steps of `check` leave the first `k` bits as step `k` left them. */
  lemma {:induction false} CloseAgree(formulas: seq<Formula>, numAps: nat, s: Bitset, k: nat, m: nat)
    requires WfSet(formulas, numAps, s) && k <= m <= |formulas|
    ensures AgreeBelow(Close(formulas, numAps, s, k), Close(formulas, numAps, s, m), k)
    decreases m
  {
    if m > k {
      CloseAgree(formulas, numAps, s, k, m - 1);
    }
  }

  /** Two conjunction-closed sets that agree off the conjunction entries agree below `k`. */
  lemma {:induction false} ConjClosedAgree(formulas: seq<Formula>, numAps: nat, a: Bitset, b: Bitset, k: nat)
    requires WfSet(formulas, numAps, a) && WfSet(formulas, numAps, b) && k <= |formulas|
    requires ConjClosed(formulas, numAps, a) && ConjClosed(formulas, numAps, b)
    requires AgreeOffConj(formulas, numAps, a, b)
    ensures AgreeBelow(a, b, k)
    decreases k
  {
    if k > 0 {
      ConjClosedAgree(formulas, numAps, a, b, k - 1);
      var i := k - 1;
      if IsConjEntry(formulas, numAps, i) {
        assert ConjOk(formulas, numAps, a, i) && ConjOk(formulas, numAps, b, i);
        var f := formulas[i];
        assert EntryOk(f, i);
        HoldsAgree(a, b, f.lhs, i);
        HoldsAgree(a, b, f.rhs, i);
      }
    }
  }

  /** The completion is unique: a conjunction-closed set is determined by its other bits. */
  lemma ConjClosedUnique(formulas: seq<Formula>, numAps: nat, a: Bitset, b: Bitset)
    requires WfSet(formulas, numAps, a) && WfSet(formulas, numAps, b)
    requires ConjClosed(formulas, numAps, a) && ConjClosed(formulas, numAps, b)
    requires AgreeOffConj(formulas, numAps, a, b)
    ensures a == b
  {
    ConjClosedAgree(formulas, numAps, a, b, |formulas|);
    EqualIffSameBits(a, b);
  }

  /** The reference definition of `check`: the completion if it is elementary, none otherwise. */
  function CheckSpec(formulas: seq<Formula>, numAps: nat, s: Bitset): Option<Bitset>
    requires WfSet(formulas, numAps, s)
  {
    var t := Close(formulas, numAps, s, |formulas|);
    if Elementary(formulas, numAps, t) then Some(t) else None
  }

  /**
   * `check(s)` yields `t` exactly when `t` is elementary and differs from
   * `s` only at conjunction entries.
   */
  lemma CheckSpecMeaning(formulas: seq<Formula>, numAps: nat, s: Bitset, t: Bitset)
    requires WfSet(formulas, numAps, s) && WfSet(formulas, numAps, t)
    ensures CheckSpec(formulas, numAps, s) == Some(t) <==>
      Elementary(formulas, numAps, t) && AgreeOffConj(formulas, numAps, s, t)
  {
    var c := Close(formulas, numAps, s, |formulas|);
    CloseFacts(formulas, numAps, s, |formulas|);
    assert ConjClosed(formulas, numAps, c) by {
      forall j | numAps <= j < |formulas| ensures ConjOk(formulas, numAps, c, j) {
      }
    }
    if Elementary(formulas, numAps, t) && AgreeOffConj(formulas, numAps, s, t) {
      assert ConjClosed(formulas, numAps, t);
      assert AgreeOffConj(formulas, numAps, c, t) by {
        forall k | 0 <= k < |formulas| && !IsConjEntry(formulas, numAps, k) ensures Test(c, k) == Test(t, k) {
        }
      }
      ConjClosedUnique(formulas, numAps, c, t);
    }
  }

  /** The local until law at `i` depends only on the bits up to `i`. */
  lemma UntilFrame(formulas: seq<Formula>, numAps: nat, a: Bitset, b: Bitset, i: nat)
    requires WfSet(formulas, numAps, a) && WfSet(formulas, numAps, b) && numAps <= i < |formulas|
    requires AgreeBelow(a, b, i + 1)
    ensures UntilOk(formulas, numAps, a, i) == UntilOk(formulas, numAps, b, i)
  {
    var f := formulas[i];
    assert EntryOk(f, i);
    assert AgreeBelow(a, b, i);
    HoldsAgree(a, b, f.lhs, i);
    if IsBinary(f) {
      HoldsAgree(a, b, f.rhs, i);
    }
  }

  /** `SetBuilder::check`: compute the conjunction bits in order and check every until entry. */
  method Check(formulas: seq<Formula>, numAps: nat, s: Bitset) returns (r: Option<Bitset>)
    requires WfSet(formulas, numAps, s)
    ensures r == CheckSpec(formulas, numAps, s)
  {
    var current := s;
    var i := numAps;
    while i < |formulas|
      invariant numAps <= i <= |formulas|
      invariant current == Close(formulas, numAps, s, i)
      invariant forall j :: numAps <= j < i ==> UntilOk(formulas, numAps, current, j)
    {
      var f := formulas[i];
      assert EntryOk(f, i);
      if IsConj(f) {
        var next := Assign(current, i, Holds(current, f.lhs) && Holds(current, f.rhs));
        assert AgreeBelow(next, current, i);
        forall j | numAps <= j < i ensures UntilOk(formulas, numAps, next, j) {
          UntilFrame(formulas, numAps, next, current, j);
        }
        current := next;
      } else if IsUntil(f) {
        var lhs := Holds(current, f.lhs);
        var rhs := Holds(current, f.rhs);
        var cur := Test(current, i);
        if (!cur && rhs) || (cur && !lhs && !rhs) {
          UntilFails(formulas, numAps, s, i);
          return None;
        }
      }
      i := i + 1;
    }
    CloseFacts(formulas, numAps, s, |formulas|);
    return Some(current);
  }

  /** A local until law broken at step `i` stays broken in the completion. */
  lemma UntilFails(formulas: seq<Formula>, numAps: nat, s: Bitset, i: nat)
    requires WfSet(formulas, numAps, s) && numAps <= i < |formulas|
    requires !UntilOk(formulas, numAps, Close(formulas, numAps, s, i), i)
    ensures CheckSpec(formulas, numAps, s) == None
  {
    var c := Close(formulas, numAps, s, i);
    var d := Close(formulas, numAps, s, |formulas|);
    CloseAgree(formulas, numAps, s, i, |formulas|);
    CloseFacts(formulas, numAps, s, i);
    CloseFacts(formulas, numAps, s, |formulas|);
    assert !IsConjEntry(formulas, numAps, i);
    assert AgreeBelow(c, d, i + 1);
    UntilFrame(formulas, numAps, c, d, i);
  }

  // ---------------------------------------------------------------------------
  // `prepare`

  /** `n` is the original of an operand of `f` that `prepare` looks at. */
  predicate OperandOf(f: Formula, n: nat) {
    Original(f.lhs) == n || (IsBinary(f) && Original(f.rhs) == n)
  }

  /** Atomic proposition `n` is an operand of one of the entries `num_aps .. i-1`. */
  predicate UsedApBefore(formulas: seq<Formula>, numAps: nat, n: nat, i: nat) {
    n < numAps && exists j :: numAps <= j < i && j < |formulas| && OperandOf(formulas[j], n)
  }

  /** The indices prepared after entries `num_aps .. i-1`. */
  predicate EnumeratedBefore(formulas: seq<Formula>, numAps: nat, k: nat, i: nat) {
    UsedApBefore(formulas, numAps, k, i) || (numAps <= k < i && k < |formulas| && IsUncertain(formulas[k]))
  }

  /** The indices `build` enumerates: the used atomic propositions and the next/until entries. */
  predicate Enumerated(formulas: seq<Formula>, numAps: nat, k: nat) {
    EnumeratedBefore(formulas, numAps, k, |formulas|)
  }

  predicate Distinct(s: seq<nat>) {
    forall a, b :: 0 <= a < b < |s| ==> s[a] != s[b]
  }

  /** The `try_add_ap` lambda. */
  method TryAddAp(numAps: nat, indices: seq<nat>, usedAp: Bitset, f: Fid) returns (indices': seq<nat>, usedAp': Bitset)
    requires Distinct(indices) && Valid(usedAp) && usedAp.length == numAps
    ensures Distinct(indices') && Valid(usedAp') && usedAp'.length == numAps
    ensures Original(f) < numAps ==>
      && (forall k :: k in indices' <==> k in indices || k == Original(f))
      && Test(usedAp', Original(f))
      && (forall n :: 0 <= n < numAps && n != Original(f) ==> Test(usedAp', n) == Test(usedAp, n))
    ensures Original(f) >= numAps ==> indices' == indices && usedAp' == usedAp
  {
    var n := Original(f);
    indices', usedAp' := indices, usedAp;
    if n < numAps {
      if n !in indices' {
        indices' := indices' + [n];
      }
      usedAp' := Assign(usedAp', n, true);
    }
  }

  /**
   * `SetBuilder::prepare`: the enumerated indices, each once, and the mask
   * of used atomic propositions.  The source collects them in an
   * `unordered_set`; here they come in the order they are first met.
   */
  method Prepare(formulas: seq<Formula>, numAps: nat) returns (indices: seq<nat>, usedAp: Bitset)
    requires WfList(formulas, numAps)
    ensures Distinct(indices)
    ensures forall k :: k in indices <==> Enumerated(formulas, numAps, k)
    ensures forall a :: 0 <= a < |indices| ==> indices[a] < |formulas|
    ensures Valid(usedAp) && usedAp.length == numAps
    ensures forall n :: 0 <= n < numAps ==> (Test(usedAp, n) <==> UsedApBefore(formulas, numAps, n, |formulas|))
  {
    usedAp := New(numAps);
    indices := [];
    for i := numAps to |formulas|
      invariant Distinct(indices) && Valid(usedAp) && usedAp.length == numAps
      invariant forall k :: k in indices <==> EnumeratedBefore(formulas, numAps, k, i)
      invariant forall n :: 0 <= n < numAps ==> (Test(usedAp, n) <==> UsedApBefore(formulas, numAps, n, i))
    {
      indices, usedAp := PrepareRound(formulas, numAps, i, indices, usedAp);
    }
    forall a | 0 <= a < |indices| ensures indices[a] < |formulas| {
      assert Enumerated(formulas, numAps, indices[a]);
    }
  }

  /** One round of the loop of `prepare`: record the propositions entry `i` reads, and enumerate `i` when it is uncertain. */
  method PrepareRound(formulas: seq<Formula>, numAps: nat, i: nat, indices0: seq<nat>, usedAp0: Bitset)
    returns (indices: seq<nat>, usedAp: Bitset)
    requires WfList(formulas, numAps) && numAps <= i < |formulas|
    requires Distinct(indices0) && Valid(usedAp0) && usedAp0.length == numAps
    requires forall k :: k in indices0 <==> EnumeratedBefore(formulas, numAps, k, i)
    requires forall n :: 0 <= n < numAps ==> (Test(usedAp0, n) <==> UsedApBefore(formulas, numAps, n, i))
    ensures Distinct(indices) && Valid(usedAp) && usedAp.length == numAps
    ensures forall k :: k in indices <==> EnumeratedBefore(formulas, numAps, k, i + 1)
    ensures forall n :: 0 <= n < numAps ==> (Test(usedAp, n) <==> UsedApBefore(formulas, numAps, n, i + 1))
  {
    var f := formulas[i];
    indices, usedAp := TryAddAp(numAps, indices0, usedAp0, f.lhs);
    if IsBinary(f) {
      indices, usedAp := TryAddAp(numAps, indices, usedAp, f.rhs);
    }
    if IsUncertain(f) && i !in indices {
      indices := indices + [i];
    }
    forall n | 0 <= n < numAps ensures Test(usedAp, n) <==> UsedApBefore(formulas, numAps, n, i + 1) {
      if OperandOf(f, n) {
        assert numAps <= i < i + 1 && OperandOf(formulas[i], n);
      }
    }
    forall k: nat ensures k in indices <==> EnumeratedBefore(formulas, numAps, k, i + 1) {
      if k < numAps && OperandOf(f, k) {
        assert numAps <= i < i + 1 && OperandOf(formulas[i], k);
      }
    }
  }

  // ---------------------------------------------------------------------------
  // `build`

  function Pow2(n: nat): (r: nat)
    ensures r >= 1
  {
    if n == 0 then 1 else 2 * Pow2(n - 1)
  }

  /** `(i >> j) & 1`. */
  function Bit(i: nat, j: nat): bool {
    if j == 0 then i % 2 == 1 else Bit(i / 2, j - 1)
  }

  /** The first position of `x` in `s`. */
  function IndexOf(s: seq<nat>, x: nat): (r: nat)
    requires x in s
    ensures r < |s| && s[r] == x
    ensures forall a :: 0 <= a < r ==> s[a] != x
  {
    if s[0] == x then 0 else 1 + IndexOf(s[1..], x)
  }

  /** The bits `build` writes in round `i`: bit `indices[j]` is bit `j` of `i`, every other bit clear. */
  predicate IsAssignment(n: nat, indices: seq<nat>, i: nat, s: Bitset) {
    && Valid(s) && s.length == n
    && (forall j :: 0 <= j < |indices| && indices[j] < n ==> Test(s, indices[j]) == Bit(i, j))
    && (forall k :: 0 <= k < n && k !in indices ==> !Test(s, k))
  }

  /** The set with exactly the bits of round `i`. */
  function Assignment(n: nat, indices: seq<nat>, i: nat): (s: Bitset)
    requires n <= Width && Distinct(indices)
    ensures IsAssignment(n, indices, i, s)
  {
    var s := Bitset(seq(Width, k requires 0 <= k < Width => k < n && k in indices && Bit(i, IndexOf(indices, k))), n);
    assert forall j :: 0 <= j < |indices| && indices[j] < n ==> IndexOf(indices, indices[j]) == j;
    s
  }

  /** A round's bits are determined: any set with them is `Assignment`. */
  lemma AssignmentUnique(n: nat, indices: seq<nat>, i: nat, s: Bitset)
    requires n <= Width && Distinct(indices) && IsAssignment(n, indices, i, s)
    ensures s == Assignment(n, indices, i)
  {
    var t := Assignment(n, indices, i);
    forall k | 0 <= k < n ensures Test(s, k) == Test(t, k) {
      if k in indices {
        var j := IndexOf(indices, k);
        assert Test(s, indices[j]) == Bit(i, j);
      }
    }
    EqualIffSameBits(s, t);
  }

  /** The inner loop of `build`: write bit `j` of `i` at `indices[j]` for every `j`. */
  method WriteRound(current: Bitset, indices: seq<nat>, i: nat) returns (r: Bitset)
    requires Valid(current) && Distinct(indices) && forall a :: 0 <= a < |indices| ==> indices[a] < current.length
    requires forall k :: 0 <= k < current.length && k !in indices ==> !Test(current, k)
    ensures r == Assignment(current.length, indices, i)
  {
    r := current;
    for j := 0 to |indices|
      invariant Valid(r) && r.length == current.length
      invariant forall k :: 0 <= k < r.length && k !in indices ==> !Test(r, k)
      invariant forall a :: 0 <= a < j ==> Test(r, indices[a]) == Bit(i, a)
    {
      r := Assign(r, indices[j], Bit(i, j));
    }
    AssignmentUnique(r.length, indices, i, r);
  }

  /** The sets kept after rounds `0 .. k-1`. */
  function Accepted(formulas: seq<Formula>, numAps: nat, indices: seq<nat>, k: nat): seq<Bitset>
    requires WfList(formulas, numAps) && Distinct(indices)
  {
    if k == 0 then []
    else
      var s := Assignment(|formulas|, indices, k - 1);
      Accepted(formulas, numAps, indices, k - 1) +
        (match CheckSpec(formulas, numAps, s) case Some(t) => [t] case None => [])
  }

  /** The atomic proposition the root formula names, when the root is one. */
  predicate RootAp(numAps: nat, root: Fid, k: nat) {
    k == Original(root) && k < numAps
  }

  /** The indices enumerated once the root's own proposition is added to those `prepare` finds. */
  predicate Free(formulas: seq<Formula>, numAps: nat, root: Fid, k: nat) {
    Enumerated(formulas, numAps, k) || RootAp(numAps, root, k)
  }

  /**
   * `prepare` followed by `try_add_ap(root)`.  `prepare` only looks at the
   * operands of non-atomic entries, so a proposition that is the whole
   * formula (`a`, or `!a`) is neither enumerated nor marked as used.
   */
  method PrepareWithRoot(formulas: seq<Formula>, numAps: nat, root: Fid) returns (indices: seq<nat>, usedAp: Bitset)
    requires WfList(formulas, numAps) && ValidOperand(root, |formulas|)
    ensures Distinct(indices)
    ensures forall k :: k in indices <==> Free(formulas, numAps, root, k)
    ensures forall a :: 0 <= a < |indices| ==> indices[a] < |formulas|
    ensures Valid(usedAp) && usedAp.length == numAps
    ensures forall n :: 0 <= n < numAps ==>
      (Test(usedAp, n) <==> UsedApBefore(formulas, numAps, n, |formulas|) || RootAp(numAps, root, n))
  {
    indices, usedAp := Prepare(formulas, numAps);
    ghost var prepared := indices;
    indices, usedAp := TryAddAp(numAps, indices, usedAp, root);
    forall a | 0 <= a < |indices| ensures indices[a] < |formulas| {
      if indices[a] in prepared {
        var b :| 0 <= b < |prepared| && prepared[b] == indices[a];
      }
    }
  }

  /**
   * `SetBuilder::from` with the root's proposition enumerated: prepare,
   * then try every assignment of the free bits and keep those that
   * `check` accepts.  `ok` is false where the source stops on 32 or more
   * indices.
   */
  method From(formulas: seq<Formula>, numAps: nat, root: Fid) returns (ok: bool, indices: seq<nat>, sets: seq<Bitset>, usedAp: Bitset)
    requires WfList(formulas, numAps) && ValidOperand(root, |formulas|)
    ensures Distinct(indices) && (ok <==> |indices| < 32)
    ensures forall k :: k in indices <==> Free(formulas, numAps, root, k)
    ensures forall a :: 0 <= a < |indices| ==> indices[a] < |formulas|
    ensures ok ==> sets == Accepted(formulas, numAps, indices, Pow2(|indices|))
    ensures Valid(usedAp) && usedAp.length == numAps
    ensures forall n :: 0 <= n < numAps ==>
      (Test(usedAp, n) <==> UsedApBefore(formulas, numAps, n, |formulas|) || RootAp(numAps, root, n))
  {
    indices, usedAp := PrepareWithRoot(formulas, numAps, root);
    ok := |indices| < 32;
    sets := [];
    if ok {
      sets := Enumerate(formulas, numAps, indices);
    }
  }

  /** The loop of `build`: round `i` writes its assignment and keeps what `check` accepts. */
  method Enumerate(formulas: seq<Formula>, numAps: nat, indices: seq<nat>) returns (sets: seq<Bitset>)
    requires WfList(formulas, numAps) && Distinct(indices) && |indices| < 32
    requires forall a :: 0 <= a < |indices| ==> indices[a] < |formulas|
    ensures sets == Accepted(formulas, numAps, indices, Pow2(|indices|))
  {
    var size := |indices|;
    var n := |formulas|;
    var current := New(n);
    sets := [];
    var i := 0;
    while i < Pow2(size)
      invariant 0 <= i <= Pow2(size)
      invariant Valid(current) && current.length == n
      invariant forall k :: 0 <= k < n && k !in indices ==> !Test(current, k)
      invariant sets == Accepted(formulas, numAps, indices, i)
    {
      current, sets := EnumerateRound(formulas, numAps, indices, current, i, sets);
      i := i + 1;
    }
  }

  /** One round of the enumeration: write the bits of round `i`, check the set, keep it when it passes. */
  method EnumerateRound(formulas: seq<Formula>, numAps: nat, indices: seq<nat>, current: Bitset, i: nat,
                        sets: seq<Bitset>)
    returns (current': Bitset, sets': seq<Bitset>)
    requires WfList(formulas, numAps) && Distinct(indices)
    requires forall a :: 0 <= a < |indices| ==> indices[a] < |formulas|
    requires Valid(current) && current.length == |formulas|
    requires forall k :: 0 <= k < |formulas| && k !in indices ==> !Test(current, k)
    requires sets == Accepted(formulas, numAps, indices, i)
    ensures Valid(current') && current'.length == |formulas|
    ensures forall k :: 0 <= k < |formulas| && k !in indices ==> !Test(current', k)
    ensures sets' == Accepted(formulas, numAps, indices, i + 1)
  {
    current' := WriteRound(current, indices, i);
    var result := Check(formulas, numAps, current');
    sets' := if result.Some? then sets + [result.value] else sets;
  }

  // ---------------------------------------------------------------------------
  // What the kept sets are

  /** A set whose free bits are an assignment: every bit outside the enumerated and conjunction entries is clear. */
  predicate Reachable(formulas: seq<Formula>, numAps: nat, indices: seq<nat>, t: Bitset)
    requires WfSet(formulas, numAps, t)
  {
    forall k :: 0 <= k < |formulas| && k !in indices && !IsConjEntry(formulas, numAps, k) ==> !Test(t, k)
  }

  /** Every kept set is elementary, and its bits outside the enumerated and conjunction entries are clear. */
  lemma {:induction false} AcceptedSound(formulas: seq<Formula>, numAps: nat, indices: seq<nat>, k: nat, t: Bitset)
    requires WfList(formulas, numAps) && Distinct(indices)
    requires t in Accepted(formulas, numAps, indices, k)
    ensures WfSet(formulas, numAps, t) && Elementary(formulas, numAps, t) && Reachable(formulas, numAps, indices, t)
    decreases k
  {
    var s := Assignment(|formulas|, indices, k - 1);
    if t in Accepted(formulas, numAps, indices, k - 1) {
      AcceptedSound(formulas, numAps, indices, k - 1, t);
    } else {
      assert CheckSpec(formulas, numAps, s) == Some(t);
      CheckSpecMeaning(formulas, numAps, s, t);
    }
  }

  /** The round number whose bits are `v`. */
  function Encode(v: seq<bool>): nat {
    if |v| == 0 then 0 else (if v[0] then 1 else 0) + 2 * Encode(v[1..])
  }

  lemma {:induction false} EncodeBits(v: seq<bool>)
    ensures Encode(v) < Pow2(|v|)
    ensures forall j :: 0 <= j < |v| ==> Bit(Encode(v), j) == v[j]
  {
    if |v| > 0 {
      EncodeBits(v[1..]);
      var e := Encode(v);
      assert e / 2 == Encode(v[1..]);
      forall j | 0 < j < |v| ensures Bit(e, j) == v[j] {
        assert v[1..][j - 1] == v[j];
      }
    }
  }

  /** Every round below `k` whose set passes `check` contributes its result. */
  lemma {:induction false} AcceptedContains(formulas: seq<Formula>, numAps: nat, indices: seq<nat>, i: nat, k: nat)
    requires WfList(formulas, numAps) && Distinct(indices) && i < k
    requires CheckSpec(formulas, numAps, Assignment(|formulas|, indices, i)).Some?
    ensures CheckSpec(formulas, numAps, Assignment(|formulas|, indices, i)).value in Accepted(formulas, numAps, indices, k)
    decreases k
  {
    if i < k - 1 {
      AcceptedContains(formulas, numAps, indices, i, k - 1);
    }
  }

  /** Every elementary set whose bits outside the enumerated and conjunction entries are clear is kept. */
  lemma AcceptedComplete(formulas: seq<Formula>, numAps: nat, indices: seq<nat>, t: Bitset)
    requires WfSet(formulas, numAps, t) && Distinct(indices)
    requires Elementary(formulas, numAps, t) && Reachable(formulas, numAps, indices, t)
    ensures t in Accepted(formulas, numAps, indices, Pow2(|indices|))
  {
    var n := |formulas|;
    var v := seq(|indices|, j requires 0 <= j < |indices| => indices[j] < n && Test(t, indices[j]));
    var i := Encode(v);
    EncodeBits(v);
    var s := Assignment(n, indices, i);
    assert AgreeOffConj(formulas, numAps, s, t) by {
      forall k | 0 <= k < n && !IsConjEntry(formulas, numAps, k) ensures Test(s, k) == Test(t, k) {
        if k in indices {
          var j := IndexOf(indices, k);
          assert v[j] == Test(t, k);
        }
      }
    }
    CheckSpecMeaning(formulas, numAps, s, t);
    AcceptedContains(formulas, numAps, indices, i, Pow2(|indices|));
  }

  /** The enumeration keeps exactly the elementary sets whose free bits are an assignment. */
  lemma AcceptedExact(formulas: seq<Formula>, numAps: nat, indices: seq<nat>)
    requires WfList(formulas, numAps) && Distinct(indices)
    ensures forall t :: t in Accepted(formulas, numAps, indices, Pow2(|indices|)) <==>
      WfSet(formulas, numAps, t) && Elementary(formulas, numAps, t) && Reachable(formulas, numAps, indices, t)
  {
    var sets := Accepted(formulas, numAps, indices, Pow2(|indices|));
    forall t | t in sets ensures WfSet(formulas, numAps, t) && Elementary(formulas, numAps, t)
      && Reachable(formulas, numAps, indices, t)
    {
      AcceptedSound(formulas, numAps, indices, Pow2(|indices|), t);
    }
    forall t | WfSet(formulas, numAps, t) && Elementary(formulas, numAps, t) && Reachable(formulas, numAps, indices, t)
      ensures t in sets
    {
      AcceptedComplete(formulas, numAps, indices, t);
    }
  }
}

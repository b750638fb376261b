/**
 * The integer bit operations `to_dfa` in python/fsm.py uses to number the
 * states of the subset construction: a set of NFA states `S` below `n` is
 * the integer with bit `j` set for each `j` in `S`.  Python integers are
 * unbounded, and so are these.
 */
module FsmBits {

  /** `1 << k`. */
  function Pow2(k: nat): (p: nat)
    ensures p >= 1
  {
    if k == 0 then 1 else 2 * Pow2(k - 1)
  }

  /** `m & (1 << j) != 0`. */
  predicate Bit(m: nat, j: nat) {
    if j == 0 then m % 2 == 1 else Bit(m / 2, j - 1)
  }

  /** `m | (1 << j)`. */
  function SetBit(m: nat, j: nat): nat {
    if Bit(m, j) then m else m + Pow2(j)
  }

  /** `a & b`. */
  function BitAnd(a: nat, b: nat): nat
    decreases a
  {
    if a == 0 || b == 0 then 0
    else (if a % 2 == 1 && b % 2 == 1 then 1 else 0) + 2 * BitAnd(a / 2, b / 2)
  }

  /** The bits `lo` to `n - 1` of the number of `s`, shifted down by `lo`. */
  function MaskFrom(s: set<int>, lo: nat, n: nat): nat
    decreases n - lo
  {
    if lo >= n then 0 else (if lo in s then 1 else 0) + 2 * MaskFrom(s, lo + 1, n)
  }

  /** `sum(1 << j for j in range(n) if j in s)`. */
  function Mask(s: set<int>, n: nat): nat {
    MaskFrom(s, 0, n)
  }

  /** `_convert2list(m)` as a set: the bits of `m` below `n`. */
  function Members(m: nat, n: nat): set<int> {
    set j: int | 0 <= j < n && Bit(m, j)
  }

  /** The members of `s` below `n`. */
  function Below(s: set<int>, n: nat): set<int> {
    set j | j in s && 0 <= j < n
  }

  lemma {:induction false} BitZero(j: nat)
    ensures !Bit(0, j)
  {
    if j > 0 {
      BitZero(j - 1);
    }
  }

  /** The bits of a mask are the members of its set. */
  lemma {:induction false} BitMaskFrom(s: set<int>, lo: nat, n: nat, j: nat)
    requires lo <= j
    decreases n - lo
    ensures Bit(MaskFrom(s, lo, n), j - lo) <==> j < n && j in s
  {
    if lo >= n {
      BitZero(j - lo);
    } else if j > lo {
      var m := MaskFrom(s, lo, n);
      assert m / 2 == MaskFrom(s, lo + 1, n);
      BitMaskFrom(s, lo + 1, n, j);
    }
  }

  lemma BitMask(s: set<int>, n: nat, j: nat)
    ensures Bit(Mask(s, n), j) <==> j < n && j in s
  {
    BitMaskFrom(s, 0, n, j);
  }

  /** Decoding a mask gives its set back. */
  lemma MembersMask(s: set<int>, n: nat)
    ensures Members(Mask(s, n), n) == Below(s, n)
  {
    forall j: int | 0 <= j < n
      ensures Bit(Mask(s, n), j) <==> j in s
    {
      BitMask(s, n, j);
    }
  }

  /** Two sets below `n` with the same mask are equal. */
  lemma MaskInjective(s: set<int>, t: set<int>, n: nat)
    requires Mask(s, n) == Mask(t, n)
    ensures Below(s, n) == Below(t, n)
  {
    MembersMask(s, n);
    MembersMask(t, n);
  }

  lemma {:induction false} MaskFromBound(s: set<int>, lo: nat, n: nat)
    requires lo <= n
    decreases n - lo
    ensures MaskFrom(s, lo, n) < Pow2(n - lo)
  {
    if lo < n {
      MaskFromBound(s, lo + 1, n);
      assert Pow2(n - lo) == 2 * Pow2(n - (lo + 1));
    }
  }

  lemma MaskBound(s: set<int>, n: nat)
    ensures Mask(s, n) < Pow2(n)
  {
    MaskFromBound(s, 0, n);
  }

  lemma {:induction false} MaskFromEmpty(s: set<int>, lo: nat, n: nat)
    decreases n - lo
    ensures MaskFrom(s, lo, n) == 0 <==> forall j :: lo <= j < n ==> j !in s
  {
    if lo < n {
      MaskFromEmpty(s, lo + 1, n);
    }
  }

  /** A mask is zero exactly when its set has no member below `n`. */
  lemma MaskZero(s: set<int>, n: nat)
    ensures Mask(s, n) == 0 <==> Below(s, n) == {}
  {
    MaskFromEmpty(s, 0, n);
    if Mask(s, n) != 0 {
      var j :| 0 <= j < n && j in s;
      assert j in Below(s, n);
    }
  }

  lemma {:induction false} BitPow2(k: nat, j: nat)
    ensures Bit(Pow2(k), j) <==> j == k
  {
    if k == 0 {
      if j > 0 {
        BitZero(j - 1);
      }
    } else if j > 0 {
      BitPow2(k - 1, j - 1);
    }
  }

  /** `_convert2list(1 << k)`: the one member `k`, if it is below `n`. */
  lemma MembersPow2(k: nat, n: nat)
    ensures Members(Pow2(k), n) == if k < n then {k} else {}
  {
    forall j: int | 0 <= j < n
      ensures Bit(Pow2(k), j) <==> j == k
    {
      BitPow2(k, j);
    }
  }

  lemma {:induction false} MaskFromSingleton(k: nat, lo: nat, n: nat)
    requires lo <= k < n
    decreases k - lo
    ensures MaskFrom({k}, lo, n) == Pow2(k - lo)
  {
    if lo == k {
      MaskFromEmpty({k}, lo + 1, n);
    } else {
      MaskFromSingleton(k, lo + 1, n);
    }
  }

  /** The number of the set `{k}` is `1 << k`. */
  lemma MaskSingleton(k: nat, n: nat)
    requires k < n
    ensures Mask({k}, n) == Pow2(k)
  {
    MaskFromSingleton(k, 0, n);
  }

  lemma {:induction false} MaskFromAdd(s: set<int>, e: nat, lo: nat, n: nat)
    requires lo <= e < n && e !in s
    decreases n - lo
    ensures MaskFrom(s + {e}, lo, n) == MaskFrom(s, lo, n) + Pow2(e - lo)
  {
    if lo < e {
      MaskFromAdd(s, e, lo + 1, n);
    } else {
      assert MaskFrom(s + {e}, lo + 1, n) == MaskFrom(s, lo + 1, n) by {
        MaskFromSame(s + {e}, s, lo + 1, n);
      }
    }
  }

  lemma {:induction false} MaskFromSame(s: set<int>, t: set<int>, lo: nat, n: nat)
    requires forall j :: lo <= j < n ==> (j in s <==> j in t)
    decreases n - lo
    ensures MaskFrom(s, lo, n) == MaskFrom(t, lo, n)
  {
    if lo < n {
      MaskFromSame(s, t, lo + 1, n);
    }
  }

  /** `Mask(s) | (1 << e)` is the mask of `s` with `e` added. */
  lemma SetBitMask(s: set<int>, e: nat, n: nat)
    requires e < n
    ensures SetBit(Mask(s, n), e) == Mask(s + {e}, n)
  {
    BitMask(s, n, e);
    if e in s {
      assert s + {e} == s;
    } else {
      MaskFromAdd(s, e, 0, n);
    }
  }

  /** A nonzero `a & b` has a bit both numbers share. */
  lemma {:induction false} SharedBit(a: nat, b: nat) returns (j: nat)
    requires BitAnd(a, b) != 0
    decreases a
    ensures Bit(a, j) && Bit(b, j)
  {
    if a % 2 == 1 && b % 2 == 1 {
      j := 0;
    } else {
      var k := SharedBit(a / 2, b / 2);
      j := k + 1;
    }
  }

  /** A bit both numbers share makes `a & b` nonzero. */
  lemma {:induction false} SharedBitNonzero(a: nat, b: nat, j: nat)
    requires Bit(a, j) && Bit(b, j)
    decreases a
    ensures BitAnd(a, b) != 0
  {
    if a == 0 || b == 0 {
      BitZero(j);
    } else if j > 0 {
      SharedBitNonzero(a / 2, b / 2, j - 1);
    }
  }

  /** `m & Mask(s, n) != 0` exactly when some member of `m` below `n` is in `s`. */
  lemma MeetsMask(m: nat, s: set<int>, n: nat)
    ensures BitAnd(m, Mask(s, n)) != 0 <==> Members(m, n) * s != {}
  {
    if BitAnd(m, Mask(s, n)) != 0 {
      var j := SharedBit(m, Mask(s, n));
      BitMask(s, n, j);
      assert j in Members(m, n) * s;
    }
    if Members(m, n) * s != {} {
      var j :| j in Members(m, n) * s;
      BitMask(s, n, j);
      SharedBitNonzero(m, Mask(s, n), j);
    }
  }
}

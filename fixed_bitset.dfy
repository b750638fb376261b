/**
 * The 64-bit `bitset` of csrc/include/utils/bitset.h: a `std::bitset<64>`
 * base together with a logical length `m_length`.  The base is a sequence of
 * 64 booleans; the class invariant is that no bit at or past the length is
 * set.  The type is a value in the source (it is copied, returned, and used
 * as a hash-map key), so it is a datatype here and every operation returns a
 * new value.
 */
module FixedBitset {

  const Width: nat := 64

  datatype Bitset = Bitset(base: seq<bool>, length: nat)

  /** No bit at an index `>= size()` is set, and the length fits the base. */
  predicate Valid(b: Bitset) {
    && |b.base| == Width
    && b.length <= Width
    && forall i :: b.length <= i < Width ==> !b.base[i]
  }

  function Size(b: Bitset): nat {
    b.length
  }

  /** `operator[] const`: the bit at `i`, which must be below the length. */
  function Test(b: Bitset, i: nat): bool
    requires Valid(b) && i < b.length
  {
    b.base[i]
  }

  /** The set of indices whose bit is set. */
  ghost function Members(b: Bitset): set<nat>
    requires Valid(b)
  {
    set i: nat | i < b.length && b.base[i]
  }

  /** `bitset(n)`: every bit clear. */
  function New(n: nat): (r: Bitset)
    requires n <= Width
    ensures Valid(r) && r.length == n
    ensures forall i :: 0 <= i < n ==> !Test(r, i)
  {
    Bitset(seq(Width, _ => false), n)
  }

  /** The reference form of `operator[]`: write `v` at `i`, leaving every other bit alone. */
  function Assign(b: Bitset, i: nat, v: bool): (r: Bitset)
    requires Valid(b) && i < b.length
    ensures Valid(r) && r.length == b.length
    ensures Test(r, i) == v
    ensures forall j :: 0 <= j < b.length && j != i ==> Test(r, j) == Test(b, j)
  {
    Bitset(b.base[i := v], b.length)
  }

  /** `reset()`: clear every bit, keeping the length. */
  function Reset(b: Bitset): (r: Bitset)
    requires Valid(b)
    ensures Valid(r) && r.length == b.length
    ensures forall i :: 0 <= i < r.length ==> !Test(r, i)
  {
    New(b.length)
  }

  /**
   * `set_at(n, shift, rhs)`: become `rhs` shifted up by `shift`, with length
   * `n`; bit `i + shift` is `rhs[i]` and every other bit is clear.
   */
  function SetAt(n: nat, shift: nat, rhs: Bitset): (r: Bitset)
    requires Valid(rhs) && n >= rhs.length + shift && n <= Width
    ensures Valid(r) && r.length == n
    ensures forall i :: 0 <= i < rhs.length ==> Test(r, i + shift) == Test(rhs, i)
    ensures forall j :: 0 <= j < n && !(shift <= j < shift + rhs.length) ==> !Test(r, j)
  {
    Bitset(seq(Width, j requires 0 <= j < Width => shift <= j && rhs.base[j - shift]), n)
  }

  /** `expand(n)`: the same bits under a longer length. */
  function Expand(b: Bitset, n: nat): (r: Bitset)
    requires Valid(b) && b.length <= n <= Width
    ensures Valid(r) && r.length == n
    ensures forall i :: 0 <= i < b.length ==> Test(r, i) == Test(b, i)
    ensures forall i :: b.length <= i < n ==> !Test(r, i)
  {
    Bitset(b.base, n)
  }

  /**
   * `subset(n)`: the first `n` bits under length `n`, the rest masked off by
   * `(1 << n) - 1`.  The shift is undefined for `n == 64`.
   */
  function Subset(b: Bitset, n: nat): (r: Bitset)
    requires Valid(b) && n <= b.length && n < Width
    ensures Valid(r) && r.length == n
    ensures forall i :: 0 <= i < n ==> Test(r, i) == Test(b, i)
  {
    Bitset(seq(Width, j requires 0 <= j < Width => j < n && b.base[j]), n)
  }

  /** `set_all()`: set every bit below the length, one by one. */
  method SetAll(b: Bitset) returns (r: Bitset)
    requires Valid(b)
    ensures Valid(r) && r.length == b.length
    ensures forall i :: 0 <= i < r.length ==> Test(r, i)
  {
    r := b;
    for i := 0 to b.length
      invariant Valid(r) && r.length == b.length
      invariant forall k :: 0 <= k < i ==> r.base[k]
    {
      r := Assign(r, i, true);
    }
  }

  /** `operator&`: the bitwise and of two bitsets of one length. */
  function And(a: Bitset, b: Bitset): (r: Bitset)
    requires Valid(a) && Valid(b) && a.length == b.length
    ensures Valid(r) && r.length == a.length
    ensures forall i :: 0 <= i < r.length ==> Test(r, i) == (Test(a, i) && Test(b, i))
  {
    Bitset(seq(Width, j requires 0 <= j < Width => a.base[j] && b.base[j]), a.length)
  }

  /** `operator==`: compares the 64-bit bases of two bitsets of one length. */
  function Equal(a: Bitset, b: Bitset): bool
    requires a.length == b.length
  {
    a.base == b.base
  }

  /** Thanks to the invariant, comparing the bases is comparing the bits below the length. */
  lemma EqualIffSameBits(a: Bitset, b: Bitset)
    requires Valid(a) && Valid(b) && a.length == b.length
    ensures Equal(a, b) <==> forall i :: 0 <= i < a.length ==> Test(a, i) == Test(b, i)
    ensures Equal(a, b) <==> a == b
  {
    if forall i :: 0 <= i < a.length ==> Test(a, i) == Test(b, i) {
      forall i | 0 <= i < Width ensures a.base[i] == b.base[i] {
        if i < a.length {
          assert Test(a, i) == Test(b, i);
        }
      }
      assert a.base == b.base;
    }
  }

  /** `to_string()`: character `i` is `'1'` exactly when bit `i` is set. */
  method ToString(b: Bitset) returns (s: string)
    requires Valid(b)
    ensures |s| == b.length
    ensures forall i :: 0 <= i < b.length ==> s[i] == (if Test(b, i) then '1' else '0')
  {
    s := seq(b.length, _ => '0');
    for i := 0 to b.length
      invariant |s| == b.length
      invariant forall k :: 0 <= k < i ==> s[k] == (if Test(b, k) then '1' else '0')
      invariant forall k :: i <= k < b.length ==> s[k] == '0'
    {
      if Test(b, i) {
        s := s[i := '1'];
      }
    }
  }

  // ---------------------------------------------------------------------------
  // Iteration: `begin()` is `_Find_first()`, `++` is `_Find_next(i)`, and
  // `end()` is index 64.

  /** The first set index at or after `i`, or `Width` when there is none. */
  function FindFrom(b: Bitset, i: nat): (j: nat)
    requires Valid(b) && i <= Width
    ensures i <= j <= Width
    ensures j < Width ==> b.base[j]
    ensures forall k :: i <= k < j ==> !b.base[k]
    decreases Width - i
  {
    if i == Width then Width
    else if b.base[i] then i
    else FindFrom(b, i + 1)
  }

  /** The indices an iteration visits, starting at the iterator position `i`. */
  function IndicesFrom(b: Bitset, i: nat): (r: seq<nat>)
    requires Valid(b) && i <= Width
    decreases Width - i
  {
    var j := FindFrom(b, i);
    if j == Width then [] else [j] + IndicesFrom(b, j + 1)
  }

  /** The values `for (auto i : b)` produces. */
  function Indices(b: Bitset): seq<nat>
    requires Valid(b)
  {
    IndicesFrom(b, 0)
  }

  /** Iteration from `i` yields, in increasing order, exactly the set indices at or after `i`. */
  lemma {:induction false} IndicesFromSpec(b: Bitset, i: nat)
    requires Valid(b) && i <= Width
    ensures var r := IndicesFrom(b, i);
      && (forall k :: 0 <= k < |r| ==> i <= r[k] < b.length && b.base[r[k]])
      && (forall k, l :: 0 <= k < l < |r| ==> r[k] < r[l])
      && (forall j :: i <= j < b.length && b.base[j] ==> j in r)
    decreases Width - i
  {
    var j := FindFrom(b, i);
    if j < Width {
      IndicesFromSpec(b, j + 1);
    }
  }

  /** Iterating a bitset visits its set bits in increasing order, each once. */
  lemma IndicesSpec(b: Bitset)
    requires Valid(b)
    ensures forall k, l :: 0 <= k < l < |Indices(b)| ==> Indices(b)[k] < Indices(b)[l]
    ensures forall j: nat :: j in Indices(b) <==> j < b.length && Test(b, j)
    ensures forall j: nat :: j in Indices(b) <==> j in Members(b)
  {
    IndicesFromSpec(b, 0);
  }
}

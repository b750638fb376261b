/**
 * The `dynamic_bitset` of csrc/include/utils/dynamic_bitset.h (and its copy
 * at the top of csrc/include/utils/bitset.h): a length `m_length` and a
 * vector `m_data` of 64-bit words, bit `i` living in word `i / 64` at
 * position `i % 64`.  The object is updated in place, so it is a class whose
 * methods reassign the word vector.
 *
 * `Bits()` is every bit of every word, padding included; `Contents()` is the
 * first `length` of them, the bits the object exposes through `test`.
 */
module DynamicBitset {

  const WordBits: nat := 64

  /**
   * A `uint64_t` word, as its 64 bits from the least significant one up:
   * bit `k` is `(word & (1ULL << k)) != 0`.
   */
  type Word = w: seq<bool> | |w| == WordBits witness seq(64, _ => false)

  /** `0`. */
  const ZeroWord: Word := seq(WordBits, _ => false)
  /** `kMask`, every bit set. */
  const OnesWord: Word := seq(WordBits, _ => true)

  /** `s_required(n)`: the number of words that hold `n` bits. */
  function Required(n: nat): (r: nat)
    ensures r * WordBits >= n && (r == 0 || (r - 1) * WordBits < n)
  {
    (n + 63) / 64
  }

  /** The word update of `set`: or in `1ULL << k`, or and with its complement. */
  function SetWordBit(w: Word, k: nat, value: bool): (r: Word)
    requires k < WordBits
    ensures r[k] == value && forall j :: 0 <= j < WordBits && j != k ==> r[j] == w[j]
  {
    w[k := value]
  }

  /** `|` on words. */
  function OrWord(a: Word, b: Word): (r: Word)
    ensures forall j :: 0 <= j < WordBits ==> r[j] == (a[j] || b[j])
  {
    seq(WordBits, j requires 0 <= j < WordBits => a[j] || b[j])
  }

  /** `&` on words. */
  function AndWord(a: Word, b: Word): (r: Word)
    ensures forall j :: 0 <= j < WordBits ==> r[j] == (a[j] && b[j])
  {
    seq(WordBits, j requires 0 <= j < WordBits => a[j] && b[j])
  }

  /** `^` on words. */
  function XorWord(a: Word, b: Word): (r: Word)
    ensures forall j :: 0 <= j < WordBits ==> r[j] == (a[j] != b[j])
  {
    seq(WordBits, j requires 0 <= j < WordBits => a[j] != b[j])
  }

  /** Every bit of a word vector, in index order: bit `k` is bit `k % 64` of word `k / 64`. */
  function BitsOf(data: seq<Word>): (r: seq<bool>)
    ensures |r| == WordBits * |data|
  {
    seq(WordBits * |data|, k requires 0 <= k < WordBits * |data| => data[k / WordBits][k % WordBits])
  }

  /** Two bit indices with the same word and the same position in it are equal. */
  lemma SplitInjective(i: nat, k: nat)
    requires i / WordBits == k / WordBits && i % WordBits == k % WordBits
    ensures i == k
  {
  }

  lemma SplitBound(k: nat, n: nat)
    requires k < WordBits * n
    ensures k / WordBits < n
  {
  }

  /** Rewriting one word changes exactly the bits of that word. */
  lemma BitsOfUpdate(data: seq<Word>, d: nat, w: Word, k: nat)
    requires d < |data| && k < WordBits * |data|
    ensures BitsOf(data[d := w])[k] == if k / WordBits == d then w[k % WordBits] else BitsOf(data)[k]
  {
    SplitBound(k, |data|);
  }

  /** `operator==` as the source defaults it: equal lengths and equal word vectors. */
  predicate WordsEqual(length: nat, data: seq<Word>, otherLength: nat, otherData: seq<Word>) {
    length == otherLength && data == otherData
  }

  /**
   * Two bitsets of length 3, one built as `dynamic_bitset(3, true)` and one
   * built as `dynamic_bitset(3)` with bits 0, 1 and 2 set, expose the same
   * bits and still compare unequal: the first keeps its padding bits set.
   */
  lemma WordsEqualSeesPadding()
    ensures var low := ZeroWord[0 := true][1 := true][2 := true];
      && BitsOf([OnesWord])[..3] == BitsOf([low])[..3]
      && !WordsEqual(3, [OnesWord], 3, [low])
  {
    var low := ZeroWord[0 := true][1 := true][2 := true];
    assert OnesWord[3] != low[3];
  }

  class DynamicBitset {
    var length: nat
    var data: seq<Word>

    ghost predicate Valid()
      reads this
    {
      |data| == Required(length)
    }

    /** Every stored bit, the padding past `length` in the last word included. */
    ghost function Bits(): seq<bool>
      reads this
    {
      BitsOf(data)
    }

    /** The bits `test` reports. */
    ghost function Contents(): (r: seq<bool>)
      reads this
      requires Valid()
      ensures |r| == length
    {
      Bits()[..length]
    }

    /** `dynamic_bitset(length, value)`: every word all ones or all zeros. */
    constructor(n: nat, value: bool)
      ensures Valid() && length == n
      ensures data == seq(Required(n), _ => if value then OnesWord else ZeroWord)
      ensures Bits() == seq(WordBits * Required(n), _ => value)
      ensures Contents() == seq(n, _ => value)
    {
      length := n;
      data := seq(Required(n), _ => if value then OnesWord else ZeroWord);
      new;
      forall k | 0 <= k < WordBits * Required(n) ensures Bits()[k] == value {
        SplitBound(k, Required(n));
      }
    }

    function Size(): nat
      reads this
    {
      length
    }

    /** `test(i)`: bit `i % 64` of word `i / 64`. */
    function Test(i: nat): bool
      reads this
      requires Valid() && i < length
    {
      data[i / WordBits][i % WordBits]
    }

    lemma TestIsContents(i: nat)
      requires Valid() && i < length
      ensures Test(i) == Contents()[i]
    {
    }

    /** `set(i, value)`: afterwards `test(i) == value`; no other bit changes. */
    method Set(i: nat, value: bool)
      requires Valid() && i < length
      modifies this
      ensures Valid() && length == old(length)
      ensures data == old(data)[i / WordBits := SetWordBit(old(data)[i / WordBits], i % WordBits, value)]
      ensures Bits() == old(Bits())[i := value]
      ensures Contents() == old(Contents())[i := value]
    {
      var d := i / WordBits;
      ghost var before := Bits();
      data := data[d := SetWordBit(data[d], i % WordBits, value)];
      forall k | 0 <= k < |before| ensures Bits()[k] == before[i := value][k] {
        BitsOfUpdate(old(data), d, data[d], k);
        if k / WordBits == d && k % WordBits == i % WordBits {
          SplitInjective(i, k);
        }
      }
    }

    /** `set_indices(r)`: set every listed index; every other bit keeps its value. */
    method SetIndices(indices: seq<nat>)
      requires Valid() && forall k :: 0 <= k < |indices| ==> indices[k] < length
      modifies this
      ensures Valid() && length == old(length) && |data| == old(|data|)
      ensures Bits() == seq(|old(Bits())|, k requires 0 <= k < |old(Bits())| => old(Bits())[k] || k in indices)
    {
      ghost var before := Bits();
      for n := 0 to |indices|
        invariant Valid() && length == old(length) && |data| == old(|data|)
        invariant Bits() == seq(|before|, k requires 0 <= k < |before| => before[k] || k in indices[..n])
      {
        Set(indices[n], true);
        assert indices[..n + 1] == indices[..n] + [indices[n]];
      }
      assert indices[..|indices|] == indices;
    }

    /** `resize(n)`: truncate the word vector or pad it with zero words, then take the new length. */
    method Resize(n: nat)
      requires Valid()
      modifies this
      ensures Valid() && length == n
      ensures Required(n) <= |old(data)| ==> data == old(data)[..Required(n)]
      ensures Required(n) > |old(data)| ==> data == old(data) + seq(Required(n) - |old(data)|, _ => ZeroWord)
      ensures forall k :: 0 <= k < |Bits()| ==> Bits()[k] == (k < |old(Bits())| && old(Bits())[k])
    {
      var words := Required(n);
      if words <= |data| {
        data := data[..words];
      } else {
        data := data + seq(words - |data|, _ => ZeroWord);
      }
      length := n;
      forall k | 0 <= k < |Bits()| ensures Bits()[k] == (k < |old(Bits())| && old(Bits())[k]) {
        SplitBound(k, |data|);
      }
    }

    /** `reset()`: zero every word; the length is unchanged. */
    method Reset()
      requires Valid()
      modifies this
      ensures Valid() && length == old(length) && data == seq(|old(data)|, _ => ZeroWord)
      ensures Bits() == seq(|old(Bits())|, _ => false)
    {
      for d := 0 to |data|
        invariant length == old(length) && |data| == |old(data)|
        invariant forall e :: 0 <= e < d ==> data[e] == ZeroWord
      {
        data := data[d := ZeroWord];
      }
      forall k | 0 <= k < |Bits()| ensures !Bits()[k] {
        SplitBound(k, |data|);
      }
    }

    /** `|=`: word by word; `rhs` may be this very object. */
    method OrWith(rhs: DynamicBitset)
      requires Valid() && rhs.Valid() && rhs.length == length
      modifies this
      ensures Valid() && length == old(length)
      ensures |data| == |old(data)| && forall d :: 0 <= d < |data| ==> data[d] == OrWord(old(data)[d], old(rhs.data)[d])
      ensures |Bits()| == |old(Bits())| && forall k :: 0 <= k < |Bits()| ==> Bits()[k] == (old(Bits())[k] || old(rhs.Bits())[k])
    {
      ghost var other := rhs.data;
      for d := 0 to |data|
        invariant length == old(length) && |data| == |old(data)|
        invariant rhs != this ==> rhs.data == other
        invariant forall e :: 0 <= e < d ==> data[e] == OrWord(old(data)[e], other[e])
        invariant forall e :: d <= e < |data| ==> data[e] == old(data)[e]
      {
        data := data[d := OrWord(data[d], rhs.data[d])];
      }
      forall k | 0 <= k < |Bits()| ensures Bits()[k] == (old(Bits())[k] || old(rhs.Bits())[k]) {
        SplitBound(k, |data|);
      }
    }

    /** `&=`: word by word; `rhs` may be this very object. */
    method AndWith(rhs: DynamicBitset)
      requires Valid() && rhs.Valid() && rhs.length == length
      modifies this
      ensures Valid() && length == old(length)
      ensures |data| == |old(data)| && forall d :: 0 <= d < |data| ==> data[d] == AndWord(old(data)[d], old(rhs.data)[d])
      ensures |Bits()| == |old(Bits())| && forall k :: 0 <= k < |Bits()| ==> Bits()[k] == (old(Bits())[k] && old(rhs.Bits())[k])
    {
      ghost var other := rhs.data;
      for d := 0 to |data|
        invariant length == old(length) && |data| == |old(data)|
        invariant rhs != this ==> rhs.data == other
        invariant forall e :: 0 <= e < d ==> data[e] == AndWord(old(data)[e], other[e])
        invariant forall e :: d <= e < |data| ==> data[e] == old(data)[e]
      {
        data := data[d := AndWord(data[d], rhs.data[d])];
      }
      forall k | 0 <= k < |Bits()| ensures Bits()[k] == (old(Bits())[k] && old(rhs.Bits())[k]) {
        SplitBound(k, |data|);
      }
    }

    /** `^=`: word by word; `rhs` may be this very object, which then becomes all zeros. */
    method XorWith(rhs: DynamicBitset)
      requires Valid() && rhs.Valid() && rhs.length == length
      modifies this
      ensures Valid() && length == old(length)
      ensures |data| == |old(data)| && forall d :: 0 <= d < |data| ==> data[d] == XorWord(old(data)[d], old(rhs.data)[d])
      ensures |Bits()| == |old(Bits())| && forall k :: 0 <= k < |Bits()| ==> Bits()[k] == (old(Bits())[k] != old(rhs.Bits())[k])
    {
      ghost var other := rhs.data;
      for d := 0 to |data|
        invariant length == old(length) && |data| == |old(data)|
        invariant rhs != this ==> rhs.data == other
        invariant forall e :: 0 <= e < d ==> data[e] == XorWord(old(data)[e], other[e])
        invariant forall e :: d <= e < |data| ==> data[e] == old(data)[e]
      {
        data := data[d := XorWord(data[d], rhs.data[d])];
      }
      forall k | 0 <= k < |Bits()| ensures Bits()[k] == (old(Bits())[k] != old(rhs.Bits())[k]) {
        SplitBound(k, |data|);
      }
    }

    /** `to_string()`: one character per bit, `'1'` exactly at the set positions. */
    method ToString() returns (s: string)
      requires Valid()
      ensures |s| == length
      ensures forall i :: 0 <= i < length ==> (s[i] == '1' <==> Contents()[i])
      ensures forall i :: 0 <= i < length ==> (s[i] == '0' <==> !Contents()[i])
    {
      s := [];
      for i := 0 to length
        invariant |s| == i
        invariant forall k :: 0 <= k < i ==> s[k] == (if Contents()[k] then '1' else '0')
      {
        s := s + [if Test(i) then '1' else '0'];
      }
    }

    /**
     * `operator==` of the copy in bitset.h, corrected to compare what `test`
     * exposes rather than the raw words.
     */
    predicate SameBits(other: DynamicBitset)
      reads this, other
      requires Valid() && other.Valid()
    {
      length == other.length && forall i :: 0 <= i < length ==> Test(i) == other.Test(i)
    }

    lemma SameBitsIsContents(other: DynamicBitset)
      requires Valid() && other.Valid()
      ensures SameBits(other) <==> Contents() == other.Contents()
    {
      if length == other.length {
        forall i | 0 <= i < length ensures Test(i) == Contents()[i] && other.Test(i) == other.Contents()[i] {
          TestIsContents(i);
          other.TestIsContents(i);
        }
      }
    }

    /** Equal raw words always mean equal bits; the reverse fails, as `WordsEqualSeesPadding` shows. */
    lemma WordsEqualImpliesSameBits(other: DynamicBitset)
      requires Valid() && other.Valid()
      ensures WordsEqual(length, data, other.length, other.data) ==> SameBits(other)
    {
    }
  }
}

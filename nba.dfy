/**
 * `Automa::validate` and `NBA::fromGNBA` of csrc/cpp/nba.cpp: the
 * degeneralisation of a generalised Büchi automaton.
 *
 * With at most one acceptance set the automaton is copied and that set (or
 * every state) becomes final.  With `k >= 2` sets `F_0 .. F_{k-1}` the
 * Büchi automaton has `k` copies of the states; state `i` of copy `j` is
 * numbered `j * n + i`.  The initial and final states are those of copy 0
 * (`F_0` for the final ones), and an edge from state `i` of copy `j` keeps
 * its trigger and its target states but moves them to copy `j + 1 (mod k)`
 * when `i` is in `F_j`, and stays in copy `j` otherwise.
 */
module Nba {
  import opened Wrappers
  import opened FixedBitset
  import opened Gnba

  /** `NBA`: the shared fields and one final-state set. */
  datatype NbaResult = NbaResult(automa: Automa, finalStates: Bitset)

  /** Every bitset of the record is a well-formed 64-bit set. */
  predicate Shaped(a: Automa) {
    && Valid(a.initialStates) && Valid(a.usedApMask)
    && forall i, t :: 0 <= i < |a.transitions| && t in a.transitions[i] ==> Valid(t) && Valid(a.transitions[i][t])
  }

  /** The checks of `validate`. */
  predicate Validate(a: Automa) {
    && a.numStates > 0 && a.numTriggers > 0
    && (forall i, t :: 0 <= i < |a.transitions| && t in a.transitions[i] ==>
          t.length == a.numTriggers && a.transitions[i][t].length == a.numStates)
    && a.usedApMask.length == a.numTriggers
  }

  /** The input `fromGNBA` reads: its bitsets well formed and one edge map per state. */
  predicate WfGnba(g: GnbaResult) {
    && Shaped(g.automa) && |g.automa.transitions| == g.automa.numStates
    && forall j :: 0 <= j < |g.finalStatesList| ==> Valid(g.finalStatesList[j])
  }

  /** `c * n`, by repeated addition, so that the copy arithmetic stays linear. */
  function Mul(c: nat, n: nat): nat {
    if c == 0 then 0 else Mul(c - 1, n) + n
  }

  lemma {:induction false} MulIs(c: nat, n: nat)
    ensures Mul(c, n) == c * n
  {
    if c > 0 {
      MulIs(c - 1, n);
      assert c * n == (c - 1) * n + n;
    }
  }

  /** Copies are laid out one after another. */
  lemma {:induction false} MulMono(c: nat, d: nat, n: nat)
    requires c < d
    ensures Mul(c, n) + n <= Mul(d, n)
    decreases d
  {
    if c < d - 1 {
      MulMono(c, d - 1, n);
    }
  }

  /** The copy state `s` lies in: `s / n`. */
  function Copy(n: nat, s: nat): nat
    requires n > 0
    decreases s
  {
    if s < n then 0 else 1 + Copy(n, s - n)
  }

  /** The state of the generalised automaton that `s` copies: `s % n`. */
  function Base(n: nat, s: nat): (b: nat)
    requires n > 0
    ensures b < n
    decreases s
  {
    if s < n then s else Base(n, s - n)
  }

  /** State `b` of copy `c` is numbered `c * n + b`, and that number is split back into `c` and `b`. */
  lemma {:induction false} CopyBase(n: nat, c: nat, b: nat)
    requires n > 0 && b < n
    ensures Copy(n, Mul(c, n) + b) == c && Base(n, Mul(c, n) + b) == b
    decreases c
  {
    if c > 0 {
      CopyBase(n, c - 1, b);
    }
  }

  /** Every state below `k * n` is in one of the `k` copies. */
  lemma {:induction false} CopyRange(n: nat, k: nat, s: nat)
    requires n > 0 && s < Mul(k, n)
    ensures Copy(n, s) < k && Mul(Copy(n, s), n) + Base(n, s) == s
    decreases s
  {
    if s >= n {
      CopyRange(n, k - 1, s - n);
    }
  }

  /** The copy an edge from state `i` of copy `j` leads into (a state past the end of `F_j` is not in it). */
  function NextCopy(g: GnbaResult, j: nat, i: nat): (c: nat)
    requires WfGnba(g) && j < |g.finalStatesList|
    ensures c < |g.finalStatesList|
  {
    var inFinal := i < g.finalStatesList[j].length && Test(g.finalStatesList[j], i);
    (j + (if inFinal then 1 else 0)) % |g.finalStatesList|
  }

  /** The target sets of `edges`, shifted by `offset` states into a set of `newSize`. */
  function Shifted(edges: map<Bitset, Bitset>, newSize: nat, offset: nat): map<Bitset, Bitset>
    requires newSize <= Width
    requires forall t :: t in edges ==> Valid(edges[t]) && edges[t].length + offset <= newSize
  {
    map t | t in edges :: SetAt(newSize, offset, edges[t])
  }

  /** The input of the layered construction: valid, with `k >= 2` acceptance sets and `k * n` states fitting a set. */
  predicate Layerable(g: GnbaResult) {
    && WfGnba(g) && Validate(g.automa) && |g.finalStatesList| >= 2
    && Mul(|g.finalStatesList|, g.automa.numStates) <= Width
  }

  /** The edges of state `i` of copy `j`. */
  function LayerEdges(g: GnbaResult, j: nat, i: nat): map<Bitset, Bitset>
    requires Layerable(g) && j < |g.finalStatesList| && i < g.automa.numStates
  {
    var n, k := g.automa.numStates, |g.finalStatesList|;
    MulMono(NextCopy(g, j, i), k, n);
    Shifted(g.automa.transitions[i], Mul(k, n), Mul(NextCopy(g, j, i), n))
  }

  /** The edges of a copied state have the original triggers, and their targets range over all `k * n` states. */
  lemma LayerEdgesShape(g: GnbaResult, j: nat, i: nat)
    requires Layerable(g) && j < |g.finalStatesList| && i < g.automa.numStates
    ensures forall t :: t in LayerEdges(g, j, i) <==> t in g.automa.transitions[i]
    ensures forall t :: t in LayerEdges(g, j, i) ==>
      && Valid(t) && t.length == g.automa.numTriggers
      && Valid(LayerEdges(g, j, i)[t]) && LayerEdges(g, j, i)[t].length == Mul(|g.finalStatesList|, g.automa.numStates)
  {
  }

  /**
   * An edge of state `i` of copy `j` reaches state `b` of copy `c` exactly
   * when `c` is the next copy and the generalised automaton's edge reaches `b`.
   */
  lemma LayerEdgesMeaning(g: GnbaResult, j: nat, i: nat, t: Bitset, c: nat, b: nat)
    requires Layerable(g) && j < |g.finalStatesList| && i < g.automa.numStates
    requires c < |g.finalStatesList| && b < g.automa.numStates
    requires t in g.automa.transitions[i]
    ensures t in LayerEdges(g, j, i)
    ensures Mul(c, g.automa.numStates) + b < Mul(|g.finalStatesList|, g.automa.numStates)
    ensures Test(LayerEdges(g, j, i)[t], Mul(c, g.automa.numStates) + b) <==>
      c == NextCopy(g, j, i) && Test(g.automa.transitions[i][t], b)
  {
    var n, k := g.automa.numStates, |g.finalStatesList|;
    var d := NextCopy(g, j, i);
    var target := g.automa.transitions[i][t];
    var shifted := LayerEdges(g, j, i)[t];
    MulMono(c, k, n);
    if c == d {
      assert Test(shifted, b + Mul(d, n)) == Test(target, b);
    } else {
      if c < d {
        MulMono(c, d, n);
      } else {
        MulMono(d, c, n);
      }
      assert !(Mul(d, n) <= Mul(c, n) + b < Mul(d, n) + target.length);
    }
  }

  /** The edge maps of one state moved by `offset`, one `try_emplace` and `set_at` per trigger. */
  method ShiftEdges(edges: map<Bitset, Bitset>, newSize: nat, offset: nat) returns (shifted: map<Bitset, Bitset>)
    requires newSize <= Width
    requires forall t :: t in edges ==> Valid(edges[t]) && edges[t].length + offset <= newSize
    ensures shifted == Shifted(edges, newSize, offset)
  {
    shifted := map[];
    var rest := edges.Keys;
    while rest != {}
      invariant rest <= edges.Keys
      invariant shifted.Keys == edges.Keys - rest
      invariant forall t :: t in shifted ==> shifted[t] == SetAt(newSize, offset, edges[t])
      decreases |rest|
    {
      var t :| t in rest;
      assert t !in shifted;
      shifted := shifted[t := SetAt(newSize, offset, edges[t])];
      rest := rest - {t};
    }
  }

  /**
   * The conditions under which `fromGNBA` runs to the end: the input
   * passes `validate`; with at most one acceptance set its state count fits
   * a 64-bit set (`bitset{num_states}`); with `k >= 2` sets the `k * n`
   * states fit one, `expand` can widen the initial set and `F_0` to them,
   * and every `F_j` has a bit for each of the `n` states (`final[i]`).
   */
  predicate Degeneralisable(g: GnbaResult) {
    var n, k := g.automa.numStates, |g.finalStatesList|;
    && Validate(g.automa)
    && (k <= 1 ==> n <= Width)
    && (k >= 2 ==>
          && Mul(k, n) <= Width
          && g.automa.initialStates.length <= Mul(k, n) && g.finalStatesList[0].length <= Mul(k, n)
          && forall j :: 0 <= j < k ==> n <= g.finalStatesList[j].length)
  }

  /**
   * `out` is the degeneralisation of `g`.  With at most one acceptance set
   * it is `g`'s automaton with that set, or every state, final.  With
   * `k >= 2` it has `k * n` states; the initial states and the final ones
   * are those of `g` and of `F_0` in copy 0, and state `s` has the layered
   * edges of state `Base(n, s)` of copy `Copy(n, s)`.
   */
  predicate Degeneralised(g: GnbaResult, out: NbaResult)
    requires WfGnba(g)
  {
    var n, k, a := g.automa.numStates, |g.finalStatesList|, out.automa;
    && Validate(a) && Shaped(a) && Valid(out.finalStates)
    && a.numTriggers == g.automa.numTriggers && a.usedApMask == g.automa.usedApMask
    && (k <= 1 ==>
          && a == g.automa
          && (k == 1 ==> out.finalStates == g.finalStatesList[0])
          && (k == 0 ==>
                && out.finalStates.length == n
                && forall s :: 0 <= s < n ==> Test(out.finalStates, s)))
    && (k >= 2 ==>
          && Layerable(g) && a.numStates == n * k
          && a.initialStates.length == n * k
          && (forall s :: 0 <= s < n * k ==>
                Test(a.initialStates, s) == (s < g.automa.initialStates.length && Test(g.automa.initialStates, s)))
          && out.finalStates.length == n * k
          && (forall s :: 0 <= s < n * k ==>
                Test(out.finalStates, s) == (s < g.finalStatesList[0].length && Test(g.finalStatesList[0], s)))
          && |a.transitions| == n * k
          && (forall s :: 0 <= s < n * k ==>
                Copy(n, s) < k && a.transitions[s] == LayerEdges(g, Copy(n, s), Base(n, s))))
  }

  /** `fromGNBA`: `None` exactly where the source stops, otherwise the degeneralisation. */
  method FromGnba(g: GnbaResult) returns (r: Option<NbaResult>)
    requires WfGnba(g)
    ensures r.Some? <==> Degeneralisable(g)
    ensures r.Some? ==> Degeneralised(g, r.value)
  {
    if !Validate(g.automa) {
      return None;
    }
    var src := g.automa;
    var numFinal := |g.finalStatesList|;
    if numFinal <= 1 {
      if src.numStates > Width {
        return None;
      }
      var final := New(src.numStates);
      if numFinal == 1 {
        final := g.finalStatesList[0];
      } else {
        final := SetAll(final);
      }
      return Some(NbaResult(src, final));
    }
    var oldSize := src.numStates;
    var newSize := oldSize * numFinal;
    MulIs(numFinal, oldSize);
    if newSize > Width || src.initialStates.length > newSize || g.finalStatesList[0].length > newSize {
      return None;
    }
    var initial := Expand(src.initialStates, newSize);
    var finalStates := Expand(g.finalStatesList[0], newSize);
    var transitions := Layers(g);
    if transitions.None? {
      return None;
    }
    var a := Automa(newSize, src.numTriggers, initial, transitions.value, src.usedApMask);
    assert Validate(a) && Shaped(a) by {
      forall s, t | 0 <= s < newSize && t in a.transitions[s]
        ensures Valid(t) && Valid(a.transitions[s][t])
        ensures t.length == a.numTriggers && a.transitions[s][t].length == a.numStates
      {
        LayerEdgesShape(g, Copy(oldSize, s), Base(oldSize, s));
      }
    }
    r := Some(NbaResult(a, finalStates));
  }

  /** The nested loops of `fromGNBA`: the edge maps of every state of every copy, in state order. */
  method Layers(g: GnbaResult) returns (r: Option<seq<map<Bitset, Bitset>>>)
    requires Layerable(g)
    ensures r.Some? <==> forall j :: 0 <= j < |g.finalStatesList| ==> g.automa.numStates <= g.finalStatesList[j].length
    ensures r.Some? ==> var n, k := g.automa.numStates, |g.finalStatesList|;
      && |r.value| == Mul(k, n)
      && forall s :: 0 <= s < |r.value| ==> Copy(n, s) < k && r.value[s] == LayerEdges(g, Copy(n, s), Base(n, s))
  {
    var n, k := g.automa.numStates, |g.finalStatesList|;
    var transitions := [];
    for j := 0 to k
      invariant |transitions| == Mul(j, n)
      invariant forall j' :: 0 <= j' < j ==> n <= g.finalStatesList[j'].length
      invariant forall s :: 0 <= s < |transitions| ==> Copy(n, s) < j && transitions[s] == LayerEdges(g, Copy(n, s), Base(n, s))
    {
      var row := Row(g, j, transitions);
      if row.None? {
        return None;
      }
      transitions := row.value;
    }
    r := Some(transitions);
  }

  /** The inner loop for copy `j`: the edge maps of its states, appended after the earlier copies. */
  method Row(g: GnbaResult, j: nat, before: seq<map<Bitset, Bitset>>) returns (r: Option<seq<map<Bitset, Bitset>>>)
    requires Layerable(g) && j < |g.finalStatesList|
    requires |before| == Mul(j, g.automa.numStates)
    requires forall s :: 0 <= s < |before| ==>
      Copy(g.automa.numStates, s) < j && before[s] == LayerEdges(g, Copy(g.automa.numStates, s), Base(g.automa.numStates, s))
    ensures r.Some? <==> g.automa.numStates <= g.finalStatesList[j].length
    ensures r.Some? ==>
      && |r.value| == Mul(j + 1, g.automa.numStates)
      && forall s :: 0 <= s < |r.value| ==>
           Copy(g.automa.numStates, s) < j + 1 && r.value[s] == LayerEdges(g, Copy(g.automa.numStates, s), Base(g.automa.numStates, s))
  {
    var n, k := g.automa.numStates, |g.finalStatesList|;
    var final := g.finalStatesList[j];
    var transitions := before;
    for i := 0 to n
      invariant |transitions| == Mul(j, n) + i
      invariant i <= final.length
      invariant transitions[..|before|] == before
      invariant forall i' :: 0 <= i' < i ==> transitions[Mul(j, n) + i'] == LayerEdges(g, j, i')
    {
      if i >= final.length {
        return None;
      }
      var edges := EdgesOf(g, j, i);
      transitions := transitions + [edges];
    }
    RowLayers(g, j, before, transitions);
    r := Some(transitions);
  }

  /** Appending the copy-`j` rows to the rows of the copies before it gives the rows of the copies up to `j`. */
  lemma RowLayers(g: GnbaResult, j: nat, before: seq<map<Bitset, Bitset>>, transitions: seq<map<Bitset, Bitset>>)
    requires Layerable(g) && j < |g.finalStatesList|
    requires |before| == Mul(j, g.automa.numStates)
    requires forall s :: 0 <= s < |before| ==>
      Copy(g.automa.numStates, s) < j && before[s] == LayerEdges(g, Copy(g.automa.numStates, s), Base(g.automa.numStates, s))
    requires |transitions| == Mul(j, g.automa.numStates) + g.automa.numStates && transitions[..|before|] == before
    requires forall i' :: 0 <= i' < g.automa.numStates ==>
      transitions[Mul(j, g.automa.numStates) + i'] == LayerEdges(g, j, i')
    ensures |transitions| == Mul(j + 1, g.automa.numStates)
    ensures forall s :: 0 <= s < |transitions| ==>
      Copy(g.automa.numStates, s) < j + 1 && transitions[s] == LayerEdges(g, Copy(g.automa.numStates, s), Base(g.automa.numStates, s))
  {
    var n := g.automa.numStates;
    forall s | 0 <= s < |transitions|
      ensures Copy(n, s) < j + 1 && transitions[s] == LayerEdges(g, Copy(n, s), Base(n, s))
    {
      if s < |before| {
        assert transitions[s] == before[s];
      } else {
        var i' := s - Mul(j, n);
        CopyBase(n, j, i');
      }
    }
  }

  /** The body of the inner loop: the offset of the copy the edges of state `i` lead into, then the shifted edges. */
  method EdgesOf(g: GnbaResult, j: nat, i: nat) returns (edges: map<Bitset, Bitset>)
    requires Layerable(g) && j < |g.finalStatesList| && i < g.automa.numStates && i < g.finalStatesList[j].length
    ensures edges == LayerEdges(g, j, i)
  {
    var n, k := g.automa.numStates, |g.finalStatesList|;
    var next := (j + (if Test(g.finalStatesList[j], i) then 1 else 0)) % k;
    assert next == NextCopy(g, j, i);
    var offset := Mul(next, n);
    MulMono(next, k, n);
    edges := ShiftEdges(g.automa.transitions[i], Mul(k, n), offset);
  }
}

/**
 * The languages of the automata of python/fsm.py, read as acceptors of
 * finite words over their labels, and the two constructions on them that
 * the `FSM` class performs: `complement` and the subset construction of
 * `to_dfa`.  A set of states below `n` in the subset construction is the
 * integer of FsmBits.
 */
module FsmLanguage {
  import opened FsmBits

  /** `(source, target)` to the set of labels on the edges between them. */
  type Edges = map<(int, int), set<string>>

  /** Every edge joins two states of `nodes`. */
  ghost predicate EdgesWithin(edges: Edges, nodes: set<int>) {
    forall k :: k in edges ==> k.0 in nodes && k.1 in nodes
  }

  /** Every label on an edge is one of `labels`. */
  ghost predicate LabelsWithin(edges: Edges, labels: seq<string>) {
    forall k, l :: k in edges && l in edges[k] ==> l in labels
  }

  /** The states an edge labelled `l` leads to from the states `s`. */
  function Post(edges: Edges, s: set<int>, l: string): set<int> {
    set k | k in edges && k.0 in s && l in edges[k] :: k.1
  }

  /** The states a word leads to from the states `s`. */
  function Reach(edges: Edges, s: set<int>, w: seq<string>): set<int> {
    if w == [] then s else Post(edges, Reach(edges, s, w[..|w| - 1]), w[|w| - 1])
  }

  /** The automaton accepts the finite word `w` from the states `s`. */
  predicate Accepts(edges: Edges, s: set<int>, final: set<int>, w: seq<string>) {
    Reach(edges, s, w) * final != {}
  }

  /** Some edge labelled `l` leaves `q`. */
  ghost predicate Moves(edges: Edges, q: int, l: string) {
    exists q' :: (q, q') in edges && l in edges[(q, q')]
  }

  /** From every state, every label leads somewhere. */
  ghost predicate Complete(edges: Edges, nodes: set<int>, labels: seq<string>) {
    forall q, l :: q in nodes && l in labels ==> Moves(edges, q, l)
  }

  /** No label leads from one state to two. */
  ghost predicate Deterministic(edges: Edges) {
    forall q, a, b, l :: (q, a) in edges && (q, b) in edges && l in edges[(q, a)] && l in edges[(q, b)] ==> a == b
  }

  lemma PostSingleton(edges: Edges, p: int, l: string, q: int)
    requires Deterministic(edges) && (p, q) in edges && l in edges[(p, q)]
    ensures Post(edges, {p}, l) == {q}
  {
    assert q in Post(edges, {p}, l);
    forall x | x in Post(edges, {p}, l)
      ensures x == q
    {
      var k :| k in edges && k.0 in {p} && l in edges[k] && k.1 == x;
      assert k == (p, x);
    }
  }

  /** A word ending in `l` takes one more step from the states its prefix reaches. */
  lemma ReachLast(edges: Edges, s: set<int>, w: seq<string>)
    requires w != []
    ensures Reach(edges, s, w) == Post(edges, Reach(edges, s, w[..|w| - 1]), w[|w| - 1])
  {
  }

  lemma {:induction false} DeterministicRun(edges: Edges, nodes: set<int>, labels: seq<string>, q0: int, w: seq<string>) returns (q: int)
    requires EdgesWithin(edges, nodes) && Complete(edges, nodes, labels) && Deterministic(edges)
    requires q0 in nodes && forall i :: 0 <= i < |w| ==> w[i] in labels
    ensures q in nodes && Reach(edges, {q0}, w) == {q}
  {
    if w == [] {
      q := q0;
    } else {
      var init, l := w[..|w| - 1], w[|w| - 1];
      assert forall i :: 0 <= i < |init| ==> init[i] == w[i];
      var p := DeterministicRun(edges, nodes, labels, q0, init);
      ReachLast(edges, {q0}, w);
      assert l in labels && Moves(edges, p, l);
      q :| (p, q) in edges && l in edges[(p, q)];
      PostSingleton(edges, p, l, q);
    }
  }

  /**
   * `complement` keeps the edges and starts and makes the non-final states
   * final; on a complete deterministic automaton it accepts exactly the
   * words over the labels the original rejects.
   */
  lemma ComplementLanguage(edges: Edges, nodes: set<int>, labels: seq<string>, final: set<int>, q0: int, w: seq<string>)
    requires EdgesWithin(edges, nodes) && Complete(edges, nodes, labels) && Deterministic(edges)
    requires q0 in nodes && forall i :: 0 <= i < |w| ==> w[i] in labels
    ensures Accepts(edges, {q0}, nodes - final, w) <==> !Accepts(edges, {q0}, final, w)
  {
    var q := DeterministicRun(edges, nodes, labels, q0, w);
    assert q in {q} * (nodes - final) <==> q !in final;
  }

  // ---------------------------------------------------------------------------
  // The subset construction of `to_dfa`

  /** Every edge ends at one of the states `0 .. n-1`. */
  ghost predicate TargetsBelow(edges: Edges, n: nat) {
    forall k :: k in edges ==> 0 <= k.1 < n
  }

  /**
   * The subset state the label `l` leads to from the subset state `a`:
   * the targets of the `l`-edges out of the members of `a`, as a number.
   */
  function Step(edges: Edges, n: nat, a: nat, l: string): nat {
    Mask(Post(edges, Members(a, n), l), n)
  }

  /**
   * The edges `dEdges` of the subset automaton on the explored states `v`:
   * every edge leaves an explored state and is labelled `l` exactly when it
   * goes to the non-empty `Step` on `l`, and every such step is an edge.
   */
  ghost predicate SubsetEdges(edges: Edges, n: nat, labels: seq<string>, dEdges: Edges, v: set<int>) {
    && (forall k :: k in dEdges ==> k.0 in v && k.0 >= 0)
    && (forall k, l :: k in dEdges && l in dEdges[k] ==> k.0 >= 0 && l in labels && k.1 == Step(edges, n, k.0, l) && k.1 != 0)
    && (forall a: nat, l :: a in v && l in labels && Step(edges, n, a, l) != 0 ==>
          (a, Step(edges, n, a, l)) in dEdges && l in dEdges[(a, Step(edges, n, a, l))])
  }

  /** The final subset states are the explored ones that meet `final`. */
  ghost predicate SubsetFinal(n: nat, final: set<int>, dFinal: set<int>, v: set<int>) {
    forall a :: a in dFinal <==> a in v && a >= 0 && BitAnd(a, Mask(final, n)) != 0
  }

  /** Every non-empty step from an explored state is explored or waiting in `queue`. */
  ghost predicate ClosedBut(edges: Edges, n: nat, labels: seq<string>, v: set<int>, queue: seq<int>) {
    forall a: nat, l :: a in v && l in labels && Step(edges, n, a, l) != 0 ==>
      Step(edges, n, a, l) in v || Step(edges, n, a, l) in queue
  }

  /** The subset state reached from `a` by taking the steps of the letters of `w` in turn. */
  function Steps(edges: Edges, n: nat, a: nat, w: seq<string>): nat {
    if w == [] then a else Step(edges, n, Steps(edges, n, a, w[..|w| - 1]), w[|w| - 1])
  }

  /** The subset state `q` is reached from `1 << s` along some word over `labels`. */
  ghost predicate Reached(edges: Edges, n: nat, labels: seq<string>, s: nat, q: int) {
    exists w: seq<string> :: (forall i :: 0 <= i < |w| ==> w[i] in labels) && Steps(edges, n, Pow2(s), w) == q
  }

  /** Taking the steps of `w` from `1 << s` gives the number of the set the NFA reaches on `w`. */
  lemma {:induction false} StepsIsReach(edges: Edges, n: nat, s: nat, w: seq<string>)
    requires TargetsBelow(edges, n) && s < n
    ensures Below(Reach(edges, {s}, w), n) == Reach(edges, {s}, w)
    ensures Steps(edges, n, Pow2(s), w) == Mask(Reach(edges, {s}, w), n)
  {
    if w == [] {
      MaskSingleton(s, n);
    } else {
      var init, l := w[..|w| - 1], w[|w| - 1];
      StepsIsReach(edges, n, s, init);
      var r0 := Reach(edges, {s}, init);
      PostBelow(edges, n, r0, l);
      StepMask(edges, n, r0, l);
    }
  }

  /** The start subset state is reached along the empty word. */
  lemma ReachedStart(edges: Edges, n: nat, labels: seq<string>, s: nat)
    ensures Reached(edges, n, labels, s, Pow2(s))
  {
    assert Steps(edges, n, Pow2(s), []) == Pow2(s);
  }

  /** A step on a known label from a reached subset state reaches its target. */
  lemma ReachedStep(edges: Edges, n: nat, labels: seq<string>, s: nat, a: nat, l: string)
    requires Reached(edges, n, labels, s, a) && l in labels
    ensures Reached(edges, n, labels, s, Step(edges, n, a, l))
  {
    var w :| (forall i :: 0 <= i < |w| ==> w[i] in labels) && Steps(edges, n, Pow2(s), w) == a;
    var w' := w + [l];
    assert w'[..|w'| - 1] == w;
    assert Steps(edges, n, Pow2(s), w') == Step(edges, n, a, l);
  }

  /**
   * The result of `to_dfa` from the start state `s`: its states `v` hold
   * `1 << s`, are closed under the steps and are all reached from it, and
   * its edges and final states are those of the subset construction.
   */
  ghost predicate PowersetOf(edges: Edges, n: nat, labels: seq<string>, final: set<int>, s: nat,
                             dEdges: Edges, v: set<int>, dFinal: set<int>) {
    && Pow2(s) in v
    && (forall q :: q in v ==> Reached(edges, n, labels, s, q))
    && ClosedBut(edges, n, labels, v, [])
    && SubsetEdges(edges, n, labels, dEdges, v)
    && SubsetFinal(n, final, dFinal, v)
  }

  lemma PostEmpty(edges: Edges, l: string)
    ensures Post(edges, {}, l) == {}
  {
  }

  lemma PostBelow(edges: Edges, n: nat, s: set<int>, l: string)
    requires TargetsBelow(edges, n)
    ensures Below(Post(edges, s, l), n) == Post(edges, s, l)
  {
  }

  /** No edge carries a label outside `labels`. */
  lemma PostUnknown(edges: Edges, labels: seq<string>, s: set<int>, l: string)
    requires LabelsWithin(edges, labels) && l !in labels
    ensures Post(edges, s, l) == {}
  {
  }

  /** On the number of a set of states, `Step` is `Post`. */
  lemma StepMask(edges: Edges, n: nat, r: set<int>, l: string)
    requires Below(r, n) == r
    ensures Step(edges, n, Mask(r, n), l) == Mask(Post(edges, r, l), n)
  {
    MembersMask(r, n);
  }

  /** From an explored state, the subset automaton has one edge for each non-empty step. */
  lemma SubsetPost(edges: Edges, n: nat, labels: seq<string>, dEdges: Edges, v: set<int>, a: nat, l: string)
    requires SubsetEdges(edges, n, labels, dEdges, v) && a in v
    ensures Post(dEdges, {a}, l) == if l in labels && Step(edges, n, a, l) != 0 then {Step(edges, n, a, l)} else {}
  {
    var p := Post(dEdges, {a}, l);
    forall x | x in p
      ensures l in labels && x == Step(edges, n, a, l) && x != 0
    {
      var k :| k in dEdges && k.0 in {a} && l in dEdges[k] && k.1 == x;
    }
    if l in labels && Step(edges, n, a, l) != 0 {
      assert Step(edges, n, a, l) in p;
    }
  }

  /**
   * The subset automaton run on `w` from `1 << s` is in the one state the
   * number of the set the NFA reaches, or stopped when that set is empty.
   */
  lemma {:induction false} SubsetReach(edges: Edges, n: nat, labels: seq<string>, final: set<int>, s: nat,
                                       dEdges: Edges, v: set<int>, dFinal: set<int>, w: seq<string>)
    requires TargetsBelow(edges, n) && LabelsWithin(edges, labels) && s < n
    requires PowersetOf(edges, n, labels, final, s, dEdges, v, dFinal)
    ensures Below(Reach(edges, {s}, w), n) == Reach(edges, {s}, w)
    ensures Reach(edges, {s}, w) != {} ==> Mask(Reach(edges, {s}, w), n) in v
    ensures Reach(dEdges, {Pow2(s)}, w) == if Reach(edges, {s}, w) == {} then {} else {Mask(Reach(edges, {s}, w), n)}
  {
    if w == [] {
      MaskSingleton(s, n);
    } else {
      var init, l := w[..|w| - 1], w[|w| - 1];
      SubsetReach(edges, n, labels, final, s, dEdges, v, dFinal, init);
      ReachLast(edges, {s}, w);
      ReachLast(dEdges, {Pow2(s)}, w);
      var r0 := Reach(edges, {s}, init);
      var r := Reach(edges, {s}, w);
      assert r == Post(edges, r0, l);
      PostBelow(edges, n, r0, l);
      if r0 == {} {
        PostEmpty(edges, l);
        PostEmpty(dEdges, l);
      } else {
        var a := Mask(r0, n);
        SubsetPost(edges, n, labels, dEdges, v, a, l);
        StepMask(edges, n, r0, l);
        MaskZero(r, n);
        if l !in labels {
          PostUnknown(edges, labels, r0, l);
        }
      }
    }
  }

  /**
   * On an NFA whose states are `0 .. n-1` and whose labels are known, the
   * subset automaton accepts exactly the words the NFA accepts.
   */
  lemma SubsetConstructionLanguage(edges: Edges, n: nat, labels: seq<string>, final: set<int>, s: nat,
                                   dEdges: Edges, v: set<int>, dFinal: set<int>, w: seq<string>)
    requires TargetsBelow(edges, n) && LabelsWithin(edges, labels) && s < n
    requires PowersetOf(edges, n, labels, final, s, dEdges, v, dFinal)
    ensures Accepts(dEdges, {Pow2(s)}, dFinal, w) <==> Accepts(edges, {s}, final, w)
  {
    SubsetReach(edges, n, labels, final, s, dEdges, v, dFinal, w);
    var r := Reach(edges, {s}, w);
    if r != {} {
      var a := Mask(r, n);
      MeetsMask(a, final, n);
      MembersMask(r, n);
      if a in dFinal {
        assert a in {a} * dFinal;
      } else {
        assert {a} * dFinal == {};
      }
    }
  }
}

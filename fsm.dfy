/**
 * The `FSM` class of python/fsm.py: a finite automaton under construction,
 * built one source state at a time with `add_edges`, and the operations on
 * it (`complement`, `_check_rank_group`, `_check_start`, `to_dfa`).
 *
 * States are integers and labels strings.  The edge map sends a pair
 * (source, target) to the set of labels on the edges between them; a
 * missing pair reads as the empty set, as the source's `defaultdict` does.
 */
module Fsm {
  import opened Wrappers
  import opened FsmBits
  import opened FsmLanguage

  datatype Kind = DFA | NFA

  /** An argument of `add_edges`: a bare target (DFA only, labelled by its position) or a target with its label. */
  datatype Target = Bare(end: int) | Labelled(end: int, text: string)

  datatype Error =
    | AlreadyDefined       // "Node already defined"
    | NeedsLabel           // "In NFA, the input should be a tuple"
    | NoLabelAt(i: nat)    // `self.label[i]` past the end of the labels
    | InvalidLabel         // "Invalid label"
    | InvalidRankGroup     // "Invalid rank group"
    | MultipleStart        // "Multiple start states not supported"
    | NoStart              // "Start state not defined"
    | NotNfa               // "Only NFA can be converted to DFA"
    | NodesNotRange        // "Currently, we only support node index from 0 to n-1"
    | NegativeShift        // `1 << s` for a negative start state

  /** `edges[(source, target)]`: empty for a missing pair. */
  function LabelsOf(edges: Edges, k: (int, int)): set<string> {
    if k in edges then edges[k] else {}
  }

  /** `_add_edge` on the edge map. */
  function AddLabel(edges: Edges, src: int, end: int, l: string): Edges {
    edges[(src, end) := LabelsOf(edges, (src, end)) + {l}]
  }

  /** The edge map after `_add_edge(src, end, label)` for each resolved pair in turn. */
  function AddOut(edges: Edges, src: int, pairs: seq<(int, string)>): Edges {
    if pairs == [] then edges
    else
      var p := pairs[|pairs| - 1];
      AddLabel(AddOut(edges, src, pairs[..|pairs| - 1]), src, p.0, p.1)
  }

  /** The targets of the resolved pairs. */
  function Ends(pairs: seq<(int, string)>): set<int> {
    set p | p in pairs :: p.0
  }

  /** Adding the pairs of `src` adds exactly their edges out of `src` and leaves every other edge alone. */
  lemma {:induction false} AddOutLabels(edges: Edges, src: int, pairs: seq<(int, string)>)
    ensures forall k :: k in AddOut(edges, src, pairs) <==> k in edges || (k.0 == src && k.1 in Ends(pairs))
    ensures forall k, l :: l in LabelsOf(AddOut(edges, src, pairs), k) <==> l in LabelsOf(edges, k) || (k.0 == src && (k.1, l) in pairs)
  {
    if pairs != [] {
      var init, p := pairs[..|pairs| - 1], pairs[|pairs| - 1];
      AddOutLabels(edges, src, init);
      assert pairs == init + [p];
      assert Ends(pairs) == Ends(init) + {p.0};
    }
  }

  /** The states on some edge. */
  function Endpoints(edges: Edges): set<int> {
    (set k | k in edges :: k.0) + (set k | k in edges :: k.1)
  }

  /** The states on the edges after adding the pairs of `src`: the old ones, `src` if a pair was added, and the targets. */
  lemma EndpointsAddOut(edges: Edges, src: int, pairs: seq<(int, string)>)
    ensures Endpoints(AddOut(edges, src, pairs)) == Endpoints(edges) + (if pairs == [] then {} else {src}) + Ends(pairs)
  {
    AddOutLabels(edges, src, pairs);
    var e := AddOut(edges, src, pairs);
    var rhs := Endpoints(edges) + (if pairs == [] then {} else {src}) + Ends(pairs);
    EndpointsOfAdded(edges, src, pairs, e);
    if pairs != [] {
      assert pairs[0] in pairs;
      assert (src, pairs[0].0) in e;
    }
    forall q | q in Ends(pairs)
      ensures q in Endpoints(e)
    {
      assert (src, q) in e;
    }
    forall q | q in Endpoints(edges)
      ensures q in Endpoints(e)
    {
      var k :| k in edges && (k.0 == q || k.1 == q);
      assert k in e;
    }
  }

  lemma EndpointsOfAdded(edges: Edges, src: int, pairs: seq<(int, string)>, e: Edges)
    requires forall k :: k in e <==> k in edges || (k.0 == src && k.1 in Ends(pairs))
    ensures Endpoints(e) <= Endpoints(edges) + (if pairs == [] then {} else {src}) + Ends(pairs)
  {
    forall q | q in Endpoints(e)
      ensures q in Endpoints(edges) + (if pairs == [] then {} else {src}) + Ends(pairs)
    {
      var k :| k in e && (k.0 == q || k.1 == q);
      if k !in edges {
        assert k.1 in Ends(pairs);
      }
    }
  }

  /** Adding edges out of `src` keeps the edges between known states and labels. */
  lemma AddOutWithin(edges: Edges, nodes: set<int>, labels: seq<string>, src: int, pairs: seq<(int, string)>)
    ensures EdgesWithin(edges, nodes) ==>
      EdgesWithin(AddOut(edges, src, pairs), nodes + (if pairs == [] then {} else {src}) + Ends(pairs))
    ensures LabelsWithin(edges, labels) && (forall p :: p in pairs ==> p.1 in labels) ==>
      LabelsWithin(AddOut(edges, src, pairs), labels)
  {
    AddOutLabels(edges, src, pairs);
    var e := AddOut(edges, src, pairs);
    if pairs == [] {
      assert e == edges;
    }
    if LabelsWithin(edges, labels) && (forall p :: p in pairs ==> p.1 in labels) {
      forall k, l | k in e && l in e[k]
        ensures l in labels
      {
        assert l in LabelsOf(e, k);
      }
    }
  }

  /** The states are `0 .. n-1` for `n` states. */
  ghost predicate IsRange(nodes: set<int>) {
    forall j :: j in nodes <==> 0 <= j < |nodes|
  }

  /** `sum(rank_group, [])`: the groups one after the other. */
  function Flatten(groups: seq<seq<int>>): seq<int> {
    if groups == [] then [] else Flatten(groups[..|groups| - 1]) + groups[|groups| - 1]
  }

  /** `list(range(n))`. */
  function RangeSeq(n: nat): (r: seq<int>)
    ensures |r| == n
  {
    if n == 0 then [] else RangeSeq(n - 1) + [n - 1]
  }

  lemma {:induction false} RangeSeqCount(n: nat, v: int)
    ensures multiset(RangeSeq(n))[v] == if 0 <= v < n then 1 else 0
  {
    if n == 0 {
      assert RangeSeq(n) == [];
    } else {
      RangeSeqCount(n - 1, v);
      MultisetSnoc(RangeSeq(n - 1), n - 1, v);
    }
  }

  lemma MultisetSnoc(r: seq<int>, x: int, v: int)
    ensures multiset(r + [x])[v] == multiset(r)[v] + (if v == x then 1 else 0)
  {
    assert multiset(r + [x]) == multiset(r) + multiset{x};
  }

  /** Rank groups that pass `_check_rank_group` on the states `0 .. n-1` hold every state exactly once. */
  lemma RankGroupPartition(groups: seq<seq<int>>, nodes: set<int>, v: int)
    requires IsRange(nodes)
    requires multiset(Flatten(groups)) == multiset(RangeSeq(|nodes|))
    ensures multiset(Flatten(groups))[v] == if v in nodes then 1 else 0
  {
    RangeSeqCount(|nodes|, v);
  }

  // ---------------------------------------------------------------------------
  // `to_dfa`

  /** `_make_edge_traverse()`'s table: label, then source state, to the target states. */
  type Table = map<string, map<int, set<int>>>

  /** `table[label][source]`, empty when missing, as the source's `defaultdict` reads. */
  function Lookup(t: Table, l: string, q: int): set<int> {
    if l in t && q in t[l] then t[l][q] else {}
  }

  /** `result[label][start].append(end)`. */
  function Insert(t: Table, l: string, q: int, x: int): (r: Table)
    ensures forall l', q' :: Lookup(r, l', q') == Lookup(t, l', q') + (if l' == l && q' == q then {x} else {})
  {
    t[l := (if l in t then t[l] else map[])[q := Lookup(t, l, q) + {x}]]
  }

  /** The labelled edges, one pair per label on an edge. */
  function LabelledEdges(edges: Edges): set<((int, int), string)> {
    set k, l | k in edges && l in edges[k] :: (k, l)
  }

  /** The targets of the `l`-edges out of `q` whose pair is no longer in `todo`. */
  ghost function Entered(edges: Edges, todo: set<((int, int), string)>, l: string, q: int): set<int> {
    set k | k in edges && k.0 == q && l in edges[k] && (k, l) !in todo :: k.1
  }

  /** `t` holds the edges that are done. */
  ghost predicate TableOf(t: Table, edges: Edges, todo: set<((int, int), string)>) {
    forall l, q :: Lookup(t, l, q) == Entered(edges, todo, l, q)
  }

  lemma TablePush(t: Table, edges: Edges, todo: set<((int, int), string)>, k: (int, int), l: string)
    requires TableOf(t, edges, todo) && (k, l) in todo && k in edges && l in edges[k]
    ensures TableOf(Insert(t, l, k.0, k.1), edges, todo - {(k, l)})
  {
    var t' := Insert(t, l, k.0, k.1);
    forall l', q
      ensures Lookup(t', l', q) == Entered(edges, todo - {(k, l)}, l', q)
    {
      assert Lookup(t', l', q) == Entered(edges, todo, l', q) + (if l' == l && q == k.0 then {k.1} else {});
    }
  }

  lemma TableDone(t: Table, edges: Edges)
    requires TableOf(t, edges, {})
    ensures forall l, q :: Lookup(t, l, q) == Post(edges, {q}, l)
  {
    forall l, q
      ensures Lookup(t, l, q) == Post(edges, {q}, l)
    {
      assert Entered(edges, {}, l, q) == Post(edges, {q}, l);
    }
  }

  lemma PostAdd(edges: Edges, a: set<int>, j: int, l: string)
    ensures Post(edges, a + {j}, l) == Post(edges, a, l) + Post(edges, {j}, l)
  {
  }

  lemma MembersNext(m: nat, j: nat)
    ensures Members(m, j + 1) == Members(m, j) + (if Bit(m, j) then {j} else {})
  {
  }

  /**
   * The inner loops of `to_dfa` for one label: `new_state |= 1 << end` for
   * each target of the label out of each member of `cur`.
   */
  method Successor(ghost edges: Edges, n: nat, t: Table, cur: nat, l: string) returns (m: nat)
    requires TargetsBelow(edges, n)
    requires forall q :: Lookup(t, l, q) == Post(edges, {q}, l)
    ensures m == Step(edges, n, cur, l)
  {
    m := 0;
    ghost var acc: set<int> := {};
    MaskFromEmpty({}, 0, n);
    for j := 0 to n
      invariant acc == Post(edges, Members(cur, j), l)
      invariant m == Mask(acc, n)
    {
      MembersNext(cur, j);
      PostAdd(edges, Members(cur, j), j, l);
      if Bit(cur, j) {
        var ends := Lookup(t, l, j);
        var rest := ends;
        ghost var acc0 := acc;
        while rest != {}
          invariant rest <= ends && acc == acc0 + (ends - rest)
          invariant m == Mask(acc, n)
          decreases rest
        {
          var e :| e in rest;
          assert e in Post(edges, {j}, l);
          SetBitMask(acc, e, n);
          m := SetBit(m, e);
          acc := acc + {e};
          rest := rest - {e};
        }
      }
    }
  }

  /** `dests` of `to_dfa` for the subset state `cur`: the non-empty steps, label by label. */
  function DestList(edges: Edges, n: nat, labels: seq<string>, cur: nat): seq<Target> {
    if labels == [] then []
    else
      var l := labels[|labels| - 1];
      var m := Step(edges, n, cur, l);
      DestList(edges, n, labels[..|labels| - 1], cur) + (if m != 0 then [Labelled(m, l)] else [])
  }

  /** `dests` holds, for each label with a non-empty step, that step, and nothing else. */
  lemma {:induction false} DestListMembers(edges: Edges, n: nat, labels: seq<string>, cur: nat)
    ensures forall t :: t in DestList(edges, n, labels, cur) ==>
      t.Labelled? && t.text in labels && t.end == Step(edges, n, cur, t.text) && t.end != 0
    ensures forall l :: l in labels && Step(edges, n, cur, l) != 0 ==> Labelled(Step(edges, n, cur, l), l) in DestList(edges, n, labels, cur)
  {
    if labels != [] {
      var init := labels[..|labels| - 1];
      DestListMembers(edges, n, init, cur);
      assert labels == init + [labels[|labels| - 1]];
    }
  }

  /** The state of the breadth-first exploration of `to_dfa` with `queue` still to visit. */
  ghost predicate Exploring(edges: Edges, n: nat, labels: seq<string>, final: set<int>, s: nat, bound: nat,
                            dEdges: Edges, dFinal: set<int>, v: set<int>, queue: seq<int>) {
    && (Pow2(s) in v || Pow2(s) in queue)
    && (forall q :: q in v ==> Reached(edges, n, labels, s, q))
    && (forall q :: q in queue ==> Reached(edges, n, labels, s, q))
    && (forall q :: q in queue ==> 0 <= q < bound)
    && (forall q :: q in v ==> 0 <= q < bound)
    && ClosedBut(edges, n, labels, v, queue)
    && SubsetEdges(edges, n, labels, dEdges, v)
    && SubsetFinal(n, final, dFinal, v)
  }

  /** Defining the subset state `cur` with its steps keeps the edges those of the subset construction. */
  lemma SubsetEdgesAdd(edges: Edges, n: nat, labels: seq<string>, dEdges: Edges, v: set<int>, cur: nat, res: seq<(int, string)>)
    requires SubsetEdges(edges, n, labels, dEdges, v)
    requires forall p :: p in res <==> p.1 in labels && p.0 == Step(edges, n, cur, p.1) && p.0 != 0
    ensures SubsetEdges(edges, n, labels, AddOut(dEdges, cur, res), v + {cur})
  {
    AddOutLabels(dEdges, cur, res);
    var e := AddOut(dEdges, cur, res);
    forall k, l | k in e && l in e[k]
      ensures k.0 >= 0 && l in labels && k.1 == Step(edges, n, k.0, l) && k.1 != 0
    {
      assert l in LabelsOf(e, k);
    }
    forall a: nat, l | a in v + {cur} && l in labels && Step(edges, n, a, l) != 0
      ensures (a, Step(edges, n, a, l)) in e && l in e[(a, Step(edges, n, a, l))]
    {
      var k := (a, Step(edges, n, a, l));
      if a == cur {
        assert (k.1, l) in res;
      } else {
        assert l in LabelsOf(dEdges, k);
      }
      assert l in LabelsOf(e, k);
    }
  }

  /** The last loop of a `to_dfa` turn: queue each target not yet visited. */
  method Enqueue(dests: seq<Target>, visit: set<int>, rest: seq<int>, ghost bound: nat) returns (queue: seq<int>)
    requires forall t :: t in dests ==> 0 <= t.end < bound
    requires forall x :: x in rest ==> 0 <= x < bound
    ensures forall x :: x in rest ==> x in queue
    ensures forall t :: t in dests && t.end !in visit ==> t.end in queue
    ensures forall x :: x in queue ==> 0 <= x < bound
    ensures forall x :: x in queue ==> x in rest || exists j :: 0 <= j < |dests| && dests[j].end == x
  {
    queue := rest;
    for i := 0 to |dests|
      invariant forall x :: x in rest ==> x in queue
      invariant forall x :: x in queue ==> x in rest || exists j :: 0 <= j < i && dests[j].end == x
      invariant forall j :: 0 <= j < i && dests[j].end !in visit ==> dests[j].end in queue
      invariant forall x :: x in queue ==> 0 <= x < bound
    {
      assert dests[i] in dests;
      if dests[i].end !in visit {
        queue := queue + [dests[i].end];
      }
    }
    forall u | u in dests && u.end !in visit
      ensures u.end in queue
    {
      var j :| 0 <= j < |dests| && dests[j] == u;
    }
  }

  /** The numbers below `bound` not yet visited: the loop of `to_dfa` visits one more in every turn that is not skipped. */
  ghost function Unvisited(bound: nat, visit: set<int>): set<int> {
    set m: int | 0 <= m < bound && m !in visit
  }

  lemma UnvisitedShrinks(bound: nat, visit: set<int>, cur: int)
    requires 0 <= cur < bound && cur !in visit
    ensures Unvisited(bound, visit + {cur}) < Unvisited(bound, visit)
  {
    assert cur in Unvisited(bound, visit);
  }

  /** `_check_input` accepts the target at position `i`. */
  predicate Acceptable(labels: seq<string>, kind: Kind, i: nat, t: Target) {
    match t
    case Bare(_) => kind == DFA && i < |labels|
    case Labelled(_, l) => l in labels
  }

  /** The assertion a target at position `i` fails. */
  function TargetError(kind: Kind, i: nat, t: Target): Error {
    match t
    case Bare(_) => if kind != DFA then NeedsLabel else NoLabelAt(i)
    case Labelled(_, _) => InvalidLabel
  }

  predicate AllAcceptable(labels: seq<string>, kind: Kind, pairs: seq<Target>) {
    forall i :: 0 <= i < |pairs| ==> Acceptable(labels, kind, i, pairs[i])
  }

  /** Some target fails, and none before it. */
  predicate FirstFailure(labels: seq<string>, kind: Kind, pairs: seq<Target>, e: Error) {
    exists i :: 0 <= i < |pairs| && !Acceptable(labels, kind, i, pairs[i])
      && (forall j :: 0 <= j < i ==> Acceptable(labels, kind, j, pairs[j])) && e == TargetError(kind, i, pairs[i])
  }

  /** The (target, label) pairs of accepted targets: a bare target takes the label at its position. */
  function Resolved(labels: seq<string>, kind: Kind, pairs: seq<Target>): (r: seq<(int, string)>)
    requires AllAcceptable(labels, kind, pairs)
    ensures |r| == |pairs|
  {
    if pairs == [] then []
    else
      var i := |pairs| - 1;
      var t := pairs[i];
      Resolved(labels, kind, pairs[..i]) + [(t.end, if t.Bare? then labels[i] else t.text)]
  }

  /** Each resolved pair keeps its target and carries one of the labels: its own, or the one at its position. */
  lemma ResolvedPairs(labels: seq<string>, kind: Kind, pairs: seq<Target>)
    requires AllAcceptable(labels, kind, pairs)
    ensures forall i :: 0 <= i < |pairs| ==>
      && Resolved(labels, kind, pairs)[i].0 == pairs[i].end && Resolved(labels, kind, pairs)[i].1 in labels
      && Resolved(labels, kind, pairs)[i].1 == (if pairs[i].Bare? then labels[i] else pairs[i].text)
  {
    forall i | 0 <= i < |pairs|
      ensures Resolved(labels, kind, pairs)[i].1 in labels
      ensures Resolved(labels, kind, pairs)[i] == (pairs[i].end, if pairs[i].Bare? then labels[i] else pairs[i].text)
    {
      ResolvedAt(labels, kind, pairs, i);
    }
  }

  lemma {:induction false} ResolvedAt(labels: seq<string>, kind: Kind, pairs: seq<Target>, i: nat)
    requires AllAcceptable(labels, kind, pairs) && i < |pairs|
    ensures Resolved(labels, kind, pairs)[i].1 in labels
    ensures Resolved(labels, kind, pairs)[i] == (pairs[i].end, if pairs[i].Bare? then labels[i] else pairs[i].text)
  {
    var k := |pairs| - 1;
    assert Acceptable(labels, kind, i, pairs[i]);
    if i < k {
      var front := pairs[..k];
      assert AllAcceptable(labels, kind, front) by {
        forall j | 0 <= j < k
          ensures Acceptable(labels, kind, j, front[j])
        {
          assert front[j] == pairs[j];
        }
      }
      ResolvedAt(labels, kind, front, i);
      assert front[i] == pairs[i];
    }
  }

  /** Targets that all carry a label of `labels` resolve to their own (target, label) pairs. */
  lemma ResolvedLabelled(labels: seq<string>, kind: Kind, pairs: seq<Target>)
    requires forall t :: t in pairs ==> t.Labelled? && t.text in labels
    ensures AllAcceptable(labels, kind, pairs)
    ensures forall p :: p in Resolved(labels, kind, pairs) <==> Labelled(p.0, p.1) in pairs
  {
    assert forall i :: 0 <= i < |pairs| ==> pairs[i] in pairs;
    ResolvedPairs(labels, kind, pairs);
    var r := Resolved(labels, kind, pairs);
    forall p | p in r
      ensures Labelled(p.0, p.1) in pairs
    {
      var i :| 0 <= i < |r| && r[i] == p;
      assert pairs[i] == Labelled(p.0, p.1);
    }
    forall p: (int, string) | Labelled(p.0, p.1) in pairs
      ensures p in r
    {
      var i :| 0 <= i < |pairs| && pairs[i] == Labelled(p.0, p.1);
      assert r[i] == p;
    }
  }

  /** After a turn on `cur`, the visited states and the queue hold only reached subset states. */
  lemma QueueReached(edges: Edges, n: nat, labels: seq<string>, s: nat, v: set<int>, cur: nat, rest: seq<int>,
                     dests: seq<Target>, queue: seq<int>)
    requires forall q :: q in v ==> Reached(edges, n, labels, s, q)
    requires forall q :: q in [cur] + rest ==> Reached(edges, n, labels, s, q)
    requires forall t :: t in dests ==> t.Labelled? && t.text in labels && t.end == Step(edges, n, cur, t.text)
    requires forall x :: x in queue ==> x in rest || exists j :: 0 <= j < |dests| && dests[j].end == x
    ensures forall q :: q in v + {cur} ==> Reached(edges, n, labels, s, q)
    ensures forall x :: x in queue ==> Reached(edges, n, labels, s, x)
  {
    assert cur in [cur] + rest;
    forall x | x in queue
      ensures Reached(edges, n, labels, s, x)
    {
      if x in rest {
        assert x in [cur] + rest;
      } else {
        var j :| 0 <= j < |dests| && dests[j].end == x;
        assert dests[j] in dests;
        ReachedStep(edges, n, labels, s, cur, dests[j].text);
      }
    }
  }

  /** After a turn on `cur`, every non-empty step from a visited state is visited or queued. */
  lemma ClosedAfter(edges: Edges, n: nat, labels: seq<string>, v: set<int>, cur: nat, rest: seq<int>,
                    dests: seq<Target>, queue: seq<int>)
    requires ClosedBut(edges, n, labels, v, [cur] + rest)
    requires forall l :: l in labels && Step(edges, n, cur, l) != 0 ==> Labelled(Step(edges, n, cur, l), l) in dests
    requires forall x :: x in rest ==> x in queue
    requires forall t :: t in dests && t.end !in v + {cur} ==> t.end in queue
    ensures ClosedBut(edges, n, labels, v + {cur}, queue)
  {
    forall a: nat, l | a in v + {cur} && l in labels && Step(edges, n, a, l) != 0
      ensures Step(edges, n, a, l) in v + {cur} || Step(edges, n, a, l) in queue
    {
      if a == cur {
        assert Labelled(Step(edges, n, a, l), l) in dests;
      } else {
        assert Step(edges, n, a, l) in v || Step(edges, n, a, l) in [cur] + rest;
      }
    }
  }

  /** The pairs `add_edges` receives for `cur` are exactly its non-empty steps. */
  lemma ResSteps(edges: Edges, n: nat, labels: seq<string>, cur: nat, res: seq<(int, string)>, dests: seq<Target>)
    requires forall t :: t in dests ==> t.Labelled? && t.text in labels && t.end == Step(edges, n, cur, t.text) && t.end != 0
    requires forall l :: l in labels && Step(edges, n, cur, l) != 0 ==> Labelled(Step(edges, n, cur, l), l) in dests
    requires forall p :: p in res <==> Labelled(p.0, p.1) in dests
    ensures forall p :: p in res <==> p.1 in labels && p.0 == Step(edges, n, cur, p.1) && p.0 != 0
  {
    forall p | p in res
      ensures p.1 in labels && p.0 == Step(edges, n, cur, p.1) && p.0 != 0
    {
      assert Labelled(p.0, p.1) in dests;
    }
    forall p: (int, string) | p.1 in labels && p.0 == Step(edges, n, cur, p.1) && p.0 != 0
      ensures p in res
    {
      assert Labelled(p.0, p.1) in dests;
    }
  }

  /** A turn of the exploration on `cur` keeps the exploration invariant, with `cur` now visited. */
  lemma ExploreStep(edges: Edges, n: nat, labels: seq<string>, final: set<int>, s: nat, bound: nat,
                    dEdges: Edges, dFinal: set<int>, v: set<int>, cur: nat, rest: seq<int>,
                    res: seq<(int, string)>, dests: seq<Target>, queue: seq<int>)
    requires Exploring(edges, n, labels, final, s, bound, dEdges, dFinal, v, [cur] + rest) && cur !in v
    requires forall t :: t in dests ==> t.Labelled? && t.text in labels && t.end == Step(edges, n, cur, t.text) && t.end != 0
    requires forall l :: l in labels && Step(edges, n, cur, l) != 0 ==> Labelled(Step(edges, n, cur, l), l) in dests
    requires forall p :: p in res <==> Labelled(p.0, p.1) in dests
    requires forall x :: x in rest ==> x in queue
    requires forall t :: t in dests && t.end !in v + {cur} ==> t.end in queue
    requires forall x :: x in queue ==> 0 <= x < bound
    requires forall x :: x in queue ==> x in rest || exists j :: 0 <= j < |dests| && dests[j].end == x
    ensures Exploring(edges, n, labels, final, s, bound, AddOut(dEdges, cur, res),
                      dFinal + (if BitAnd(cur, Mask(final, n)) != 0 then {cur} else {}), v + {cur}, queue)
  {
    assert cur in [cur] + rest;
    ResSteps(edges, n, labels, cur, res, dests);
    SubsetEdgesAdd(edges, n, labels, dEdges, v, cur, res);
    QueueReached(edges, n, labels, s, v, cur, rest, dests, queue);
    ClosedAfter(edges, n, labels, v, cur, rest, dests, queue);
  }

  // ---------------------------------------------------------------------------
  // The class

  class Automaton {
    var labels: seq<string>
    var kind: Kind
    var nodes: set<int>
    var edges: Edges
    var final: set<int>
    var start: set<int>
    /** The states `add_edges` has defined (`_visited`). */
    var visited: set<int>

    /** Every edge joins two states, which `_add_edge` keeps and `_check_edge_node_defined` checks. */
    ghost predicate Valid()
      reads this
    {
      EdgesWithin(edges, nodes)
    }

    /** Every edge label is one of `labels`, which `add_edges` keeps and `to_dfa` checks. */
    ghost predicate KnownLabels()
      reads this
    {
      LabelsWithin(edges, labels)
    }

    /** `FSM(label, type_)`: no states, no edges. */
    constructor (labels: seq<string>, kind: Kind)
      ensures this.labels == labels && this.kind == kind
      ensures nodes == {} && edges == map[] && final == {} && start == {} && visited == {}
      ensures Valid() && KnownLabels()
    {
      this.labels := labels;
      this.kind := kind;
      nodes := {};
      edges := map[];
      final := {};
      start := {};
      visited := {};
    }

    /** `_add_edge(src, end, l)`. */
    method AddEdge(src: int, end: int, l: string)
      modifies this
      ensures nodes == old(nodes) + {src, end} && edges == AddLabel(old(edges), src, end, l)
      ensures labels == old(labels) && kind == old(kind) && final == old(final) && start == old(start) && visited == old(visited)
    {
      nodes := nodes + {src, end};
      edges := AddLabel(edges, src, end, l);
    }

    /** `_check_input(pairs)`. */
    method CheckInput(pairs: seq<Target>) returns (r: Result<seq<(int, string)>, Error>)
      ensures r.Ok? <==> AllAcceptable(labels, kind, pairs)
      ensures r.Ok? ==> r.value == Resolved(labels, kind, pairs)
      ensures r.Err? ==> FirstFailure(labels, kind, pairs, r.error)
    {
      var result: seq<(int, string)> := [];
      for i := 0 to |pairs|
        invariant AllAcceptable(labels, kind, pairs[..i]) && result == Resolved(labels, kind, pairs[..i])
      {
        var t := pairs[i];
        if !Acceptable(labels, kind, i, t) {
          assert forall j :: 0 <= j < i ==> pairs[..i][j] == pairs[j];
          assert !AllAcceptable(labels, kind, pairs);
          return Err(TargetError(kind, i, t));
        }
        assert pairs[..i + 1][..i] == pairs[..i];
        var end := t.end;
        var l := if t.Bare? then labels[i] else t.text;
        result := result + [(end, l)];
      }
      assert pairs[..|pairs|] == pairs;
      r := Ok(result);
    }

    /**
     * `add_edges(src, *pairs, start, final)`: define the source state `src`
     * once, with an edge for each target.  The source is marked defined
     * before the targets are checked, so a bad target leaves it defined
     * and without edges.
     */
    method AddEdges(src: int, pairs: seq<Target>, isStart: bool, isFinal: bool) returns (r: Result<(), Error>)
      modifies this
      ensures labels == old(labels) && kind == old(kind)
      ensures old(src in visited) ==> r == Err(AlreadyDefined) && unchanged(this)
      ensures !old(src in visited) ==> visited == old(visited) + {src}
      ensures r.Ok? <==> !old(src in visited) && AllAcceptable(labels, kind, pairs)
      ensures r.Err? && !old(src in visited) ==>
        FirstFailure(labels, kind, pairs, r.error) && nodes == old(nodes) && edges == old(edges) && final == old(final) && start == old(start)
      ensures r.Ok? ==>
        && edges == AddOut(old(edges), src, Resolved(labels, kind, pairs))
        && nodes == old(nodes) + (if pairs == [] then {} else {src}) + Ends(Resolved(labels, kind, pairs))
        && final == old(final) + (if isFinal then {src} else {})
        && start == old(start) + (if isStart then {src} else {})
      ensures old(Valid()) ==> Valid()
      ensures old(KnownLabels()) ==> KnownLabels()
    {
      if src in visited {
        return Err(AlreadyDefined);
      }
      visited := visited + {src};
      r := Fill(src, pairs, isStart, isFinal);
    }

    /** `add_edges` once `src` is marked defined: check the targets, then add their edges. */
    method Fill(src: int, pairs: seq<Target>, isStart: bool, isFinal: bool) returns (r: Result<(), Error>)
      modifies this
      ensures labels == old(labels) && kind == old(kind) && visited == old(visited)
      ensures r.Ok? <==> AllAcceptable(labels, kind, pairs)
      ensures r.Err? ==> FirstFailure(labels, kind, pairs, r.error) && nodes == old(nodes) && edges == old(edges) && final == old(final) && start == old(start)
      ensures r.Ok? ==>
        && edges == AddOut(old(edges), src, Resolved(labels, kind, pairs))
        && nodes == old(nodes) + (if pairs == [] then {} else {src}) + Ends(Resolved(labels, kind, pairs))
        && final == old(final) + (if isFinal then {src} else {})
        && start == old(start) + (if isStart then {src} else {})
      ensures old(Valid()) ==> Valid()
      ensures old(KnownLabels()) ==> KnownLabels()
    {
      var resolved :- CheckInput(pairs);
      assert forall p :: p in resolved ==> p.1 in labels by {
        ResolvedPairs(labels, kind, pairs);
      }
      Define(src, resolved, isStart, isFinal);
      assert resolved == Resolved(labels, kind, pairs);
      r := Ok(());
    }

    /** The part of `add_edges` after the checks: the edges out of `src`, then its final and start marks. */
    method Define(src: int, resolved: seq<(int, string)>, isStart: bool, isFinal: bool)
      requires forall p :: p in resolved ==> p.1 in labels
      modifies this
      ensures labels == old(labels) && kind == old(kind) && visited == old(visited)
      ensures edges == AddOut(old(edges), src, resolved)
      ensures nodes == old(nodes) + (if resolved == [] then {} else {src}) + Ends(resolved)
      ensures final == old(final) + (if isFinal then {src} else {})
      ensures start == old(start) + (if isStart then {src} else {})
      ensures old(Valid()) ==> Valid()
      ensures old(KnownLabels()) ==> KnownLabels()
    {
      AddOutWithin(edges, nodes, labels, src, resolved);
      AddAll(src, resolved);
      if isFinal {
        final := final + {src};
      }
      if isStart {
        start := start + {src};
      }
    }

    /** The loop of `add_edges`: `_add_edge(src, end, label)` for each resolved pair. */
    method AddAll(src: int, resolved: seq<(int, string)>)
      modifies this
      ensures edges == AddOut(old(edges), src, resolved)
      ensures nodes == old(nodes) + (if resolved == [] then {} else {src}) + Ends(resolved)
      ensures labels == old(labels) && kind == old(kind) && visited == old(visited) && final == old(final) && start == old(start)
    {
      for i := 0 to |resolved|
        invariant labels == old(labels) && kind == old(kind) && visited == old(visited)
        invariant final == old(final) && start == old(start)
        invariant edges == AddOut(old(edges), src, resolved[..i])
        invariant nodes == old(nodes) + (if i == 0 then {} else {src}) + Ends(resolved[..i])
      {
        assert resolved[..i + 1] == resolved[..i] + [resolved[i]];
        assert resolved[..i + 1][..i] == resolved[..i];
        assert Ends(resolved[..i + 1]) == Ends(resolved[..i]) + {resolved[i].0};
        AddEdge(src, resolved[i].0, resolved[i].1);
      }
      assert resolved[..|resolved|] == resolved;
    }

    /**
     * `complement()`: a new automaton over the same labels with the same
     * states, edges and starts, whose final states are the states that were
     * not final.  The source builds it with the default type, DFA, and with
     * no state defined.
     */
    method Complement() returns (w: Automaton)
      ensures fresh(w)
      ensures w.labels == labels && w.kind == DFA && w.visited == {}
      ensures w.nodes == nodes && w.edges == edges && w.start == start && w.final == nodes - final
      ensures Valid() ==> w.Valid()
      ensures KnownLabels() ==> w.KnownLabels()
    {
      w := new Automaton(labels, DFA);
      w.nodes := nodes;
      w.edges := edges;
      w.start := start;
      w.final := w.nodes - final;
    }

    /**
     * `_check_rank_group(rank_group)`: no grouping, or groups that hold as
     * many entries as there are states and, taken together, each of
     * `0 .. n-1` once.
     */
    method CheckRankGroup(groups: Option<seq<seq<int>>>) returns (r: Result<(), Error>)
      ensures r.Ok? <==> groups.None? || (|Flatten(groups.value)| == |nodes| && multiset(Flatten(groups.value)) == multiset(RangeSeq(|nodes|)))
      ensures r.Err? ==> r.error == InvalidRankGroup
    {
      if groups.None? {
        return Ok(());
      }
      var g := groups.value;
      var total := 0;
      for i := 0 to |g|
        invariant total == |Flatten(g[..i])|
      {
        assert g[..i + 1][..i] == g[..i];
        total := total + |g[i]|;
      }
      assert g[..|g|] == g;
      if total != |nodes| {
        return Err(InvalidRankGroup);
      }
      var flat: seq<int> := [];
      for i := 0 to |g|
        invariant flat == Flatten(g[..i])
      {
        assert g[..i + 1][..i] == g[..i];
        flat := flat + g[i];
      }
      // `sorted(flat) == list(range(len(flat)))` holds exactly when the two lists are permutations of each other.
      if multiset(flat) != multiset(RangeSeq(|flat|)) {
        return Err(InvalidRankGroup);
      }
      r := Ok(());
    }

    /** `_check_start()`: the one start state, or state 0 when there is none. */
    method CheckStart() returns (r: Result<int, Error>)
      ensures r.Ok? <==> |start| == 1 || (start == {} && 0 in nodes)
      ensures r.Ok? ==> (start == {} && r.value == 0) || start == {r.value}
      ensures r.Ok? ==> r.value == StartOf()
      ensures r.Err? ==> r.error == if |start| > 1 then MultipleStart else NoStart
    {
      if |start| > 1 {
        return Err(MultipleStart);
      }
      if |start| == 0 {
        if 0 !in nodes {
          return Err(NoStart);
        }
        return Ok(0);
      }
      // `list(self.start)[0]`
      var s := SomeMember(start);
      SingletonOf(start, s);
      r := Ok(s);
    }

    /** The state `_check_start` answers when it succeeds. */
    ghost function StartOf(): int
      reads this
      requires |start| <= 1
    {
      if start == {} then 0 else Element(start)
    }

    /** Which assertion of `to_dfa`, in the order it makes them, fails, if any. */
    ghost function DfaError(): Option<Error>
      reads this
    {
      if kind != NFA then Some(NotNfa)
      else if !IsRange(nodes) then Some(NodesNotRange)
      else if |start| > 1 then Some(MultipleStart)
      else if start == {} && 0 !in nodes then Some(NoStart)
      else if StartOf() < 0 then Some(NegativeShift)
      else if !KnownLabels() then Some(InvalidLabel)
      else None
    }

    /** `_make_edge_traverse()`: for each label and source state, the targets of its edges. */
    method MakeEdgeTraverse() returns (r: Result<Table, Error>)
      ensures r.Ok? <==> KnownLabels()
      ensures r.Err? ==> r.error == InvalidLabel
      ensures r.Ok? ==> forall l, q :: Lookup(r.value, l, q) == Post(edges, {q}, l)
    {
      var todo := LabelledEdges(edges);
      var t: Table := map[];
      while todo != {}
        invariant todo <= LabelledEdges(edges)
        invariant forall k, l :: k in edges && l in edges[k] && (k, l) !in todo ==> l in labels
        invariant TableOf(t, edges, todo)
        decreases todo
      {
        var e :| e in todo;
        var k, l := e.0, e.1;
        if l !in labels {
          assert k in edges && l in edges[k];
          return Err(InvalidLabel);
        }
        TablePush(t, edges, todo, k, l);
        t := Insert(t, l, k.0, k.1);
        todo := todo - {e};
      }
      TableDone(t, edges);
      r := Ok(t);
    }

    /** The `dests` loop of `to_dfa`. */
    method Dests(n: nat, t: Table, cur: nat) returns (dests: seq<Target>)
      requires TargetsBelow(edges, n)
      requires forall l, q :: Lookup(t, l, q) == Post(edges, {q}, l)
      ensures dests == DestList(edges, n, labels, cur)
    {
      dests := [];
      for i := 0 to |labels|
        invariant dests == DestList(edges, n, labels[..i], cur)
      {
        var l := labels[i];
        assert labels[..i + 1][..i] == labels[..i];
        var m := Successor(edges, n, t, cur, l);
        if m != 0 {
          dests := dests + [Labelled(m, l)];
        }
      }
      assert labels[..|labels|] == labels;
    }

    /**
     * `add_edges(cur, *dests, final=is_final)` on the subset automaton for
     * a state it has not defined, with targets that all carry a known label.
     */
    method DefineLabelled(src: int, dests: seq<Target>, isFinal: bool) returns (ghost res: seq<(int, string)>)
      requires src !in visited && forall t :: t in dests ==> t.Labelled? && t.text in labels
      requires nodes == Endpoints(edges)
      modifies this
      ensures labels == old(labels) && kind == old(kind) && start == old(start) && visited == old(visited) + {src}
      ensures forall p :: p in res <==> Labelled(p.0, p.1) in dests
      ensures edges == AddOut(old(edges), src, res)
      ensures final == old(final) + (if isFinal then {src} else {})
      ensures nodes == Endpoints(edges)
    {
      ResolvedLabelled(labels, kind, dests);
      res := Resolved(labels, kind, dests);
      EndpointsAddOut(edges, src, res);
      var r := AddEdges(src, dests, false, isFinal);
      assert r.Ok? && res == Resolved(labels, kind, dests);
    }

    /**
     * One turn of the `to_dfa` loop on an unvisited `cur` taken from the
     * front of the queue: define it in `d` with its steps, then queue the
     * steps not yet visited.
     */
    method Expand(d: Automaton, n: nat, t: Table, finalFlag: nat, ghost s: nat, ghost bound: nat,
                  cur: nat, visit: set<int>, rest: seq<int>) returns (queue: seq<int>)
      requires d != this && TargetsBelow(edges, n)
      requires forall l, q :: Lookup(t, l, q) == Post(edges, {q}, l)
      requires finalFlag == Mask(final, n) && Pow2(n) <= bound
      requires d.labels == labels && d.kind == DFA && d.visited == visit && cur !in visit
      requires Exploring(edges, n, labels, final, s, bound, d.edges, d.final, visit, [cur] + rest)
      requires d.nodes == Endpoints(d.edges)
      modifies d
      ensures d.labels == labels && d.kind == DFA && d.start == old(d.start) && d.visited == visit + {cur}
      ensures Exploring(edges, n, labels, final, s, bound, d.edges, d.final, visit + {cur}, queue)
      ensures d.nodes == Endpoints(d.edges)
    {
      assert forall x :: x in rest ==> x in [cur] + rest;
      var isFinal := BitAnd(cur, finalFlag) != 0;
      var dests := Dests(n, t, cur);
      DestListMembers(edges, n, labels, cur);
      forall u | u in dests
        ensures 0 <= u.end < bound
      {
        MaskBound(Post(edges, Members(cur, n), u.text), n);
      }
      ghost var oldEdges, oldFinal := d.edges, d.final;
      ghost var res := d.DefineLabelled(cur, dests, isFinal);
      queue := Enqueue(dests, visit + {cur}, rest, bound);
      ExploreStep(edges, n, labels, final, s, bound, oldEdges, oldFinal, visit, cur, rest, res, dests, queue);
    }
    /**
     * `to_dfa()`: the subset construction of this NFA, explored breadth
     * first from the start state, or the first assertion that fails.
     */
    method ToDfa() returns (r: Result<Automaton, Error>)
      requires Valid()
      ensures r.Ok? <==> DfaError().None?
      ensures r.Err? ==> DfaError() == Some(r.error)
      ensures r.Ok? ==>
        && DfaError().None? && fresh(r.value)
        && r.value.labels == labels && r.value.kind == DFA
        && r.value.start == {Pow2(StartOf())}
        && PowersetOf(edges, |nodes|, labels, final, StartOf(), r.value.edges, r.value.visited, r.value.final)
        && r.value.nodes == Endpoints(r.value.edges) && r.value.Valid()
    {
      if kind != NFA {
        return Err(NotNfa);
      }
      var n := |nodes|;
      // `sorted(list(self.nodes)) == list(range(len(self.nodes)))`
      var inRange := forall j :: j in nodes ==> 0 <= j < n;
      if !inRange {
        return Err(NodesNotRange);
      }
      RangeOfSize(nodes);
      var s :- CheckStart();
      if s < 0 {
        return Err(NegativeShift);
      }
      var t :- MakeEdgeTraverse();
      assert TargetsBelow(edges, n);
      var d := Explore(n, t, s);
      r := Ok(d);
    }

    /** The breadth-first loop of `to_dfa` from the subset state `1 << s`. */
    method Explore(n: nat, t: Table, s: nat) returns (d: Automaton)
      requires TargetsBelow(edges, n)
      requires forall l, q :: Lookup(t, l, q) == Post(edges, {q}, l)
      ensures fresh(d) && d.labels == labels && d.kind == DFA && d.start == {Pow2(s)}
      ensures PowersetOf(edges, n, labels, final, s, d.edges, d.visited, d.final)
      ensures d.nodes == Endpoints(d.edges)
    {
      d := new Automaton(labels, DFA);
      var s0 := Pow2(s);
      d.start := {s0};
      var queue := [s0];
      ReachedStart(edges, n, labels, s);
      var visit: set<int> := {};
      var finalFlag := Mask(final, n);
      ghost var bound := Pow2(n) + s0;
      while queue != []
        invariant fresh(d) && d.labels == labels && d.kind == DFA && d.start == {s0} && d.visited == visit
        invariant Exploring(edges, n, labels, final, s, bound, d.edges, d.final, visit, queue)
        invariant d.nodes == Endpoints(d.edges)
        decreases Unvisited(bound, visit), |queue|
      {
        var cur := queue[0];
        var rest := queue[1..];
        assert queue == [cur] + rest;
        assert forall x :: x in rest ==> x in queue;
        assert cur in queue;
        if cur in visit {
          queue := rest;
        } else {
          UnvisitedShrinks(bound, visit, cur);
          queue := Expand(d, n, t, finalFlag, s, bound, cur, visit, rest);
          visit := visit + {cur};
        }
      }
    }
  }

  /** Some member of a non-empty set. */
  ghost function Element<T>(s: set<T>): (x: T)
    requires s != {}
    ensures x in s
  {
    var x :| x in s; x
  }

  /** The states `0 .. n-1` that a set in that range and of that size must be. */
  lemma RangeOfSize(nodes: set<int>)
    requires forall j :: j in nodes ==> 0 <= j < |nodes|
    ensures IsRange(nodes)
  {
    var r := RangeSet(|nodes|);
    assert nodes <= r;
    assert r == nodes + (r - nodes);
    assert |r - nodes| == 0;
  }

  /** `set(range(n))`. */
  function RangeSet(n: nat): (r: set<int>)
    ensures |r| == n && forall j :: j in r <==> 0 <= j < n
  {
    if n == 0 then {} else RangeSet(n - 1) + {n - 1}
  }

  /** A member of a non-empty set. */
  method SomeMember<T>(s: set<T>) returns (x: T)
    requires s != {}
    ensures x in s
  {
    x :| x in s;
  }

  lemma SingletonOf<T>(s: set<T>, x: T)
    requires |s| == 1 && x in s
    ensures s == {x}
  {
    assert |s - {x}| == 0;
  }
}

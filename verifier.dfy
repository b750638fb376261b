/**
 * The product of a transition system with a Büchi automaton, and the
 * nested depth-first search of csrc/cpp/verifier.cpp.
 *
 * A product state pairs a transition-system state with an automaton
 * state; the pseudo-state `entry_pos` stands before the initial states of
 * the transition system.  From `(s, q)` the product moves to `(t, q')`
 * when `t` is a successor of `s` (an initial state, from the entry) and
 * the automaton reads the label of `t` from `q` into `q'`.  The outer
 * search visits everything reachable; each state it finishes is handed to
 * `cycle_check`, which searches afresh for a way back to it.  The
 * specifications are `Reach` and `AcceptingCycle`; `can_run` is proved to
 * say exactly whether an accepting cycle is reachable, and `verifyLTL`
 * answers the negation of that for the automaton of the negated formula.
 */
module Verifier {
  import opened Wrappers
  import opened Formulas
  import opened FixedBitset
  import opened LtlTree
  import opened Collector
  import opened Gnba
  import opened Nba
  import opened ElementarySets

  /** `entry_pos`: `size_t(-1)`, past every real state. */
  const EntryPos: nat := 0xFFFF_FFFF_FFFF_FFFF

  /** The transition system as the search reads it: initial states, successor sets and state labels. */
  datatype TsView = TsView(
    numStates: nat,
    numAtomics: nat,
    initialSet: Bitset,
    transitions: seq<Bitset>,
    atomics: seq<Bitset>)

  /** `ProductSystem::State`. */
  datatype State = State(idxTs: nat, idxNba: nat)

  predicate WfTs(ts: TsView) {
    && Valid(ts.initialSet) && ts.initialSet.length == ts.numStates
    && |ts.transitions| == ts.numStates && |ts.atomics| == ts.numStates
    && forall t :: 0 <= t < ts.numStates ==>
         && Valid(ts.transitions[t]) && ts.transitions[t].length == ts.numStates
         && Valid(ts.atomics[t]) && ts.atomics[t].length == ts.numAtomics
  }

  /** An automaton over the propositions of the system, one edge map and one bit per state. */
  predicate WfNbaFor(nba: NbaResult, numAtomics: nat) {
    var a := nba.automa;
    && Shaped(a) && Validate(a) && |a.transitions| == a.numStates
    && a.initialStates.length == a.numStates
    && Valid(nba.finalStates) && nba.finalStates.length == a.numStates
    && a.usedApMask.length == numAtomics
  }

  predicate Wf(ts: TsView, nba: NbaResult) {
    WfTs(ts) && WfNbaFor(nba, ts.numAtomics)
  }

  /** `accept(nba, idx, AP)`: the targets of the edge whose trigger is the label restricted to the used propositions. */
  function Accept(nba: NbaResult, idx: nat, ap: Bitset): (r: Option<Bitset>)
    requires Shaped(nba.automa) && idx < |nba.automa.transitions|
    requires Valid(ap) && ap.length == nba.automa.usedApMask.length
    ensures r.Some? ==> Valid(r.value)
  {
    var key := And(ap, nba.automa.usedApMask);
    if key in nba.automa.transitions[idx] then Some(nba.automa.transitions[idx][key]) else None
  }

  /** Labels that differ only in propositions the formula does not use are read alike. */
  lemma AcceptIgnoresUnused(nba: NbaResult, idx: nat, ap: Bitset, ap': Bitset)
    requires Shaped(nba.automa) && idx < |nba.automa.transitions|
    requires Valid(ap) && ap.length == nba.automa.usedApMask.length
    requires Valid(ap') && ap'.length == ap.length
    requires forall p :: 0 <= p < ap.length && Test(nba.automa.usedApMask, p) ==> Test(ap, p) == Test(ap', p)
    ensures Accept(nba, idx, ap) == Accept(nba, idx, ap')
  {
    var mask := nba.automa.usedApMask;
    EqualIffSameBits(And(ap, mask), And(ap', mask));
  }

  predicate ValidState(ts: TsView, nba: NbaResult, s: State) {
    (s.idxTs == EntryPos || s.idxTs < ts.numStates) && s.idxNba < nba.automa.numStates
  }

  /** The `range` of `for_each_post`: the initial states from the entry, the successors otherwise. */
  function Range(ts: TsView, nba: NbaResult, s: State): (r: Bitset)
    requires Wf(ts, nba) && ValidState(ts, nba, s)
    ensures Valid(r) && r.length == ts.numStates
  {
    if s.idxTs == EntryPos then ts.initialSet else ts.transitions[s.idxTs]
  }

  /** The successor relation `for_each_post` enumerates. */
  predicate Succ(ts: TsView, nba: NbaResult, s: State, s': State)
    requires Wf(ts, nba)
  {
    && ValidState(ts, nba, s) && s'.idxTs < ts.numStates && Test(Range(ts, nba, s), s'.idxTs)
    && var acc := Accept(nba, s.idxNba, ts.atomics[s'.idxTs]);
       acc.Some? && s'.idxNba < acc.value.length && Test(acc.value, s'.idxNba)
  }

  function TargetStates(t: nat, qs: seq<nat>): (r: seq<State>)
    ensures |r| == |qs| && forall k :: 0 <= k < |qs| ==> r[k] == State(t, qs[k])
  {
    seq(|qs|, k requires 0 <= k < |qs| => State(t, qs[k]))
  }

  /** The states `for_each_post` yields for the system states `ts` in order. */
  function PostOf(ts: TsView, nba: NbaResult, s: State, states: seq<nat>): seq<State>
    requires Wf(ts, nba) && ValidState(ts, nba, s)
    requires forall k :: 0 <= k < |states| ==> states[k] < ts.numStates
  {
    if |states| == 0 then []
    else
      var t := states[0];
      var acc := Accept(nba, s.idxNba, ts.atomics[t]);
      (if acc.Some? then TargetStates(t, Indices(acc.value)) else []) + PostOf(ts, nba, s, states[1..])
  }

  /** The successors of `s` in the order of the nested loops of `for_each_post`. */
  function Post(ts: TsView, nba: NbaResult, s: State): seq<State>
    requires Wf(ts, nba) && ValidState(ts, nba, s)
  {
    var states := Indices(Range(ts, nba, s));
    IndicesSpec(Range(ts, nba, s));
    assert forall k :: 0 <= k < |states| ==> states[k] in states;
    PostOf(ts, nba, s, states)
  }

  lemma TargetStatesMeaning(t: nat, qs: seq<nat>, y: State)
    ensures y in TargetStates(t, qs) <==> y.idxTs == t && y.idxNba in qs
  {
    if y.idxTs == t && y.idxNba in qs {
      var k :| 0 <= k < |qs| && qs[k] == y.idxNba;
      assert TargetStates(t, qs)[k] == y;
    }
  }

  lemma {:induction false} PostOfMeaning(ts: TsView, nba: NbaResult, s: State, states: seq<nat>, y: State)
    requires Wf(ts, nba) && ValidState(ts, nba, s)
    requires forall k :: 0 <= k < |states| ==> states[k] < ts.numStates
    ensures y in PostOf(ts, nba, s, states) <==>
      && y.idxTs in states
      && var acc := Accept(nba, s.idxNba, ts.atomics[y.idxTs]);
         acc.Some? && y.idxNba < acc.value.length && Test(acc.value, y.idxNba)
  {
    if |states| > 0 {
      PostOfMeaning(ts, nba, s, states[1..], y);
      var t := states[0];
      var acc := Accept(nba, s.idxNba, ts.atomics[t]);
      if acc.Some? {
        IndicesSpec(acc.value);
        TargetStatesMeaning(t, Indices(acc.value), y);
      }
      assert y.idxTs in states <==> y.idxTs == t || y.idxTs in states[1..];
    }
  }

  /** `Post` lists exactly the successors. */
  lemma PostMeaning(ts: TsView, nba: NbaResult, s: State)
    requires Wf(ts, nba) && ValidState(ts, nba, s)
    ensures forall y :: y in Post(ts, nba, s) <==> Succ(ts, nba, s, y)
  {
    var states := Indices(Range(ts, nba, s));
    IndicesSpec(Range(ts, nba, s));
    assert forall k :: 0 <= k < |states| ==> states[k] in states;
    forall y ensures y in Post(ts, nba, s) <==> Succ(ts, nba, s, y) {
      PostOfMeaning(ts, nba, s, Indices(Range(ts, nba, s)), y);
    }
  }


  // ---------------------------------------------------------------------------
  // The product graph and reachability

  /** A graph on product states: each state mapped to its successors, which are states of the graph. */
  ghost predicate GraphOk(g: map<State, set<State>>) {
    forall s :: s in g ==> g[s] <= g.Keys
  }

  /** The finite set of product states. */
  ghost function Universe(ts: TsView, nba: NbaResult): set<State> {
    (set t: nat, q: nat | t < ts.numStates && q < nba.automa.numStates :: State(t, q)) +
    (set q: nat | q < nba.automa.numStates :: State(EntryPos, q))
  }

  lemma UniverseValid(ts: TsView, nba: NbaResult)
    ensures forall s :: s in Universe(ts, nba) <==> ValidState(ts, nba, s)
  {
    forall s | ValidState(ts, nba, s) ensures s in Universe(ts, nba) {
      if s.idxTs == EntryPos {
        assert s == State(EntryPos, s.idxNba);
      } else {
        assert s == State(s.idxTs, s.idxNba);
      }
    }
  }

  /** The product graph: every product state, mapped to the states `Succ` relates it to. */
  ghost function Graph(ts: TsView, nba: NbaResult): (g: map<State, set<State>>)
    requires Wf(ts, nba)
    ensures GraphOk(g)
    ensures forall s :: s in g <==> ValidState(ts, nba, s)
    ensures forall s, y :: s in g ==> (y in g[s] <==> Succ(ts, nba, s, y))
  {
    var u := Universe(ts, nba);
    UniverseValid(ts, nba);
    map s | s in u :: set y | y in u && Succ(ts, nba, s, y)
  }

  /** `b` is reached from `a` in exactly `k` steps of `g`. */
  ghost predicate ReachIn(g: map<State, set<State>>, a: State, b: State, k: nat)
    decreases k
  {
    if k == 0 then a == b else a in g && exists c :: c in g[a] && ReachIn(g, c, b, k - 1)
  }

  ghost predicate Reach(g: map<State, set<State>>, a: State, b: State) {
    exists k :: ReachIn(g, a, b, k)
  }

  /** A real product state with a final automaton state from which `g` returns to it. */
  ghost predicate Accepting(final: Bitset, g: map<State, set<State>>, s: State) {
    && s.idxTs != EntryPos && Valid(final) && s.idxNba < final.length && Test(final, s.idxNba)
    && exists k :: 0 < k && ReachIn(g, s, s, k)
  }

  /** The product has a run visiting an accepting state infinitely often: an accepting cycle reachable from the entry. */
  ghost predicate HasAcceptingRun(ts: TsView, nba: NbaResult)
    requires Wf(ts, nba)
  {
    var g := Graph(ts, nba);
    exists i, s :: 0 <= i < nba.automa.numStates && Test(nba.automa.initialStates, i)
      && Reach(g, State(EntryPos, i), s) && Accepting(nba.finalStates, g, s)
  }

  lemma {:induction false} ReachAppend(g: map<State, set<State>>, a: State, b: State, c: State, k: nat)
    requires ReachIn(g, a, b, k) && b in g && c in g[b]
    ensures ReachIn(g, a, c, k + 1)
    decreases k
  {
    if k > 0 {
      var d :| d in g[a] && ReachIn(g, d, b, k - 1);
      ReachAppend(g, d, b, c, k - 1);
    }
  }

  /** The successors of the members of `t` are members. */
  ghost predicate Closed(g: map<State, set<State>>, t: set<State>) {
    forall x, y :: x in t && x in g && y in g[x] ==> y in t
  }

  /** A closed set holds everything reachable from its members. */
  lemma {:induction false} ClosedReach(g: map<State, set<State>>, t: set<State>, a: State, b: State, k: nat)
    requires Closed(g, t) && a in t && ReachIn(g, a, b, k)
    ensures b in t
    decreases k
  {
    if k > 0 {
      var c :| c in g[a] && ReachIn(g, c, b, k - 1);
      ClosedReach(g, t, c, b, k - 1);
    }
  }

  /** From a closed set none of whose members steps to `start`, no non-empty path reaches `start`. */
  lemma {:induction false} NoReturn(g: map<State, set<State>>, t: set<State>, start: State, a: State, k: nat)
    requires Closed(g, t) && a in t && 0 < k
    requires forall x, y :: x in t && x in g && y in g[x] ==> y != start
    ensures !ReachIn(g, a, start, k)
    decreases k
  {
    if ReachIn(g, a, start, k) {
      var c :| c in g[a] && ReachIn(g, c, start, k - 1);
      if k > 1 {
        NoReturn(g, t, start, c, k - 1);
      }
    }
  }

  lemma {:induction false} SubsetCard<T>(a: set<T>, b: set<T>)
    requires a <= b
    ensures |a| <= |b|
    decreases |b|
  {
    if a != {} {
      var x :| x in a;
      SubsetCard(a - {x}, b - {x});
    }
  }

  /** Visiting more states of `u` shrinks what is left to visit. */
  lemma GrowShrinks<T>(u: set<T>, a: set<T>, b: set<T>)
    requires a <= b <= u && a != b
    ensures |u - b| < |u - a|
  {
    assert !(b <= a);
    var x :| x in b && x !in a;
    SubsetCard(u - b, (u - a) - {x});
  }

  // ---------------------------------------------------------------------------
  // The state of a depth-first search

  /** A search from `start`: visited set `T` and a duplicate-free stack `V` of visited states reachable from `start`. */
  ghost predicate Searching(g: map<State, set<State>>, start: State, T: set<State>, V: seq<State>) {
    && T <= g.Keys
    && (forall k :: 0 <= k < |V| ==> V[k] in T && Reach(g, start, V[k]))
    && (forall k, l :: 0 <= k < l < |V| ==> V[k] != V[l])
  }

  /** Every visited state off the stack has all its successors visited. */
  ghost predicate FinishedClosed(g: map<State, set<State>>, t: set<State>, stack: seq<State>) {
    forall x, y :: x in t && x !in stack && x in g && y in g[x] ==> y in t
  }

  /** No visited state off the stack steps to `start`. */
  ghost predicate FinishedAvoid(g: map<State, set<State>>, t: set<State>, stack: seq<State>, start: State) {
    forall x, y :: x in t && x !in stack && x in g && y in g[x] ==> y != start
  }

  /** No visited state off the stack lies on an accepting cycle. */
  ghost predicate FinishedSafe(bad: set<State>, t: set<State>, stack: seq<State>) {
    forall x :: x in t && x !in stack ==> x !in bad
  }

  /** Visiting new states and pushing them keeps what is finished finished. */
  lemma GrowFinished(g: map<State, set<State>>, bad: set<State>, t: set<State>, stack: seq<State>,
                     t': set<State>, stack': seq<State>, start: State)
    requires t <= t' && stack <= stack'
    requires forall x :: x in t' && x !in t ==> x in stack'
    ensures FinishedClosed(g, t, stack) ==> FinishedClosed(g, t', stack')
    ensures FinishedAvoid(g, t, stack, start) ==> FinishedAvoid(g, t', stack', start)
    ensures FinishedSafe(bad, t, stack) ==> FinishedSafe(bad, t', stack')
  {

  }

  /** Popping the top `cur` of a duplicate-free stack finishes `cur`. */
  lemma PopFinished(g: map<State, set<State>>, bad: set<State>, t: set<State>, stack: seq<State>, start: State)
    requires |stack| > 0
    requires forall k, l :: 0 <= k < l < |stack| ==> stack[k] != stack[l]
    ensures var cur, pop := stack[|stack| - 1], stack[..|stack| - 1];
      && (FinishedClosed(g, t, stack) && (cur in g ==> g[cur] <= t) ==> FinishedClosed(g, t, pop))
      && (FinishedAvoid(g, t, stack, start) && (cur in g ==> start !in g[cur]) ==> FinishedAvoid(g, t, pop, start))
      && (FinishedSafe(bad, t, stack) && cur !in bad ==> FinishedSafe(bad, t, pop))
  {
    assert stack == stack[..|stack| - 1] + [stack[|stack| - 1]];
  }

  /**
   * The loop of `cycle_check` over the successors `post` of the top `cur`
   * of the stack: `back` when one of them is `start`, otherwise every
   * successor is visited and the new ones are pushed.
   */
  method CyclePost(ghost g: map<State, set<State>>, start: State, ghost k0: nat, cur: State, post: seq<State>,
                   T: set<State>, V: seq<State>)
    returns (back: bool, T': set<State>, V': seq<State>)
    requires GraphOk(g) && cur in g && ReachIn(g, start, cur, k0)
    requires forall y :: y in post <==> y in g[cur]
    requires Searching(g, start, T, V)
    ensures back ==> ReachIn(g, start, start, k0 + 1)
    ensures !back ==> Searching(g, start, T', V') && T <= T' && V <= V' && (T' == T ==> V' == V)
    ensures !back ==> forall x :: x in T' && x !in T ==> x in V'
    ensures !back ==> g[cur] <= T' && start !in g[cur]
  {
    T', V' := T, V;
    for i := 0 to |post|
      invariant Searching(g, start, T', V') && T <= T' && V <= V' && (T' == T ==> V' == V)
      invariant forall x :: x in T' && x !in T ==> x in V'
      invariant forall j :: 0 <= j < i ==> post[j] in T' && post[j] != start
    {
      var s := post[i];
      ReachAppend(g, start, cur, s, k0);
      if s == start {
        return true, T', V';
      }
      if s !in T' {
        T' := T' + {s};
        V' := V' + [s];
      }
    }
    back := false;
  }

  /** The state of `cycle_check(start)` at the head of its loop. */
  ghost predicate CycleSearching(g: map<State, set<State>>, start: State, T: set<State>, V: seq<State>) {
    && Searching(g, start, T, V) && start in T
    && FinishedClosed(g, T, V) && FinishedAvoid(g, T, V, start)
  }

  /**
   * One round of the loop of `cycle_check`, given the successors `post` of
   * the top `cur` of the stack: explore from `cur`, or pop it when it is
   * finished.
   */
  method CycleRound(ghost g: map<State, set<State>>, start: State, cur: State, post: seq<State>,
                    T: set<State>, V: seq<State>)
    returns (back: bool, T': set<State>, V': seq<State>)
    requires GraphOk(g) && CycleSearching(g, start, T, V) && |V| > 0 && cur == V[|V| - 1]
    requires forall y :: y in post <==> y in g[cur]
    ensures back ==> exists k :: 0 < k && ReachIn(g, start, start, k)
    ensures !back ==> CycleSearching(g, start, T', V')
    ensures !back ==> |g.Keys - T'| < |g.Keys - T| || (T' == T && |V'| < |V|)
  {
    ghost var k0 :| ReachIn(g, start, cur, k0);
    var found, T1, V1 := CyclePost(g, start, k0, cur, post, T, V);
    if found {
      return true, T, V;
    }
    back := false;
    if T1 != T {
      GrowShrinks(g.Keys, T, T1);
      GrowFinished(g, {}, T, V, T1, V1, start);
      T', V' := T1, V1;
    } else {
      PopFinished(g, {}, T, V, start);
      T', V' := T, V[..|V| - 1];
    }
  }

  /** The outer search from `input`: the stack reachable, everything off it finished and on no accepting cycle. */
  ghost predicate Explored(g: map<State, set<State>>, bad: set<State>, input: State, R: set<State>, U: seq<State>) {
    input in R && Searching(g, input, R, U) && FinishedClosed(g, R, U) && FinishedSafe(bad, R, U)
  }

  /**
   * The loop of `reachable_cycle` over the successors `post` of the top
   * `cur` of the stack: visit and push the unvisited ones; `grew` when
   * there were any.
   */
  method ReachPost(ghost g: map<State, set<State>>, ghost bad: set<State>, input: State, cur: State,
                   post: seq<State>, R: set<State>, U: seq<State>)
    returns (grew: bool, R': set<State>, U': seq<State>)
    requires GraphOk(g) && |U| > 0 && cur == U[|U| - 1] && cur in g
    requires forall y :: y in post <==> y in g[cur]
    requires Explored(g, bad, input, R, U)
    ensures R <= R'
    ensures grew ==> Explored(g, bad, input, R', U') && |g.Keys - R'| < |g.Keys - R|
    ensures !grew ==> R' == R && U' == U && g[cur] <= R
  {
    ghost var k0 :| ReachIn(g, input, cur, k0);
    R', U' := VisitPost(g, input, k0, cur, post, R, U);
    grew := R' != R;
    if grew {
      GrowExplored(g, bad, input, R, U, R', U');
    }
  }

  /** Visit and push every unvisited state of `post`, the successors of `cur`. */
  method VisitPost(ghost g: map<State, set<State>>, start: State, ghost k0: nat, cur: State, post: seq<State>,
                   T: set<State>, V: seq<State>)
    returns (T': set<State>, V': seq<State>)
    requires GraphOk(g) && cur in g && ReachIn(g, start, cur, k0)
    requires forall y :: y in post <==> y in g[cur]
    requires Searching(g, start, T, V)
    ensures Searching(g, start, T', V') && T <= T' && V <= V' && (T' == T ==> V' == V)
    ensures forall x :: x in T' && x !in T ==> x in V'
    ensures g[cur] <= T'
  {
    T', V' := T, V;
    for i := 0 to |post|
      invariant Searching(g, start, T', V') && T <= T' && V <= V' && (T' == T ==> V' == V)
      invariant forall x :: x in T' && x !in T ==> x in V'
      invariant forall j :: 0 <= j < i ==> post[j] in T'
    {
      var s := post[i];
      if s !in T' {
        ReachAppend(g, start, cur, s, k0);
        T' := T' + {s};
        V' := V' + [s];
      }
    }
  }

  /** Visiting and pushing new states keeps the outer search sound and leaves fewer states to visit. */
  lemma GrowExplored(g: map<State, set<State>>, bad: set<State>, input: State,
                     R: set<State>, U: seq<State>, R': set<State>, U': seq<State>)
    requires Explored(g, bad, input, R, U) && Searching(g, input, R', U')
    requires R <= R' && U <= U' && R != R'
    requires forall x :: x in R' && x !in R ==> x in U'
    ensures Explored(g, bad, input, R', U') && |g.Keys - R'| < |g.Keys - R|
  {
    GrowShrinks(g.Keys, R, R');
    GrowFinished(g, bad, R, U, R', U', input);
  }

  /** Popping a finished top that lies on no accepting cycle keeps the outer search sound. */
  lemma PopExplored(g: map<State, set<State>>, bad: set<State>, input: State, R: set<State>, U: seq<State>)
    requires Explored(g, bad, input, R, U) && |U| > 0
    requires U[|U| - 1] in g ==> g[U[|U| - 1]] <= R
    requires U[|U| - 1] !in bad
    ensures Explored(g, bad, input, R, U[..|U| - 1])
  {
    PopFinished(g, bad, R, U, input);
  }

  /** The states of `g` that lie on an accepting cycle. */
  ghost function AcceptingStates(final: Bitset, g: map<State, set<State>>): (bad: set<State>)
    ensures forall s :: s in bad <==> s in g && Accepting(final, g, s)
  {
    set s | s in g.Keys && Accepting(final, g, s)
  }

  /** Starting an outer search from `input` on top of a closed, safe visited set. */
  lemma ExploredStart(g: map<State, set<State>>, final: Bitset, input: State, R: set<State>)
    requires input in g && R <= g.Keys && Closed(g, R)
    requires forall x :: x in R ==> !Accepting(final, g, x)
    ensures Explored(g, AcceptingStates(final, g), input, R + {input}, [input])
  {
    assert ReachIn(g, input, input, 0);
  }

  /** An outer search that emptied its stack leaves a closed, safe visited set holding all reachable states. */
  lemma ExploredDone(g: map<State, set<State>>, final: Bitset, input: State, R: set<State>)
    requires Explored(g, AcceptingStates(final, g), input, R, [])
    ensures R <= g.Keys && Closed(g, R)
    ensures forall x :: x in R ==> !Accepting(final, g, x)
    ensures forall s :: Reach(g, input, s) ==> !Accepting(final, g, s)
  {
    forall s | Reach(g, input, s) ensures !Accepting(final, g, s) {
      var k :| ReachIn(g, input, s, k);
      ClosedReach(g, R, input, s, k);
    }
  }

  // ---------------------------------------------------------------------------
  // The search

  class ProductSystem {
    const ts: TsView
    const nba: NbaResult
    /** The product graph the search explores. */
    ghost const graph: map<State, set<State>>
    /** Visited states of the outer search. */
    var R: set<State>
    /** The stack of the outer search, top last. */
    var U: seq<State>

    /** The product is well formed and `graph` is its product graph. */
    ghost predicate Ready() {
      Wf(ts, nba) && graph == Graph(ts, nba)
    }

    /**
     * Between two outer searches: the stack is empty, and the visited
     * states are closed under successors and lie on no accepting cycle.
     */
    ghost predicate Valid()
      reads this
    {
      && Ready() && U == []
      && R <= graph.Keys && Closed(graph, R)
      && forall x :: x in R ==> !Accepting(nba.finalStates, graph, x)
    }

    constructor(ts: TsView, nba: NbaResult)
      requires Wf(ts, nba)
      ensures Valid() && this.ts == ts && this.nba == nba && R == {}
    {
      this.ts := ts;
      this.nba := nba;
      graph := Graph(ts, nba);
      R := {};
      U := [];
    }

    /** `for_each_post(cur)` yields the successors of `cur` in `graph`. */
    lemma PostInGraph(cur: State)
      requires Ready() && cur in graph
      ensures forall y :: y in Post(ts, nba, cur) <==> y in graph[cur]
    {
      PostMeaning(ts, nba, cur);
    }

    /** `cycle_check(start)`: `start` is final and the product can return to it. */
    method CycleCheck(start: State) returns (b: bool)
      requires Ready() && start in graph
      ensures b == Accepting(nba.finalStates, graph, start)
    {
      if start.idxTs == EntryPos || !Test(nba.finalStates, start.idxNba) {
        return false;
      }
      var T := {start};
      var V := [start];
      assert ReachIn(graph, start, start, 0);
      while |V| > 0
        invariant Ready() && CycleSearching(graph, start, T, V)
        decreases |graph.Keys - T|, |V|
      {
        var cur := V[|V| - 1];
        var post := Post(ts, nba, cur);
        PostInGraph(cur);
        var back;
        back, T, V := CycleRound(graph, start, cur, post, T, V);
        if back {
          return true;
        }
      }
      forall k | 0 < k ensures !ReachIn(graph, start, start, k) {
        NoReturn(graph, T, start, start, k);
      }
      return false;
    }

    /** `reachable_cycle(input)`: search everything reachable from `input` that is not yet visited. */
    method ReachableCycle(input: State) returns (b: bool)
      requires Valid() && input in graph
      modifies this
      ensures old(R) <= R
      ensures b ==> exists s :: Reach(graph, input, s) && Accepting(nba.finalStates, graph, s)
      ensures !b ==> Valid() && input in R
      ensures !b ==> forall s :: Reach(graph, input, s) ==> !Accepting(nba.finalStates, graph, s)
    {
      ghost var bad := AcceptingStates(nba.finalStates, graph);
      ExploredStart(graph, nba.finalStates, input, R);
      var visited, stack := R + {input}, U + [input];
      while |stack| > 0
        invariant Ready() && Explored(graph, bad, input, visited, stack)
        invariant R == old(R) && U == old(U) && R <= visited
        decreases |graph.Keys - visited|, |stack|
      {
        var cur := stack[|stack| - 1];
        var post := Post(ts, nba, cur);
        PostInGraph(cur);
        var grew;
        grew, visited, stack := ReachPost(graph, bad, input, cur, post, visited, stack);
        if !grew {
          var found := CycleCheck(cur);
          if found {
            assert Reach(graph, input, stack[|stack| - 1]);
            R, U := visited, stack[..|stack| - 1];
            return true;
          }
          assert cur == stack[|stack| - 1] && graph[cur] <= visited;
          assert !Accepting(nba.finalStates, graph, cur);
          assert cur !in bad;
          PopExplored(graph, bad, input, visited, stack);
          stack := stack[..|stack| - 1];
        }
      }
      ExploredDone(graph, nba.finalStates, input, visited);
      R, U := visited, stack;
      return false;
    }
  }

  /** `can_run(ts, nba)`: one outer search per initial automaton state, sharing the visited set. */
  method CanRun(ts: TsView, nba: NbaResult) returns (b: bool)
    requires Wf(ts, nba)
    ensures b <==> HasAcceptingRun(ts, nba)
  {
    ghost var g := Graph(ts, nba);
    var system := new ProductSystem(ts, nba);
    var starts := Indices(nba.automa.initialStates);
    IndicesSpec(nba.automa.initialStates);
    for k := 0 to |starts|
      invariant system.Valid() && system.ts == ts && system.nba == nba && system.graph == g
      invariant forall k', s :: 0 <= k' < k && Reach(g, State(EntryPos, starts[k']), s) ==> !Accepting(nba.finalStates, g, s)
    {
      var i := starts[k];
      assert i in starts;
      var found := system.ReachableCycle(State(EntryPos, i));
      if found {
        return true;
      }
    }
    forall i, s | 0 <= i < nba.automa.numStates && Test(nba.automa.initialStates, i) && Reach(g, State(EntryPos, i), s)
      ensures !Accepting(nba.finalStates, g, s)
    {
      var k' :| 0 <= k' < |starts| && starts[k'] == i;
    }
    return false;
  }

  /**
   * `verifyLTL(node, ts)`: the generalised automaton of the negated formula
   * is built and degeneralised, and the formula holds on every run of the
   * system exactly when that automaton has no accepting run in the product.
   * `None` exactly where building or degeneralising the automaton stops.
   */
  method VerifyLtl(node: Node, ts: TsView)
    returns (r: Option<bool>, formulas: seq<Formula>, root: Fid, indices: seq<nat>, sets: seq<Bitset>,
             gnba: Option<GnbaResult>, nba: Option<NbaResult>)
    requires WfTs(ts) && AtomsBelow(node, ts.numAtomics) && ts.numAtomics < Width
    requires ts.numAtomics + Count(node) < Int64Max
    ensures ts.numAtomics > 0 ==> Collected(node, ts.numAtomics, true, formulas, root)
    ensures gnba.None? <==> ts.numAtomics == 0 || |formulas| > Width || |indices| >= 32 || |sets| > Width
    ensures gnba.Some? ==>
      && WfList(formulas, ts.numAtomics) && Collected(node, ts.numAtomics, true, formulas, root)
      && SetsOf(formulas, ts.numAtomics, root, indices, sets)
      && AutomatonOf(gnba.value, formulas, ts.numAtomics, root, sets)
      && WfGnba(gnba.value)
    ensures r.None? <==> gnba.None? || !Degeneralisable(gnba.value)
    ensures r.Some? ==>
      && gnba.Some? && nba.Some? && Degeneralised(gnba.value, nba.value)
      && Wf(ts, nba.value) && (r.value <==> !HasAcceptingRun(ts, nba.value))
  {
    gnba, formulas, root, indices, sets := Gnba.Build(node, ts.numAtomics, true);
    nba := None;
    if gnba.None? {
      return None, formulas, root, indices, sets, gnba, nba;
    }
    var g := gnba.value;
    assert WfGnba(g) by {
      forall i, t | 0 <= i < |g.automa.transitions| && t in g.automa.transitions[i]
        ensures Valid(t) && Valid(g.automa.transitions[i][t])
      {
        assert t == Subset(sets[i], ts.numAtomics);
      }
    }
    nba := FromGnba(g);
    if nba.None? {
      return None, formulas, root, indices, sets, gnba, nba;
    }
    assert Wf(ts, nba.value);
    var run := CanRun(ts, nba.value);
    r := Some(!run);
  }
}

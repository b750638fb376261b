/**
 * The closure step shared, with identical text, by the resumable recogniser
 * (misc/earley.py, `_consume` and `_finalize`) and the batch recogniser
 * (misc/early.py, the body of `parse`), stated as ghost functions that the
 * imperative loops of both are proved against.
 *
 * A Python `set` of items is modelled as a duplicate-free sequence in
 * insertion order.  The order matters: completion reads the set that is still
 * being built, so the closed set depends on the order in which the worklist
 * is drained.
 */
module EarleyClosure {
  import opened Wrappers
  import opened EarleyGrammar

  /** The items at one chart position, in the order they were inserted. */
  type StateSet = seq<State>

  /** One item set per input position. */
  type Chart = seq<StateSet>

  predicate NoDup(s: seq<State>) {
    forall i, j :: 0 <= i < j < |s| ==> s[i] != s[j]
  }

  /** `set.add(x)`. */
  function AddTo(s: StateSet, x: State): (r: StateSet)
    ensures NoDup(s) ==> NoDup(r)
    ensures forall y :: y in r <==> y in s || y == x
  {
    if x in s then s else s + [x]
  }

  // ---------------------------------------------------------------------------
  // The three transitions
  // ---------------------------------------------------------------------------

  /** The items of `origin` whose next symbol is `name`, each advanced over it. */
  function Advance(origin: StateSet, name: char): (r: seq<State>)
    ensures |r| <= |origin|
  {
    if origin == [] then []
    else if Symbol(origin[0]) == Some(name) then [Next(origin[0])] + Advance(origin[1..], name)
    else Advance(origin[1..], name)
  }

  /** `_complete(state)`: advance the items at the finished item's origin that wait for its nonterminal. */
  function Complete(chart: Chart, s: State): seq<State>
    requires s.start < |chart|
  {
    Advance(chart[s.start], s.name)
  }

  /** The loop of `_complete`: walk the origin set and collect each waiting item moved over `name`. */
  method CompleteFrom(origin: StateSet, name: char) returns (results: seq<State>)
    ensures results == Advance(origin, name)
  {
    results := [];
    for k := 0 to |origin|
      invariant results == Advance(origin[..k], name)
    {
      assert origin[..k + 1] == origin[..k] + [origin[k]];
      AdvanceAppend(origin[..k], [origin[k]], name);
      assert [origin[k]][1..] == [];
      if Symbol(origin[k]) == Some(name) {
        results := results + [Next(origin[k])];
      }
    }
    assert origin[..|origin|] == origin;
  }

  /** `_predict(start, symbol)`: a fresh item for each rule of `symbol`, begun at `start`. */
  function Predict(g: Grammar, start: nat, symbol: char): (r: seq<State>)
    ensures |r| == |RulesFor(g, symbol)|
    ensures forall k :: 0 <= k < |r| ==> r[k] == Fresh(RulesFor(g, symbol)[k], start)
  {
    var rules := RulesFor(g, symbol);
    seq(|rules|, k requires 0 <= k < |rules| => Fresh(rules[k], start))
  }

  /** `_scan(state, start, token)` on the next position's set; `None` is the finaliser, which never scans. */
  function Scan(next: StateSet, s: State, token: Option<char>): StateSet {
    if token.Some? && Symbol(s) == token then AddTo(next, Next(s)) else next
  }

  // ---------------------------------------------------------------------------
  // Well-formed items and the finite universe they live in
  // ---------------------------------------------------------------------------

  /** Item `x` can occur at position `p`: its rule is in the grammar, its dot is within the rule, its origin is not after `p`. */
  predicate WfItem(g: Grammar, x: State, p: nat) {
    Rule(x.name, x.expr) in g.rules && x.pos <= |x.expr| && x.start <= p
  }

  predicate WfSet(g: Grammar, s: seq<State>, p: nat) {
    forall x :: x in s ==> WfItem(g, x, p)
  }

  predicate WfChart(g: Grammar, chart: Chart) {
    forall i :: 0 <= i < |chart| ==> WfSet(g, chart[i], i)
  }

  /** Every item that is well formed at position `p`. */
  ghost function Universe(g: Grammar, p: nat): set<State> {
    set r, k, o | r in g.rules && 0 <= k <= |r.rhs| && 0 <= o <= p :: State(r.lhs, r.rhs, k, o)
  }

  ghost function ToSet(s: seq<State>): set<State> {
    set x | x in s
  }

  lemma InUniverse(g: Grammar, x: State, p: nat)
    requires WfItem(g, x, p)
    ensures x in Universe(g, p)
  {
    var r := Rule(x.name, x.expr);
    assert State(r.lhs, r.rhs, x.pos, x.start) == x;
  }

  /** Inserting a new item of the universe brings the set strictly closer to the whole universe. */
  lemma Shrinks(g: Grammar, p: nat, cur: StateSet, s: State)
    requires WfItem(g, s, p) && s !in cur
    ensures |Universe(g, p) - ToSet(cur + [s])| < |Universe(g, p) - ToSet(cur)|
  {
    InUniverse(g, s, p);
    var u := Universe(g, p);
    assert ToSet(cur + [s]) == ToSet(cur) + {s};
    assert u - ToSet(cur + [s]) == (u - ToSet(cur)) - {s};
    assert s in u - ToSet(cur);
  }

  lemma WfWiden(g: Grammar, s: seq<State>, p: nat, q: nat)
    requires WfSet(g, s, p) && p <= q
    ensures WfSet(g, s, q)
  {
  }

  /** `Advance` keeps exactly the items waiting for `name`, each moved over it. */
  lemma {:induction false} AdvanceMember(origin: StateSet, name: char, x: State)
    ensures x in Advance(origin, name) <==> exists y :: y in origin && Symbol(y) == Some(name) && x == Next(y)
  {
    if origin != [] {
      AdvanceMember(origin[1..], name, x);
      assert forall y :: y in origin <==> y == origin[0] || y in origin[1..];
    }
  }

  lemma {:induction false} AdvanceAppend(a: StateSet, b: StateSet, name: char)
    ensures Advance(a + b, name) == Advance(a, name) + Advance(b, name)
  {
    if a == [] {
      assert a + b == b;
    } else {
      assert (a + b)[0] == a[0];
      assert (a + b)[1..] == a[1..] + b;
      AdvanceAppend(a[1..], b, name);
    }
  }

  lemma AdvanceWf(g: Grammar, origin: StateSet, name: char, p: nat)
    requires WfSet(g, origin, p)
    ensures WfSet(g, Advance(origin, name), p)
  {
    forall x | x in Advance(origin, name) ensures WfItem(g, x, p) {
      AdvanceMember(origin, name, x);
    }
  }

  lemma PredictWf(g: Grammar, p: nat, symbol: char)
    ensures WfSet(g, Predict(g, p, symbol), p)
  {
    var rules := RulesFor(g, symbol);
    forall x | x in Predict(g, p, symbol) ensures WfItem(g, x, p) {
      var k :| 0 <= k < |rules| && x == Fresh(rules[k], p);
      assert rules[k] in rules;
    }
  }

  lemma CompleteWf(g: Grammar, prefix: Chart, cur: StateSet, s: State)
    requires WfChart(g, prefix) && WfSet(g, cur, |prefix|) && WfItem(g, s, |prefix|)
    ensures WfSet(g, Complete(prefix + [cur], s), |prefix|)
  {
    var chart := prefix + [cur];
    if s.start < |prefix| {
      assert chart[s.start] == prefix[s.start];
      WfWiden(g, prefix[s.start], s.start, |prefix|);
    }
    AdvanceWf(g, chart[s.start], s.name, |prefix|);
  }

  /** The items of `a` past `i` are those of its prefix `b` past `i` followed by the rest of `a`. */
  lemma SuffixSplit(a: seq<State>, b: seq<State>, i: nat)
    requires i <= |b| <= |a| && a[..|b|] == b
    ensures a[i..] == b[i..] + a[|b|..]
  {
    forall k | 0 <= k < |a| - i ensures a[i..][k] == (b[i..] + a[|b|..])[k] {
      if i + k < |b| {
        assert a[i + k] == a[..|b|][i + k];
      }
    }
  }

  /** A prefix of a prefix is a prefix. */
  lemma PrefixTrans<T>(a: seq<T>, b: seq<T>, c: seq<T>)
    requires |c| <= |b| <= |a| && a[..|b|] == b && b[..|c|] == c
    ensures a[..|c|] == c
  {
    assert a[..|c|] == a[..|b|][..|c|];
  }

  lemma TakeSnoc<T>(s: seq<T>, k: nat)
    requires k < |s|
    ensures s[..k + 1] == s[..k] + [s[k]]
  {
  }

  lemma TakeTwo<T>(s: seq<T>, k: nat)
    requires k + 1 < |s|
    ensures s[..k + 2] == s[..k] + [s[k], s[k + 1]]
  {
  }

  lemma LastTwo<T>(s: seq<T>)
    requires |s| >= 2
    ensures s == s[..|s| - 2] + [s[|s| - 2], s[|s| - 1]]
  {
  }

  lemma LastOne<T>(s: seq<T>)
    requires |s| >= 1
    ensures s == s[..|s| - 1] + [s[|s| - 1]]
  {
  }

  /** Updating a slot leaves every slot before it alone. */
  lemma UpdateKeepsPrefix<T>(s: seq<T>, i: nat, v: T, j: nat)
    requires j <= i < |s|
    ensures s[i := v][..j] == s[..j]
  {
  }

  lemma ToSetAppend(a: seq<State>, b: seq<State>)
    ensures ToSet(a + b) == ToSet(a) + ToSet(b)
  {
  }

  // ---------------------------------------------------------------------------
  // The worklist loop
  // ---------------------------------------------------------------------------

  /**
   * One turn of the closure loop: pop the front of the FIFO `queue`; drop it
   * when it is already in `cur`; otherwise insert it and then complete it
   * (finished item), predict (nonterminal after the dot) or scan it into
   * `next` (anything else).  `prefix` holds the closed sets before the
   * current position `|prefix|`; completion of an item begun at the current
   * position reads `cur` as it stands, including the item just inserted.
   * Returns the new queue, current set and next set.
   */
  ghost function Step(g: Grammar, prefix: Chart, queue: seq<State>, cur: StateSet, next: StateSet,
                      token: Option<char>): (r: (seq<State>, StateSet, StateSet))
    requires WfChart(g, prefix) && WfSet(g, cur, |prefix|) && WfSet(g, queue, |prefix|) && queue != []
    ensures WfSet(g, r.0, |prefix|) && WfSet(g, r.1, |prefix|)
    ensures r.1 == cur || (queue[0] !in cur && r.1 == cur + [queue[0]])
    ensures queue[0] in r.1
    ensures |next| <= |r.2| && r.2[..|next|] == next
    ensures (r.1 == cur && |r.0| < |queue|)
         || |Universe(g, |prefix|) - ToSet(r.1)| < |Universe(g, |prefix|) - ToSet(cur)|
  {
    var s := queue[0];
    if s in cur then (queue[1..], cur, next)
    else
      var cur' := cur + [s];
      Shrinks(g, |prefix|, cur, s);
      if Terminated(s) then
        CompleteWf(g, prefix, cur', s);
        (queue[1..] + Complete(prefix + [cur'], s), cur', next)
      else if NonterminalSymbol(s).Some? then
        PredictWf(g, |prefix|, NonterminalSymbol(s).value);
        (queue[1..] + Predict(g, |prefix|, NonterminalSymbol(s).value), cur', next)
      else
        (queue[1..], cur', Scan(next, s, token))
  }

  /**
   * The closure loop, run until the queue is empty.  Returns the closed set
   * and the next position's seed set; both only grow from `cur` and `next`.
   */
  ghost function Drain(g: Grammar, prefix: Chart, queue: seq<State>, cur: StateSet, next: StateSet,
                       token: Option<char>): (r: (StateSet, StateSet))
    requires WfChart(g, prefix) && WfSet(g, cur, |prefix|) && WfSet(g, queue, |prefix|)
    ensures |cur| <= |r.0| && r.0[..|cur|] == cur && WfSet(g, r.0, |prefix|)
    ensures |next| <= |r.1| && r.1[..|next|] == next
    decreases |Universe(g, |prefix|) - ToSet(cur)|, |queue|
  {
    if queue == [] then (cur, next)
    else
      var q := Step(g, prefix, queue, cur, next, token);
      var r := Drain(g, prefix, q.0, q.1, q.2, token);
      PrefixTrans(r.0, q.1, cur);
      PrefixTrans(r.1, q.2, next);
      r
  }

  /** Close the pending set `pending` at position `|prefix|`, scanning `token` into a fresh next set. */
  ghost function Close(g: Grammar, prefix: Chart, pending: StateSet, token: Option<char>): (StateSet, StateSet)
    requires WfChart(g, prefix) && WfSet(g, pending, |prefix|)
  {
    Drain(g, prefix, pending, [], [], token)
  }

  lemma StepShape(g: Grammar, prefix: Chart, queue: seq<State>, cur: StateSet, next: StateSet,
                  token: Option<char>)
    requires WfChart(g, prefix) && WfSet(g, cur, |prefix|) && WfSet(g, queue, |prefix|) && queue != []
    ensures var r := Step(g, prefix, queue, cur, next, token);
      && (NoDup(cur) ==> NoDup(r.1)) && (NoDup(next) ==> NoDup(r.2))
      && (WfSet(g, next, |prefix| + 1) ==> WfSet(g, r.2, |prefix| + 1))
  {
    var s := queue[0];
    var r := Step(g, prefix, queue, cur, next, token);
    if s in cur {
      assert r.1 == cur && r.2 == next;
    } else if Terminated(s) || NonterminalSymbol(s).Some? {
      assert r.1 == cur + [s] && r.2 == next;
    } else {
      assert r.1 == cur + [s] && r.2 == Scan(next, s, token);
    }
  }

  /**
   * Neither the closed set nor the seed set ever holds an item twice, and
   * the seeds are well formed at the next position.
   */
  lemma {:induction false} DrainShape(g: Grammar, prefix: Chart, queue: seq<State>, cur: StateSet,
                                      next: StateSet, token: Option<char>)
    requires WfChart(g, prefix) && WfSet(g, cur, |prefix|) && WfSet(g, queue, |prefix|)
    requires WfSet(g, next, |prefix| + 1) && NoDup(cur) && NoDup(next)
    ensures var r := Drain(g, prefix, queue, cur, next, token);
      NoDup(r.0) && NoDup(r.1) && WfSet(g, r.1, |prefix| + 1)
    decreases |Universe(g, |prefix|) - ToSet(cur)|, |queue|
  {
    if queue != [] {
      var q := Step(g, prefix, queue, cur, next, token);
      StepShape(g, prefix, queue, cur, next, token);
      DrainShape(g, prefix, q.0, q.1, q.2, token);
    }
  }

  /** The first pending item always ends up in the closed set. */
  lemma DrainKeepsFirst(g: Grammar, prefix: Chart, queue: seq<State>, cur: StateSet, next: StateSet,
                        token: Option<char>)
    requires WfChart(g, prefix) && WfSet(g, cur, |prefix|) && WfSet(g, queue, |prefix|)
    ensures queue != [] ==> queue[0] in Drain(g, prefix, queue, cur, next, token).0
  {
    if queue != [] {
      var q := Step(g, prefix, queue, cur, next, token);
      var r := Drain(g, prefix, q.0, q.1, q.2, token);
      assert r == Drain(g, prefix, queue, cur, next, token);
      assert queue[0] in r.0[..|q.1|];
    }
  }

  lemma StepSeeds(g: Grammar, prefix: Chart, queue: seq<State>, cur: StateSet, next: StateSet,
                  token: Option<char>)
    requires WfChart(g, prefix) && WfSet(g, cur, |prefix|) && WfSet(g, queue, |prefix|) && queue != []
    requires token.Some? ==> !IsNonterminal(token.value)
    ensures var r := Step(g, prefix, queue, cur, next, token);
      && (token.None? ==> r.2 == next)
      && (token.Some? ==> ToSet(r.2) == ToSet(next) + ToSet(Advance(r.1[|cur|..], token.value)))
  {
    var r := Step(g, prefix, queue, cur, next, token);
    var s := queue[0];
    if s in cur {
      assert r.1 == cur && r.2 == next;
      assert r.1[|cur|..] == [];
    } else {
      assert r.1 == cur + [s];
      assert r.1[|cur|..] == [s];
      assert [s][1..] == [];
      if Terminated(s) || NonterminalSymbol(s).Some? {
        assert r.2 == next;
        if token.Some? {
          assert Symbol(s) != token;
          assert Advance([s], token.value) == [] by {
            assert [s][1..] == [];
          }
        }
      } else {
        assert r.2 == Scan(next, s, token);
        if token.Some? {
          assert Advance([s], token.value) == if Symbol(s) == token then [Next(s)] else [] by {
            assert [s][1..] == [];
          }
          assert ToSet(r.2) == ToSet(next) + ToSet(Advance([s], token.value));
        }
      }
    }
  }

  /**
   * The seeds the closure adds to the next position are exactly the items
   * newly inserted into the closed set whose next symbol is the token, each
   * advanced over it; the finaliser (no token) adds none.  The token must not
   * be a nonterminal, since only items whose next symbol is not a
   * nonterminal reach the scan.
   */
  lemma {:induction false} DrainSeeds(g: Grammar, prefix: Chart, queue: seq<State>, cur: StateSet,
                                      next: StateSet, token: Option<char>)
    requires WfChart(g, prefix) && WfSet(g, cur, |prefix|) && WfSet(g, queue, |prefix|)
    requires token.Some? ==> !IsNonterminal(token.value)
    ensures var r := Drain(g, prefix, queue, cur, next, token);
      && (token.None? ==> r.1 == next)
      && (token.Some? ==> ToSet(r.1) == ToSet(next) + ToSet(Advance(r.0[|cur|..], token.value)))
    decreases |Universe(g, |prefix|) - ToSet(cur)|, |queue|
  {
    if queue != [] {
      var q := Step(g, prefix, queue, cur, next, token);
      var r := Drain(g, prefix, q.0, q.1, q.2, token);
      assert r == Drain(g, prefix, queue, cur, next, token);
      StepSeeds(g, prefix, queue, cur, next, token);
      DrainSeeds(g, prefix, q.0, q.1, q.2, token);
      if token.Some? {
        var c := token.value;
        var new1, new2 := q.1[|cur|..], r.0[|q.1|..];
        SuffixSplit(r.0, q.1, |cur|);
        AdvanceAppend(new1, new2, c);
        ToSetAppend(Advance(new1, c), Advance(new2, c));
        assert ToSet(q.2) == ToSet(next) + ToSet(Advance(new1, c));
        assert ToSet(r.1) == ToSet(q.2) + ToSet(Advance(new2, c));
      }
    }
  }

  /** The items an inserted item `s` pushes onto the worklist that do not depend on the set being built. */
  predicate Demands(g: Grammar, prefix: Chart, s: State, x: State) {
    || (NonterminalSymbol(s).Some? && x in Predict(g, |prefix|, NonterminalSymbol(s).value))
    || (Terminated(s) && s.start < |prefix| && x in Advance(prefix[s.start], s.name))
  }

  /** Everything demanded by an item of `cur` is in `cur` or still queued. */
  ghost predicate Owed(g: Grammar, prefix: Chart, queue: seq<State>, cur: StateSet) {
    forall s, x :: s in cur && Demands(g, prefix, s, x) ==> x in cur || x in queue
  }

  lemma StepClosed(g: Grammar, prefix: Chart, queue: seq<State>, cur: StateSet, next: StateSet,
                   token: Option<char>)
    requires WfChart(g, prefix) && WfSet(g, cur, |prefix|) && WfSet(g, queue, |prefix|) && queue != []
    requires Owed(g, prefix, queue, cur)
    ensures var r := Step(g, prefix, queue, cur, next, token); Owed(g, prefix, r.0, r.1)
  {
    var s := queue[0];
    var r := Step(g, prefix, queue, cur, next, token);
    assert forall x :: x in queue ==> x == s || x in queue[1..];
    if s !in cur && Terminated(s) && s.start < |prefix| {
      assert (prefix + [cur + [s]])[s.start] == prefix[s.start];
    }
  }

  /**
   * The closed set is closed under prediction, and under completion of every
   * finished item begun at an earlier position.  (Completion of an item begun
   * at the current position reads the set as it stood at that moment, so no
   * such promise is made for it.)
   */
  lemma {:induction false} DrainClosed(g: Grammar, prefix: Chart, queue: seq<State>, cur: StateSet,
                                       next: StateSet, token: Option<char>)
    requires WfChart(g, prefix) && WfSet(g, cur, |prefix|) && WfSet(g, queue, |prefix|)
    requires Owed(g, prefix, queue, cur)
    ensures var r := Drain(g, prefix, queue, cur, next, token);
      forall s, x :: s in r.0 && Demands(g, prefix, s, x) ==> x in r.0
    decreases |Universe(g, |prefix|) - ToSet(cur)|, |queue|
  {
    if queue != [] {
      var q := Step(g, prefix, queue, cur, next, token);
      StepClosed(g, prefix, queue, cur, next, token);
      DrainClosed(g, prefix, q.0, q.1, q.2, token);
    }
  }

  lemma StepEndSymbol(g: Grammar, prefix: Chart, queue: seq<State>, cur: StateSet, next: StateSet)
    requires WfChart(g, prefix) && WfSet(g, cur, |prefix|) && WfSet(g, queue, |prefix|) && queue != []
    requires NoEndSymbol(g)
    ensures Step(g, prefix, queue, cur, next, Some(EndSymbol)) == Step(g, prefix, queue, cur, next, None)
  {
    var s := queue[0];
    assert WfItem(g, s, |prefix|);
    if !Terminated(s) {
      assert s.expr[s.pos] in s.expr;
    }
  }

  /**
   * When no rule mentions the end sentinel, scanning it changes nothing: the
   * batch recogniser's last closure equals the finaliser's, and seeds nothing.
   */
  lemma {:induction false} DrainEndSymbol(g: Grammar, prefix: Chart, queue: seq<State>, cur: StateSet,
                                          next: StateSet)
    requires WfChart(g, prefix) && WfSet(g, cur, |prefix|) && WfSet(g, queue, |prefix|)
    requires NoEndSymbol(g)
    ensures Drain(g, prefix, queue, cur, next, Some(EndSymbol)) == Drain(g, prefix, queue, cur, next, None)
    ensures Drain(g, prefix, queue, cur, next, None).1 == next
    decreases |Universe(g, |prefix|) - ToSet(cur)|, |queue|
  {
    DrainSeeds(g, prefix, queue, cur, next, None);
    if queue != [] {
      var q := Step(g, prefix, queue, cur, next, None);
      StepEndSymbol(g, prefix, queue, cur, next);
      DrainEndSymbol(g, prefix, q.0, q.1, q.2);
    }
  }

  /** No right side contains the end sentinel `.`. */
  predicate NoEndSymbol(g: Grammar) {
    forall r :: r in g.rules ==> EndSymbol !in r.rhs
  }

  // ---------------------------------------------------------------------------
  // Charts
  // ---------------------------------------------------------------------------

  /** The item seeded at position 0: the first `$` rule, dot at 0, origin 0. */
  function Init(g: Grammar): (s: State)
    requires HasRoot(g)
    ensures WfItem(g, s, 0) && s.pos == 0 && s.start == 0 && s.name == RootRule
  {
    var r := RulesFor(g, RootRule)[0];
    assert r in RulesFor(g, RootRule);
    Fresh(r, 0)
  }

  /** A chart whose last set is pending: its positions are well formed and duplicate free. */
  predicate WfPending(g: Grammar, chart: Chart) {
    |chart| >= 1 && WfChart(g, chart) && forall i :: 0 <= i < |chart| ==> NoDup(chart[i])
  }

  /** `_consume(c)` on a chart: close its pending last set and append the seeds of `c` as the new pending set. */
  ghost function ConsumeStep(g: Grammar, chart: Chart, c: char): (r: Chart)
    requires WfPending(g, chart)
    ensures WfPending(g, r) && |r| == |chart| + 1
  {
    var p := |chart| - 1;
    DrainShape(g, chart[..p], chart[p], [], [], Some(c));
    var closed := Close(g, chart[..p], chart[p], Some(c));
    chart[..p] + [closed.0, closed.1]
  }

  /** The chart of a fresh parser after consuming `text`, one symbol at a time. */
  ghost function Consumed(g: Grammar, text: string): (r: Chart)
    requires HasRoot(g)
    ensures WfPending(g, r) && |r| == |text| + 1
    decreases |text|
  {
    if text == [] then [[Init(g)]]
    else ConsumeStep(g, Consumed(g, text[..|text| - 1]), text[|text| - 1])
  }

  /** `_finalize`: close the pending last set without scanning. */
  ghost function Finalized(g: Grammar, chart: Chart): (r: Chart)
    requires WfPending(g, chart)
    ensures WfChart(g, r) && |r| == |chart|
  {
    var p := |chart| - 1;
    DrainShape(g, chart[..p], chart[p], [], [], None);
    chart[..p] + [Close(g, chart[..p], chart[p], None).0]
  }

  /** A position accepts when it holds a finished `$` item. */
  predicate Accepting(s: StateSet) {
    exists x :: x in s && x.name == RootRule && Terminated(x)
  }

  // ---------------------------------------------------------------------------
  // Properties of charts
  // ---------------------------------------------------------------------------

  /** Consuming more input never changes a position that was already closed. */
  lemma {:induction false} ConsumedStable(g: Grammar, u: string, v: string)
    requires HasRoot(g)
    ensures Consumed(g, u + v)[..|u|] == Consumed(g, u)[..|u|]
    decreases |v|
  {
    if v != [] {
      var w := u + v[..|v| - 1];
      assert (u + v)[..|u + v| - 1] == w;
      ConsumedStable(g, u, v[..|v| - 1]);
      assert Consumed(g, u + v)[..|w|] == Consumed(g, w)[..|w|];
      assert Consumed(g, u + v)[..|u|] == Consumed(g, u + v)[..|w|][..|u|];
      assert Consumed(g, w)[..|u|] == Consumed(g, w)[..|w|][..|u|];
      assert u + v[..|v| - 1] == w;
    } else {
      assert u + v == u;
    }
  }

  /** Position `p < |text|` of a consumed chart is the closure of what was pending there after `text[..p]`. */
  lemma ConsumedAt(g: Grammar, text: string, p: nat)
    requires HasRoot(g) && p < |text|
    ensures var before := Consumed(g, text[..p]);
      && Consumed(g, text)[..p] == before[..p]
      && Consumed(g, text)[p] == Close(g, before[..p], before[p], Some(text[p])).0
  {
    var u := text[..p + 1];
    assert u + text[p + 1..] == text;
    ConsumedStable(g, u, text[p + 1..]);
    assert u[..|u| - 1] == text[..p];
    var chart := Consumed(g, text);
    assert chart[..p] == chart[..p + 1][..p];
    assert Consumed(g, u)[..p] == Consumed(g, u)[..p + 1][..p];
  }

  /**
   * After consuming `c`, the new pending set holds exactly the items `next(s)`
   * for the items `s` of the set just closed whose next symbol is `c`.
   */
  lemma ConsumedSeeds(g: Grammar, text: string, c: char, x: State)
    requires HasRoot(g) && IsTerminal(c)
    ensures var chart := Consumed(g, text + [c]);
      x in chart[|text| + 1] <==> exists s :: s in chart[|text|] && Symbol(s) == Some(c) && x == Next(s)
  {
    var chart := Consumed(g, text + [c]);
    var before := Consumed(g, text);
    assert (text + [c])[..|text + [c]| - 1] == text;
    var p := |before| - 1;
    DrainSeeds(g, before[..p], before[p], [], [], Some(c));
    var r := Close(g, before[..p], before[p], Some(c));
    assert chart[|text|] == r.0 && chart[|text| + 1] == r.1;
    assert r.0[0..] == r.0;
    AdvanceMember(r.0, c, x);
    assert x in r.1 <==> x in ToSet(r.1);
  }

  /**
   * Every closed position of a consumed chart is closed under prediction and
   * under completion of the finished items begun at an earlier position.
   */
  lemma ConsumedClosed(g: Grammar, text: string, p: nat, s: State, x: State)
    requires HasRoot(g) && p < |text|
    requires var chart := Consumed(g, text); s in chart[p] && Demands(g, chart[..p], s, x)
    ensures x in Consumed(g, text)[p]
  {
    ConsumedAt(g, text, p);
    var before := Consumed(g, text[..p]);
    DrainClosed(g, before[..p], before[p], [], [], Some(text[p]));
  }

  /** The two positions `_consume(c)` produces, in terms of the chart before it. */
  lemma ConsumedLast(g: Grammar, t: string, c: char)
    requires HasRoot(g)
    ensures var before := Consumed(g, t);
      var r := Close(g, before[..|t|], before[|t|], Some(c));
      Consumed(g, t + [c]) == before[..|t|] + [r.0, r.1]
  {
    assert (t + [c])[..|t + [c]| - 1] == t;
  }

  /** Closing an empty pending set produces an empty set and seeds nothing; closing a non-empty one keeps its first item. */
  lemma ConsumedDeadStep(g: Grammar, t: string, c: char)
    requires HasRoot(g)
    ensures Consumed(g, t)[|t|] == [] <==> Consumed(g, t + [c])[|t|] == []
    ensures Consumed(g, t)[|t|] == [] ==> Consumed(g, t + [c])[|t| + 1] == []
  {
    var before := Consumed(g, t);
    ConsumedLast(g, t, c);
    DrainKeepsFirst(g, before[..|t|], before[|t|], [], [], Some(c));
  }

  lemma ConsumedDeadNext(g: Grammar, text: string, k: nat)
    requires HasRoot(g) && k < |text| && Consumed(g, text)[k] == []
    ensures Consumed(g, text)[k + 1] == []
  {
    var t, w := text[..k], text[..k + 1];
    assert w == t + [text[k]];
    ConsumedAt(g, text, k);
    ConsumedLast(g, t, text[k]);
    ConsumedDeadStep(g, t, text[k]);
    if k + 1 < |text| {
      ConsumedAt(g, text, k + 1);
    } else {
      assert text == w;
    }
  }

  /** An empty position stays empty: a dead branch never resurrects. */
  lemma {:induction false} ConsumedDeadEnd(g: Grammar, text: string, k: nat, j: nat)
    requires HasRoot(g) && k <= j <= |text| && Consumed(g, text)[k] == []
    ensures Consumed(g, text)[j] == []
    decreases j - k
  {
    if j > k {
      ConsumedDeadEnd(g, text, k, j - 1);
      ConsumedDeadNext(g, text, j - 1);
    }
  }
}

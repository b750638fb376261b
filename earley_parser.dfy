/**
 * The resumable Earley recogniser of misc/earley.py: a `Parser` object that
 * keeps one item set per consumed symbol plus a pending set for the next
 * position, and can be fed more input at any time.
 *
 * The object is always in the state `Consumed(grammar, inputs)` of the
 * closure specification, so everything proved there about consumed charts
 * (old positions never change, seeds are exactly the scanned items, closed
 * positions are closed under prediction and completion, dead branches stay
 * dead) holds of every parser.
 */
module EarleyParser {
  import opened Wrappers
  import opened EarleyGrammar
  import opened EarleyClosure

  /**
   * `accepts` is the list of acceptance flags printed from position `pos`
   * on, where a requested position 1 is printed from 0.
   */
  predicate Reports(accepts: seq<bool>, chart: Chart, pos: nat) {
    var from := if pos == 1 then 0 else pos;
    && |accepts| == (if from <= |chart| then |chart| - from else 0)
    && forall k :: 0 <= k < |accepts| ==> accepts[k] == Accepting(chart[from + k])
  }

  /** The number of leading symbols of `text` that are terminals. */
  function TerminalPrefix(text: string): (n: nat)
    ensures n <= |text|
  {
    if text == [] || !IsTerminal(text[0]) then 0 else 1 + TerminalPrefix(text[1..])
  }

  /** The symbols before `TerminalPrefix(text)` are terminals and the one at it is not. */
  lemma {:induction false} TerminalPrefixAt(text: string, k: nat)
    requires k < |text|
    ensures k < TerminalPrefix(text) ==> IsTerminal(text[k])
    ensures k == TerminalPrefix(text) ==> !IsTerminal(text[k])
  {
    if k > 0 && IsTerminal(text[0]) {
      TerminalPrefixAt(text[1..], k - 1);
    }
  }

  lemma AppendTakeSnoc(a: string, s: string, k: nat)
    requires k < |s|
    ensures a + s[..k + 1] == (a + s[..k]) + [s[k]]
  {
    assert s[..k + 1] == s[..k] + [s[k]];
  }

  /** Completion reads the chart as the closed prefix followed by the set being built. */
  lemma PrefixIndex(s: Chart, prefix: Chart, k: nat)
    requires |prefix| < |s| && s[..|prefix|] == prefix && k <= |prefix|
    ensures s[k] == (prefix + [s[|prefix|]])[k]
  {
    if k < |prefix| {
      assert s[k] == s[..|prefix|][k];
    }
  }

  class Parser {
    const grammar: Grammar
    /** One set per consumed position, then the pending set of the next position. */
    var stateSet: seq<StateSet>
    /** The symbols consumed so far. */
    var inputs: string

    ghost predicate Valid()
      reads this
    {
      HasRoot(grammar) && stateSet == Consumed(grammar, inputs)
    }

    /** A parser that has read nothing: position 0 holds the first `$` rule's fresh item. */
    constructor(g: Grammar)
      requires HasRoot(g)
      ensures Valid() && grammar == g && inputs == []
      ensures stateSet == [[Init(g)]]
    {
      grammar := g;
      stateSet := [[Init(g)]];
      inputs := [];
    }

    /** `_scan`: when the item's next symbol is `token`, add it, advanced, to the set after `start`. */
    method Scan(s: State, start: nat, token: char)
      requires start + 1 < |stateSet|
      modifies this
      ensures inputs == old(inputs)
      ensures stateSet == old(stateSet)[start + 1 := EarleyClosure.Scan(old(stateSet)[start + 1], s, Some(token))]
    {
      if Symbol(s) == Some(token) {
        stateSet := stateSet[start + 1 := AddTo(stateSet[start + 1], Next(s))];
      }
    }

    /**
     * One turn of the worklist loop of `_consume` and `_finalize`: pop the
     * front item, skip it if the set at `curPos` has it, otherwise insert it
     * and complete, predict, or (only when a token is given, as in
     * `_consume`) scan it into the set after `curPos`.  Returns the new queue.
     */
    method Turn(queue: seq<State>, curPos: nat, token: Option<char>, ghost prefix: Chart, ghost next: StateSet)
      returns (rest: seq<State>)
      requires queue != [] && |stateSet| == curPos + (if token.Some? then 2 else 1) && stateSet[..curPos] == prefix
      requires WfChart(grammar, prefix) && WfSet(grammar, stateSet[curPos], curPos) && WfSet(grammar, queue, curPos)
      requires token.Some? ==> next == stateSet[curPos + 1]
      modifies this
      ensures inputs == old(inputs) && |stateSet| == |old(stateSet)| && stateSet[..curPos] == prefix
      ensures var r := Step(grammar, prefix, queue, old(stateSet)[curPos], next, token);
        && rest == r.0 && stateSet[curPos] == r.1
        && (token.Some? ==> stateSet[curPos + 1] == r.2) && (token.None? ==> r.2 == next)
    {
      var state := queue[0];
      assert WfItem(grammar, state, curPos) by { assert state in queue; }
      rest := queue[1..];
      if state in stateSet[curPos] {
        return;
      }
      UpdateKeepsPrefix(stateSet, curPos, stateSet[curPos] + [state], curPos);
      stateSet := stateSet[curPos := stateSet[curPos] + [state]];
      if Terminated(state) {
        PrefixIndex(stateSet, prefix, state.start);
        var more := CompleteFrom(stateSet[state.start], state.name);
        rest := rest + more;
      } else if NonterminalSymbol(state).Some? {
        rest := rest + Predict(grammar, curPos, NonterminalSymbol(state).value);
      } else if token.Some? {
        UpdateKeepsPrefix(stateSet, curPos + 1, EarleyClosure.Scan(stateSet[curPos + 1], state, token), curPos);
        Scan(state, curPos, token.value);
      }
    }

    /**
     * The worklist loop shared by `_consume` and `_finalize`: close the
     * pending items into the empty set at `curPos`, scanning into the set
     * after it only when a token is given.
     */
    method Close(pending: seq<State>, curPos: nat, token: Option<char>)
      requires |stateSet| == curPos + (if token.Some? then 2 else 1)
      requires stateSet[curPos] == [] && (token.Some? ==> stateSet[curPos + 1] == [])
      requires WfChart(grammar, stateSet[..curPos]) && WfSet(grammar, pending, curPos)
      modifies this
      ensures inputs == old(inputs)
      ensures var r := EarleyClosure.Close(grammar, old(stateSet)[..curPos], pending, token);
        stateSet == old(stateSet)[..curPos] + (if token.Some? then [r.0, r.1] else [r.0])
    {
      ghost var prefix := stateSet[..curPos];
      ghost var target := EarleyClosure.Close(grammar, prefix, pending, token);
      ghost var next: StateSet := [];
      var queue := pending;
      while queue != []
        invariant inputs == old(inputs)
        invariant |stateSet| == |old(stateSet)| && stateSet[..curPos] == prefix
        invariant WfSet(grammar, stateSet[curPos], curPos) && WfSet(grammar, queue, curPos)
        invariant token.Some? ==> next == stateSet[curPos + 1]
        invariant Drain(grammar, prefix, queue, stateSet[curPos], next, token) == target
        decreases |Universe(grammar, curPos) - ToSet(stateSet[curPos])|, |queue|
      {
        ghost var step := Step(grammar, prefix, queue, stateSet[curPos], next, token);
        queue := Turn(queue, curPos, token, prefix, next);
        next := step.2;
      }
      if token.Some? {
        LastTwo(stateSet);
      } else {
        DrainSeeds(grammar, prefix, pending, [], [], None);
        LastOne(stateSet);
      }
    }

    /**
     * `_consume(text)`: refuse anything but a single terminal, leaving the
     * parser as it was; otherwise close the pending set (scanning the
     * terminal into a new pending set) and record the symbol.
     */
    method Consume(text: string) returns (ok: bool)
      requires Valid()
      modifies this
      ensures Valid()
      ensures ok <==> |text| == 1 && IsTerminal(text[0])
      ensures ok ==> inputs == old(inputs) + text
      ensures !ok ==> inputs == old(inputs) && stateSet == old(stateSet)
    {
      if !(|text| == 1 && IsTerminal(text[0])) {
        return false;
      }
      var c := text[0];
      assert text == [c];
      ConsumedLast(grammar, inputs, c);
      var curPos := |stateSet| - 1;
      var queue := stateSet[curPos];
      var prefix := stateSet[..curPos];
      stateSet := prefix + [[], []];
      assert stateSet[..curPos] == prefix;
      Close(queue, curPos, Some(c));
      inputs := inputs + text;
      return true;
    }

    /**
     * `_finalize(pos)`: close the pending set without scanning and report,
     * for every position from `pos` on (1 counts as 0), whether it holds a
     * finished `$` item.  Called on a copy, so the parser it is called on is
     * left finalised.
     */
    method Finalize(pos: nat) returns (accepts: seq<bool>)
      requires WfPending(grammar, stateSet)
      modifies this
      ensures inputs == old(inputs)
      ensures stateSet == Finalized(grammar, old(stateSet))
      ensures Reports(accepts, stateSet, pos)
    {
      var queue := stateSet[|stateSet| - 1];
      stateSet := stateSet[..|stateSet| - 1];
      var curPos := |stateSet|;
      stateSet := stateSet + [[]];
      assert stateSet[..curPos] == old(stateSet)[..curPos];
      Close(queue, curPos, None);

      var from := if pos == 1 then 0 else pos;
      accepts := [];
      for i := 0 to |stateSet|
        invariant |accepts| == (if from <= i then i - from else 0)
        invariant forall k :: 0 <= k < |accepts| ==> accepts[k] == Accepting(stateSet[from + k])
      {
        if i < from {
          continue;
        }
        accepts := accepts + [Accepting(stateSet[i])];
      }
    }

    /** `_print(pos)`: finalise a copy sharing this parser's sets, leaving this parser untouched. */
    method Print(pos: nat) returns (accepts: seq<bool>)
      requires Valid()
      ensures Reports(accepts, Finalized(grammar, stateSet), pos)
    {
      var copy := new Parser(grammar);
      copy.stateSet := stateSet;
      copy.inputs := inputs;
      accepts := copy.Finalize(pos);
    }

    /**
     * `read(text)`: consume the symbols of `text` one by one, then report
     * acceptance from position `|old(stateSet)|`, the first position this
     * call adds (from 0 on the first call).
     * A symbol that is not a terminal aborts the call, keeping the symbols
     * before it.
     */
    method Read(text: string) returns (ok: bool, accepts: seq<bool>)
      requires Valid()
      modifies this
      ensures Valid()
      ensures inputs == old(inputs) + text[..TerminalPrefix(text)]
      ensures ok <==> TerminalPrefix(text) == |text|
      ensures ok ==> Reports(accepts, Finalized(grammar, stateSet), |old(stateSet)|)
    {
      var length := |stateSet|;
      var n := TerminalPrefix(text);
      for k := 0 to |text|
        invariant Valid()
        invariant k <= n && inputs == old(inputs) + text[..k]
      {
        TerminalPrefixAt(text, k);
        var consumed := Consume([text[k]]);
        if !consumed {
          return false, [];
        }
        AppendTakeSnoc(old(inputs), text, k);
      }
      assert text[..|text|] == text;
      accepts := Print(length);
      return true, accepts;
    }
  }
}

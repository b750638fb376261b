/**
 * The batch Earley recogniser of misc/early.py: one array slot per input
 * position, filled left to right by the same closure loop as the resumable
 * recogniser, with the end sentinel `.` as the token of the last position.
 *
 * `Parse` is proved to compute, position by position, exactly the chart the
 * resumable `Parser` holds after consuming the same text, and then finalises
 * the last position as `_finalize` does; the only difference is the scan of
 * the sentinel, which raises an IndexError in the source when some rule
 * mentions `.` and cannot happen otherwise.
 */
module EarlyBatch {
  import opened Wrappers
  import opened EarleyGrammar
  import opened EarleyClosure

  /** The closure of the last position, scanning the end sentinel. */
  ghost function LastClose(g: Grammar, text: string): (StateSet, StateSet)
    requires HasRoot(g)
  {
    var chart := Consumed(g, text);
    Close(g, chart[..|text|], chart[|text|], Some(EndSymbol))
  }

  /**
   * Whenever no rule mentions the sentinel, the batch recogniser never
   * fails, and its chart is the finalised chart of the resumable one.
   */
  lemma BatchIsFinalized(g: Grammar, text: string)
    requires HasRoot(g) && NoEndSymbol(g)
    ensures LastClose(g, text).1 == []
    ensures Consumed(g, text)[..|text|] + [LastClose(g, text).0] == Finalized(g, Consumed(g, text))
  {
    var chart := Consumed(g, text);
    DrainEndSymbol(g, chart[..|text|], chart[|text|], [], []);
  }

  /** `_scan(state, start, token)`; `ok` is false exactly when the source raises IndexError (no set after `start`). */
  method Scan(chart: array<StateSet>, s: State, start: nat, token: char) returns (ok: bool)
    requires start < chart.Length
    modifies chart
    ensures ok <==> !(Symbol(s) == Some(token) && start + 1 == chart.Length)
    ensures ok && start + 1 < chart.Length ==>
      chart[..] == old(chart[..])[start + 1 := EarleyClosure.Scan(old(chart[start + 1]), s, Some(token))]
    ensures ok && start + 1 == chart.Length ==> chart[..] == old(chart[..])
  {
    ok := true;
    if Symbol(s) == Some(token) {
      if start + 1 == chart.Length {
        return false;
      }
      chart[start + 1] := AddTo(chart[start + 1], Next(s));
    }
  }

  /**
   * One turn of the worklist loop at position `i` with input symbol `token`:
   * pop, skip if present, insert, then complete, predict or scan.  `next` is
   * the scan target the specification tracks; it lives in the array except
   * at the last position, where there is none.
   */
  method Turn(g: Grammar, chart: array<StateSet>, queue: seq<State>, i: nat, token: char,
              ghost prefix: Chart, ghost next: StateSet) returns (rest: seq<State>, ok: bool)
    requires queue != [] && i < chart.Length && chart[..i] == prefix
    requires WfChart(g, prefix) && WfSet(g, chart[i], i) && WfSet(g, queue, i)
    requires i + 1 < chart.Length ==> next == chart[i + 1]
    requires i + 1 == chart.Length ==> next == []
    modifies chart
    ensures var r := Step(g, prefix, queue, old(chart[i]), next, Some(token));
      && (ok <==> (i + 1 < chart.Length || r.2 == []))
      && (ok ==> chart[..i] == prefix && rest == r.0 && chart[i] == r.1)
      && (ok && i + 1 < chart.Length ==> chart[i + 1] == r.2)
      && (ok ==> forall j :: i + 1 < j < chart.Length ==> chart[j] == old(chart[j]))
  {
    ghost var r := Step(g, prefix, queue, chart[i], next, Some(token));
    var state := queue[0];
    assert WfItem(g, state, i) by { assert state in queue; }
    rest := queue[1..];
    ok := true;
    if state in chart[i] {
      assert r == (rest, chart[i], next);
      return;
    }
    var cur' := chart[i] + [state];
    UpdateKeepsPrefix(chart[..], i, cur', i);
    chart[i] := cur';
    if Terminated(state) {
      if state.start < i {
        assert chart[state.start] == chart[..i][state.start];
      }
      var more := CompleteFrom(chart[state.start], state.name);
      rest := rest + more;
      assert r == (rest, cur', next);
    } else if NonterminalSymbol(state).Some? {
      rest := rest + Predict(g, i, NonterminalSymbol(state).value);
      assert r == (rest, cur', next);
    } else {
      if i + 1 < chart.Length {
        UpdateKeepsPrefix(chart[..], i + 1, EarleyClosure.Scan(chart[i + 1], state, Some(token)), i);
      }
      ok := Scan(chart, state, i, token);
    }
  }

  /**
   * The worklist loop at position `i`: close `pending` into the emptied slot
   * `i`, scanning `token` into slot `i + 1`.  Fails exactly when a scan
   * matches at the last slot.
   */
  method CloseAt(g: Grammar, chart: array<StateSet>, pending: seq<State>, i: nat, token: char) returns (ok: bool)
    requires i < chart.Length && chart[i] == [] && (i + 1 < chart.Length ==> chart[i + 1] == [])
    requires WfChart(g, chart[..i]) && WfSet(g, pending, i)
    modifies chart
    ensures var r := Close(g, old(chart[..i]), pending, Some(token));
      && (ok <==> (i + 1 < chart.Length || r.1 == []))
      && (ok ==> chart[..i] == old(chart[..i]) && chart[i] == r.0)
      && (ok && i + 1 < chart.Length ==> chart[i + 1] == r.1)
      && (ok ==> forall j :: i + 1 < j < chart.Length ==> chart[j] == old(chart[j]))
  {
    ghost var prefix := chart[..i];
    ghost var target := Close(g, prefix, pending, Some(token));
    ghost var next: StateSet := [];
    var queue := pending;
    while queue != []
      invariant chart[..i] == prefix
      invariant WfSet(g, chart[i], i) && WfSet(g, queue, i)
      invariant i + 1 < chart.Length ==> next == chart[i + 1]
      invariant i + 1 == chart.Length ==> next == []
      invariant forall j :: i + 1 < j < chart.Length ==> chart[j] == old(chart[j])
      invariant Drain(g, prefix, queue, chart[i], next, Some(token)) == target
      decreases |Universe(g, i) - ToSet(chart[i])|, |queue|
    {
      ghost var step := Step(g, prefix, queue, chart[i], next, Some(token));
      queue, ok := Turn(g, chart, queue, i, token, prefix, next);
      if !ok {
        assert step.2 != [];
        assert target.1[..|step.2|] == step.2;
        return;
      }
      next := step.2;
    }
    ok := true;
  }

  lemma ConsumedNext(g: Grammar, text: string, i: nat)
    requires HasRoot(g) && i < |text|
    ensures var before := Consumed(g, text[..i]);
      var r := Close(g, before[..i], before[i], Some(text[i]));
      Consumed(g, text[..i + 1]) == before[..i] + [r.0, r.1]
  {
    assert text[..i + 1] == text[..i] + [text[i]];
    ConsumedLast(g, text[..i], text[i]);
  }

  /**
   * One round of the outer loop of `parse`: empty slot `i` into the queue and
   * close it, scanning the input symbol at `i`, or the sentinel after the
   * last symbol.
   */
  method Position(g: Grammar, chart: array<StateSet>, text: string, i: nat) returns (ok: bool)
    requires HasRoot(g) && i <= |text| && chart.Length == |text| + 1
    requires chart[..i + 1] == Consumed(g, text[..i])
    requires forall j :: i < j < chart.Length ==> chart[j] == []
    modifies chart
    ensures i < |text| ==> ok && chart[..i + 2] == Consumed(g, text[..i + 1])
    ensures i < |text| ==> forall j :: i + 1 < j < chart.Length ==> chart[j] == []
    ensures i == |text| ==> (ok <==> LastClose(g, text).1 == [])
    ensures i == |text| && ok ==> chart[..] == Consumed(g, text)[..|text|] + [LastClose(g, text).0]
  {
    var symbol := if i < |text| then text[i] else EndSymbol;
    ghost var before := chart[..i + 1];
    assert WfPending(g, before);
    ghost var r := Close(g, before[..i], before[i], Some(symbol));
    var queue := chart[i];
    chart[i] := [];
    assert chart[..i] == before[..i];
    ok := CloseAt(g, chart, queue, i, symbol);
    if i == |text| {
      assert text[..i] == text;
      assert r == LastClose(g, text);
      if ok {
        ghost var after := chart[..];
        TakeSnoc(after, i);
      }
    } else {
      ConsumedNext(g, text, i);
      ghost var after := chart[..];
      TakeTwo(after, i);
    }
  }

  /** The final loop of `parse`: for every position, whether it holds a finished `$` item. */
  method Report(chart: Chart) returns (accepts: seq<bool>)
    ensures |accepts| == |chart| && forall i :: 0 <= i < |chart| ==> accepts[i] == Accepting(chart[i])
  {
    accepts := [];
    for i := 0 to |chart|
      invariant |accepts| == i && forall k :: 0 <= k < i ==> accepts[k] == Accepting(chart[k])
    {
      accepts := accepts + [Accepting(chart[i])];
    }
  }

  /**
   * `parse(grammar, text)`: close each position in turn, scanning the next
   * input symbol (the sentinel `.` after the last), then report for every
   * position whether it holds a finished `$` item.  `ok` is false when the
   * source raises IndexError.
   */
  method Parse(g: Grammar, text: string) returns (ok: bool, chart: array<StateSet>, accepts: seq<bool>)
    requires HasRoot(g)
    ensures chart.Length == |text| + 1
    ensures ok <==> LastClose(g, text).1 == []
    ensures ok ==> chart[..] == Consumed(g, text)[..|text|] + [LastClose(g, text).0]
    ensures ok ==> |accepts| == chart.Length && forall i :: 0 <= i < |accepts| ==> accepts[i] == Accepting(chart[i])
  {
    chart := new StateSet[|text| + 1](_ => []);
    chart[0] := [Init(g)];
    accepts := [];
    ok := true;
    for i := 0 to |text| + 1
      invariant i <= |text| ==> chart[..i + 1] == Consumed(g, text[..i])
      invariant forall j :: i < j < chart.Length ==> chart[j] == []
      invariant i == |text| + 1 ==> chart[..] == Consumed(g, text)[..|text|] + [LastClose(g, text).0]
      invariant i == |text| + 1 ==> LastClose(g, text).1 == []
    {
      ok := Position(g, chart, text, i);
      if !ok {
        return;
      }
    }
    var final := chart[..];
    accepts := Report(final);
    assert forall i :: 0 <= i < |accepts| ==> chart[i] == final[i];
  }
}

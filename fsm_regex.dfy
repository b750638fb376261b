/**
 * The front end of python/fsm.py: `_parase_nba_grammar` (the lexer
 * `_lexing`, the operator placement check `_semantic_check`, the parser
 * `_parse_node`, the finiteness check `_post_check`) and `_collect_symbol`.
 *
 * A rule is a regular expression over alphanumeric letters with `+` (or its
 * alias `|`) for union, postfix `*` for finite repetition and postfix `^` for
 * infinite (omega) repetition.  The lexer turns each parenthesised group into
 * one `CatOp` token; the parser applies the postfix operators to the item
 * before them and then splits the item list at the `+` tokens.
 *
 * The Python exceptions become `Err` values: `ValueError` for a bad
 * character, `IndexError` for a `)` without its `(`, and `AssertionError`
 * for each failed `assert`.
 */
module FsmRegex {
  import opened Wrappers

  /** A token: a literal, a parenthesised group of tokens, or one of the three operators. */
  datatype Op = LitOp(val: char) | CatOp(lst: seq<Op>) | AddOp | MulOp | InfOp

  /** The parse tree. */
  datatype Node =
    | LitNode(val: char)
    | CatNode(lst: seq<Node>)
    | AddNode(lst: seq<Node>)
    | MulNode(sub: Node)
    | InfNode(sub: Node)

  datatype Error =
    | InvalidChar(c: char)   // the `ValueError` of `_lexing`
    | UnmatchedOpen          // the "Unmatched parenthesis" assertion
    | UnmatchedClose         // `stack.pop()` on an empty stack
    | InvalidNode            // an "Invalid node" assertion
    | InfiniteStar           // the operand of `*` is infinite
    | InfiniteNotLast        // an infinite item before the end of a concatenation
    | MixedUnion             // a union of finite and infinite alternatives

  // ---------------------------------------------------------------------------
  // Characters

  /** `str.isalnum` on ASCII. */
  predicate IsAlnum(c: char) {
    'a' <= c <= 'z' || 'A' <= c <= 'Z' || '0' <= c <= '9'
  }

  /** `str.isspace` on ASCII: space, tab to carriage return, and the four separators. */
  predicate IsSpace(c: char) {
    c == ' ' || '\t' <= c <= '\r' || '\U{1C}' <= c <= '\U{1F}'
  }

  predicate IsOperator(c: char) {
    c == '*' || c == '+' || c == '|' || c == '^'
  }

  predicate Allowed(c: char) {
    IsAlnum(c) || IsOperator(c) || c == '(' || c == ')' || IsSpace(c)
  }

  /** `_op_map`: `|` is an alias of `+`. */
  function OperatorOp(c: char): (o: Op)
    requires IsOperator(c)
    ensures o.AddOp? || o.MulOp? || o.InfOp?
  {
    if c == '*' then MulOp else if c == '^' then InfOp else AddOp
  }

  // ---------------------------------------------------------------------------
  // What the lexer reads

  /** The rule without white space and with `|` spelled `+`. */
  function Normalize(s: string): string {
    if s == [] then "" else Normalize(s[..|s| - 1]) + NormalizeChar(s[|s| - 1])
  }

  function NormalizeChar(c: char): string {
    if IsSpace(c) then "" else if c == '|' then "+" else [c]
  }

  /** Opened minus closed parentheses. */
  function Depth(s: string): int {
    if s == [] then 0 else Depth(s[..|s| - 1]) + DepthChange(s[|s| - 1])
  }

  function DepthChange(c: char): int {
    if c == '(' then 1 else if c == ')' then -1 else 0
  }

  /** Reading one more character of the rule. */
  lemma ReadChar(rule: string, i: nat)
    requires i < |rule|
    ensures Normalize(rule[..i + 1]) == Normalize(rule[..i]) + NormalizeChar(rule[i])
    ensures Depth(rule[..i + 1]) == Depth(rule[..i]) + DepthChange(rule[i])
    ensures CleanBefore(rule, i) && Allowed(rule[i]) && Depth(rule[..i + 1]) >= 0 ==> CleanBefore(rule, i + 1)
  {
    assert rule[..i + 1][..i] == rule[..i];
  }

  /** No prefix closes more parentheses than it opens, and the whole rule closes them all. */
  predicate Balanced(s: string) {
    (forall k :: 0 <= k <= |s| ==> Depth(s[..k]) >= 0) && Depth(s) == 0
  }

  predicate Lexable(rule: string) {
    (forall i :: 0 <= i < |rule| ==> Allowed(rule[i])) && Balanced(rule)
  }

  /** The lexer has not failed before position `i`. */
  predicate CleanBefore(rule: string, i: nat)
    requires i <= |rule|
  {
    && (forall j :: 0 <= j < i ==> Allowed(rule[j]))
    && (forall k :: 0 <= k <= i ==> Depth(rule[..k]) >= 0)
  }

  /** The error the lexer meets at position `i` when it gets there; position `|rule|` is the final check. */
  function LexErrorAt(rule: string, i: nat): Option<Error>
    requires i <= |rule|
  {
    if i == |rule| then (if Depth(rule) > 0 then Some(UnmatchedOpen) else None)
    else if !Allowed(rule[i]) then Some(InvalidChar(rule[i]))
    else if rule[i] == ')' && Depth(rule[..i]) == 0 then Some(UnmatchedClose)
    else None
  }

  /** The text a token list stands for, with `+` for every union. */
  function Render(o: Op): string
    decreases o, 1
  {
    match o
    case LitOp(c) => [c]
    case CatOp(l) => "(" + RenderList(l) + ")"
    case AddOp => "+"
    case MulOp => "*"
    case InfOp => "^"
  }

  function RenderList(l: seq<Op>): string
    decreases l, 0
  {
    if l == [] then "" else RenderList(l[..|l| - 1]) + Render(l[|l| - 1])
  }

  /** The text of the lexer's stack of open groups under the current list `top`. */
  function RenderStack(stack: seq<seq<Op>>, top: seq<Op>): string {
    if stack == [] then RenderList(top)
    else RenderStack(stack[..|stack| - 1], stack[|stack| - 1]) + "(" + RenderList(top)
  }

  /** Every literal token, at any depth, holds an alphanumeric character. */
  predicate LitsAlnum(o: Op)
    decreases o, 1
  {
    match o
    case LitOp(c) => IsAlnum(c)
    case CatOp(l) => AllLitsAlnum(l)
    case _ => true
  }

  predicate AllLitsAlnum(l: seq<Op>)
    decreases l, 0
  {
    forall i :: 0 <= i < |l| ==> LitsAlnum(l[i])
  }

  lemma AllLitsAlnumPush(l: seq<Op>, o: Op)
    requires AllLitsAlnum(l) && LitsAlnum(o)
    ensures AllLitsAlnum(l + [o])
  {
  }

  lemma RenderStackPush(stack: seq<seq<Op>>, top: seq<Op>, o: Op)
    ensures RenderStack(stack, top + [o]) == RenderStack(stack, top) + Render(o)
  {
    assert (top + [o])[..|top|] == top;
  }

  lemma RenderStackClose(stack: seq<seq<Op>>, top: seq<Op>)
    requires stack != []
    ensures RenderStack(stack[..|stack| - 1], stack[|stack| - 1] + [CatOp(top)]) == RenderStack(stack, top) + ")"
  {
    RenderStackPush(stack[..|stack| - 1], stack[|stack| - 1], CatOp(top));
  }

  /**
   * `_lexing(rule)`: the token list of the whole rule as one `CatOp`.  It
   * succeeds exactly on rules of allowed characters with balanced
   * parentheses, and then renders back to the rule; otherwise it fails with
   * the error of the first position where the scan goes wrong.
   */
  method Lex(rule: string) returns (r: Result<Op, Error>)
    ensures r.Ok? <==> Lexable(rule)
    ensures r.Ok? ==> r.value.CatOp? && RenderList(r.value.lst) == Normalize(rule) && LitsAlnum(r.value)
    ensures r.Err? ==> exists i :: 0 <= i <= |rule| && CleanBefore(rule, i) && LexErrorAt(rule, i) == Some(r.error)
  {
    var stack: seq<seq<Op>> := [];
    var top: seq<Op> := [];
    for i := 0 to |rule|
      invariant LexInv(rule, i, stack, top)
    {
      var next := LexRound(rule, i, stack, top);
      if next.Err? {
        return Err(next.error);
      }
      stack, top := next.value.0, next.value.1;
    }
    assert rule[..|rule|] == rule;
    if stack != [] {
      return Err(UnmatchedOpen);
    }
    r := Ok(CatOp(top));
  }

  /** The lexer after `i` characters: the stack of open groups and the list being filled. */
  predicate LexInv(rule: string, i: nat, stack: seq<seq<Op>>, top: seq<Op>)
    requires i <= |rule|
  {
    && CleanBefore(rule, i)
    && |stack| == Depth(rule[..i])
    && RenderStack(stack, top) == Normalize(rule[..i])
    && AllLitsAlnum(top)
    && forall j :: 0 <= j < |stack| ==> AllLitsAlnum(stack[j])
  }

  /** One character of `_lexing`. */
  method LexRound(rule: string, i: nat, stack: seq<seq<Op>>, top: seq<Op>) returns (r: Result<(seq<seq<Op>>, seq<Op>), Error>)
    requires i < |rule| && LexInv(rule, i, stack, top)
    ensures r.Ok? <==> LexErrorAt(rule, i).None?
    ensures r.Ok? ==> LexInv(rule, i + 1, r.value.0, r.value.1)
    ensures r.Err? ==> LexErrorAt(rule, i) == Some(r.error) && !Lexable(rule)
  {
    var c := rule[i];
    ReadChar(rule, i);
    if IsAlnum(c) {
      RenderStackPush(stack, top, LitOp(c));
      AllLitsAlnumPush(top, LitOp(c));
      r := Ok((stack, top + [LitOp(c)]));
    } else if IsOperator(c) {
      RenderStackPush(stack, top, OperatorOp(c));
      AllLitsAlnumPush(top, OperatorOp(c));
      r := Ok((stack, top + [OperatorOp(c)]));
    } else if c == '(' {
      r := Ok((stack + [top], []));
    } else if c == ')' {
      if stack == [] {
        assert Depth(rule[..i + 1]) < 0;
        return Err(UnmatchedClose);
      }
      RenderStackClose(stack, top);
      var sub := CatOp(top);
      AllLitsAlnumPush(stack[|stack| - 1], sub);
      r := Ok((stack[..|stack| - 1], stack[|stack| - 1] + [sub]));
    } else if IsSpace(c) {
      r := Ok((stack, top));
    } else {
      r := Err(InvalidChar(c));
    }
  }

  // ---------------------------------------------------------------------------
  // Operator placement

  predicate IsOperand(o: Op) {
    o.LitOp? || o.CatOp?
  }

  /**
   * The placement `_semantic_check` demands: every `*` and `^` directly
   * follows a literal or a group, no `+` directly follows a `+`, and every
   * `+` is directly followed by a literal or a group.
   */
  predicate WellPlaced(lst: seq<Op>) {
    && (forall i :: 0 <= i < |lst| && (lst[i].MulOp? || lst[i].InfOp?) ==> 0 < i && IsOperand(lst[i - 1]))
    && (forall i :: 0 < i < |lst| && lst[i].AddOp? ==> !lst[i - 1].AddOp?)
    && (forall i :: 0 <= i < |lst| && lst[i].AddOp? ==> i + 1 < |lst| && IsOperand(lst[i + 1]))
  }

  /** `_semantic_check(lst)`: a forward scan for the postfix operators and `+ +`, a backward scan for `+`. */
  method SemanticCheck(lst: seq<Op>) returns (ok: bool)
    ensures ok <==> WellPlaced(lst)
  {
    // `last` starts as the bare `ASTOp()`, which is neither an operand nor `+`.
    var last: Option<Op> := None;
    for i := 0 to |lst|
      invariant last == if i == 0 then None else Some(lst[i - 1])
      invariant forall j :: 0 <= j < i && (lst[j].MulOp? || lst[j].InfOp?) ==> 0 < j && IsOperand(lst[j - 1])
      invariant forall j :: 0 < j < i && lst[j].AddOp? ==> !lst[j - 1].AddOp?
    {
      var op := lst[i];
      if op.InfOp? || op.MulOp? {
        if !(last.Some? && IsOperand(last.value)) {
          return false;
        }
      } else if op.AddOp? {
        if last.Some? && last.value.AddOp? {
          return false;
        }
      }
      last := Some(op);
    }
    last := None;
    var i := |lst|;
    while i > 0
      invariant 0 <= i <= |lst|
      invariant last == if i == |lst| then None else Some(lst[i])
      invariant forall j :: i <= j < |lst| && lst[j].AddOp? ==> j + 1 < |lst| && IsOperand(lst[j + 1])
    {
      i := i - 1;
      var op := lst[i];
      if op.AddOp? {
        if !(last.Some? && IsOperand(last.value)) {
          return false;
        }
      }
      last := Some(op);
    }
    ok := true;
  }

  // ---------------------------------------------------------------------------
  // The parser

  /** The token lists `_parse_node` accepts: well placed, not empty, and so is every group in it. */
  predicate Parsable(lst: seq<Op>)
    decreases lst
  {
    && WellPlaced(lst) && lst != []
    && forall i :: 0 <= i < |lst| && lst[i].CatOp? ==> Parsable(lst[i].lst)
  }

  /** What a group parses to: one alternative of items, or two or more, of which only the first may be empty. */
  predicate GroupShape(n: Node)
    decreases n, 1
  {
    match n
    case CatNode(items) => items != [] && ItemsShape(items)
    case AddNode(alts) => |alts| >= 2 && AltsShape(alts)
    case _ => false
  }

  predicate ItemsShape(items: seq<Node>)
    decreases items, 4
  {
    forall i :: 0 <= i < |items| ==> ItemShape(items[i])
  }

  /** Alternatives of items, of which only the first may be empty. */
  predicate AltsShape(alts: seq<Node>)
    decreases alts, 4
  {
    forall i :: 0 <= i < |alts| ==> alts[i].CatNode? && (i > 0 ==> alts[i].lst != []) && ItemsShape(alts[i].lst)
  }

  lemma ItemsShapePush(items: seq<Node>, n: Node)
    requires ItemsShape(items) && ItemShape(n)
    ensures ItemsShape(items + [n])
  {
  }

  lemma AltsShapePush(alts: seq<Node>, cur: seq<Node>)
    requires AltsShape(alts) && ItemsShape(cur) && (alts != [] ==> cur != [])
    ensures AltsShape(alts + [CatNode(cur)])
  {
  }

  /** What an operand parses to: a literal or a group. */
  predicate AtomShape(n: Node)
    decreases n, 2
  {
    n.LitNode? || GroupShape(n)
  }

  /** One item of an alternative: an operand, possibly under one `*` or `^`. */
  predicate ItemShape(n: Node)
    decreases n, 3
  {
    match n
    case MulNode(s) => AtomShape(s)
    case InfNode(s) => AtomShape(s)
    case _ => AtomShape(n)
  }

  /** The tokens an item came from. */
  function UnparseItem(n: Node): (r: seq<Op>)
    decreases n, 1
    ensures r != []
  {
    match n
    case LitNode(c) => [LitOp(c)]
    case MulNode(s) => UnparseItem(s) + [MulOp]
    case InfNode(s) => UnparseItem(s) + [InfOp]
    case _ => [CatOp(UnparseGroup(n))]
  }

  function UnparseItems(items: seq<Node>): seq<Op>
    decreases items, 0
  {
    if items == [] then [] else UnparseItems(items[..|items| - 1]) + UnparseItem(items[|items| - 1])
  }

  /** The tokens a group came from: its alternatives joined by `+`. */
  function UnparseGroup(n: Node): seq<Op>
    decreases n, 0
  {
    match n
    case CatNode(items) => UnparseItems(items)
    case AddNode(alts) => UnparseAlts(alts)
    case _ => []
  }

  function UnparseAlts(alts: seq<Node>): seq<Op>
    decreases alts, 0
  {
    if alts == [] then []
    else if |alts| == 1 then UnparseGroup(alts[0])
    else UnparseAlts(alts[..|alts| - 1]) + [AddOp] + UnparseGroup(alts[|alts| - 1])
  }

  /** The tokens behind the first pass's list, `None` standing for a `+`. */
  function Flat(items: seq<Option<Node>>): seq<Op> {
    if items == [] then []
    else Flat(items[..|items| - 1]) + (match items[|items| - 1] case None => [AddOp] case Some(n) => UnparseItem(n))
  }

  lemma FlatPush(items: seq<Option<Node>>, x: Option<Node>)
    ensures Flat(items + [x]) == Flat(items) + Flat([x])
  {
    assert (items + [x])[..|items|] == items;
  }

  lemma UnparseItemsPush(items: seq<Node>, n: Node)
    ensures UnparseItems(items + [n]) == UnparseItems(items) + UnparseItem(n)
  {
    assert (items + [n])[..|items|] == items;
  }

  /**
   * `_parse_node(CatOp(lst))`: the tree of a token list.  It succeeds exactly
   * on parsable lists, and the tree has the shape of a group and gives the
   * tokens back.
   */
  method ParseNode(lst: seq<Op>) returns (r: Result<Node, Error>)
    decreases lst, 2
    ensures r.Ok? <==> Parsable(lst)
    ensures r.Ok? ==> GroupShape(r.value) && UnparseGroup(r.value) == lst
    ensures r.Err? ==> r.error == InvalidNode
  {
    var placed := SemanticCheck(lst);
    if !placed {
      return Err(InvalidNode);
    }
    var items := ApplyPostfix(lst);
    if items.None? {
      return Err(InvalidNode);
    }
    r := SplitAlternatives(lst, items.value);
  }

  /** The first pass of `_parse_node`: the items, with each `*` and `^` wrapping the item before it and `None` for `+`. */
  method ApplyPostfix(lst: seq<Op>) returns (r: Option<seq<Option<Node>>>)
    requires WellPlaced(lst)
    decreases lst, 1
    ensures r.Some? <==> forall i :: 0 <= i < |lst| && lst[i].CatOp? ==> Parsable(lst[i].lst)
    ensures r.Some? ==> Flat(r.value) == lst && Alternating(r.value) && (lst != [] ==> r.value[|r.value| - 1].Some?)
  {
    var items: seq<Option<Node>> := [];
    for i := 0 to |lst|
      invariant PostfixInv(lst, i, items)
      invariant forall j :: 0 <= j < i && lst[j].CatOp? ==> Parsable(lst[j].lst)
    {
      var next := PostfixRound(lst, i, items);
      if next.None? {
        return None;
      }
      items := next.value;
    }
    assert lst[..|lst|] == lst;
    r := Some(items);
  }

  /** The first pass after `i` tokens. */
  predicate PostfixInv(lst: seq<Op>, i: nat, items: seq<Option<Node>>)
    requires i <= |lst|
  {
    && Flat(items) == lst[..i] && Alternating(items)
    && (i > 0 ==> |items| > 0 && (items[|items| - 1].None? <==> lst[i - 1].AddOp?))
    && (i > 0 && IsOperand(lst[i - 1]) ==> AtomShape(items[|items| - 1].value))
  }

  /** One token of the first pass; `None` when the group it is fails to parse. */
  method PostfixRound(lst: seq<Op>, i: nat, items: seq<Option<Node>>) returns (r: Option<seq<Option<Node>>>)
    requires WellPlaced(lst) && i < |lst| && PostfixInv(lst, i, items)
    decreases lst, 0
    ensures r.Some? <==> (lst[i].CatOp? ==> Parsable(lst[i].lst))
    ensures r.Some? ==> PostfixInv(lst, i + 1, r.value)
  {
    var op := lst[i];
    assert lst[..i + 1] == lst[..i] + [op];
    if op.MulOp? || op.InfOp? {
      var last := items[|items| - 1].value;
      var wrapped := if op.MulOp? then MulNode(last) else InfNode(last);
      FlatPush(items[..|items| - 1], Some(last));
      FlatPush(items[..|items| - 1], Some(wrapped));
      AlternatingWrap(items, wrapped);
      assert items == items[..|items| - 1] + [Some(last)];
      r := Some(items[..|items| - 1] + [Some(wrapped)]);
    } else if op.CatOp? {
      var sub := ParseNode(op.lst);
      if sub.Err? {
        return None;
      }
      FlatPush(items, Some(sub.value));
      AlternatingPush(items, Some(sub.value));
      r := Some(items + [Some(sub.value)]);
    } else if op.LitOp? {
      FlatPush(items, Some(LitNode(op.val)));
      AlternatingPush(items, Some(LitNode(op.val)));
      r := Some(items + [Some(LitNode(op.val))]);
    } else {
      FlatPush(items, None);
      AlternatingPush(items, None);
      r := Some(items + [None]);
    }
  }

  /** The first pass's list: items of item shape, and never two `+` in a row. */
  predicate Alternating(items: seq<Option<Node>>) {
    && (forall j :: 0 <= j < |items| && items[j].Some? ==> ItemShape(items[j].value))
    && (forall j :: 0 < j < |items| && items[j].None? ==> items[j - 1].Some?)
  }

  lemma AlternatingPush(items: seq<Option<Node>>, x: Option<Node>)
    requires Alternating(items)
    requires x.Some? ==> ItemShape(x.value)
    requires x.None? && items != [] ==> items[|items| - 1].Some?
    ensures Alternating(items + [x])
  {
  }

  lemma AlternatingWrap(items: seq<Option<Node>>, n: Node)
    requires Alternating(items) && items != [] && items[|items| - 1].Some?
    requires ItemShape(n)
    ensures Alternating(items[..|items| - 1] + [Some(n)])
  {
  }

  /** The second pass of `_parse_node`: split the items at each `+` into alternatives. */
  method SplitAlternatives(ghost lst: seq<Op>, items: seq<Option<Node>>) returns (r: Result<Node, Error>)
    requires Flat(items) == lst && Alternating(items) && (lst != [] ==> items[|items| - 1].Some?)
    requires WellPlaced(lst) && forall i :: 0 <= i < |lst| && lst[i].CatOp? ==> Parsable(lst[i].lst)
    ensures r.Ok? <==> Parsable(lst)
    ensures r.Ok? ==> GroupShape(r.value) && UnparseGroup(r.value) == lst
    ensures r.Err? ==> r.error == InvalidNode
  {
    var alts: seq<Node> := [];
    var cur: seq<Node> := [];
    for i := 0 to |items|
      invariant SplitInv(items, i, alts, cur)
    {
      alts, cur := SplitRound(items, i, alts, cur);
    }
    assert items[..|items|] == items;
    assert Parsable(lst) <==> lst != [];
    if cur == [] {
      return Err(InvalidNode);
    }
    assert items != [] && Flat(items) != [];
    ghost var before := alts;
    AltsShapePush(alts, cur);
    alts := alts + [CatNode(cur)];
    assert alts[..|alts| - 1] == before;
    if |alts| == 1 {
      assert UnparseGroup(alts[0]) == UnparseItems(cur) == lst;
      return Ok(alts[0]);
    }
    assert UnparseAlts(alts) == UnparseAlts(before) + [AddOp] + UnparseItems(cur) == lst;
    r := Ok(AddNode(alts));
  }

  /** The second pass after `i` items: the finished alternatives and the current one. */
  predicate SplitInv(items: seq<Option<Node>>, i: nat, alts: seq<Node>, cur: seq<Node>)
    requires i <= |items|
  {
    && Flat(items[..i]) == (if alts == [] then UnparseItems(cur) else UnparseAlts(alts) + [AddOp] + UnparseItems(cur))
    && ItemsShape(cur) && AltsShape(alts)
    && (i > 0 && items[i - 1].None? ==> cur == [])
    && (i > 0 && items[i - 1].Some? ==> cur != [])
    && (i == 0 ==> alts == [] && cur == [])
  }

  /** One item of the second pass: a `None` closes the current alternative. */
  method SplitRound(items: seq<Option<Node>>, i: nat, alts: seq<Node>, cur: seq<Node>) returns (alts': seq<Node>, cur': seq<Node>)
    requires i < |items| && Alternating(items) && SplitInv(items, i, alts, cur)
    ensures SplitInv(items, i + 1, alts', cur')
  {
    assert items[..i + 1] == items[..i] + [items[i]];
    FlatPush(items[..i], items[i]);
    if items[i].Some? {
      UnparseItemsPush(cur, items[i].value);
      ItemsShapePush(cur, items[i].value);
      alts', cur' := alts, cur + [items[i].value];
    } else {
      AltsShapePush(alts, cur);
      alts' := alts + [CatNode(cur)];
      assert alts'[..|alts'| - 1] == alts;
      cur' := [];
    }
  }

  // ---------------------------------------------------------------------------
  // The finiteness check

  /** The tree holds a `^` somewhere. */
  predicate ContainsInf(n: Node)
    decreases n
  {
    match n
    case LitNode(_) => false
    case InfNode(_) => true
    case MulNode(s) => ContainsInf(s)
    case CatNode(l) => exists j :: 0 <= j < |l| && ContainsInf(l[j])
    case AddNode(l) => exists j :: 0 <= j < |l| && ContainsInf(l[j])
  }

  function CountTrue(bs: seq<bool>): (c: nat)
    ensures c <= |bs|
    ensures c == 0 <==> forall j :: 0 <= j < |bs| ==> !bs[j]
    ensures c == |bs| <==> forall j :: 0 <= j < |bs| ==> bs[j]
  {
    if bs == [] then 0 else CountTrue(bs[1..]) + (if bs[0] then 1 else 0)
  }

  /**
   * `_post_check(node)`: whether the tree is infinite, checking on the way
   * that the operand of `*` is finite, that only the last item of a
   * concatenation is infinite, that the alternatives of a union agree, and
   * that no concatenation or union is empty.  The operand of `^` is not
   * inspected.
   */
  function PostCheck(n: Node): Result<bool, Error>
    decreases n, 1
  {
    match n
    case InfNode(_) => Ok(true)
    case MulNode(s) =>
      (match PostCheck(s)
       case Err(e) => Err(e)
       case Ok(b) => if b then Err(InfiniteStar) else Ok(false))
    case CatNode(l) =>
      if l == [] then Err(InvalidNode)
      else
        (match PostCheckAll(l)
         case Err(e) => Err(e)
         case Ok(bs) =>
           if |bs| != |l| then Err(InvalidNode)
           else if exists j :: 0 <= j < |bs| - 1 && bs[j] then Err(InfiniteNotLast)
           else Ok(bs[|bs| - 1]))
    case AddNode(l) =>
      if l == [] then Err(InvalidNode)
      else
        (match PostCheckAll(l)
         case Err(e) => Err(e)
         case Ok(bs) =>
           var cnt := CountTrue(bs);
           if cnt == 0 || cnt == |l| then Ok(cnt > 0) else Err(MixedUnion))
    case LitNode(_) => Ok(false)
  }

  /** The list comprehension over the children: left to right, the first error wins. */
  function PostCheckAll(l: seq<Node>): Result<seq<bool>, Error>
    decreases l, 0
  {
    if l == [] then Ok([])
    else
      match PostCheckAll(l[..|l| - 1])
      case Err(e) => Err(e)
      case Ok(bs) =>
        match PostCheck(l[|l| - 1])
        case Err(e) => Err(e)
        case Ok(b) => Ok(bs + [b])
  }

  /** The trees `_post_check` accepts, stated without its computed results. */
  predicate Checked(n: Node)
    decreases n
  {
    match n
    case LitNode(_) => true
    case InfNode(_) => true
    case MulNode(s) => Checked(s) && !ContainsInf(s)
    case CatNode(l) =>
      && l != [] && (forall j :: 0 <= j < |l| ==> Checked(l[j]))
      && forall j :: 0 <= j < |l| - 1 ==> !ContainsInf(l[j])
    case AddNode(l) =>
      && l != [] && (forall j :: 0 <= j < |l| ==> Checked(l[j]))
      && ((forall j :: 0 <= j < |l| ==> ContainsInf(l[j])) || (forall j :: 0 <= j < |l| ==> !ContainsInf(l[j])))
  }

  /** `_post_check` accepts exactly the checked trees, and then answers whether the tree holds a `^`. */
  lemma {:induction false} PostCheckMeaning(n: Node)
    decreases n, 1
    ensures PostCheck(n).Ok? <==> Checked(n)
    ensures PostCheck(n).Ok? ==> PostCheck(n).value == ContainsInf(n)
  {
    match n
    case LitNode(_) =>
    case InfNode(_) =>
    case MulNode(s) =>
      PostCheckMeaning(s);
    case CatNode(l) =>
      PostCheckAllMeaning(l);
    case AddNode(l) =>
      PostCheckAllMeaning(l);
  }

  lemma {:induction false} PostCheckAllMeaning(l: seq<Node>)
    decreases l, 0
    ensures PostCheckAll(l).Ok? <==> forall j :: 0 <= j < |l| ==> Checked(l[j])
    ensures PostCheckAll(l).Ok? ==>
      |PostCheckAll(l).value| == |l| && forall j :: 0 <= j < |l| ==> PostCheckAll(l).value[j] == ContainsInf(l[j])
  {
    if l != [] {
      var init, last := l[..|l| - 1], l[|l| - 1];
      PostCheckAllMeaning(init);
      PostCheckMeaning(last);
      assert forall j :: 0 <= j < |init| ==> init[j] == l[j];
      if PostCheckAll(init).Ok? && PostCheck(last).Ok? {
        var bs := PostCheckAll(init).value;
        assert PostCheckAll(l).value == bs + [PostCheck(last).value];
      }
    }
  }

  /**
   * `_post_check` does not look below a `^`: the tree of `(+a)^`, whose
   * union has an empty first alternative, passes, although the same union
   * outside a `^` fails with "Invalid node".
   */
  lemma InfOperandUnchecked()
    ensures var union := AddNode([CatNode([]), CatNode([LitNode('a')])]);
      && PostCheck(InfNode(union)) == Ok(true)
      && PostCheck(union) == Err(InvalidNode)
  {
    var union := AddNode([CatNode([]), CatNode([LitNode('a')])]);
    assert PostCheckAll([CatNode([])]) == Err(InvalidNode);
    assert union.lst[..1] == [CatNode([])];
  }

  // ---------------------------------------------------------------------------
  // Symbols

  /** `_collect_symbol(tree)`: the letters of the tree's literals. */
  function Symbols(n: Node): set<char>
    decreases n, 1
  {
    match n
    case LitNode(c) => {c}
    case CatNode(l) => SymbolsAll(l)
    case AddNode(l) => SymbolsAll(l)
    case MulNode(s) => Symbols(s)
    case InfNode(s) => Symbols(s)
  }

  function SymbolsAll(l: seq<Node>): set<char>
    decreases l, 0
  {
    if l == [] then {} else SymbolsAll(l[..|l| - 1]) + Symbols(l[|l| - 1])
  }

  /** The characters of a string that `str.isalnum` accepts. */
  function AlnumsIn(s: string): set<char> {
    set c | c in s && IsAlnum(c)
  }

  /** The literals of a token list, at any depth. */
  function LitsOf(o: Op): set<char>
    decreases o, 1
  {
    match o
    case LitOp(c) => {c}
    case CatOp(l) => LitsOfList(l)
    case _ => {}
  }

  function LitsOfList(l: seq<Op>): set<char>
    decreases l, 0
  {
    if l == [] then {} else LitsOfList(l[..|l| - 1]) + LitsOf(l[|l| - 1])
  }

  lemma {:induction false} LitsOfListAppend(a: seq<Op>, b: seq<Op>)
    decreases b
    ensures LitsOfList(a + b) == LitsOfList(a) + LitsOfList(b)
  {
    if b != [] {
      assert (a + b)[..|a + b| - 1] == a + b[..|b| - 1];
      LitsOfListAppend(a, b[..|b| - 1]);
    } else {
      assert a + b == a;
    }
  }

  /** The letters of an item's tokens are the letters of the item. */
  lemma {:induction false} ItemLits(n: Node)
    requires ItemShape(n)
    decreases n, 1
    ensures LitsOfList(UnparseItem(n)) == Symbols(n)
  {
    match n
    case LitNode(c) =>
      assert UnparseItem(n)[..0] == [];
    case MulNode(s) =>
      ItemLits(s);
      LitsOfListAppend(UnparseItem(s), [MulOp]);
    case InfNode(s) =>
      ItemLits(s);
      LitsOfListAppend(UnparseItem(s), [InfOp]);
    case _ =>
      GroupLits(n);
      assert UnparseItem(n)[..0] == [];
  }

  lemma {:induction false} GroupLits(n: Node)
    requires GroupShape(n)
    decreases n, 0
    ensures LitsOfList(UnparseGroup(n)) == Symbols(n)
  {
    match n
    case CatNode(items) => ItemsLits(items);
    case AddNode(alts) => AltsLits(alts);
  }

  lemma {:induction false} ItemsLits(items: seq<Node>)
    requires ItemsShape(items)
    decreases items, 0
    ensures LitsOfList(UnparseItems(items)) == SymbolsAll(items)
  {
    if items != [] {
      var init, last := items[..|items| - 1], items[|items| - 1];
      ItemsLits(init);
      ItemLits(last);
      LitsOfListAppend(UnparseItems(init), UnparseItem(last));
    }
  }

  lemma {:induction false} AltsLits(alts: seq<Node>)
    requires AltsShape(alts)
    decreases alts, 0
    ensures LitsOfList(UnparseAlts(alts)) == SymbolsAll(alts)
  {
    if |alts| == 1 {
      ItemsLits(alts[0].lst);
      assert alts[..0] == [];
    } else if |alts| > 1 {
      var init, last := alts[..|alts| - 1], alts[|alts| - 1];
      AltsLits(init);
      ItemsLits(last.lst);
      LitsOfListAppend(UnparseAlts(init), [AddOp]);
      LitsOfListAppend(UnparseAlts(init) + [AddOp], UnparseGroup(last));
    }
  }

  lemma AlnumsAppend(a: string, b: string)
    ensures AlnumsIn(a + b) == AlnumsIn(a) + AlnumsIn(b)
  {
    assert forall c :: c in a + b <==> c in a || c in b;
  }

  /** The alphanumeric characters of a token list's text are its literals. */
  lemma {:induction false} RenderLits(o: Op)
    requires LitsAlnum(o)
    decreases o, 1
    ensures AlnumsIn(Render(o)) == LitsOf(o)
  {
    match o
    case LitOp(c) =>
      assert Render(o) == [c];
    case CatOp(l) =>
      RenderListLits(l);
      AlnumsAppend("(", RenderList(l));
      AlnumsAppend("(" + RenderList(l), ")");
    case AddOp =>
      assert Render(o) == "+";
    case MulOp =>
      assert Render(o) == "*";
    case InfOp =>
      assert Render(o) == "^";
  }

  lemma {:induction false} RenderListLits(l: seq<Op>)
    requires AllLitsAlnum(l)
    decreases l, 0
    ensures AlnumsIn(RenderList(l)) == LitsOfList(l)
  {
    if l != [] {
      RenderListLits(l[..|l| - 1]);
      RenderLits(l[|l| - 1]);
      AlnumsAppend(RenderList(l[..|l| - 1]), Render(l[|l| - 1]));
    }
  }

  /** Dropping white space and respelling `|` keeps the letters. */
  lemma {:induction false} NormalizeAlnums(s: string)
    ensures AlnumsIn(Normalize(s)) == AlnumsIn(s)
  {
    if s != [] {
      var init, c := s[..|s| - 1], s[|s| - 1];
      NormalizeAlnums(init);
      AlnumsAppend(Normalize(init), NormalizeChar(c));
      AlnumsAppend(init, [c]);
      assert init + [c] == s;
      assert AlnumsIn(NormalizeChar(c)) == AlnumsIn([c]);
    }
  }

  /** The letters `_collect_symbol` finds in a parsed rule are the alphanumeric characters of the rule. */
  lemma RuleSymbols(rule: string, tokens: seq<Op>, tree: Node)
    requires RenderList(tokens) == Normalize(rule) && AllLitsAlnum(tokens)
    requires GroupShape(tree) && UnparseGroup(tree) == tokens
    ensures Symbols(tree) == AlnumsIn(rule)
  {
    GroupLits(tree);
    RenderListLits(tokens);
    NormalizeAlnums(rule);
  }

  // ---------------------------------------------------------------------------
  // The whole front end

  /**
   * `_parase_nba_grammar(rule)`: lex, parse and check a rule, giving the
   * tree and whether it is infinite; `tokens` are what the lexer produced
   * and `tree` what the parser built from them.  A rule that does not lex
   * fails with the lexer's first error.  A rule that lexes succeeds exactly
   * when its tokens parse and the tree passes the finiteness check, and
   * otherwise fails with the parser's or the check's error.  A tree it
   * gives back renders to the rule and holds the rule's letters.
   */
  method ParseRule(rule: string) returns (r: Result<(Node, bool), Error>, tokens: seq<Op>, tree: Node)
    ensures !Lexable(rule) ==> r.Err? && exists i :: 0 <= i <= |rule| && CleanBefore(rule, i) && LexErrorAt(rule, i) == Some(r.error)
    ensures Lexable(rule) ==> RenderList(tokens) == Normalize(rule) && AllLitsAlnum(tokens)
    ensures Lexable(rule) && Parsable(tokens) ==> GroupShape(tree) && UnparseGroup(tree) == tokens
    ensures Lexable(rule) ==> (r.Ok? <==> Parsable(tokens) && Checked(tree))
    ensures Lexable(rule) && !Parsable(tokens) ==> r == Err(InvalidNode)
    ensures Lexable(rule) && Parsable(tokens) && r.Err? ==> PostCheck(tree) == Err(r.error)
    ensures r.Ok? ==>
      && r.value.0 == tree && Lexable(rule) && GroupShape(tree) && RenderList(UnparseGroup(tree)) == Normalize(rule)
      && Checked(tree) && r.value.1 == ContainsInf(tree)
      && Symbols(tree) == AlnumsIn(rule)
  {
    tokens, tree := [], LitNode('a');
    var ast := Lex(rule);
    if ast.Err? {
      return Err(ast.error), tokens, tree;
    }
    tokens := ast.value.lst;
    var parsed := ParseNode(tokens);
    if parsed.Err? {
      return Err(parsed.error), tokens, tree;
    }
    tree := parsed.value;
    PostCheckMeaning(tree);
    var checked := PostCheck(tree);
    if checked.Err? {
      return Err(checked.error), tokens, tree;
    }
    RuleSymbols(rule, tokens, tree);
    r := Ok((tree, checked.value));
  }
}

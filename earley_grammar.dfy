/**
 * The value types of the Earley recognisers: symbols, production rules, the
 * grammar table with its text mini-language, and the dotted item `State`.
 * Both recognisers (misc/earley.py and misc/early.py) declare these types
 * with identical text; this module is the single model of both copies.
 */
module EarleyGrammar {
  import opened Wrappers

  /** The distinguished start symbol, written `$` in grammar text. */
  const RootRule: char := '$'

  /** The sentinel the batch recogniser reads after the last input symbol. */
  const EndSymbol: char := '.'

  /** Lower-case letters are terminals. */
  predicate IsTerminal(c: char) {
    'a' <= c <= 'z'
  }

  /** Upper-case letters and `$` are nonterminals. */
  predicate IsNonterminal(c: char) {
    ('A' <= c <= 'Z') || c == RootRule
  }

  /** A production `lhs ::= rhs`; every character of `rhs` is one symbol. */
  datatype Rule = Rule(lhs: char, rhs: string)

  /** The immutable rule table, in declaration order. */
  datatype Grammar = Grammar(rules: seq<Rule>)

  // ---------------------------------------------------------------------------
  // Rule lookup: grammar[symbol]
  // ---------------------------------------------------------------------------

  /** The rules of `rules` whose left side is `symbol`, in their original order. */
  function Filter(rules: seq<Rule>, symbol: char): (r: seq<Rule>)
    ensures forall x :: x in r <==> x in rules && x.lhs == symbol
    ensures |r| <= |rules|
  {
    if rules == [] then []
    else if rules[0].lhs == symbol then [rules[0]] + Filter(rules[1..], symbol)
    else Filter(rules[1..], symbol)
  }

  /** `grammar[symbol]`: every rule whose left side is `symbol`. */
  function RulesFor(g: Grammar, symbol: char): seq<Rule> {
    Filter(g.rules, symbol)
  }

  /** Lookup distributes over concatenation of rule tables, so it keeps declaration order. */
  lemma {:induction false} FilterAppend(a: seq<Rule>, b: seq<Rule>, symbol: char)
    ensures Filter(a + b, symbol) == Filter(a, symbol) + Filter(b, symbol)
  {
    if a == [] {
      assert a + b == b;
    } else {
      assert (a + b)[1..] == a[1..] + b;
      FilterAppend(a[1..], b, symbol);
    }
  }

  /** A single rule is kept exactly when its left side matches. */
  lemma FilterSingle(x: Rule, symbol: char)
    ensures Filter([x], symbol) == if x.lhs == symbol then [x] else []
  {
    assert [x][1..] == [];
  }

  /** The grammar can seed a recogniser: it has at least one `$` rule. */
  predicate HasRoot(g: Grammar) {
    |RulesFor(g, RootRule)| > 0
  }

  // ---------------------------------------------------------------------------
  // str.split(sep) and its inverse
  // ---------------------------------------------------------------------------

  predicate OccursAt(s: string, sep: string, j: int) {
    0 <= j && j + |sep| <= |s| && s[j..j + |sep|] == sep
  }

  predicate Free(s: string, sep: string) {
    forall j :: 0 <= j <= |s| ==> !OccursAt(s, sep, j)
  }

  /** The first occurrence of `sep` in `s` at or after `from`. */
  function FindFrom(s: string, sep: string, from: nat): (r: Option<nat>)
    requires |sep| > 0
    ensures r.Some? ==> from <= r.value && OccursAt(s, sep, r.value)
    ensures forall j :: from <= j && (r.None? || j < r.value) ==> !OccursAt(s, sep, j)
    decreases |s| - from
  {
    if from + |sep| > |s| then None
    else if s[from..from + |sep|] == sep then Some(from)
    else FindFrom(s, sep, from + 1)
  }

  /** Python's `s.split(sep)`: cut at every leftmost non-overlapping occurrence. */
  function Split(s: string, sep: string): (r: seq<string>)
    requires |sep| > 0
    ensures |r| >= 1
    decreases |s|
  {
    match FindFrom(s, sep, 0)
    case None => [s]
    case Some(i) => [s[..i]] + Split(s[i + |sep|..], sep)
  }

  /** Python's `sep.join(parts)`. */
  function Join(parts: seq<string>, sep: string): string
    requires |parts| >= 1
  {
    if |parts| == 1 then parts[0] else parts[0] + sep + Join(parts[1..], sep)
  }

  /** Splitting loses nothing: joining the pieces back gives the original text. */
  lemma {:induction false} SplitJoin(s: string, sep: string)
    requires |sep| > 0
    ensures Join(Split(s, sep), sep) == s
    decreases |s|
  {
    match FindFrom(s, sep, 0)
    case None =>
    case Some(i) =>
      var rest := s[i + |sep|..];
      var tail := Split(rest, sep);
      SplitJoin(rest, sep);
      var parts := [s[..i]] + tail;
      assert Split(s, sep) == parts;
      assert parts[1..] == tail;
      assert Join(parts, sep) == s[..i] + sep + Join(tail, sep);
      assert s[i..i + |sep|] == sep;
      assert s == s[..i] + s[i..i + |sep|] + rest;
  }

  /** No piece of a split contains the separator. */
  lemma {:induction false} SplitPiecesFree(s: string, sep: string)
    requires |sep| > 0
    ensures forall k :: 0 <= k < |Split(s, sep)| ==> Free(Split(s, sep)[k], sep)
    decreases |s|
  {
    match FindFrom(s, sep, 0)
    case None =>
    case Some(i) =>
      var rest := s[i + |sep|..];
      SplitPiecesFree(rest, sep);
      forall j | 0 <= j <= i ensures !OccursAt(s[..i], sep, j) {
        if OccursAt(s[..i], sep, j) {
          assert s[..i][j..j + |sep|] == s[j..j + |sep|];
          assert OccursAt(s, sep, j);
        }
      }
      forall k | 1 <= k < |Split(s, sep)| ensures Free(Split(s, sep)[k], sep) {
        assert Split(s, sep)[k] == Split(rest, sep)[k - 1];
      }
  }

  // ---------------------------------------------------------------------------
  // Grammar.parse: the text mini-language `X ::= alt | alt | ...`
  // ---------------------------------------------------------------------------

  datatype GrammarError =
    | UnpackError(line: string)   // the line does not split into exactly `lhs ::= rhs`
    | BadLeftSide(lhs: string)    // the left side is not one nonterminal character

  /** The characters `str.strip()` removes (the ASCII and Latin-1 subset). */
  predicate IsSpace(c: char) {
    c == ' ' || c == '\t' || c == '\n' || c == '\r' || c == '\U{000B}' || c == '\U{000C}'
    || ('\U{001C}' <= c <= '\U{001F}') || c == '\U{0085}' || c == '\U{00A0}'
  }

  /** `not line.strip()`: the line holds nothing but white space. */
  predicate IsBlank(line: string) {
    forall k :: 0 <= k < |line| ==> IsSpace(line[k])
  }

  /** `line.replace(" ", "")`. */
  function RemoveSpaces(s: string): (r: string)
    ensures forall k :: 0 <= k < |r| ==> r[k] != ' '
  {
    if s == [] then []
    else if s[0] == ' ' then RemoveSpaces(s[1..])
    else [s[0]] + RemoveSpaces(s[1..])
  }

  /** One rule per `|` alternative, all with left side `lhs`. */
  function Alternatives(lhs: char, alts: seq<string>): (r: seq<Rule>)
    ensures |r| == |alts|
    ensures forall k :: 0 <= k < |r| ==> r[k] == Rule(lhs, alts[k])
  {
    if alts == [] then [] else [Rule(lhs, alts[0])] + Alternatives(lhs, alts[1..])
  }

  /** The rules that one non-blank line declares, or the error Python raises for it. */
  function ParseLine(line: string): Result<seq<Rule>, GrammarError> {
    var parts := Split(RemoveSpaces(line), "::=");
    if |parts| != 2 then Err(UnpackError(line))
    else if !(|parts[0]| == 1 && IsNonterminal(parts[0][0])) then Err(BadLeftSide(parts[0]))
    else Ok(Alternatives(parts[0][0], Split(parts[1], "|")))
  }

  /** What the loop of `Grammar.parse` accumulates over `lines`: blank lines are skipped and the first bad line stops it. */
  function ParseLines(lines: seq<string>): Result<seq<Rule>, GrammarError> {
    if lines == [] then Ok([])
    else if IsBlank(lines[0]) then ParseLines(lines[1..])
    else
      match ParseLine(lines[0])
      case Err(e) => Err(e)
      case Ok(rs) =>
        match ParseLines(lines[1..])
        case Err(e) => Err(e)
        case Ok(more) => Ok(rs + more)
  }

  /** The rules a line contributes when the whole text parses: none for a blank line. */
  function LineRules(line: string): seq<Rule> {
    if IsBlank(line) then []
    else match ParseLine(line)
      case Ok(rs) => rs
      case Err(_) => []
  }

  /** The pieces of `ss` one after another. */
  function Concat<T>(ss: seq<seq<T>>): seq<T> {
    if ss == [] then [] else ss[0] + Concat(ss[1..])
  }

  /**
   * `Grammar.parse` in closed form: the text parses exactly when every
   * non-blank line does, and then its rules are those of the lines in order.
   */
  lemma {:induction false} ParseLinesClosed(lines: seq<string>)
    ensures ParseLines(lines).Ok? <==> forall i :: 0 <= i < |lines| && !IsBlank(lines[i]) ==> ParseLine(lines[i]).Ok?
    ensures ParseLines(lines).Ok? ==>
      ParseLines(lines).value == Concat(seq(|lines|, i requires 0 <= i < |lines| => LineRules(lines[i])))
  {
    if lines != [] {
      var rest := lines[1..];
      ParseLinesClosed(rest);
      var pieces := seq(|lines|, i requires 0 <= i < |lines| => LineRules(lines[i]));
      assert pieces[1..] == seq(|rest|, i requires 0 <= i < |rest| => LineRules(rest[i]));
      assert forall i :: 0 < i < |lines| ==> lines[i] == rest[i - 1];
    }
  }

  /** The position of the first non-blank line that does not parse, or the number of lines when there is none. */
  function FirstBadLine(lines: seq<string>): (k: nat)
    ensures k <= |lines|
    ensures k < |lines| ==> !IsBlank(lines[k]) && ParseLine(lines[k]).Err?
    ensures forall j :: 0 <= j < k && !IsBlank(lines[j]) ==> ParseLine(lines[j]).Ok?
  {
    if lines == [] then 0
    else if !IsBlank(lines[0]) && ParseLine(lines[0]).Err? then 0
    else
      var k := 1 + FirstBadLine(lines[1..]);
      assert forall j :: 0 < j < |lines| ==> lines[j] == lines[1..][j - 1];
      k
  }

  /** `Grammar.parse` fails exactly when some non-blank line fails, with the error of the first such line. */
  lemma {:induction false} ParseLinesFirstError(lines: seq<string>)
    ensures ParseLines(lines).Err? <==> FirstBadLine(lines) < |lines|
    ensures ParseLines(lines).Err? ==> ParseLines(lines).error == ParseLine(lines[FirstBadLine(lines)]).error
  {
    if lines != [] && !(!IsBlank(lines[0]) && ParseLine(lines[0]).Err?) {
      ParseLinesFirstError(lines[1..]);
      if FirstBadLine(lines) < |lines| {
        assert lines[FirstBadLine(lines)] == lines[1..][FirstBadLine(lines[1..])];
      }
    }
  }

  /**
   * A well-formed rule line `X ::= a | b | ...` (spaces anywhere) yields exactly one rule
   * per alternative, in order, each with left side X; the alternatives contain no space
   * and no `|`, an empty alternative is an epsilon rule, and joining the right sides with
   * `|` gives back the right side of the line with its spaces removed.
   */
  lemma ParseLineAlternatives(line: string)
    requires ParseLine(line).Ok?
    ensures var parts := Split(RemoveSpaces(line), "::=");
      && |parts| == 2 && |parts[0]| == 1 && IsNonterminal(parts[0][0])
      && var rs := ParseLine(line).value;
      && |rs| >= 1
      && (forall k :: 0 <= k < |rs| ==> rs[k].lhs == parts[0][0])
      && (forall k :: 0 <= k < |rs| ==> Free(rs[k].rhs, "|") && ' ' !in rs[k].rhs)
      && Join(seq(|rs|, k requires 0 <= k < |rs| => rs[k].rhs), "|") == parts[1]
  {
    var parts := Split(RemoveSpaces(line), "::=");
    var alts := Split(parts[1], "|");
    var rs := ParseLine(line).value;
    SplitJoin(parts[1], "|");
    SplitPiecesFree(parts[1], "|");
    SplitJoin(RemoveSpaces(line), "::=");
    assert RemoveSpaces(line) == parts[0] + "::=" + parts[1];
    forall k | 0 <= k < |rs| ensures ' ' !in rs[k].rhs {
      SpaceFreeSplit(parts[1], alts, k);
    }
    assert seq(|rs|, k requires 0 <= k < |rs| => rs[k].rhs) == alts;
  }

  /** Pieces of a text without spaces have no spaces. */
  lemma SpaceFreeSplit(s: string, pieces: seq<string>, k: nat)
    requires ' ' !in s
    requires pieces == Split(s, "|") && k < |pieces|
    ensures ' ' !in pieces[k]
  {
    SplitJoin(s, "|");
    JoinContains(pieces, "|", k);
    assert multiset(s)[' '] == 0;
    assert multiset(pieces[k])[' '] == 0;
  }

  lemma {:induction false} JoinContains(parts: seq<string>, sep: string, k: nat)
    requires |parts| >= 1 && k < |parts|
    ensures multiset(parts[k]) <= multiset(Join(parts, sep))
  {
    if |parts| > 1 {
      if k > 0 {
        JoinContains(parts[1..], sep, k - 1);
      }
    }
  }

  lemma RemoveSpacesFree(s: string)
    ensures ' ' !in RemoveSpaces(s)
  {
  }

  /** `Grammar.parse(text)`: one rule line per line of text, blank lines skipped. */
  method Parse(text: string) returns (r: Result<Grammar, GrammarError>)
    ensures r.Ok? <==> ParseLines(Split(text, "\n")).Ok?
    ensures r.Ok? ==> r.value.rules == ParseLines(Split(text, "\n")).value
    ensures r.Err? ==> r.error == ParseLines(Split(text, "\n")).error
  {
    var lines := Split(text, "\n");
    var results: seq<Rule> := [];
    var i := 0;
    while i < |lines|
      invariant 0 <= i <= |lines|
      invariant ParseLines(lines).Ok? ==>
        ParseLines(lines[i..]).Ok? && ParseLines(lines).value == results + ParseLines(lines[i..]).value
      invariant ParseLines(lines).Err? ==> ParseLines(lines[i..]) == ParseLines(lines)
    {
      var line := lines[i];
      assert lines[i..][0] == line && lines[i..][1..] == lines[i + 1..];
      if !IsBlank(line) {
        var parsed := ParseLine(line);
        if parsed.Err? {
          return Err(parsed.error);
        }
        results := results + parsed.value;
      }
      i := i + 1;
    }
    assert lines[i..] == [];
    return Ok(Grammar(results));
  }

  // ---------------------------------------------------------------------------
  // State: the dotted item (rule, dot position, origin)
  // ---------------------------------------------------------------------------

  /** Item `name -> expr[..pos] • expr[pos..]`, begun at chart position `start`. */
  datatype State = State(name: char, expr: string, pos: nat, start: nat)

  /** The item at the dot's start for `rule`, begun at `start` (`State(*rule, start=start)`). */
  function Fresh(rule: Rule, start: nat): State {
    State(rule.lhs, rule.rhs, 0, start)
  }

  predicate Terminated(s: State) {
    s.pos >= |s.expr|
  }

  /** The symbol after the dot, or None once the item has terminated. */
  function Symbol(s: State): (r: Option<char>)
    ensures r.None? <==> Terminated(s)
    ensures r.Some? ==> r.value == s.expr[s.pos]
  {
    if Terminated(s) then None else Some(s.expr[s.pos])
  }

  /** The symbol after the dot when it is a nonterminal. */
  function NonterminalSymbol(s: State): (r: Option<char>)
    ensures r.Some? <==> Symbol(s).Some? && IsNonterminal(Symbol(s).value)
    ensures r.Some? ==> r == Symbol(s)
  {
    match Symbol(s)
    case None => None
    case Some(c) => if IsNonterminal(c) then Some(c) else None
  }

  /** `next(state)`: the dot moved over one symbol. */
  function Next(s: State): State {
    State(s.name, s.expr, s.pos + 1, s.start)
  }

  /**
   * Advancing an unfinished item moves the dot by exactly one symbol and keeps the rule
   * and the origin; the dot never passes the end of the rule, and the advanced item
   * exposes the following symbol.
   */
  lemma NextAdvances(s: State)
    requires !Terminated(s)
    ensures Next(s).name == s.name && Next(s).expr == s.expr && Next(s).start == s.start
    ensures Next(s).pos == s.pos + 1 <= |s.expr|
    ensures Symbol(Next(s)) == if s.pos + 1 < |s.expr| then Some(s.expr[s.pos + 1]) else None
    ensures Next(s) != s
  {
  }
}

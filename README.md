# A verified model of the Earley recognisers, the LTL model checker and the ω-regex automaton helpers

This project models, in Dafny, the algorithmic parts of a small formal-methods repository and proves what they promise.

- **Earley recognisers** (`misc/earley.py`, `misc/early.py`). A grammar is parsed from its one-line-per-rule text into rules. Items are (rule, dot, origin) values. The resumable `Parser` keeps one item set per input position and closes the pending set with a first-in first-out worklist of predict, complete and scan. The batch `parse` fills a preallocated chart in the same way. Both are methods proved against one specification of a worklist turn (`EarleyClosure.Step`) and its repetition (`Drain`). The lemmas show that:
  - the chart has one set per symbol read plus one;
  - origins never pass the position, and closed positions never change;
  - the closure terminates and holds each item once;
  - the seeds of the next set are exactly the advanced items matching the symbol;
  - acceptance at a position is a finished `$` item there;
  - the batch chart equals the resumable parser's finalised chart.
- **Bitsets** (`csrc/include/utils/bitset.h`, `csrc/include/utils/dynamic_bitset.h`). The 64-bit `bitset` is a value: a 64-bit base and a length, with the invariant that no bit at or past the length is set. The word-vector `dynamic_bitset` is a class whose word sequence the methods rewrite in place.
- **LTL to automata** (`csrc/cpp/automa_aux.h`, `csrc/cpp/gnba.cpp`, `csrc/cpp/automa.cpp`, `csrc/cpp/nba.cpp`).
  - Formula indices with negation as bitwise complement, and formula entries in canonical form.
  - The collector that rewrites a tree into the core operators ¬, X, ∧ and U with hash-consing. The lemmas prove that every index denotes the rewrite of its node.
  - The enumeration of elementary sets. `check` is proved against the unique conjunction completion.
  - The generalised Büchi automaton: initial states, transitions and one acceptance set per until formula. The end-to-end build uses the corrected `map`, `prepare`, successor helper and initial-state test of "## Findings"; the corrected successor helper is proved equal to `can_visit`, and the helper as written in csrc/cpp/gnba.cpp is shown to differ from it on `X true` and `X false`. The earlier variant of the successor helper is modelled too.
  - The degeneralisation into `k` layered copies.
- **Product search** (`csrc/cpp/verifier.cpp`). The successor relation `for_each_post`, the nested depth-first search of `reachable_cycle` and `cycle_check` with its shared visited set, `can_run`, and `verifyLTL`. The search is proved to answer exactly whether an accepting cycle is reachable in the product graph. `verifyLTL` returns that answer for the Büchi automaton that degeneralises the generalised automaton built for the negated formula.
- **ω-regex and automata** (`python/fsm.py`).
  - The lexer, the placement check, the two-pass parser and the finiteness check of the rule language, with `_collect_symbol`.
  - The `FSM` class: `add_edges`, `complement`, the rank-group and start checks, and `to_dfa`. `to_dfa` is proved to build the subset construction, and the subset automaton accepts the NFA's language. `complement` of a complete deterministic automaton accepts exactly the rejected words.

`wrappers.dfy` holds the `Option` and `Result` types. Runtime failures of the source become results:
- Python assertions, `IndexError` and `ValueError`;
- failed `assume` checks of the C++ code when they depend on input;
- out-of-range bitset subscripts.

Preconditions that the C++ code states for its callers become `requires` clauses.

## Model

| member | source | states |
|---|---|---|
| EarleyGrammar.Filter | misc/earley.py:42-43 | `grammar[symbol]` keeps exactly the rules whose left side is `symbol`, and never more rules than the table has |
| EarleyGrammar.FilterAppend | misc/earley.py:42-43 | lookup distributes over concatenation of rule tables, so the rules come back in declaration order |
| EarleyGrammar.FilterSingle | misc/earley.py:42-43 | a single rule is kept exactly when its left side is the symbol looked up |
| EarleyGrammar.FindFrom | misc/earley.py:37 | the first occurrence of the separator at or after a position: it is an occurrence, and none comes before it |
| EarleyGrammar.Split | misc/earley.py:34-39 | `str.split` always yields at least one piece |
| EarleyGrammar.SplitJoin | misc/earley.py:34-39 | splitting loses nothing: joining the pieces with the separator gives the text back |
| EarleyGrammar.SplitPiecesFree | misc/earley.py:39 | no piece of a split contains the separator, so no alternative contains `\|` |
| EarleyGrammar.RemoveSpaces | misc/earley.py:37 | `replace(" ", "")` leaves no space in the line |
| EarleyGrammar.Alternatives | misc/earley.py:39 | one rule per alternative, in order, each with the line's left side |
| EarleyGrammar.ParseLineAlternatives | misc/earley.py:35-39 | an accepted line has exactly one `::=`, a one-symbol nonterminal left side, and one space-free, `\|`-free rule per alternative whose right sides joined by `\|` are the line's right side |
| EarleyGrammar.ParseLinesClosed | misc/earley.py:32-40 | the loop's result in closed form: it succeeds exactly when every non-blank line parses, and then its rules are the lines' rules in order |
| EarleyGrammar.FirstBadLine | misc/earley.py:32-40 | the first non-blank line that does not parse, with every non-blank line before it parsing |
| EarleyGrammar.ParseLinesFirstError | misc/earley.py:32-40 | the loop fails exactly when some non-blank line does not parse, and then with the error of the first such line |
| EarleyGrammar.Parse | misc/earley.py:32-40 | `Grammar.parse` gives the loop's result over the lines of the text: succeeds exactly when every non-blank line is a well-formed rule line, and then yields their rules in order; otherwise it reports the first bad line's error |
| EarleyGrammar.Symbol | misc/earley.py:55-56 | there is no next symbol exactly when the item has terminated; otherwise it is the symbol after the dot |
| EarleyGrammar.NonterminalSymbol | misc/earley.py:58-61 | a result exactly when the next symbol exists and is a nonterminal, and then it is that symbol |
| EarleyGrammar.NextAdvances | misc/earley.py:63-64 | `next(state)` moves the dot by one, keeps rule and origin, never passes the end, and exposes the following symbol |
| EarleyClosure.AddTo | misc/earley.py:111-113 | `set.add` keeps the set free of duplicates and its members are the old ones plus the new item |
| EarleyClosure.Advance | misc/earley.py:81-86 | completion yields at most one advanced item per item of the origin set |
| EarleyClosure.CompleteFrom | misc/earley.py:81-86 | the loop of `_complete` collects exactly the origin set's waiting items, advanced, in order |
| EarleyClosure.Predict | misc/earley.py:88-92 | `_predict` yields one fresh item per rule of the symbol, in rule order, begun at the current position |
| EarleyClosure.AdvanceMember | misc/earley.py:81-86 | an item is a completion result exactly when it is `next(r)` for some `r` of the origin set waiting for the finished nonterminal |
| EarleyClosure.AdvanceAppend | misc/earley.py:83 | completion over a set built in two parts is the completions of the parts, in order |
| EarleyClosure.AdvanceWf | misc/earley.py:81-86 | completion keeps items well formed: rule in the grammar, dot within the rule, origin not after the position |
| EarleyClosure.PredictWf | misc/earley.py:88-92 | predicted items are well formed at the current position |
| EarleyClosure.CompleteWf | misc/earley.py:81-86 | completing a well-formed finished item gives well-formed items |
| EarleyClosure.Shrinks | misc/earley.py:111-113 | inserting an item not yet in the set brings it strictly closer to the finite set of all well-formed items (why the closure loop ends) |
| EarleyClosure.Step | misc/earley.py:109-119 | one turn of the worklist loop: the popped item is in the set afterwards, it is inserted only when new, the next position's set only grows, and either the queue shrinks or the set grows |
| EarleyClosure.Drain | misc/earley.py:109-119 | the loop run to an empty queue: the set and the next position's set only grow from where they started |
| EarleyClosure.StepShape | misc/earley.py:111-119 | one turn keeps both sets duplicate free and the next set's items well formed at the next position |
| EarleyClosure.DrainShape | misc/earley.py:109-119 | the closed set and the seeds of the next position never hold an item twice, and the seeds are well formed there |
| EarleyClosure.DrainKeepsFirst | misc/earley.py:109-113 | the first pending item always ends up in the closed set |
| EarleyClosure.StepSeeds | misc/earley.py:118-119 | one turn adds to the next position exactly `next(s)` for a newly inserted item `s` whose next symbol is the token |
| EarleyClosure.DrainSeeds | misc/earley.py:94-96 | the seeds of the next position are exactly the newly closed items whose next symbol is the token, advanced over it; the finaliser seeds nothing |
| EarleyClosure.StepClosed | misc/earley.py:114-117 | one turn keeps every demand of an inserted item (its predictions, its completions against earlier positions) either in the set or still queued |
| EarleyClosure.DrainClosed | misc/earley.py:109-119 | the closed set is closed under prediction and under completion of every finished item begun at an earlier position |
| EarleyClosure.StepEndSymbol | misc/early.py:91-105 | when no rule mentions `.`, a turn that scans `.` is a turn that scans nothing |
| EarleyClosure.DrainEndSymbol | misc/early.py:91-105 | when no rule mentions `.`, the last closure of the batch recogniser equals the finaliser's and seeds nothing |
| EarleyClosure.Init | misc/earley.py:79 | the seed item is the first `$` rule with the dot at 0 and origin 0, and is well formed |
| EarleyClosure.ConsumeStep | misc/earley.py:98-119 | `_consume` adds exactly one position and keeps the chart well formed and duplicate free |
| EarleyClosure.Consumed | misc/earley.py:76-79 | a parser that consumed `text` has one position per symbol plus one, all well formed |
| EarleyClosure.Finalized | misc/earley.py:121-134 | `_finalize` closes the last position without adding one and keeps the chart well formed |
| EarleyClosure.ConsumedStable | misc/earley.py:103-107 | consuming more input never changes a position already closed |
| EarleyClosure.ConsumedAt | misc/earley.py:103-119 | position `p` of a consumed chart is the closure of what was pending there after the first `p` symbols |
| EarleyClosure.ConsumedSeeds | misc/earley.py:94-96 | after consuming `c`, the new pending set holds exactly `next(s)` for the items `s` of the set just closed whose next symbol is `c` |
| EarleyClosure.ConsumedClosed | misc/earley.py:109-119 | every closed position is closed under prediction and under completion of finished items begun earlier |
| EarleyClosure.ConsumedLast | misc/earley.py:103-107 | the two positions `_consume(c)` leaves, in terms of the chart before it |
| EarleyClosure.ConsumedDeadStep | misc/earley.py:103-119 | closing an empty pending set gives an empty set and seeds nothing; a non-empty one stays non-empty |
| EarleyClosure.ConsumedDeadNext | misc/earley.py:94-96 | an empty closed position seeds an empty next position |
| EarleyClosure.ConsumedDeadEnd | misc/earley.py:151-155 | once a position is empty every later position is empty: a dead parse never resurrects |
| EarleyParser.TerminalPrefix | misc/earley.py:153-154 | the number of leading symbols `read` consumes before one that is not a terminal, never more than the text |
| EarleyParser.TerminalPrefixAt | misc/earley.py:99-100 | the symbols before that count are terminals and the one at it is not |
| EarleyParser.Parser.constructor | misc/earley.py:76-79 | a new parser has read nothing and holds one set with the fresh item of the first `$` rule |
| EarleyParser.Parser.Scan | misc/earley.py:94-96 | `_scan` changes only the set after `start`, adding the advanced item exactly when its next symbol is the token |
| EarleyParser.Parser.Turn | misc/earley.py:109-119 | one turn of the worklist loop on the real sets is the specification's turn `Step`, leaving the closed positions alone |
| EarleyParser.Parser.Close | misc/earley.py:109-119 | the worklist loop leaves the chart as the closed prefix followed by the specification's closure (and seed set, when scanning) |
| EarleyParser.Parser.Consume | misc/earley.py:98-119 | `_consume` accepts exactly a single terminal and then records it; anything else leaves the parser as it was (where the source's assert fails) |
| EarleyParser.Parser.Finalize | misc/earley.py:121-143 | `_finalize` leaves the finalised chart and reports, from `pos` on (1 counting as 0), whether each position holds a finished `$` item |
| EarleyParser.Parser.Print | misc/earley.py:145-149 | `_print` reports on the finalised chart of a copy and leaves this parser untouched |
| EarleyParser.Parser.Read | misc/earley.py:151-156 | `read` records the terminal prefix of the text, succeeds exactly when all of it is terminal, and then reports from the old length of the chart, the first position this call adds (from 0 on the first call, where position 1 is reported as 0) |
| EarlyBatch.BatchIsFinalized | misc/early.py:91-105 | when no rule mentions `.`, the batch recogniser never scans past the end, and its chart is the resumable parser's finalised chart |
| EarlyBatch.Scan | misc/early.py:87-89 | `_scan` adds the advanced item to the set after `start`; it fails (the source's IndexError) exactly when it matches at the last slot |
| EarlyBatch.Turn | misc/early.py:95-105 | one turn of the worklist loop on the array is the specification's turn `Step`, and fails only on a scan into a slot that does not exist |
| EarlyBatch.CloseAt | misc/early.py:93-105 | the worklist loop at position `i` leaves the closure in slot `i` and the seeds in slot `i + 1`, and fails exactly when the last slot would be scanned past |
| EarlyBatch.ConsumedNext | misc/early.py:92-105 | closing position `i` with symbol `text[i]` gives the chart of the first `i + 1` symbols |
| EarlyBatch.Position | misc/early.py:92-105 | one outer round leaves the array equal to the consumed chart of the symbols so far, or at the end to the chart closed with the sentinel |
| EarlyBatch.Report | misc/early.py:107-108 | one acceptance flag per position: whether it holds a finished `$` item |
| EarlyBatch.Parse | misc/early.py:70-108 | `parse` fails exactly when the sentinel would be scanned past the end; otherwise the chart is the consumed chart closed with the sentinel, and the flags report acceptance per position |
| FixedBitset.New | csrc/include/utils/bitset.h:167-169 | `bitset(n)` for `n <= 64` has length `n` and every bit clear |
| FixedBitset.Assign | csrc/include/utils/bitset.h:211-214 | writing through `operator[]` sets bit `i` to the value and leaves every other bit alone |
| FixedBitset.Reset | csrc/include/utils/bitset.h:198 | `reset()` clears every bit and keeps the length |
| FixedBitset.SetAt | csrc/include/utils/bitset.h:174-178 | `set_at(n, shift, rhs)` has length `n`, bit `i + shift` equal to `rhs[i]`, and every other bit clear |
| FixedBitset.Expand | csrc/include/utils/bitset.h:180-185 | `expand(n)` keeps the bits and clears the new positions |
| FixedBitset.Subset | csrc/include/utils/bitset.h:187-192 | `subset(n)` keeps the first `n` bits under length `n`, for `n < 64` where the shift is defined |
| FixedBitset.SetAll | csrc/include/utils/bitset.h:200-204 | `set_all()` sets every bit below the length and nothing beyond it |
| FixedBitset.And | csrc/include/utils/bitset.h:238-241 | `operator&` is the bitwise and of two bitsets of one length |
| FixedBitset.EqualIffSameBits | csrc/include/utils/bitset.h:243-246 | comparing the 64-bit bases is comparing the bits below the length, because no bit past the length is ever set |
| FixedBitset.ToString | csrc/include/utils/bitset.h:216-222 | `to_string()` has one character per bit, `'1'` exactly where the bit is set |
| FixedBitset.FindFrom | csrc/include/utils/bitset.h:139-142 | the first set bit at or after the position, or 64 when there is none: `_Find_first()` from 0, and `_Find_next(i - 1)`, which searches strictly after `i - 1`, from `i > 0` |
| FixedBitset.IndicesFromSpec | csrc/include/utils/bitset.h:134-157 | iterating from a position yields, in increasing order, exactly the set bits at or after it |
| FixedBitset.IndicesSpec | csrc/include/utils/bitset.h:230-236 | `for (auto i : b)` visits the set bits in increasing order, each once |
| DynamicBitset.Required | csrc/include/utils/dynamic_bitset.h:102-104 | `s_required(n)` is the fewest 64-bit words that hold `n` bits |
| DynamicBitset.SetWordBit | csrc/include/utils/dynamic_bitset.h:53-57 | or-ing in `1ULL << k` or and-ing with its complement sets bit `k` to the value and no other bit of the word |
| DynamicBitset.OrWord | csrc/include/utils/dynamic_bitset.h:72 | `\|` on words is the bitwise or |
| DynamicBitset.AndWord | csrc/include/utils/dynamic_bitset.h:79 | `&` on words is the bitwise and |
| DynamicBitset.XorWord | csrc/include/utils/dynamic_bitset.h:86 | `^` on words is the bitwise exclusive or |
| DynamicBitset.BitsOfUpdate | csrc/include/utils/dynamic_bitset.h:105-107 | rewriting one word changes exactly the bits `k` with `k / 64` equal to that word's index |
| DynamicBitset.WordsEqualSeesPadding | csrc/include/utils/bitset.h:100 | a bitset built all-ones of length 3 and one with its three bits set one by one expose the same bits and still compare unequal under the defaulted `operator==` |
| DynamicBitset.DynamicBitset.constructor | csrc/include/utils/dynamic_bitset.h:19-21 | `dynamic_bitset(n, value)` has length `n`, one word per 64 bits, every word all ones or all zeros, and every exposed bit equal to `value` |
| DynamicBitset.DynamicBitset.TestIsContents | csrc/include/utils/dynamic_bitset.h:44-48 | `test(i)` reads bit `i % 64` of word `i / 64`, which is bit `i` of the contents |
| DynamicBitset.DynamicBitset.Set | csrc/include/utils/dynamic_bitset.h:50-58 | `set(i, value)` rewrites only word `i / 64`; afterwards `test(i) == value` and no other bit changed |
| DynamicBitset.DynamicBitset.SetIndices | csrc/include/utils/dynamic_bitset.h:28-33 | `set_indices` sets exactly the listed bits and keeps every other bit |
| DynamicBitset.DynamicBitset.Resize | csrc/include/utils/dynamic_bitset.h:35-38 | `resize(n)` truncates the words or pads them with zero words; bits kept from before keep their value, including padding bits that become exposed again |
| DynamicBitset.DynamicBitset.Reset | csrc/include/utils/dynamic_bitset.h:60-63 | `reset()` zeroes every word and keeps the length |
| DynamicBitset.DynamicBitset.OrWith | csrc/include/utils/dynamic_bitset.h:69-74 | `\|=` ors word by word, also when the argument is the object itself |
| DynamicBitset.DynamicBitset.AndWith | csrc/include/utils/dynamic_bitset.h:76-81 | `&=` ands word by word, also when the argument is the object itself |
| DynamicBitset.DynamicBitset.XorWith | csrc/include/utils/dynamic_bitset.h:83-88 | `^=` xors word by word; with itself as argument every word becomes zero |
| DynamicBitset.DynamicBitset.ToString | csrc/include/utils/dynamic_bitset.h:90-95 | `to_string()` has one character per bit, `'1'` exactly where the bit is set and `'0'` elsewhere |
| DynamicBitset.DynamicBitset.SameBitsIsContents | csrc/include/utils/bitset.h:100 | the corrected comparison holds exactly when the exposed bits are equal |
| DynamicBitset.DynamicBitset.WordsEqualImpliesSameBits | csrc/include/utils/bitset.h:100 | equal raw words always mean equal exposed bits |
| Formulas.Not | csrc/cpp/automa_aux.h:21-23 | `operator~` is the two's-complement complement: `~i == -i - 1`, which flips the sign |
| Formulas.Original | csrc/cpp/automa_aux.h:35-37 | `original()` is the index itself when non-negative and its complement otherwise, never above INT64_MAX |
| Formulas.NotNot | csrc/cpp/automa_aux.h:21-23 | `~` is an involution |
| Formulas.OriginalOfNot | csrc/cpp/automa_aux.h:25-37 | an index and its complement name the same entry with opposite signs |
| Formulas.Constants | csrc/cpp/automa_aux.h:48-49 | `True` is positive, `False == ~True` is its negation, and both name entry INT64_MAX |
| Formulas.NotInjective | csrc/cpp/automa_aux.h:21-23 | two indices are equal exactly when their complements are |
| Formulas.MakeAtomic | csrc/cpp/automa_aux.h:55-59 | an atomic node holds its operand, with the right operand left at 0 |
| Formulas.MakeNext | csrc/cpp/automa_aux.h:61-65 | a next node holds its operand, with the right operand left at 0 |
| Formulas.MakeConj | csrc/cpp/automa_aux.h:67-75 | a conjunction node stores the same two operands, the smaller raw index first |
| Formulas.MakeUntil | csrc/cpp/automa_aux.h:76-78 | an until node keeps its operand order |
| Formulas.ConjCommutes | csrc/cpp/automa_aux.h:70-75 | the two operand orders of a conjunction give one node |
| Formulas.ConjEqual | csrc/cpp/automa_aux.h:67-81 | two conjunction nodes are equal exactly when their operand pairs are equal up to order |
| Formulas.Classification | csrc/cpp/automa_aux.h:89-111 | every node is exactly one of atomic, unary or binary; binary means conjunction or until, and uncertain means next or until |
| LtlTree.Count | csrc/include/LTL/node_impl.h:6-53 | every tree has at least one node |
| LtlTree.NegNeg | csrc/cpp/gnba.cpp:101-102 | negating twice gives back a formula without a double negation at its top |
| LtlTree.RewriteNormal | csrc/cpp/gnba.cpp:99-127 | the rewrites of `build` never produce a double negation |
| LtlTree.SameRefl | csrc/cpp/automa_aux.h:67-81 | every formula equals itself up to the order of conjunction operands |
| LtlTree.SameNeg | csrc/cpp/gnba.cpp:101-102 | negation respects equality up to conjunction order |
| LtlTree.RewriteNotNot | csrc/cpp/gnba.cpp:101-102 | a double negation in the tree rewrites to the formula itself, since `~` is an involution on indices |
| Collector.DenoteEntry | csrc/cpp/gnba.cpp:132-150 | an entry of a topologically ordered list denotes a formula that is never a negation at its top |
| Collector.DenoteNot | csrc/cpp/automa_aux.h:21-23 | the complement of an index denotes the negation of what the index denotes |
| Collector.DenoteExtend | csrc/cpp/gnba.cpp:84-87 | appending entries does not change what existing indices denote |
| Collector.DenoteEntryExtend | csrc/cpp/gnba.cpp:84-87 | appending entries does not change what existing entries denote |
| Collector.FormulaCollector.constructor | csrc/cpp/gnba.cpp:64-68 | a new collector holds one atomic entry per proposition and has visited and mapped nothing |
| Collector.FormulaCollector.MappingStable | csrc/cpp/gnba.cpp:84-87 | appending entries keeps every recorded node's index denoting the node's rewrite |
| Collector.FormulaCollector.Intern | csrc/cpp/gnba.cpp:81-89 | `for2id` returns the stored index of an equal node, or appends the node and returns its new index; either way the entry at the index is the node |
| Collector.FormulaCollector.Update | csrc/cpp/gnba.cpp:91-94 | `update` records the node's index and changes nothing else |
| Collector.FormulaCollector.Build | csrc/cpp/gnba.cpp:76-130 | `build` returns an index denoting the tree's rewrite (up to conjunction order), grows the list by at most one entry per node, keeps it topological and duplicate free, and maps every non-atomic node to its result |
| Collector.FormulaCollector.BuildUnary | csrc/cpp/gnba.cpp:99-108 | not, next, eventually and always are rewritten to their core formulas |
| Collector.FormulaCollector.BuildBinary | csrc/cpp/gnba.cpp:109-119 | and, or, until and implies are rewritten to their core formulas |
| Collector.FormulaCollector.BuildPair | csrc/cpp/gnba.cpp:110-111 | both operands are built, left first, and each denotes its own rewrite |
| Collector.FormulaCollector.Negated | csrc/cpp/gnba.cpp:102 | the complement of an index denotes the negation |
| Collector.FormulaCollector.BuildNext | csrc/cpp/gnba.cpp:103-104 | `X c` becomes a next entry over the child's index |
| Collector.FormulaCollector.BuildEventual | csrc/cpp/gnba.cpp:105-106 | `F c` becomes `true U c` |
| Collector.FormulaCollector.BuildAlways | csrc/cpp/gnba.cpp:107-108 | `G c` becomes `not (true U not c)` |
| Collector.FormulaCollector.BuildUntil | csrc/cpp/gnba.cpp:116-117 | `l U r` becomes an until entry over the two indices, in order |
| Collector.FormulaCollector.BuildConj | csrc/cpp/gnba.cpp:112-119 | a conjunction entry over the two indices denotes their conjunction whatever order it stores them in |
| Collector.FormulaCollector.CorrectedMapSound | csrc/cpp/gnba.cpp:48-55 | `map` corrected to give the constants their indices returns an index denoting the node's rewrite |
| Collector.FormulaCollector.MapReadsTrueAsProposition | csrc/cpp/gnba.cpp:48-55 | as written, `map` of the formula `true` (atomic index 0) returns proposition 0, which does not denote `true` |
| Collector.FormulaCollector.PassesDebugCheck | csrc/cpp/gnba.cpp:132-150 | a collector's list always passes every assertion of `debug_check_formula` when there is a proposition |
| Collector.FormulaCollector.NoDuplicates | csrc/cpp/gnba.cpp:81-89 | no two non-atomic entries are equal |
| Collector.From | csrc/cpp/gnba.cpp:57-61 | `FormulaCollector::from` is a fresh collector that has built the tree, whose root index denotes the tree's rewrite |
| ElementarySets.HoldsNot | csrc/cpp/gnba.cpp:30-35 | `operator[](fid)`: `True` always holds, `False` never, and a complement holds exactly when the index does not |
| ElementarySets.HoldsAgree | csrc/cpp/gnba.cpp:30-35 | an index below `k` reads the same in two sets that agree below `k` |
| ElementarySets.Close | csrc/cpp/gnba.cpp:233-237 | recomputing the conjunction bits keeps the set well formed |
| ElementarySets.CloseFacts | csrc/cpp/gnba.cpp:233-237 | the loop of `check` changes only conjunction bits below `k`, and makes each satisfy `set[i] == set[f[0]] && set[f[1]]` |
| ElementarySets.CloseAgree | csrc/cpp/gnba.cpp:233-237 | later rounds of `check` leave the first `k` bits as round `k` left them |
| ElementarySets.ConjClosedAgree | csrc/cpp/gnba.cpp:236-237 | two conjunction-closed sets that agree off the conjunction entries agree below `k` |
| ElementarySets.ConjClosedUnique | csrc/cpp/gnba.cpp:236-237 | the completion is unique: a conjunction-closed set is determined by its other bits |
| ElementarySets.CheckSpecMeaning | csrc/cpp/gnba.cpp:232-252 | `check(s)` yields `t` exactly when `t` is elementary (every conjunction law and local until law holds) and differs from `s` only at conjunction entries |
| ElementarySets.UntilFrame | csrc/cpp/gnba.cpp:238-248 | the local until law at entry `i` depends only on the bits up to `i` |
| ElementarySets.Check | csrc/cpp/gnba.cpp:232-252 | `SetBuilder::check` returns the completion when it is elementary and nothing otherwise |
| ElementarySets.UntilFails | csrc/cpp/gnba.cpp:244-247 | an until law broken during the loop stays broken, so `check` rejects the set |
| ElementarySets.TryAddAp | csrc/cpp/gnba.cpp:209-215 | `try_add_ap` adds an operand's proposition to the indices and the used mask, and ignores operands that are not propositions |
| ElementarySets.Prepare | csrc/cpp/gnba.cpp:206-230 | `prepare` enumerates each used proposition and each next/until entry exactly once, and marks exactly the used propositions |
| ElementarySets.PrepareRound | csrc/cpp/gnba.cpp:220-227 | one round of `prepare` records the propositions entry `i` reads, and enumerates `i` when it is uncertain |
| ElementarySets.IndexOf | csrc/cpp/gnba.cpp:261-262 | the first position of an index in the enumeration order |
| ElementarySets.Assignment | csrc/cpp/gnba.cpp:261-262 | round `i` sets bit `indices[j]` to bit `j` of `i` and leaves every other bit clear |
| ElementarySets.AssignmentUnique | csrc/cpp/gnba.cpp:261-262 | a round's bits are determined: any set with them is the round's assignment |
| ElementarySets.WriteRound | csrc/cpp/gnba.cpp:261-262 | the inner loop of `build` writes exactly round `i`'s assignment |
| ElementarySets.PrepareWithRoot | csrc/cpp/gnba.cpp:206-230 | `prepare` with the root's own proposition added: that proposition is enumerated and marked used too |
| ElementarySets.From | csrc/cpp/gnba.cpp:165-169 | `SetBuilder::from` with the corrected `prepare` (`PrepareWithRoot`, which also enumerates the root's proposition): stops exactly on 32 or more indices, and otherwise keeps what `check` accepts of every assignment |
| ElementarySets.Enumerate | csrc/cpp/gnba.cpp:254-266 | the loop of `build` keeps, round by round, what `check` accepts |
| ElementarySets.EnumerateRound | csrc/cpp/gnba.cpp:261-264 | one round writes its assignment and keeps the set when `check` accepts it |
| ElementarySets.AcceptedSound | csrc/cpp/gnba.cpp:254-266 | every kept set is elementary and clear outside the enumerated and conjunction entries |
| ElementarySets.EncodeBits | csrc/cpp/gnba.cpp:260-262 | every assignment of the free bits is the bits of some round below `2^size` |
| ElementarySets.AcceptedContains | csrc/cpp/gnba.cpp:263-264 | every round whose set passes `check` contributes its result |
| ElementarySets.AcceptedComplete | csrc/cpp/gnba.cpp:254-266 | every elementary set clear outside the enumerated and conjunction entries is kept |
| ElementarySets.AcceptedExact | csrc/cpp/gnba.cpp:254-266 | the enumeration keeps exactly the elementary sets whose free bits form an assignment |
| Gnba.Insert | csrc/cpp/gnba.cpp:335-343 | the `insert` lambda keeps the constraints well formed: only marked positions carry a required value |
| Gnba.InsertMeaning | csrc/cpp/gnba.cpp:335-343 | a successor meets the constraints after `insert(p, value)` exactly when it met them before and has bit `p` equal to `value` (a conflicting second requirement rejects every successor) |
| Gnba.VisitStep | csrc/cpp/gnba.cpp:345-372 | one round of the corrected helper loop, in which `X true` and `X false` are checked against `x` as `can_visit` does, keeps the constraints well formed |
| Gnba.EmptyVisit | csrc/cpp/gnba.cpp:333-344 | the helper starts with nothing marked and no rejection |
| Gnba.VisitFrom | csrc/cpp/gnba.cpp:345-372 | the constraints after the first rounds are well formed |
| Gnba.StepMeaning | csrc/cpp/gnba.cpp:345-372 | a round adds exactly what its entry demands of a successor under `can_visit` |
| Gnba.VisitFromMeaning | csrc/cpp/gnba.cpp:409-430 | the constraints after `k` rounds hold of `y` exactly when every entry below `k` allows the move to `y` |
| Gnba.RejectStays | csrc/cpp/gnba.cpp:346-347 | once rejected, later rounds change nothing (the `break`) |
| Gnba.MaskedEqual | csrc/cpp/gnba.cpp:377-379 | `(y & indices) == require` tests exactly the marked bits |
| Gnba.VisitHelper.constructor | csrc/cpp/gnba.cpp:313-314 | the helper keeps the formula list and the number of propositions |
| Gnba.VisitHelper.Build | csrc/cpp/gnba.cpp:332-375 | the corrected `build(x)` (the `X true` and `X false` cases as `can_visit` has them) leaves the constraints of `x` in the fields |
| Gnba.VisitHelper.Accept | csrc/cpp/gnba.cpp:377-379 | `accept(y)` after `build(x)` is exactly `can_visit(x, y)` |
| Gnba.VisitHelper.RejectMeansNoSuccessor | csrc/cpp/gnba.cpp:440-449 | early rejection means `can_visit` allows no successor at all |
| Gnba.NextTrueAsWrittenAcceptsAll | csrc/cpp/gnba.cpp:351-352 | as written, for `X true` the helper accepts every set, including successors of a set denying `X true`, which `can_visit` refuses |
| Gnba.NextFalseAsWrittenOutOfRange | csrc/cpp/gnba.cpp:353-357 | as written, for `X false` the helper inserts at `original(False)`, past the end of every bitset |
| Gnba.InitialBitIsHolds | csrc/cpp/gnba.cpp:400-407 | for a root that names an entry, the test of `make_initial` is the truth of the root in the set |
| Gnba.ConstantRootOutOfRange | csrc/cpp/gnba.cpp:398-405 | a constant root such as `!false` names no entry: the subscript of `make_initial` is past the end of every set, while its truth is fixed |
| Gnba.MakeInitial | csrc/cpp/gnba.cpp:400-407 | corrected for a constant root (read with `Holds` rather than by subscript): the initial states are exactly the sets in which the root holds |
| Gnba.Targets | csrc/cpp/gnba.cpp:409-430 | the targets of a state are exactly the states `can_visit` allows |
| Gnba.MakeTransition | csrc/cpp/gnba.cpp:432-454 | through the corrected helper, each state has the single trigger made of its propositional bits, leading to exactly the states `can_visit` allows |
| Gnba.CollectTargets | csrc/cpp/gnba.cpp:440-444 | the inner loop marks exactly the states the helper accepts, which are the `can_visit` targets |
| Gnba.UntilEntries | csrc/cpp/gnba.cpp:458-460 | the until entries past the propositions, each once, in list order |
| Gnba.FinalSet | csrc/cpp/gnba.cpp:461-464 | an acceptance set has one bit per state |
| Gnba.MakeFinal | csrc/cpp/gnba.cpp:456-469 | one acceptance set per until entry `p U q`, in list order, holding the states without `p U q` or with `q` |
| Gnba.Build | csrc/cpp/gnba.cpp:384-479 | `GNBA::build` with the corrected `map`, `prepare` and successor helper: the formula list passes the debug check and the root denotes the (negated) formula; the result is `None` exactly when there is no proposition, the list or the sets do not fit a 64-bit set, or 32 or more bits are enumerated; otherwise the states are exactly the elementary sets and the automaton has the initial, transition and final sets above |
| Gnba.FromFormulas | csrc/cpp/gnba.cpp:393-479 | the part after the formula list: the enumerated entries are the root's free entries; `None` exactly on 32 or more of them or more sets than a 64-bit set holds; otherwise the sets, then the initial states, transitions and final sets |
| Gnba.PrepareMissesRootAp | csrc/cpp/gnba.cpp:206-230 | as written, for the formula `a` nothing is enumerated, and the only elementary set leaves `a` false: the automaton of a satisfiable formula has no initial state |
| Gnba.RootApEnumerated | csrc/cpp/gnba.cpp:206-230 | with the root's proposition enumerated, both truth values of `a` have an elementary set |
| GnbaVariant.Overwrite | csrc/cpp/automa.cpp:298-301 | this `insert` marks the index and sets its required value, overwriting any earlier one, and touches nothing else |
| GnbaVariant.VariantStep | csrc/cpp/automa.cpp:302-326 | one round of this helper's loop keeps the constraints well formed and never rejects |
| GnbaVariant.VariantFrom | csrc/cpp/automa.cpp:302-326 | the requirements after the first rounds are well formed, with no rejection |
| GnbaVariant.VariantAgrees | csrc/cpp/automa.cpp:295-328 | until a conflict arises, the overwriting helper records exactly what the conflict-checking one of gnba.cpp records |
| GnbaVariant.VariantAcceptMeaning | csrc/cpp/automa.cpp:330-337 | the helper accepts every successor `can_visit` allows, and exactly those when building from `x` raises no conflict |
| GnbaVariant.OverwriteAcceptsConflict | csrc/cpp/automa.cpp:298-301 | a state holding both `X a` and `X !a` has no successor, yet the later requirement overwrites the earlier one and the helper accepts a set |
| GnbaVariant.VariantVisitHelper.constructor | csrc/cpp/automa.cpp:281-282 | the helper keeps the formula list and the number of propositions |
| GnbaVariant.VariantVisitHelper.Build | csrc/cpp/automa.cpp:295-328 | `build(x)` leaves the requirements of `x` in the fields, the last one on an index winning |
| GnbaVariant.VariantVisitHelper.Accept | csrc/cpp/automa.cpp:330-337 | `accept(y)` is the masked comparison `(y & indices) == require` on those requirements |
| GnbaVariant.VariantTargets | csrc/cpp/automa.cpp:372-374 | the targets of a state are the states this helper accepts |
| GnbaVariant.VariantTargetsContain | csrc/cpp/automa.cpp:366-380 | every edge of the corrected construction is an edge here, and a state without conflicts has exactly the same edges |
| GnbaVariant.MakeTransition | csrc/cpp/automa.cpp:366-380 | each state has the single trigger of its propositional bits, leading to the states this helper accepts |
| GnbaVariant.CollectVariantTargets | csrc/cpp/automa.cpp:372-374 | the inner loop marks exactly the states the helper accepts |
| GnbaVariant.Sets | csrc/cpp/automa.cpp:186-240 | this `prepare` enumerates exactly the used propositions and the next/until entries, and the sets are what `check` accepts of every assignment |
| GnbaVariant.Build | csrc/cpp/automa.cpp:342-407 | this `GNBA::build` is `None` exactly when there is no proposition, the formula is a bare proposition (`map` finds no entry), the list or the sets do not fit a 64-bit set, 32 or more bits are enumerated, or a constant root is read past the end of a set; otherwise the states are the elementary sets, initial where the root holds, with this helper's transitions and one final set per until entry |
| Nba.MulIs | csrc/cpp/nba.cpp:54 | the repeated-addition product is `c * n` |
| Nba.MulMono | csrc/cpp/nba.cpp:54 | the copies are laid out one after another without overlap |
| Nba.Base | csrc/cpp/nba.cpp:53-54 | the state a product state copies is below `n` |
| Nba.CopyBase | csrc/cpp/nba.cpp:54 | state `b` of copy `c` is numbered `c * n + b`, and the number splits back into `c` and `b` |
| Nba.CopyRange | csrc/cpp/nba.cpp:51-54 | every state below `k * n` lies in one of the `k` copies |
| Nba.NextCopy | csrc/cpp/nba.cpp:55 | the copy an edge leads into, `(j + F_j[i]) % k`, is one of the `k` copies |
| Nba.LayerEdgesShape | csrc/cpp/nba.cpp:56-60 | a copied state has exactly the original triggers, and its targets range over all `k * n` states |
| Nba.LayerEdgesMeaning | csrc/cpp/nba.cpp:55-59 | an edge of state `i` of copy `j` reaches state `b` of copy `c` exactly when `c` is the next copy and the original edge reaches `b` |
| Nba.ShiftEdges | csrc/cpp/nba.cpp:56-60 | one `try_emplace` and `set_at` per trigger moves the targets by the offset |
| Nba.FromGnba | csrc/cpp/nba.cpp:21-68 | `fromGNBA` is `None` exactly when `validate` fails, when with at most one set the states do not fit `bitset{num_states}`, or when with `k >= 2` sets the `k * n` states do not fit a 64-bit set, `expand` cannot widen the initial set or `F_0`, or some `F_j` is shorter than the state count; otherwise, with at most one set it copies the automaton and takes that set (or every state) as final, and with `k >= 2` it has `k` copies, initial and final states those of copy 0, and the layered edges |
| Nba.Layers | csrc/cpp/nba.cpp:50-62 | the nested loops give every state of every copy its layered edges, in state order, and stop when an acceptance set is shorter than the state count |
| Nba.Row | csrc/cpp/nba.cpp:53-61 | the inner loop for copy `j` appends the edges of its states after the earlier copies |
| Nba.RowLayers | csrc/cpp/nba.cpp:51-54 | appending copy `j`'s rows to the earlier rows gives the rows of the copies up to `j` |
| Nba.EdgesOf | csrc/cpp/nba.cpp:54-60 | the body of the inner loop: the offset of the next copy, then the shifted edges |
| Verifier.Accept | csrc/cpp/verifier.cpp:54-60 | the edge looked up is the one whose trigger is the label masked by the used propositions; its targets, when there is one, are a well-formed bitset |
| Verifier.AcceptIgnoresUnused | csrc/cpp/verifier.cpp:57 | two labels that agree on every used proposition reach the same targets |
| Verifier.Range | csrc/cpp/verifier.cpp:73 | from the entry the range is the initial set, otherwise the successor set of the system state; both are bitsets over all system states |
| Verifier.TargetStatesMeaning | csrc/cpp/verifier.cpp:76-77 | the pairs `State{t, q}` built from the targets are exactly the states with system state `t` and an automaton state among the targets |
| Verifier.PostOfMeaning | csrc/cpp/verifier.cpp:74-77 | a state is yielded for the system states listed exactly when its system state is listed and the automaton edge on that state's label reaches its automaton state |
| Verifier.PostMeaning | csrc/cpp/verifier.cpp:70-81 | `for_each_post` yields exactly the successors of a product state |
| Verifier.UniverseValid | csrc/cpp/verifier.cpp:20-26 | the product states are exactly the pairs of a real or entry system state and an automaton state |
| Verifier.Graph | csrc/cpp/verifier.cpp:70-81 | the product graph holds every product state, its edges are exactly `Succ`, and successors stay in the graph |
| Verifier.ReachAppend | csrc/cpp/verifier.cpp:90-93 | a state reached in `k` steps followed by one edge is reached in `k + 1` steps |
| Verifier.ClosedReach | csrc/cpp/verifier.cpp:96-101 | everything reachable from a member of a set closed under successors is in the set |
| Verifier.NoReturn | csrc/cpp/verifier.cpp:127-130 | from a closed set none of whose members steps to `start`, no non-empty path returns to `start` |
| Verifier.GrowFinished | csrc/cpp/verifier.cpp:121-124 | visiting and pushing new states keeps every finished state finished |
| Verifier.PopFinished | csrc/cpp/verifier.cpp:127-128 | popping the top of a duplicate-free stack whose successors are visited, avoid `start` and lie on no accepting cycle finishes it |
| Verifier.CyclePost | csrc/cpp/verifier.cpp:118-125 | the successor loop of `cycle_check` returns at once when a successor is `start`, which then lies on a cycle; otherwise it visits every successor and pushes exactly the new ones |
| Verifier.CycleRound | csrc/cpp/verifier.cpp:115-129 | one round of `cycle_check` either finds a cycle back to `start` or keeps the search invariant and visits a state or pops one |
| Verifier.VisitPost | csrc/cpp/verifier.cpp:90-95 | the successor loop of `reachable_cycle` visits every successor and pushes exactly the new ones |
| Verifier.ReachPost | csrc/cpp/verifier.cpp:88-100 | the successor loop of `reachable_cycle` reports whether it pushed; when it did the outer search invariant holds with fewer states left to visit, and otherwise the top's successors are all visited |
| Verifier.GrowExplored | csrc/cpp/verifier.cpp:91-93 | pushing newly visited states keeps the outer search invariant and shrinks what is left to visit |
| Verifier.PopExplored | csrc/cpp/verifier.cpp:96-99 | popping a finished top that lies on no accepting cycle keeps the outer search invariant |
| Verifier.AcceptingStates | csrc/cpp/verifier.cpp:105-131 | the states on an accepting cycle are exactly the graph states that `cycle_check` accepts |
| Verifier.ExploredStart | csrc/cpp/verifier.cpp:85-86 | pushing the input onto an empty stack over a closed visited set with no accepting state starts a sound outer search |
| Verifier.ExploredDone | csrc/cpp/verifier.cpp:101-102 | when the outer stack empties, every state reachable from the input is visited and none lies on an accepting cycle |
| Verifier.ProductSystem.constructor | csrc/cpp/verifier.cpp:50 | the product starts with an empty visited set over the given system and automaton |
| Verifier.ProductSystem.PostInGraph | csrc/cpp/verifier.cpp:70-81 | `for_each_post(cur)` yields exactly the successors of `cur` in the product graph |
| Verifier.ProductSystem.CycleCheck | csrc/cpp/verifier.cpp:105-131 | `cycle_check(start)` is true exactly when `start` is a real state with a final automaton state and a non-empty path back to itself |
| Verifier.ProductSystem.ReachableCycle | csrc/cpp/verifier.cpp:83-103 | `reachable_cycle(input)` is true only when a state on an accepting cycle is reachable from the input; when false, nothing reachable is on one, the input is visited and the visited set stays closed and safe |
| Verifier.CanRun | csrc/cpp/verifier.cpp:62-68 | `can_run` is true exactly when an accepting cycle is reachable from an entry state with an initial automaton state |
| Verifier.VerifyLtl | csrc/cpp/verifier.cpp:208-215 | the root denotes the negation of the normalised formula; `None` exactly when `GNBA::build` or `fromGNBA` stops; otherwise the generalised automaton is the one built for that root over its elementary sets, the Büchi automaton is its degeneralisation, and `verifyLTL` is true exactly when the product with it has no accepting run |
| FsmRegex.OperatorOp | python/fsm.py:77-82 | `_op_map` maps each operator character to a union, star or infinity token, with `\|` an alias of `+` |
| FsmRegex.ReadChar | python/fsm.py:85-98 | reading one more character extends the normalised text by that character's spelling and the depth by its change, and keeps the lexer clean when the character is allowed and the depth stays non-negative |
| FsmRegex.RenderStackPush | python/fsm.py:86-89 | appending a token to the innermost list appends its text |
| FsmRegex.RenderStackClose | python/fsm.py:93-96 | closing a group wraps the innermost list and appends `)` to the text |
| FsmRegex.AllLitsAlnumPush | python/fsm.py:86-87 | only alphanumeric literals are pushed |
| FsmRegex.Lex | python/fsm.py:76-102 | `_lexing` succeeds exactly on rules of allowed characters with balanced parentheses, giving one `CatOp` whose text is the rule without white space and whose literals are alphanumeric; otherwise it fails with the error of the first position where the scan goes wrong |
| FsmRegex.LexRound | python/fsm.py:85-100 | one character of the scan succeeds exactly when that position raises no error, and then keeps the stack and the text in step with the rule |
| FsmRegex.SemanticCheck | python/fsm.py:104-118 | `_semantic_check` passes exactly when every `*` and `^` follows a literal or a group, no `+` follows a `+`, and every `+` is followed by a literal or a group |
| FsmRegex.ParseNode | python/fsm.py:120-155 | `_parse_node` succeeds exactly on parsable token lists, giving a group-shaped tree that unparses to the tokens; otherwise it fails with "Invalid node" |
| FsmRegex.ApplyPostfix | python/fsm.py:122-140 | the first pass succeeds exactly when every nested group parses, and gives an alternating list of items and `None` whose tokens are the input, ending in an item |
| FsmRegex.PostfixRound | python/fsm.py:124-138 | one token of the first pass succeeds exactly when it is not a group that fails to parse, and keeps the first pass's invariant |
| FsmRegex.ItemsShapePush | python/fsm.py:146-147 | appending an item to an alternative keeps its shape |
| FsmRegex.AltsShapePush | python/fsm.py:148-152 | closing a non-empty alternative keeps the alternatives' shape |
| FsmRegex.FlatPush | python/fsm.py:123-138 | the tokens of the first pass's list grow by the tokens of each appended element |
| FsmRegex.UnparseItemsPush | python/fsm.py:146-147 | the tokens of an alternative grow by the tokens of each appended item |
| FsmRegex.AlternatingPush | python/fsm.py:134-138 | appending an item, or a `None` after an item, keeps the list alternating |
| FsmRegex.AlternatingWrap | python/fsm.py:125-132 | wrapping the last item in `*` or `^` keeps the list alternating |
| FsmRegex.SplitAlternatives | python/fsm.py:142-155 | the second pass succeeds exactly when the list is parsable, giving a group-shaped tree that unparses to the tokens; the error is "Invalid node" |
| FsmRegex.SplitRound | python/fsm.py:145-150 | one element of the second pass keeps the alternatives and the current list in step with the items read |
| FsmRegex.CountTrue | python/fsm.py:174-175 | the count of infinite children is at most their number, zero exactly when none is and the number exactly when all are |
| FsmRegex.PostCheckMeaning | python/fsm.py:157-183 | `_post_check` accepts exactly the checked trees, and then says whether the tree holds a `^` |
| FsmRegex.PostCheckAllMeaning | python/fsm.py:167 | the comprehension over the children succeeds exactly when every child is checked, and gives each child's `^` flag |
| FsmRegex.InfOperandUnchecked | python/fsm.py:159-160 | `_post_check` does not look below `^`: `(+a)^` passes although the same union fails with "Invalid node" outside it |
| FsmRegex.LitsOfListAppend | python/fsm.py:188-200 | the literals of joined token lists are the union of their literals |
| FsmRegex.ItemLits | python/fsm.py:195-198 | the literals of an item's tokens are `_collect_symbol` of the item |
| FsmRegex.GroupLits | python/fsm.py:188-194 | the literals of a group's tokens are `_collect_symbol` of the group |
| FsmRegex.ItemsLits | python/fsm.py:191-192 | the literals of an alternative's tokens are the symbols of its items |
| FsmRegex.AltsLits | python/fsm.py:193-194 | the literals of the alternatives' tokens are the symbols of the alternatives |
| FsmRegex.AlnumsAppend | python/fsm.py:86 | the alphanumeric characters of joined strings are the union of theirs |
| FsmRegex.RenderLits | python/fsm.py:86-96 | the alphanumeric characters of a token's text are its literals |
| FsmRegex.RenderListLits | python/fsm.py:86-96 | the alphanumeric characters of a token list's text are its literals |
| FsmRegex.NormalizeAlnums | python/fsm.py:77-98 | dropping white space and respelling `\|` keeps the alphanumeric characters |
| FsmRegex.RuleSymbols | python/fsm.py:188-200 | the symbols `_collect_symbol` finds in a parsed rule are the rule's alphanumeric characters |
| FsmRegex.ParseRule | python/fsm.py:185-186 | `_parase_nba_grammar` fails on a rule that does not lex with the lexer's first error; a rule that lexes succeeds exactly when its tokens parse and the parsed tree passes `_post_check`, and fails otherwise with the parser's or the check's error; the tree it gives renders to the rule, comes with its `^` flag, and holds the rule's letters |
| FsmBits.BitMask | python/fsm.py:449 | bit `j` of the number of a set is set exactly when `j` is a member below `n` |
| FsmBits.MembersMask | python/fsm.py:438-439 | `_convert2list` of the number of a set gives back its members below `n` |
| FsmBits.MaskInjective | python/fsm.py:449-455 | two sets of states with the same number are the same set |
| FsmBits.MaskBound | python/fsm.py:424 | the number of a set of states below `n` is less than `1 << n` |
| FsmBits.MaskZero | python/fsm.py:464 | the number of a set is zero exactly when the set is empty |
| FsmBits.MembersPow2 | python/fsm.py:444-446 | `_convert2list(1 << k)` is the single state `k` |
| FsmBits.MaskSingleton | python/fsm.py:444 | the number of the set `{k}` is `1 << k` |
| FsmBits.SetBitMask | python/fsm.py:463 | `new_state \|= 1 << end` adds `end` to the set the number stands for |
| FsmBits.SharedBit | python/fsm.py:456 | a nonzero `a & b` has a bit both numbers share |
| FsmBits.SharedBitNonzero | python/fsm.py:456 | a bit both numbers share makes `a & b` nonzero |
| FsmBits.MeetsMask | python/fsm.py:449-456 | `cur_state & final_flag != 0` exactly when the subset state holds a final state |
| FsmLanguage.PostSingleton | python/fsm.py:407-413 | in a deterministic automaton a label leads from one state to the one target of its edge |
| FsmLanguage.ReachLast | python/fsm.py:451-467 | a word ending in `l` takes one more `l`-step from the states its prefix reaches |
| FsmLanguage.DeterministicRun | python/fsm.py:407-413 | on a complete deterministic automaton every word over the labels leads from a state to exactly one state |
| FsmLanguage.ComplementLanguage | python/fsm.py:407-413 | `complement`, which keeps the edges and the start and makes the other states final, accepts on a complete deterministic automaton exactly the words over the labels that the original rejects |
| FsmLanguage.PostEmpty | python/fsm.py:460-463 | no state steps from the empty set |
| FsmLanguage.PostBelow | python/fsm.py:417-418 | on an automaton whose edges end below `n`, a step stays below `n` |
| FsmLanguage.PostUnknown | python/fsm.py:434 | a label outside the alphabet leads nowhere |
| FsmLanguage.StepMask | python/fsm.py:459-463 | the number `new_state` built for a label from the number of a set of states is the number of the set that label leads to |
| FsmLanguage.SubsetPost | python/fsm.py:458-467 | from an explored subset state the subset automaton has exactly one edge per label with a non-empty step, to that step |
| FsmLanguage.SubsetReach | python/fsm.py:441-472 | run on a word from `1 << s`, the subset automaton is in the number of the set of states the NFA reaches, or stopped when that set is empty |
| FsmLanguage.StepsIsReach | python/fsm.py:459-465 | taking the subset steps of a word from `1 << s` gives the number of the set of states the NFA reaches on it |
| FsmLanguage.ReachedStart | python/fsm.py:444-446 | the start subset state `1 << s` is reached along the empty word |
| FsmLanguage.ReachedStep | python/fsm.py:459-470 | a step on a known label from a reached subset state reaches its target |
| FsmLanguage.SubsetConstructionLanguage | python/fsm.py:415-472 | the automaton `to_dfa` builds accepts exactly the words the NFA accepts |
| Fsm.AddOutLabels | python/fsm.py:294-295 | adding the pairs of `src` adds exactly the edges from `src` to their targets, each carrying its pairs' labels, and leaves every other edge alone |
| Fsm.EndpointsAddOut | python/fsm.py:271-274 | after adding the pairs of `src`, the states on edges are the old ones, `src` when a pair was added, and the targets |
| Fsm.EndpointsOfAdded | python/fsm.py:271-274 | an edge map with the edges of the added pairs has no endpoint beyond the old ones, `src` and the targets |
| Fsm.AddOutWithin | python/fsm.py:271-274 | adding edges out of `src` keeps every edge between known states and every label a known label |
| Fsm.RangeSeqCount | python/fsm.py:317 | `list(range(n))` holds each of `0 .. n-1` once and nothing else |
| Fsm.MultisetSnoc | python/fsm.py:316 | appending a number adds one occurrence of it |
| Fsm.RankGroupPartition | python/fsm.py:312-317 | rank groups that pass `_check_rank_group` on the states `0 .. n-1` hold every state exactly once and nothing else |
| Fsm.Insert | python/fsm.py:435 | `result[label][start].append(end)` adds `end` to that entry and changes no other |
| Fsm.TablePush | python/fsm.py:432-435 | entering one more labelled edge keeps the table equal to the edges entered so far |
| Fsm.TableDone | python/fsm.py:430-436 | once every edge is entered, the table gives for each label and state the targets of its edges |
| Fsm.PostAdd | python/fsm.py:461-463 | the targets out of a union of states are the union of their targets |
| Fsm.MembersNext | python/fsm.py:438-439 | `_convert2list` up to `j + 1` adds `j` exactly when its bit is set |
| Fsm.DestListMembers | python/fsm.py:458-465 | `dests` holds, for each label with a non-empty step, that step with the label, and nothing else |
| Fsm.SubsetEdgesAdd | python/fsm.py:467 | defining a subset state with its steps keeps the edges those of the subset construction |
| Fsm.Enqueue | python/fsm.py:468-470 | the queue keeps its rest and gains every target not yet visited, and nothing but targets, all below the bound |
| Fsm.UnvisitedShrinks | python/fsm.py:453-455 | visiting a new state leaves fewer states to visit |
| Fsm.Resolved | python/fsm.py:276-287 | `_check_input` gives one pair per accepted target |
| Fsm.ResolvedPairs | python/fsm.py:278-286 | each resolved pair keeps its target and carries a known label: its own, or for a bare DFA target the label at its position |
| Fsm.ResolvedAt | python/fsm.py:279-286 | the pair at position `i` is the target with its own label or, when bare, the label at position `i` |
| Fsm.ResolvedLabelled | python/fsm.py:283-286 | targets that all carry known labels are accepted and resolve to their own pairs |
| Fsm.ExploreStep | python/fsm.py:451-470 | a turn of the `to_dfa` loop on an unvisited state keeps the exploration invariant with that state now visited |
| Fsm.Automaton.constructor | python/fsm.py:258-269 | `FSM(label, type_)` has no states, edges, final, start or defined states |
| Fsm.Automaton.AddEdge | python/fsm.py:271-274 | `_add_edge` adds both states and the label on their edge, and changes nothing else |
| Fsm.Automaton.CheckInput | python/fsm.py:276-287 | `_check_input` succeeds exactly when every target is accepted (a bare target only in a DFA, a label only if known), giving the resolved pairs, and otherwise fails on the first bad target |
| Fsm.Automaton.AddEdges | python/fsm.py:289-299 | `add_edges` on a state already defined fails and changes nothing; otherwise it marks the state defined, and either fails on the first bad target with nothing else changed or adds exactly the edges of the pairs and the final and start marks; edges stay between states and labels stay known |
| Fsm.Automaton.Fill | python/fsm.py:294-299 | once `src` is marked defined, the targets are checked and, when they pass, their edges and the marks are added |
| Fsm.Automaton.Define | python/fsm.py:294-299 | the edges out of `src` and the final and start marks are added |
| Fsm.Automaton.AddAll | python/fsm.py:294-295 | `_add_edge` for each resolved pair in turn |
| Fsm.Automaton.Complement | python/fsm.py:407-413 | `complement` has the same labels, states, edges and starts, the states that were not final as final, and the default type with nothing defined |
| Fsm.Automaton.CheckRankGroup | python/fsm.py:312-317 | `_check_rank_group` passes exactly for no grouping or groups holding as many entries as states and, as a multiset, each of `0 .. n-1` once |
| Fsm.Automaton.CheckStart | python/fsm.py:332-337 | `_check_start` fails for several start states or for none when `0` is not a state, and otherwise gives the one start state or `0` |
| Fsm.Automaton.MakeEdgeTraverse | python/fsm.py:430-436 | `_make_edge_traverse` fails exactly when some edge label is unknown, and otherwise maps each label and state to the targets of its edges |
| Fsm.Successor | python/fsm.py:459-463 | the inner loops give the number of the set the label leads to from the subset state |
| Fsm.Automaton.Dests | python/fsm.py:458-465 | the `dests` loop gives the non-empty steps, label by label |
| Fsm.Automaton.DefineLabelled | python/fsm.py:467 | `add_edges` on the subset automaton marks the state defined and adds exactly the edges of its steps and its final mark |
| Fsm.Automaton.Expand | python/fsm.py:452-470 | one turn of the loop on an unvisited state defines it with its steps and keeps the exploration invariant |
| Fsm.Automaton.ToDfa | python/fsm.py:415-472 | `to_dfa` fails with the first assertion that fails; otherwise it gives a new DFA over the same labels, started at `1 << start`, whose states are subset states reached from it and closed under the steps, with the subset construction's edges and final states |
| Fsm.Automaton.Explore | python/fsm.py:441-472 | the breadth-first loop from `1 << s` explores a set of subset states, each reached from it and all together closed under the steps, with the subset construction's edges and final states |
| Fsm.RangeOfSize | python/fsm.py:417-418 | a set of states all below its size is exactly `0 .. n-1` |
| Fsm.RangeSet | python/fsm.py:417 | `set(range(n))` has `n` members, exactly `0 .. n-1` |

## Left out

- Character classes: `str.isalnum`, `str.islower` and `str.isupper` are their ASCII parts. `str.isspace` in FsmRegex is its ASCII part, and the `str.strip` of EarleyGrammar covers the ASCII and Latin-1 spaces (U+0085 and U+00A0 included). Other non-ASCII letters, digits and spaces are not modelled.
- Python `set` iteration order: the item sets of both Earley recognisers are duplicate-free sequences in insertion order, because the closure reads the set it is building and so depends on the order; the hash order Python uses is not modelled.
- Hashing: `Formula::hash`, `std::hash<bitset>` and `ProductSystem::Hash` only key containers; sets and maps of values stand for the hashed containers, and `unordered_set` order in `prepare` becomes first-met order.
- Printing and presentation: `State.__repr__`, the `print` calls of `_finalize` and `parse` (the reports are returned as values instead), `SetBuilder::debug`, `debugger()` output, `brute_force` with its path printing, `FSM.dump_to`, `name`, `_make_powerset_name_map`, `_merge_edges` and `_check_edge_node_defined`, whose only use is drawing.
- Unfinished Python code: `_PartialNode`, `_partial_connect`, `_partial_replace`, `_PartialFSM`, `FSM._compile_infinite`, `FSM._compile_finite` and `FSM.compile` end in `NotImplementedError` and are not modelled.
- Parsing and I/O: csrc/cpp/ltl_parser.cpp, csrc/cpp/ts_parser.cpp, csrc/cpp/main.cpp and csrc/test/run.py are not part of this model; the formula tree and the transition system arrive as values.
- Collector.FormulaCollector.Build: `mapping` is keyed by node values, not node addresses; two equal subtrees at different addresses share one entry, which loses nothing because hash-consing gives them the same index.
- Earley completeness: the recognisers are modelled as written, and no lemma relates their answers to the language of the grammar.
- Machine width: formula indices are unbounded integers with `~x == -x - 1` and the cap `INT64_MAX` as a precondition; the 64-bit cap on bitsets, the limit of fewer than 32 enumerated indices and `entry_pos == SIZE_MAX` are stated as constants and preconditions rather than as overflow.
- FixedBitset.Subset: requires `n < 64`, because the source's `(1ULL << n) - 1` is undefined for `n == 64`.
- FixedBitset.SetAt: requires `n <= 64`; the source leaves that check to the earlier `expand` of each caller.
- EarleyParser.Parser.constructor: requires the grammar to have a `$` rule, where the source fails on an empty rule list.
- EarlyBatch.Parse: a scan at the end sentinel `.` is modelled as the failure it is in the source, and `BatchIsFinalized` assumes no rule mentions `.`.
- Fsm.Automaton.ToDfa: requires the class invariant that every edge joins two known states, which `add_edges` keeps; an automaton whose `edges` were assigned directly is not covered.
- FsmLanguage.SubsetConstructionLanguage: requires the start state to be one of `0 .. n-1`; when the only start state has no edges and lies outside that range, the source's subset automaton starts at a state it cannot reach and this lemma says nothing about it.
- Fsm.Automaton.MakeEdgeTraverse: the lists of `_make_edge_traverse` are sets, because `to_dfa` only ors their members together; the order of the Python lists is not modelled.
- Fsm.Automaton.Complement: the new automaton gets the same values, not the same `nodes`, `edges` and `start` objects; the aliasing of the source, where a later `add_edges` on one automaton would show in the other, is not modelled.
- Gnba.Build: the end-to-end build of csrc/cpp/gnba.cpp is modelled only with the fixes of "## Findings" applied (through ElementarySets.From, Gnba.VisitStep, Gnba.VisitHelper.Build, Gnba.MakeInitial and Gnba.MakeTransition); the behaviour as written is modelled only in Gnba.VisitStepAsWritten, Gnba.NextTrueAsWrittenAcceptsAll, Gnba.NextFalseAsWrittenOutOfRange, Gnba.ConstantRootOutOfRange, Gnba.PrepareMissesRootAp and Collector.FormulaCollector.MapReadsTrueAsProposition.
- Fsm.Automaton.CheckRankGroup: `sorted(...) == list(range(len(s)))` is stated as equality of multisets, which is what the sort comparison decides.

## Findings

| source | as written | input that shows it | evidently intended | confidence | as-written member | corrected member |
|---|---|---|---|---|---|---|
| csrc/include/utils/bitset.h:100 | `operator==` compares the raw words, padding bits included | `dynamic_bitset(3, true)` and `dynamic_bitset(3)` with bits 0, 1 and 2 set | two bitsets of one length are equal when they expose the same bits | not executed | DynamicBitset.WordsEqualSeesPadding | DynamicBitset.DynamicBitset.SameBitsIsContents |
| csrc/cpp/gnba.cpp:48-55 | `map` returns the node's raw index for every atomic node, constants included | the formula `true`, an atomic node with index 0, maps to proposition 0 | a constant maps to `True` or `False` | not executed | Collector.FormulaCollector.MapReadsTrueAsProposition | Collector.FormulaCollector.CorrectedMapSound |
| csrc/cpp/gnba.cpp:351-352 | `X true` places no constraint, so every set is accepted as a successor | the list `a`, `X true` and the elementary set denying `X true` | the helper agrees with `can_visit` | not executed | Gnba.NextTrueAsWrittenAcceptsAll | Gnba.VisitHelper.Accept |
| csrc/cpp/gnba.cpp:353-357 | `X false` sets `early_reject` and still inserts at `original(False)` | the list `a`, `X false` and the empty set: the insert is past the end of every bitset | a set holding `X false` has no successor, and a set denying it is unconstrained | not executed | Gnba.NextFalseAsWrittenOutOfRange | Gnba.VisitHelper.Accept |
| csrc/cpp/gnba.cpp:206-230 | `prepare` reads only the operands of non-atomic entries, so a proposition that is the whole formula is never enumerated | the formula `a`: its only elementary set has `a` false, so no state is initial | the root's proposition is enumerated like any other | not executed | Gnba.PrepareMissesRootAp | Gnba.RootApEnumerated |
| csrc/cpp/gnba.cpp:398-405 | `make_initial` subscripts the set at `original(root)` | the formula `!false`, collected as `True`, whose original index is past every set | a set is initial when the root holds in it, constants included | not executed | Gnba.ConstantRootOutOfRange | Gnba.MakeInitial |
| csrc/cpp/automa.cpp:298-301 | `insert` overwrites an earlier requirement on the same index | a state holding `X a` and `X !a` and the successor where `a` is false | a conflicting requirement rejects every successor, as `can_visit` does | not executed | GnbaVariant.OverwriteAcceptsConflict | Gnba.VisitHelper.Accept |

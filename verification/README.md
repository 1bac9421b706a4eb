# rep: a regular-expression grep, modelled in Dafny

`rep.py` is a small `grep`-like tool. It takes a pattern made of literal
characters, concatenation, `|`, `*` and parentheses, and parses it with a
recursive-descent parser into an expression tree. Thompson's construction
compiles the tree into a nondeterministic automaton with epsilon edges. Each
line of each input file is then scanned from left to right. At each position the
scan reaches, the automaton is simulated to find the longest matching prefix
of the rest of the line. After a match of length `m > 0` the scan resumes
`m` characters later, otherwise one character later. The spans found this
way are highlighted.

This project models that core and proves the following about it:

- the parser's shape and error cases, and that the tree printer's output
  parses back to the same tree;
- the compiler's fragment invariants, and that the compiled automaton
  accepts exactly the language of the tree;
- that `add_state` computes the epsilon closure;
- that `re_matcher` returns the longest accepted prefix, and that its early
  exit does not change that;
- that the per-line scanning loop tiles the line with longest matches.

Modules, one file each:

- `wrappers.dfy` (`Wrappers`): `Option` and `Result`.
- `syntax.dfy` (`Syntax`): the tree (`REOr`, `REConcat`, `REStar`,
  `RESymbol`), its language `Matches`, the number of states the compiler
  allocates for it, and the `__str__` rendering `Show`.
- `parser.dfy` (`Parser`): `lookahead` and the four parse functions. The
  global cursor becomes an argument and a result. `parser_error` becomes a
  `ParseError` value.
- `parser_laws.dfy` (`ParserLaws`): what the parser reads, and that trailing
  input is ignored. It also has concrete examples of precedence, literals and
  errors.
- `printing.dfy` (`Printing`): round trips from tree to text and back.
- `automaton.dfy` (`Automaton`): `NFANode` edge maps, an arena of states,
  runs, the epsilon closure, and the set of states active after a word.
- `thompson.dfy` (`Thompson`): the `to_nfa` methods.
- `thompson_laws.dfy` (`ThompsonLaws`): correctness of the construction.
- `matcher.dfy` (`Matcher`): `add_state` and `re_matcher`.
- `scanner.dfy` (`Scanner`): the per-line loop of the driver and its meaning
  in terms of the pattern.

How the model represents things:

- **States.** An `NFANode` is identified by object identity. Here a state is
  an index into an arena, `seq<map<Option<char>, set<nat>>>`, where `None`
  is the epsilon label. Each `NFANode()` call appends a state, in the same
  order as `rep.py` allocates them.
- **Edge wiring.** The wiring functions group the `add_edge` calls by the
  node they change. Calls on different nodes commute, and calls on one node
  only add to a set, so the grouping does not change the resulting
  automaton.
- **`Star` language.** In `Matches`, a non-empty word is split off with a
  non-empty first piece. This denotes the usual Kleene closure.

Three behaviours of `rep.py` that a reader might not expect, modelled as
the code has them:

- **Reserved characters as literals.** `parse_atomic` (rep.py:149-163)
  treats every character other than `(` as a literal. `rep.py` has no
  escape for `|`, `*` and `)`; they become literals wherever an atom is
  expected: `*a`, `a||b`, `())` (a group holding `)`). `()` fails with an
  unexpected end: its `)` is the group's body, and no `)` closes the group.
  See `ParserLaws.ReservedAsLiteral`.
- **Trailing input.** The top-level `parse_re()` (rep.py:202) never checks
  that the whole pattern was read. Input after a `*` or `)` at which it
  stops is ignored, so `a)b(` parses as `a` and `a**` as `a*`. This is
  modelled as written (`ParserLaws.TrailingInputIgnored`). It is not
  corrected, because the driver's observable behaviour depends on it.
- **Error positions.** The "Unexpected end" message (rep.py:152, rep.py:157)
  carries no index. The model records the pattern length, which is the only
  place the error can arise. The "Expected ')'" message (rep.py:161) prints
  the cursor after `get_char`, which is one past the offending character.
  The model keeps that value. The offending character is always a `*`
  (`Parser.ReportedAt`).

## Model

| member | source | states |
|---|---|---|
| Automaton.AddEdge | rep.py:8-18 | after `add_edge(x, c)` the destinations under `c`, as `get_edges` reports them (a label with no entry has none), are the old ones plus `x`; every other label keeps its destinations; `c` now has an entry |
| Automaton.AddEdgeIdempotent | rep.py:14-18 | adding the same edge twice is the same as adding it once |
| Thompson.SymbolNfa | rep.py:87-91 | two fresh states; the start has exactly one edge, labelled `c`, to the final; earlier states are kept; the fragment invariant holds |
| Thompson.ConcatNfa | rep.py:55-59 | start of the first fragment, final of the second; the first final gets exactly an epsilon edge to the second start; every other state is as in the sub-fragments; no new states |
| Thompson.OrNfa | rep.py:35-44 | two fresh states; the start has epsilon edges to both sub-starts, both sub-finals get exactly an epsilon edge to the fresh final, every other state is unchanged |
| Thompson.StarNfa | rep.py:69-77 | two fresh states; the start and the inner final each have epsilon edges to the fresh final and to the inner start, every other state is unchanged |
| Thompson.Compile | rep.py:35-91 | every `to_nfa` result has start different from final, a final with no edges, no edge leaving the fragment, earlier states kept, and exactly 2 new states per symbol, `|` and `*` and none per concatenation |
| ThompsonLaws.ToNfa | rep.py:203 | the compiled automaton of a tree is well formed, has `StateCount` states and a final state with no edges |
| ThompsonLaws.Sound | rep.py:35-91 | in any arena that keeps the fragment's states other than its final (later wiring may add edges to the final), a run from the fragment's start that reaches its final only at its end spells a word of the tree's language |
| ThompsonLaws.Complete | rep.py:35-91 | every word of the tree's language is spelled by a run of the fragment from its start to its final |
| ThompsonLaws.ThompsonCorrect | rep.py:35-91 | the compiled automaton has a run from start to final spelling `w` if and only if `w` is in the language of the tree |
| ThompsonLaws.AcceptsIffMatches | rep.py:35-91 | the final state is active after simulating `w` if and only if `w` is in the language of the tree |
| Automaton.EClose | rep.py:169-174 | the epsilon closure contains its seed, is closed under epsilon edges and adds only states of the arena |
| Automaton.ECloseLeast | rep.py:169-174 | every epsilon-closed superset of the seed contains the closure, so the closure is the least one |
| Automaton.ECloseReached | rep.py:169-174 | every state in the closure is reached from the seed by epsilon edges alone |
| Automaton.ActiveReaches | rep.py:176-185 | a state is active after the simulation has read `w` if and only if a run from the start spelling `w` reaches it |
| Matcher.AddState | rep.py:169-174 | the search terminates on epsilon cycles, only adds states epsilon-reachable from `x`, contains `x`, and applied to a closed set gives the closure of that set plus `x` |
| Matcher.Step | rep.py:180-185 | one iteration of the character loop yields exactly the closure of the `c`-successors of the current states |
| Matcher.LongestSettled | rep.py:188-189 | once no state is active, no longer prefix is accepted, so breaking out of the loop does not change the answer |
| Matcher.LongestUpToNone | rep.py:178-187 | the reference answer is `None` exactly when no prefix up to the bound is accepted |
| Matcher.LongestUpToSome | rep.py:178-187 | a reference answer `Some(k)` is accepted and no longer prefix up to the bound is |
| Matcher.ReMatcher | rep.py:166-191 | returns `None` if and only if no prefix, the empty one included, is accepted; otherwise the length of an accepted prefix, at most the text length, with no longer prefix accepted |
| Parser.ParseRe | rep.py:118-125 | a successful parse reads at least one character and stops at the end, before `*` or before `)`; failures are reported where they can arise (that a failing concatenation or right operand makes it fail is `ParserLaws.FailureAborts`) |
| Parser.ParseConcat | rep.py:128-136 | a successful concatenation stops only at the end of the input or before a reserved character (`\|`, `*`, `)`); failures are reported where they can arise (that a failing atom or rest makes it fail is `ParserLaws.FailureAborts`) |
| Parser.ParseStar | rep.py:139-146 | a failing atom fails the parse with the same error; otherwise at most one `*` is taken per atom: a successful parse ends at the atom's end, with the atom as its tree, or one character later, with the atom starred; a `*` left under the cursor follows a starred tree |
| Parser.ParseAtomic | rep.py:149-163 | at the end of input the parse fails with an unexpected end; any character other than `(` is read as a one-character literal |
| ParserLaws.GroupOutcome | rep.py:153-161 | after a `(`: an error inside the group aborts the parse; a group the input ends inside fails with an unexpected end; a group closed by `)` is its inner tree; otherwise the group stopped at a `*` and fails expecting `)`, reported one past the `*` |
| Parser.Parse | rep.py:202 | the empty pattern fails with an unexpected end at index 0; a tree never needs more than two states per pattern character; failures are reported where they can arise |
| ParserLaws.FailureAborts | rep.py:118-146 | an error aborts the whole parse: a failure of the atom, of the first or remaining part of a concatenation, of the left part or the right operand of `\|`, or of the top-level `parse_re` is passed upward unchanged, with no partial tree |
| ParserLaws.TrailingBar | rep.py:118-125 | a `\|` that ends the pattern fails the alternation with an unexpected end, for every left operand |
| ParserLaws.TrailingOpen | rep.py:128-136 | a `(` that ends the pattern fails the concatenation it continues with an unexpected end, for every preceding atom |
| ParserLaws.ReLocal | rep.py:118-125 | a parse that ends at `e` depends only on the characters from its start up to `e` and the lookahead at `e` |
| ParserLaws.TrailingInputIgnored | rep.py:202 | when the top-level parse stops early it stops at `*` or `)`, and every pattern with the same characters up to and including that one, whatever follows, has the same tree |
| ParserLaws.PrecedenceExamples | rep.py:118-146 | `ab\|c` groups as `(ab)\|c`, `a\|b\|c` as `a\|(b\|c)`, and `ab*` as `a(b*)` |
| ParserLaws.ReservedAsLiteral | rep.py:149-163 | `*a`, `a\|\|b` and `())` parse with `*`, `\|` and `)` as literals where an atom is expected; `()` fails with an unexpected end, because its `)` is read as the group's body |
| ParserLaws.ErrorExamples | rep.py:149-161 | `a\|`, `(a` and `a(` fail with an unexpected end; `(a**)` fails expecting `)` at the reported index 4 |
| Printing.ShowRoundTrip | rep.py:32-33 | the fully parenthesised `__str__` rendering (rep.py:32-33, 52-53, 66-67, 84-85) of a printable tree parses back to that tree, reading all of it |
| Printing.RenderRoundTrip | rep.py:118-163 | the rendering with the fewest parentheses parses back to the same tree, which pins down precedence and associativity |
| Scanner.MatchAt | rep.py:211 | the matcher applied to the rest of the line returns the reference longest match, which stays inside the line |
| Scanner.Scan | rep.py:209-216 | the loop terminates; the spans are non-empty, ascending, non-overlapping and inside the line; each one is the longest match at its start; every character outside the spans has no non-empty match at it |
| Scanner.CoveredAppend | rep.py:219 | after a span is appended, every character covered before is still covered, and so is every character of the new span |
| Scanner.LongestMatch | rep.py:211 | the matcher's answer on the compiled tree is `None` exactly when no prefix is in the language; otherwise it is the longest prefix in the language |
| Scanner.SpanMeaning | rep.py:214-216 | a recorded span is a non-empty match of the pattern, and no longer piece of the line starting there matches |
| Scanner.GapMeaning | rep.py:212-213 | a position the loop steps over starts no non-empty match of the pattern |
| Scanner.Search | rep.py:202-216 | the search succeeds if and only if the pattern parses; a bad pattern yields its parse error and no spans; otherwise the spans tile the line with longest matches of the pattern, and no uncovered character starts a non-empty match |

## Left out

- Command-line handling (rep.py:194-200): the usage message and the exit
  status are not modelled. The pattern and a line are plain arguments of
  `Scanner.Search`.
- File reading and line splitting (rep.py:205-207) are I/O. `Scanner.Search`
  handles one line. A parse error ends the program before any file is
  opened, which `Search` mirrors by returning the error without spans.
- Printing (rep.py:217-225): ANSI colour codes and the line output are left
  out. The test deciding whether a character is coloured (rep.py:219) is
  modelled as `Scanner.Covered`. It is a plain definition with no contract
  of its own, so it has no row; what the loop promises about it is in the
  rows of `Scanner.CoveredAppend`, `Scanner.Scan` and `Scanner.Search`.
- `lookahead` (rep.py:104-108) is the plain definition `Parser.Look`: the
  character under the cursor, or `None` past the end. It carries no
  contract of its own, so it has no row; the parse functions' contracts
  state where parsing stops in terms of it.
- `get_edges` (rep.py:8-12) is the plain definition `Automaton.GetEdges`;
  what it reports is stated in the `Automaton.AddEdge` row.
- `parser_error` (rep.py:99-101): the message and `sys.exit(1)` become a
  `ParseError` value. The "Unexpected end" message of `rep.py` has no
  index. The model records the pattern length.
- `get_char` (rep.py:111-115) also advances the cursor past the end of the
  input. That cursor value is never read, because every caller that sees
  `None` then exits, so the model has no separate `get_char`.
- Python's recursion limit: deep patterns and long epsilon chains can make
  the parser or `add_state` exceed the interpreter's recursion depth. The
  model has unbounded recursion.
- The iteration order of Python sets in `re_matcher` is not modelled. The
  loops take elements in an arbitrary order (`:|`), and the results do not
  depend on it.
- Thompson.Compile: the `add_edge` calls of each `to_nfa` are grouped per
  node instead of being replayed one by one. The result is the same
  automaton, because each node's edge sets only grow.
- Matcher.AddState: the contract determines the result only when the set
  passed in is already epsilon-closed. That holds at every call in
  `re_matcher`. Otherwise the contract bounds the result between the input
  and the input plus the closure of `x`.

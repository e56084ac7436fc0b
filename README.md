# A verified model of the pattern walker in parse.py

parse.py defines a pattern IR made of tagged tuples. A pattern is a tuple of
nodes, and each node is one of:

- `('literal', c)`;
- `('union', alternatives)`, where each alternative is a single node;
- `('star', body)`, where the body is itself a pattern;
- a node with any other tag.

`matcher_aux` is an early draft of a matcher over this IR. It loops over the
nodes of a pattern, moving an input index `s_idx` and a pattern index `re_idx`:

- A literal moves both indices by one.
- A union recurses once per alternative, each time on the one-node pattern
  `(r,)`, and then moves `re_idx`.
- A star recurses once on its body and then moves `re_idx`.
- Any other tag ends the loop.

The draft never reads the input and never compares `s_idx` with `s_len`. It
returns nothing. Its only observable behaviour is the lines it prints.

The model has three modules:

- `PatternIR` (pattern_ir.dfy): the IR as the datatype `Node`, with patterns
  as `seq<Node>`, and the node count that bounds the recursion.
- `Matching` (matcher.dfy): `matcher_aux` as the method `MatcherAux`. It keeps
  the source's `while` loop, its `match` on the tag and its recursive calls.
  The loop over a union's alternatives is the method `MatchAlternatives`.
  - Each printed line becomes an `Event`, and the method returns the list of
    events as `trace`.
  - The final values of the local `s_idx` and `re_idx` are ghost results. The
    source throws them away.
  - `MatcherAux` is proved against the functions `Steps`, `NodeTrace`, `Aux`
    and `AltTraces`, which describe the walk without indices moving in place.
  - Lemmas about those functions state where the loop stops, how far `s_idx`
    moves, and that the printed trace does not depend on `s_idx`.
  - The nodes reported by the trace are exactly the pre-order of the pattern
    up to and including its first top-level unknown node. An unknown node
    nested in a star body or an alternative ends only its own recursive call. The function `PreOrder` gives this
    reference definition, written independently of any index.
- `SourceExamples` (source_examples.dfy): the example patterns built by the
  script at the bottom of parse.py, and the script's call `matcher('', re3)`.

Three facts about the source come out of the proofs:

- The comment at parse.py:95 says the recursive calls of a union update
  `s_idx` globally. They do not. `s_idx += 1` at parse.py:89 rebinds the callee's
  own local name to a new immutable integer, so the caller's `s_idx` is
  untouched and only top-level literals move it. `StepsStop` states this.
- `s_idx` can pass `s_len`. On the empty input, `matcher('', re3)` ends with
  `s_idx == 1` (`DriverRun`).
- The flag `done` is never set, so the loop ends only through its two `break`s.

## Model

| member | source | states |
|---|---|---|
| PatternIR.NodeWithinPattern | parse.py:93-100 | a node of a pattern, and the one-node pattern `(r,)` built from it, are no larger than the pattern; this is the measure that makes every recursive call of `matcher_aux` terminate |
| Matching.Steps | parse.py:79-104 | the loop ends with `re_idx` between its start and `re_len`; it never moves past `re_len` and never goes back |
| Matching.StepTaken | parse.py:86-101 | handling one known node keeps the loop invariant: the lines printed so far, followed by the walk from the new indices, are the walk from the start |
| Matching.MatcherAux | parse.py:77-105 | the loop with its recursive calls prints exactly the walk `Aux` and ends with the indices `Aux` gives; when `re_idx == re_len` on entry it prints only "done" and leaves both indices unchanged |
| Matching.MatchAlternatives | parse.py:93-96 | the union's loop prints each alternative and the walk of `(r,)` from `re_idx = 0` with `re_len = 1`, in declared order, each call starting from the same `s_idx` |
| Matching.Matcher | parse.py:107-108 | `matcher` walks from 0/0 with `re_len = len(re)`; the loop stops at the first unknown top-level node or at the end; `s_idx` ends at the number of top-level literals before that point; the nodes reported are the pre-order walk of `re` |
| Matching.StopIndex | parse.py:79-104 | the index where the loop stops: an unknown node, or `re_len`, with only known nodes before it |
| Matching.CountLiterals | parse.py:87-90 | the number of top-level literals is at most the pattern's length, and equals it exactly when every node is a literal |
| Matching.StepsStop | parse.py:86-104 | the loop stops at `StopIndex`, and the final `s_idx` is the initial one plus the number of top-level literals before that index; unions and stars leave the caller's `s_idx` unchanged |
| Matching.StepsTraceIgnoresInput | parse.py:79-104 | the lines printed by the loop are the same whatever `s_idx` it starts from |
| Matching.NodeTraceIgnoresInput | parse.py:86-101 | the lines printed for one known node, with its recursive calls, are the same whatever `s_idx` is |
| Matching.AuxTraceIgnoresInput | parse.py:77-105 | a call of `matcher_aux` prints the same lines whatever `s_idx` it starts from; since `s` is never read, neither does the input matter |
| Matching.AltTracesIgnoreInput | parse.py:93-96 | the lines printed for a union's alternatives do not depend on `s_idx` |
| Matching.StepsVisitsPreOrder | parse.py:79-104 | the nodes the loop reports are the pre-order walk of `re[re_idx:re_len]`, up to and including the first top-level unknown node of that slice |
| Matching.NodeTraceVisits | parse.py:86-101 | handling a known node reports the node itself and then the nodes below it in pre-order |
| Matching.AuxVisitsPreOrder | parse.py:77-105 | a call of `matcher_aux` reports the pre-order walk of `re[re_idx:re_len]` |
| Matching.AltTracesVisitPreOrder | parse.py:93-96 | a union's loop reports its alternatives in declared order, each one walked in full |
| Matching.UnknownEndsWalk | parse.py:102-104 | an unknown node ends the walk of its pattern: no node after it is reported |
| Matching.KnownWalkVisitsEveryNode | parse.py:98-101 | in a pattern without unknown nodes, the walk reports exactly as many nodes as the pattern has, so a star's body is walked once and not repeated |
| Matching.KnownAltsVisitEveryNode | parse.py:93-96 | the alternatives of a union without unknown nodes are walked once each, every node reported once |
| SourceExamples.ReAdeWalk | parse.py:111-112 | the walk of the pattern `re` (a, then d or e) reports the literal, the union and then each alternative in order |
| SourceExamples.Re2Walk | parse.py:123-124 | the walk of `re2` (f, then qp repeated) reports the star's body once |
| SourceExamples.PairWalk | parse.py:126-127 | a two-literal pattern, walked as a star body or as union alternatives, reports both literals in order |
| SourceExamples.StarTailWalk | parse.py:128-130 | the walk of the last two nodes of `re3` (a star over x-or-y, then z) reports the star, the union, both alternatives and z |
| SourceExamples.UnionTailWalk | parse.py:127-130 | the walk of the last three nodes of `re3` reports the union, its alternatives, and then the walk of the last two nodes |
| SourceExamples.Re3Walk | parse.py:125-131 | the walk of `re3` reports all eleven nodes once, in pre-order |
| SourceExamples.Re3Literals | parse.py:125-131 | re3 has four top-level nodes, no unknown one, and one top-level literal |
| SourceExamples.DriverRun | parse.py:142 | `matcher('', re3)` reports every node of re3 in pre-order, stops at `re_idx == 4`, and leaves `s_idx == 1`, past the end of the empty input |
| SourceExamples.UnknownAlternativeEndsOnlyItself | parse.py:93-104 | an unknown alternative ends only its own recursive call: the union goes on with the next alternative, and the caller with its next node |
| SourceExamples.UnknownInStarBodyEndsOnlyTheBody | parse.py:98-104 | an unknown node in a star's body ends the body's walk; the caller goes on with the node after the star |

## Left out

- The printed text (parse.py:88, 92, 94, 99, 103, 105) is console output. Each line is modelled as one `Event` that carries the node or tag the line shows, not the formatted string.
- MatcherAux: the final `s_idx` and `re_idx` are ghost results, because the source returns `None` and discards them.
- MatcherAux: requires `re_idx <= re_len <= len(re)`. Every call in the source passes `re_idx = 0` and `re_len = len(re)`. With a larger `re_len`, Python would raise `IndexError`, and that error path is not modelled.
- Malformed nodes are not modelled. The datatype assumes a literal holds one character, a union a tuple of nodes, and a star a tuple of nodes, as every pattern in the file does. A non-empty string payload of a union, or a node tuple with fewer than two elements (even one with an unrecognised tag), makes parse.py:85 raise `IndexError`. That error path is not modelled.
- Python's recursion limit on deeply nested patterns is not modelled. The model lets the recursion go as deep as the pattern.
- The prose string and notes at parse.py:1-48 and the grammar in comments at parse.py:54-75 are left out. No code acts on them; in particular, no parser from pattern text to the IR exists.
- The script's unused globals (parse.py:110-121) and the patterns `re4`, `re5` and `re6` (parse.py:133-140) are left out. No call uses them.
- Matching by backtracking (match lengths, greedy star, alternation with a continuation) is not in this code, so the model does not describe it.

# PolyCompute finite-automata engine in Dafny

PolyCompute is a web application for experimenting with finite automata. Its
automata engine lives inside React components. This project lifts that
engine out and models it in Dafny, where every operation is verified against
a specification. It covers:

- **Regex to NFA** (`RegexToNFA.tsx`):
  - insertion of explicit `.` concatenation operators;
  - shunting-yard conversion to postfix;
  - Thompson's construction over fresh `q<n>` ids, with the module-level id
    counter threaded through as explicit state;
  - ε-transition removal;
  - the `convertRegexToNFA` action that chains these steps.
- **NFA simulation** (`NFASimulator.tsx`): worklist ε-closure, one
  simulation step, and the simulation loop. The loop records a trace,
  halts early on an empty live set, and gives a verdict.
- **Subset construction**, in both variants of the source:
  - `NfaToDfa.ts` names each DFA state by its sorted, `_`-joined set of ids;
  - `NFAtoDFA.tsx` names states `e1, e2, …` in discovery order.

  Both are proved to return a subset automaton of the NFA for every NFA
  whose ids are name-safe: no id contains `_`, is `∅`, or is a name a plain
  JavaScript object inherits (`toString`, `constructor`, …). Such an
  automaton is deterministic and complete, and accepts exactly the words the
  NFA simulation accepts. For other ids the source's lookup tables can
  confuse two sets, and the model promises nothing (see "## Left out").
- **Interactive NFA builder** (`NFAConstructor.tsx`), as a class whose
  handlers update its fields.
- **Regex tester** (`RegexTester.tsx`): the pattern validator, the alphabet
  assembled from character groups, and the pattern list with add, edit and
  delete.
- **DOT serialiser** `nfaToDot` (`NFADiagram.tsx`), with its highlighting
  rules.

## Layout

- `wrappers.dfy` (`Wrappers`): `Option` and `Result`.
- `strings.dfy` (`Strings`): decimal rendering, `join`/`split`, `trim`, and
  the string order behind `sort()`.
- `seqs.dfy` (`Seqs`): `[...new Set(xs)]`.
- `automaton.dfy` (`Automaton`): `State`, `Transition`, `Nfa`, and the
  lookups on them.
- `closure.dfy` (`Closures`): ε-closure and `move`, shared by every
  component.
- `language.dfy` (`Language`): the language an NFA accepts, as the simulator
  decides it.
- `regex_concat.dfy`, `regex_parser.dfy`, `thompson.dfy`, `eps_removal.dfy`
  and `convert.dfy`: the regex-to-NFA pipeline.
- `simulator.dfy` (`Simulator`): the NFA simulation.
- `dfa.dfy` (`Dfas`): DFAs, subset automata, and why they accept the NFA's
  language.
- `subset_named.dfy` (`SubsetNamed`) and `subset_numbered.dfy`
  (`SubsetNumbered`): the two subset constructions. `rename.dfy`
  (`Renaming`) proves that renaming states keeps a subset automaton one.
- `builder.dfy` (`Builder`), `regex_tester.dfy` (`RegexTester`) and
  `dot.dfy` (`Diagram`): the builder, the tester and the DOT serialiser.

## Model

| member | source | states |
|---|---|---|
| Automaton.FindInitial | app/components/RegexToNFA.tsx:93 | `find(s => s.isInitial)`: it returns nothing iff no state is initial; otherwise it returns a listed state that is initial |
| Automaton.FindInitialFirst | app/components/RegexToNFA.tsx:93 | the state `find` returns sits at a position before which no state is initial |
| Automaton.InitialIdOrEmpty | app/components/NFASimulator.tsx:123 | the id of the first initial state, or `""` when there is none |
| Automaton.FindById | app/components/NFASimulator.tsx:163-165 | it returns nothing iff no state has the id; otherwise it returns the first state with that id |
| Automaton.FinalStates | app/components/RegexToNFA.tsx:103-105 | `filter(s => s.isFinal)`: the listed states that are final, and no others |
| Seqs.Dedup | app/components/RegexToNFA.tsx:113 | `[...new Set(xs)]` has the same elements as `xs`, without repeats, and is no longer; its elements appear in the order of their first occurrences in `xs` |
| Seqs.DedupOfDistinct | app/components/RegexToNFA.tsx:113 | a list without duplicates passes through unchanged |
| Seqs.DedupIdempotent | app/components/RegexToNFA.tsx:113 | deduplicating twice is deduplicating once |
| Strings.NatToString | app/components/RegexToNFA.tsx:8-10 | the decimal rendering of the counter: a non-empty string of digits |
| Strings.NatToStringInjective | app/components/RegexToNFA.tsx:8-10 | different counter values print differently |
| Strings.Split | app/components/RegexToNFA.tsx:329 | `split(sep)` yields at least one piece, and no piece holds the separator |
| Strings.JoinSplit | app/components/NfaToDfa.ts:63-64 | joining the pieces of a split gives back the string |
| Strings.SplitJoin | app/components/NfaToDfa.ts:63-64 | splitting a join of separator-free pieces gives back the pieces |
| Strings.JoinInjective | app/components/NfaToDfa.ts:63-64 | `join` is injective on non-empty lists of separator-free pieces |
| Strings.Trim | app/components/NFAConstructor.tsx:18-19 | `trim()` drops only white space at both ends, and the result neither starts nor ends with white space |
| Strings.Sorted | app/components/NfaToDfa.ts:63 | `Array.from(S).sort()`: each element of `S` once, in ascending order |
| Strings.SortedInjective | app/components/NfaToDfa.ts:63 | two sets with the same sorted listing are equal |
| Strings.StrLeTotal | app/components/NfaToDfa.ts:63 | the sort order is total |
| Strings.StrLeAntisymmetric | app/components/NfaToDfa.ts:63 | the sort order is antisymmetric |
| Strings.StrLeTransitive | app/components/NfaToDfa.ts:63 | the sort order is transitive |
| Closures.Closure | app/components/NFASimulator.tsx:50-65 | the ε-closure contains the input set, adds only transition targets, and no ε-transition leaves it |
| Closures.ClosureLeast | app/components/NFASimulator.tsx:50-65 | every ε-closed superset of `S` contains the closure of `S` |
| Closures.ClosureIdempotent | app/components/NFASimulator.tsx:50-65 | closing twice is closing once |
| Closures.ClosureMonotonic | app/components/NFASimulator.tsx:50-65 | a larger set has a larger closure |
| Closures.EpsilonClosure | app/components/NfaToDfa.ts:18-31 | the worklist loop computes exactly the ε-closure |
| Closures.ScanEpsilonEdges | app/components/NFAtoDFA.tsx:19-25 | one pop of the worklist adds and pushes the unseen ε-targets of the popped state, and keeps every closure state either scanned or pending |
| Closures.ToList | app/components/NFASimulator.tsx:52 | `Array.from(S)` lists each element of `S` exactly once |
| Closures.Move | app/components/NfaToDfa.ts:34-44 | `move(S, c)` is exactly the set of targets of the `c`-transitions leaving `S` |
| Closures.MoveStates | app/components/NFAtoDFA.tsx:31-41 | the nested loops compute exactly `move(S, c)` |
| Closures.StepEmpty | app/components/NFASimulator.tsx:67-85 | one step from the empty set stays empty |
| Language.RunAppend | app/components/NFASimulator.tsx:129-154 | reading `u` then `v` is reading `u + v` |
| Language.RunFromEmpty | app/components/NFASimulator.tsx:141-149 | once the live set is empty, no further input revives it |
| Language.RunHalts | app/components/NFASimulator.tsx:141-149 | an input whose prefix empties the live set is rejected |
| Language.RunClosed | app/components/NFASimulator.tsx:123-154 | every live set is ε-closed |
| Simulator.Symbols | app/components/NFASimulator.tsx:129-130 | each input character is read as a one-character symbol |
| Simulator.ComputeEpsilonClosure | app/components/NFASimulator.tsx:50-65 | with an NFA loaded it returns the ε-closure; with none it returns its input |
| Simulator.SimulateStep | app/components/NFASimulator.tsx:67-85 | with an NFA loaded it returns closure(move(closure(S), c)); with none it returns the empty set |
| Simulator.TakenTransitions | app/components/NFASimulator.tsx:133-140 | it records exactly the `c`-transitions leaving the closure of the live set |
| Simulator.RunSimulation | app/components/NFASimulator.tsx:87-172 | with no NFA it reports the load error; otherwise the trace is `TraceOf` the effective input: it starts from the initial closure (`""` when nothing is initial), has equally long state and transition sequences of length 1 + steps, and stops at the first empty live set with empty entries |
| Simulator.RecordedStart | app/components/NFASimulator.tsx:123-127 | the trace starts with the initial closure and an empty transition list |
| Simulator.RecordNext | app/components/NFASimulator.tsx:150-153 | a non-empty step appends its live set and the transitions taken |
| Simulator.FinishHalted | app/components/NFASimulator.tsx:142-148 | an empty step appends the empty set and the empty list, then stops with a rejecting trace |
| Simulator.FinishFull | app/components/NFASimulator.tsx:154-171 | a run that reads every symbol ends with a trace whose verdict looks at the last live set |
| Simulator.TraceAccepts | app/components/NFASimulator.tsx:162-171 | the verdict of a trace is accept iff the final live set holds a final state, which is the language verdict |
| Simulator.LastLive | app/components/NFASimulator.tsx:141-149 | the last recorded live set, whether halted or complete, is the live set after the whole input |
| Simulator.EmptyInputTrace | app/components/NFASimulator.tsx:94-116 | an input of `""` or exactly `"ε"` records only the initial closure, and accepts iff that closure holds a final state |
| Simulator.EpsilonSymbolStep | app/components/NFASimulator.tsx:130-136 | an `ε` inside the input is read as a symbol that follows ε-labelled edges, so the step stays inside the current closure |
| Simulator.EpsilonSymbolRejects | app/components/NFASimulator.tsx:94-149 | a one-state accepting NFA accepts the empty word but rejects the word `[ε]`, which is what is left to read when `ε` comes after other symbols (the whole input `"ε"` is read as the empty word) |
| RegexConcat.ExplicitConcat | app/components/RegexToNFA.tsx:214-237 | the explicit form is no shorter than the input, and keeps its first and last characters |
| RegexConcat.RemoveInsertedDotsInverse | app/components/RegexToNFA.tsx:214-237 | deleting the inserted dots gives back the input, literal dots included |
| RegexConcat.ExplicitConcatInjective | app/components/RegexToNFA.tsx:214-237 | different inputs have different explicit forms |
| RegexConcat.UnfoldExplicitConcat | app/components/RegexToNFA.tsx:221-232 | a `.` is inserted between two characters exactly when the first is not `(` or `|` and the second is not `)`, `|` or `*` |
| RegexConcat.MakeExplicitConcatenation | app/components/RegexToNFA.tsx:214-237 | the loop computes `ExplicitConcat` |
| RegexParser.InfixToPostfix | app/components/RegexToNFA.tsx:239-282 | the loop with its operator stack and pop loops computes `Postfix` |
| RegexParser.Reverse | app/components/RegexToNFA.tsx:277-279 | the final flush emits the remaining operators top first |
| RegexParser.PopToParenShape | app/components/RegexToNFA.tsx:253-260 | on `)` the operators above the nearest `(` move to the output, top first |
| RegexParser.PopHigherShape | app/components/RegexToNFA.tsx:261-269 | before an operator is pushed, every operator above the nearest `(` with at least its precedence moves to the output, top first |
| RegexParser.PopHigherStopsAtParen | app/components/RegexToNFA.tsx:262-266 | the precedence pop never pops a `(` |
| RegexParser.ShuntOperands | app/components/RegexToNFA.tsx:248-274 | the stack holds only operators and `(`, and the output holds the operands read so far, in order |
| RegexParser.PostfixKeepsOperands | app/components/RegexToNFA.tsx:239-282 | the postfix form keeps the operand characters in their order |
| RegexParser.ShuntParens | app/components/RegexToNFA.tsx:251-260 | while the depth stays non-negative, the stack holds one `(` per open group and the output holds no parenthesis |
| RegexParser.BalancedPostfixHasNoParens | app/components/RegexToNFA.tsx:239-282 | for balanced input the postfix form holds no parenthesis |
| RegexParser.ShuntIncreasing | app/components/RegexToNFA.tsx:261-269 | between parentheses the stack strictly increases in precedence, so operators are left-associative |
| RegexParser.UnmatchedParens | app/components/RegexToNFA.tsx:253-279 | an unmatched `(` is flushed into the output, and an unmatched `)` is dropped |
| Thompson.Fresh | app/components/RegexToNFA.tsx:7-10 | `q<n>`: a `q` followed by decimal digits |
| Thompson.FreshInjective | app/components/RegexToNFA.tsx:7-10 | different counter values give different ids |
| Thompson.NotFreshBelow | app/components/RegexToNFA.tsx:7-10 | an id handed out at or after the counter is not among those handed out before |
| Thompson.BasicNfa | app/components/RegexToNFA.tsx:69-78 | two fresh states, the first initial and the second final, one `c`-transition between them, alphabet `[c]`, and the counter up by 2 |
| Thompson.UnionNfa | app/components/RegexToNFA.tsx:80-115 | the counter goes up by 2; one initial and one final state; 2 more states than the operands; 2 + #finals(nfa1) + #finals(nfa2) more transitions; the ids are the operands' plus two fresh ones; the alphabet is the operands' union |
| Thompson.UnionNfaStates | app/components/RegexToNFA.tsx:84-89 | the fresh start comes first and is the initial (not final) state; the fresh end comes last and is the final (not initial) state; the operands' states lie in between, in order, with both flags cleared |
| Thompson.UnionNfaEdges | app/components/RegexToNFA.tsx:90-109 | a transition is in the union iff it is an operand's edge, one of the two ε-edges from the start into the operands' initial states, or an ε-edge from an operand's final state to the end |
| Thompson.ConcatNfa | app/components/RegexToNFA.tsx:117-144 | no new state; the initial count is the first operand's and the final count the second's; #finals(nfa1) more transitions; the ids are the operands'; the alphabet is the operands' union |
| Thompson.ConcatNfaStates | app/components/RegexToNFA.tsx:119-122 | nfa1's states come first, keep their initial flag and stop being final; nfa2's states follow, keep their final flag and stop being initial |
| Thompson.ConcatNfaEdges | app/components/RegexToNFA.tsx:124-137 | a transition is in the concatenation iff it is an operand's edge or an ε-edge from a final state of nfa1 into nfa2's initial state |
| Thompson.StarNfa | app/components/RegexToNFA.tsx:146-170 | the counter goes up by 2; one initial and one final state; 2 more states and 2 + 2·#finals more transitions than the operand; the ids are the operand's plus two fresh ones; the same alphabet |
| Thompson.StarNfaStates | app/components/RegexToNFA.tsx:151-155 | the fresh start comes first and is the initial (not final) state; the fresh end comes last and is the final (not initial) state; the operand's states lie in between, in order, with both flags cleared |
| Thompson.StarNfaEdges | app/components/RegexToNFA.tsx:149-167 | a transition is in the star iff it is an operand edge, the ε-edge from the start to the operand's initial state, the ε-edge from the start to the end, or an ε-edge from an operand final state back to its initial state or on to the end |
| Thompson.Demote | app/components/RegexToNFA.tsx:86-87 | same ids and length, with no initial and no final flags |
| Thompson.ClearFinal | app/components/RegexToNFA.tsx:120 | same ids and initial flags, with no final flags |
| Thompson.ClearInitial | app/components/RegexToNFA.tsx:121 | same ids and final flags, with no initial flags |
| Thompson.FinalEdges | app/components/RegexToNFA.tsx:103-108 | one ε-edge from each final state to the target |
| Thompson.BasicWellBuilt | app/components/RegexToNFA.tsx:69-78 | a basic fragment has one initial and one final state, with distinct fresh ids |
| Thompson.UnionWellBuilt | app/components/RegexToNFA.tsx:80-115 | the union of well-built fragments with disjoint ids is well built |
| Thompson.ConcatWellBuilt | app/components/RegexToNFA.tsx:117-144 | the concatenation of well-built fragments with disjoint ids is well built |
| Thompson.StarWellBuilt | app/components/RegexToNFA.tsx:146-170 | the star of a well-built fragment is well built |
| Thompson.PushToken | app/components/RegexToNFA.tsx:177-205 | a token throws iff it is `*` on an empty stack, or `|`/`.` on fewer than two fragments; otherwise the stack changes by 0, -1 or +1 at the top only, and the counter never decreases |
| Thompson.PushTokenOk | app/components/RegexToNFA.tsx:177-205 | every token keeps the fragments on the stack well built and pairwise disjoint |
| Thompson.AssembleOk | app/components/RegexToNFA.tsx:172-212 | every stack the evaluation reaches is sound |
| Thompson.ParseWellBuilt | app/components/RegexToNFA.tsx:172-212 | a successful parse yields one initial and one final state, with pairwise distinct ids from the counter |
| Thompson.AssembleErrSticks | app/components/RegexToNFA.tsx:181-197 | the first error thrown is the result |
| Thompson.ParseRegexToNfa | app/components/RegexToNFA.tsx:172-212 | the loop over the postfix form computes `ParseRegex`, including its four errors |
| EpsilonRemoval.RemoveEpsilonTransitions | app/components/RegexToNFA.tsx:284-338 | the result `IsEpsilonFree`: reflagged states in the same order, the same alphabet, and each edge of the closures listed once |
| EpsilonRemoval.ClosureMap | app/components/RegexToNFA.tsx:286-301 | every state's id maps to its ε-closure |
| EpsilonRemoval.CollectEdges | app/components/RegexToNFA.tsx:303-314 | the pushed edges are exactly the non-ε edges of each state's closure, re-rooted at the state |
| EpsilonRemoval.PushClosureEdges | app/components/RegexToNFA.tsx:307-313 | the edges of one closure are added, re-rooted |
| EpsilonRemoval.PushTargetEdges | app/components/RegexToNFA.tsx:308-312 | the non-ε edges of one target are added, re-rooted |
| EpsilonRemoval.Reflagged | app/components/RegexToNFA.tsx:320-323 | a state keeps its id, label and initial flag |
| EpsilonRemoval.EdgesFrom | app/components/RegexToNFA.tsx:307-313 | the non-ε edges leaving the sources, re-rooted |
| EpsilonRemoval.EpsilonFreeShape | app/components/RegexToNFA.tsx:303-323 | no ε-edge remains, every edge leaves a listed state, and the ids and initial flags are unchanged, in order |
| EpsilonRemoval.EpsilonFreeFinal | app/components/RegexToNFA.tsx:316-323 | a state is final iff its ε-closure holds a final state |
| EpsilonRemoval.EpsilonFreeEdges | app/components/RegexToNFA.tsx:303-314 | there is an edge s→t on c iff c ≠ ε and some state of closure(s) has a c-edge to t |
| EpsilonRemoval.KeyRoundTrip | app/components/RegexToNFA.tsx:325-331 | splitting the key `from|to|symbol` gives back the transition when no part holds `|` |
| EpsilonRemoval.KeyAmbiguous | app/components/RegexToNFA.tsx:325-331 | a part holding `|` makes the key decode to a different transition |
| EpsilonRemoval.UniqueTransitions | app/components/RegexToNFA.tsx:325-331 | decoding the deduplicated keys lists every pushed transition exactly once |
| EpsilonRemoval.RunEpsilonFree | app/components/RegexToNFA.tsx:284-338 | closing the ε-free live set gives the original live set, word by word |
| EpsilonRemoval.EpsilonFreeAccepts | app/components/RegexToNFA.tsx:284-338 | on every word without the symbol ε, the ε-free NFA accepts iff the original does |
| Convert.RegexNfaLanguage | app/components/RegexToNFA.tsx:340-357 | the converted NFA accepts the same ε-free words as the NFA Thompson's construction built |
| Convert.RegexNfaShape | app/components/RegexToNFA.tsx:340-357 | the converted NFA has exactly one initial state and distinct ids |
| Convert.RegexConverter.constructor | app/components/RegexToNFA.tsx:31-33 | no NFA and no error before the first conversion |
| Convert.RegexConverter.ConvertRegexToNfa | app/components/RegexToNFA.tsx:340-357 | an empty pattern sets the error and keeps the NFA; a parse error is shown and keeps the NFA; on success the counter restarts at 0 (same regex, same ids), the ε-free NFA is set and the error is cleared |
| Dfas.NonEpsilon | app/components/NfaToDfa.ts:47 | the alphabet without ε, and nothing else |
| Dfas.SetNameInjective | app/components/NfaToDfa.ts:62-65 | sets of ids without `_` and other than `∅` share a name only when they are equal |
| Dfas.EmptyNameUnique | app/components/NfaToDfa.ts:62-65 | only the empty set is named `∅` |
| Dfas.SetNameNotInherited | app/components/NfaToDfa.ts:85-92 | the name of a set of safe ids is never a key a plain object inherits, so the `in` test on the state table and the truthiness test on `visited` see only the names stored in them |
| Dfas.DeltaIsStep | app/components/NfaToDfa.ts:80-81 | on an ε-closed set, a DFA move is a simulation step |
| Dfas.SubsetDfaDeterministic | app/components/NfaToDfa.ts:78-100 | a subset automaton has at most one transition target per source and symbol |
| Dfas.SubsetDfaInitial | app/components/NfaToDfa.ts:104-127 | exactly one state is initial, and it is `initialState` |
| Dfas.DfaNext | app/components/NfaToDfa.ts:94-99 | the target of the first transition from a state on a symbol, or nothing iff there is none |
| Dfas.SubsetDfaRun | app/components/NfaToDfa.ts:11-15 | on a word over its alphabet a subset automaton never gets stuck, and its state stands for the NFA's live set |
| Dfas.SubsetDfaAccepts | app/components/NfaToDfa.ts:11-15 | a subset automaton accepts a word over its alphabet iff the NFA simulation does |
| Dfas.SubsetDfaLanguage | app/components/NfaToDfa.ts:11-15 | the same, for every word over the alphabet at once |
| Dfas.PowerSet | app/components/NfaToDfa.ts:57-59 | the subsets of a finite universe, which bound the search |
| Dfas.AllNames | app/components/NfaToDfa.ts:57-59 | every name a subset of the universe can get |
| Dfas.DeltaInUniverse | app/components/NfaToDfa.ts:80-82 | every set the search meets lies inside the universe of reachable ids |
| Dfas.VisitStep | app/components/NfaToDfa.ts:89-92 | each step either keeps the visited names or visits a new one, so the search terminates |
| Dfas.BuildDfa | app/components/NfaToDfa.ts:104-118 | one state per registered name, in registration order |
| Dfas.BuildDfaStates | app/components/NfaToDfa.ts:104-121 | the assembled states meet the subset-automaton conditions on states: one state per registered set, final iff the set holds an NFA final state |
| Dfas.BuildDfaKeys | app/components/NfaToDfa.ts:104-118 | each state is final iff its set holds an NFA final state, and initial iff it is the initial name |
| Dfas.BuildDfaFinals | app/components/NfaToDfa.ts:121 | `finalStates` lists exactly the ids of final states |
| SubsetNamed.NfaToDfa | app/components/NfaToDfa.ts:16-130 | throws iff no state is initial; otherwise it returns a subset automaton named by canonical set names, with `initialState` the name of the initial closure, accepting exactly the NFA's words over the ε-free alphabet |
| SubsetNamed.ExpandSet | app/components/NfaToDfa.ts:78-100 | one transition per symbol for the dequeued set, each registered and enqueued once, with fewer names left to visit whenever the queue grows |
| SubsetNamed.ExploredStart | app/components/NfaToDfa.ts:67-72 | the search starts with the initial closure registered, visited and queued |
| SubsetNamed.RowStep | app/components/NfaToDfa.ts:80-99 | one symbol keeps the search invariant |
| SubsetNamed.RowEnd | app/components/NfaToDfa.ts:74-101 | a dequeued set with every symbol done extends the explored part |
| SubsetNamed.ExploredDfa | app/components/NfaToDfa.ts:103-129 | an exhausted search assembles a subset automaton |
| Renaming.RenameTransitions | app/components/NFAtoDFA.tsx:104-108 | each transition, with its endpoints renamed |
| Renaming.RenameStates | app/components/NFAtoDFA.tsx:113-127 | each state takes its new name as id and label, and keeps its flags |
| Renaming.RenameSubsetDfa | app/components/NFAtoDFA.tsx:57-137 | a one-to-one renaming of a subset automaton is a subset automaton of the same NFA |
| SubsetNumbered.EqName | app/components/NFAtoDFA.tsx:61 | `e<n>`: the names start with `e` |
| SubsetNumbered.EqNameInjective | app/components/NFAtoDFA.tsx:61 | different numbers give different names |
| SubsetNumbered.GetEqName | app/components/NFAtoDFA.tsx:57-64 | a known key keeps its name and the counter; a new key gets the next `e<n>` and the counter goes up by one |
| SubsetNumbered.NumberStep | app/components/NFAtoDFA.tsx:57-97 | naming a set keeps the names `e1, e2, …` in step with registration order, and never changes an earlier name |
| SubsetNumbered.NumberedOneToOne | app/components/NFAtoDFA.tsx:57-64 | distinct registered keys have distinct names |
| SubsetNumbered.NumberedIsRenamed | app/components/NFAtoDFA.tsx:104-137 | the numbered automaton is the key-named automaton renamed |
| SubsetNumbered.ExpandSet | app/components/NFAtoDFA.tsx:87-109 | one transition per symbol between `eN` names, with the numbering and the search invariant kept |
| SubsetNumbered.Explore | app/components/NFAtoDFA.tsx:82-110 | the BFS empties the queue with every set expanded and the numbering kept |
| SubsetNumbered.AssembleDfa | app/components/NFAtoDFA.tsx:112-138 | the assembled DFA is a subset automaton with states `e1, e2, …` in order, `e1` initial, accepting the NFA's words |
| SubsetNumbered.NumberedIds | app/components/NFAtoDFA.tsx:76-127 | the states are `e1, e2, …` in registration order, and the initial closure gets `e1` |
| SubsetNumbered.NfaToDfa | app/components/NFAtoDFA.tsx:44-139 | throws iff no state is initial; otherwise it returns a subset automaton whose k-th state is `e(k+1)`, with `initialState` `e1`, accepting exactly the NFA's words over the ε-free alphabet |
| Builder.Retagged | app/components/NFAConstructor.tsx:64 | each state is initial iff it has the id, and is otherwise unchanged |
| Builder.Refinalised | app/components/NFAConstructor.tsx:76 | each state is final iff its id is listed, and is otherwise unchanged |
| Builder.Without | app/components/NFAConstructor.tsx:71 | the list without the id |
| Builder.Toggle | app/components/NFAConstructor.tsx:69-74 | the id is listed afterwards iff it was not listed before, and other ids are unaffected |
| Builder.ToggleTwice | app/components/NFAConstructor.tsx:68-77 | toggling twice lists the same ids, and restores the very list when the id was absent |
| Builder.NewSymbols | app/components/NFAConstructor.tsx:53-56 | the trimmed non-empty pieces not already in the alphabet, in order |
| Builder.NewSymbolsKeepsRepeats | app/components/NFAConstructor.tsx:53-57 | a new symbol typed twice in one input is added twice |
| Builder.GateNfa | app/components/NFAConstructor.tsx:80-87 | the gated NFA carries the builder's fields |
| Builder.GateNfaShape | app/components/NFAConstructor.tsx:80-87 | an NFA exists iff there is a state and a non-empty designated initial state; it then has distinct ids, exactly one initial state (the designated one) and exactly the listed finals |
| Builder.AddStateConsistent | app/components/NFAConstructor.tsx:17-34 | adding a fresh plain state keeps the ids distinct and the flags consistent |
| Builder.RetagConsistent | app/components/NFAConstructor.tsx:62-65 | after designation exactly the designated state is initial |
| Builder.ToggleConsistent | app/components/NFAConstructor.tsx:68-77 | after toggling, each state is final iff its id is listed |
| Builder.NfaBuilder.constructor | app/components/NFAConstructor.tsx:6-14 | every field starts empty, with no initial state and no error |
| Builder.NfaBuilder.GatedNfa | app/components/NFAConstructor.tsx:80-87 | the `nfa` expression over the current fields |
| Builder.NfaBuilder.AddState | app/components/NFAConstructor.tsx:17-34 | a blank trimmed name changes nothing; a taken id sets the error and changes nothing else; otherwise one plain state with id = label = trimmed name is appended and the error is cleared; ids stay distinct |
| Builder.NfaBuilder.AddTransition | app/components/NFAConstructor.tsx:37-49 | nothing happens if source, target or symbol is empty; otherwise exactly one transition is appended and the error is cleared |
| Builder.NfaBuilder.AddAlphabet | app/components/NFAConstructor.tsx:52-59 | it appends `NewSymbols` of the comma-split input, keeping duplicates within one input |
| Builder.NfaBuilder.AddEpsilon | app/components/NFAConstructor.tsx:137-139 | it appends `ε` only when absent |
| Builder.NfaBuilder.SetInitialState | app/components/NFAConstructor.tsx:62-65 | exactly the state with the id is initial afterwards, and it is designated |
| Builder.NfaBuilder.ToggleFinalState | app/components/NFAConstructor.tsx:68-77 | it flips the id's membership in `finalStates`, and every state is then final iff listed |
| RegexTester.ValidateRegex | app/components/RegexTester.tsx:59-89 | it returns true iff the depth never goes negative, ends at 0, and every character is in the alphabet or in `|*()`; a negative prefix depth or a non-zero final depth gives false |
| RegexTester.BalancedConcat | app/components/RegexTester.tsx:61-67 | two balanced patterns side by side are balanced |
| RegexTester.BalancedGroup | app/components/RegexTester.tsx:61-67 | a balanced pattern in parentheses is balanced |
| RegexTester.ClosingFirstUnbalanced | app/components/RegexTester.tsx:64-65 | a leading `)` fails whatever follows |
| RegexTester.CharRange | app/components/RegexTester.tsx:29-35 | `n` consecutive characters from `lo` |
| RegexTester.LettersAndDigits | app/components/RegexTester.tsx:29-35 | the three literal groups are the ranges a–z, A–Z and 0–9 |
| RegexTester.AsciiRangeMembers | app/components/RegexTester.tsx:37-45 | the ASCII group holds exactly the codes in range other than `|*()` |
| RegexTester.BuildAlphabet | app/components/RegexTester.tsx:26-47 | the enabled groups, in the order lowercase, uppercase, digits, ASCII |
| RegexTester.AppendAscii | app/components/RegexTester.tsx:39-44 | the codes 32..126 other than `|*()`, in code order, after what came before |
| RegexTester.AlphabetMembers | app/components/RegexTester.tsx:26-47 | the alphabet's symbols are exactly the single characters of the enabled groups |
| RegexTester.AlphabetHasNoOperators | app/components/RegexTester.tsx:41 | no group adds an operator or a parenthesis |
| RegexTester.DefaultWhitelist | app/components/RegexTester.tsx:16-74 | with the default groups, letters and digits pass the whitelist |
| RegexTester.RemoveAt | app/components/RegexTester.tsx:125-127 | `filter((_, i) => i !== index)` leaves an array without holes; on an array without holes it removes exactly the given index and moves the later entries down by one, and an index past the end changes nothing |
| RegexTester.RemoveAtMembers | app/components/RegexTester.tsx:125-127 | on any array, holes included, the entries kept are exactly those at positions other than the index |
| RegexTester.Submitted | app/components/RegexTester.tsx:102-111 | in add mode one entry is appended at the end. In edit mode the entry lands at the edit index. Inside the array only that entry changes and the length is kept. Past the end the array grows to reach the index, and the slots in between are holes |
| RegexTester.DeleteWhileEditingLosesNeighbour | app/components/RegexTester.tsx:102-127 | the source as written: `[a, b]`, edit 0, delete 0, submit `x` gives `[x]`, so `b`, never edited, is lost |
| RegexTester.SubmitPastEndLeavesHole | app/components/RegexTester.tsx:102-127 | the source as written: `[a, b, c]`, edit 2, delete 0 twice, submit `x` writes past the end of `[c]` and leaves a hole: `[c, hole, x]` |
| RegexTester.AdjustedEdit | app/components/RegexTester.tsx:125-127 | the corrected edit index (not what the source does): cleared when its entry goes, moved down when an earlier entry goes |
| RegexTester.AdjustedEditKeepsTarget | app/components/RegexTester.tsx:125-127 | for the corrected index (not what the source does), the edit stays inside the shorter array on the same entry, or ends when that entry is deleted |
| RegexTester.DeleteThenSubmit | app/components/RegexTester.tsx:102-107 | for the corrected index (not what the source does), a submit after deleting another entry replaces the entry that was being edited, keeps the other survivors and leaves no hole |
| RegexTester.PatternList.constructor | app/components/RegexTester.tsx:11-22 | the initial fields, with the default groups |
| RegexTester.PatternList.UpdateAlphabet | app/components/RegexTester.tsx:26-47 | the alphabet becomes the selected groups' symbols, and nothing else changes |
| RegexTester.PatternList.AddPattern | app/components/RegexTester.tsx:91-116 | an empty field or a failed validation sets its message and leaves the array alone; otherwise the entry is stored as `Submitted` says for whatever edit index is held, even one past the end; then edit mode ends and the form clears |
| RegexTester.PatternList.Edit | app/components/RegexTester.tsx:118-123 | it loads the entry into the form and enters edit mode on its index, leaving the array alone |
| RegexTester.PatternList.Delete | app/components/RegexTester.tsx:125-127 | the array is filtered as `RemoveAt` says, and the edit index is left as it was, as in the source |
| Diagram.InitLines | app/components/NFADiagram.tsx:22-27 | the `fake_init` node and edge are emitted iff some state is initial, and the edge points at the first initial state |
| Diagram.NodeStyleOf | app/components/NFADiagram.tsx:30-46 | fill `#3b82f6` iff active, whatever the flags; `peripheries=2` iff final and not active |
| Diagram.EdgeHighlighted | app/components/NFADiagram.tsx:51-55 | an edge is highlighted iff its (from, to, symbol) triple is active |
| Diagram.HighlightVisible | app/components/NFADiagram.tsx:54 | a highlighted edge line differs from the plain one |
| Diagram.NodeLines | app/components/NFADiagram.tsx:30-48 | one node line per state, in order |
| Diagram.EdgeLines | app/components/NFADiagram.tsx:51-55 | one edge line per transition, in order |
| Diagram.LinesLayout | app/components/NFADiagram.tsx:16-59 | the header, then the initial marker, then one line per state, then one line per transition |
| Diagram.DotFrame | app/components/NFADiagram.tsx:18-57 | the text starts with `digraph NFA {` and ends with `}` |
| Diagram.DotSplitsIntoLines | app/components/NFADiagram.tsx:16-59 | with no line break in any name, splitting the text at newlines gives back the lines and `}` |
| Diagram.TerminatedJoin | app/components/NFADiagram.tsx:18-57 | newline-terminated lines plus a last one are the lines joined with newlines |
| Diagram.NfaToDot | app/components/NFADiagram.tsx:16-59 | the method computes `DotText` |
| Diagram.AppendLine | app/components/NFADiagram.tsx:18-26 | `dot += line + '\n'` adds one terminated line |
| Diagram.AppendStates | app/components/NFADiagram.tsx:30-48 | the state loop appends exactly the node lines |
| Diagram.StateStyle | app/components/NFADiagram.tsx:31-46 | the if-chain computes `NodeStyleOf` |
| Diagram.AppendTransitions | app/components/NFADiagram.tsx:51-55 | the transition loop appends exactly the edge lines |

## Left out

- React state, hooks, JSX and page shells: the `set*` calls, the animation timers, step navigation, and the navigation pages. The component's state appears only as class fields where handlers update it.
- File loading (react-dropzone, FileReader, JSON.parse), the counter resync on load, and export and download through Blob, URL and DOM anchors. These are browser I/O. The export-only `NFAData` metadata is left out with them.
- `handleTestString`: it delegates matching to the JavaScript `RegExp` engine, a foreign library. The `console.log` debug calls are also left out.
- Viz.js rendering of the DOT text: an external library. `getTransitionTable` is display-only.
- The human-readable `steps` messages of `runSimulation` are left out. So are its `setStepIndex` and the `"Input accepted!"`/`"Input rejected!"` texts; the `accepted` flag of the trace stands for them.
- JavaScript `Array.prototype.sort` uses UTF-16 code-unit order. The model orders characters by code point, which agrees on basic-plane ids.
- `Object.keys`/`Object.entries` put integer-like keys first. The model lists DFA states in registration order, which is the JavaScript order for other keys.
- JavaScript `Set` iteration order is not modelled. Closures, live sets and DFA state sets are Dafny sets, so the order of recorded transitions across different closure states is left open.
- `dfaStateNames` in `NfaToDfa.ts` is written but never read, so it is not modelled.
- `String.prototype.trim` removes every Unicode white-space character. `Strings.Trim` knows the ASCII ones, no-break space and the byte-order mark.
- SubsetNamed.NfaToDfa: requires `NameSafe`: no id contains `_`, is `∅`, or is a property name a plain object inherits from `Object.prototype` (`constructor`, `hasOwnProperty`, `isPrototypeOf`, `propertyIsEnumerable`, `toLocaleString`, `toString`, `valueOf`). Without the first two, two different sets can share a name, as in the source. With an inherited name such as `{toString}`, the source's `in` test on `dfaStates` and truthiness test on `visited` (NfaToDfa.ts:85-92) treat the set as already registered and visited, so it is never explored. The source guarantees nothing in either case, and the model does not cover it.
- SubsetNumbered.NfaToDfa: requires `NameSafe`, for the same reasons. Here an inherited key also makes `getEqName` (NFAtoDFA.tsx:57-64) return the inherited function instead of an `e<n>` name.
- EpsilonRemoval.RemoveEpsilonTransitions: requires that no id, target or symbol holds `|`. The source's string keys then decode wrongly (`KeyAmbiguous`). Automata built from a regex always satisfy this (`Thompson.ParseWellBuilt`).
- Builder.NfaBuilder.SetInitialState and Builder.NfaBuilder.ToggleFinalState: require that the id is a state's. The component calls them only from the button beside a listed state.
- RegexTester.PatternList.Edit: requires an index that holds an entry. The component calls it only from the button beside a listed entry; `map` renders no button for a hole.
- Simulator.Symbols, Simulator.RunSimulation, RegexConcat.MakeExplicitConcatenation and Thompson.ParseRegexToNfa: read a Dafny string one Unicode scalar value at a time. The source indexes strings by UTF-16 code unit (`effectiveInput[i]` in NFASimulator.tsx, `regex[i]` and `postfix[i]` in RegexToNFA.tsx). The two readings agree on text in the basic multilingual plane. A character outside it, such as an emoji, is split by the source into two surrogate symbols; the model reads it as one. RegexTester.ValidateRegex iterates with `for…of`, which also walks code points, so it is not affected.
- RegexTester.PatternList.constructor: leaves the alphabet empty. The component's mount effect then runs `UpdateAlphabet`.
- Several source loops are split into helper methods to keep each proof small: `ExpandSet`, `Explore`, `AssembleDfa`, `AppendStates`, `AppendTransitions`, `AppendLine`, `StateStyle`, `ClosureMap`, `CollectEdges`, `BuildAlphabet` and `AppendAscii`. Each performs the same steps in the same order as the inline code.
- The fresh-id counter is a parameter and a result of the fragment builders, not a module-level variable.
- The empty-input branch of `runSimulation` and the main branch record the same trace shape. The model therefore uses one trace predicate for both.

## Findings

| source | as written | input that shows it | evidently intended | confidence | as-written member | corrected member |
|---|---|---|---|---|---|---|
| app/components/RegexTester.tsx:125-127 | `handleDelete` filters the array but leaves `editingIndex` unchanged, so a later submit writes at a stale index | patterns `[a, b]`, edit entry 0, delete entry 0, submit `x`: the array becomes `[x]` and `b`, never edited, is lost | deleting the entry being edited ends edit mode, and deleting an earlier entry moves the edit index down | high, by proof; not executed | RegexTester.DeleteWhileEditingLosesNeighbour | RegexTester.AdjustedEdit |
| app/components/RegexTester.tsx:102-107 | the stale index can lie past the end of the array, and `updatedPatterns[editingIndex] = …` then grows the array with holes | patterns `[a, b, c]`, edit entry 2, delete entry 0 twice, submit `x`: the array becomes `[c, hole, x]` | the edit index always points inside the array at the entry being edited | high, by proof; not executed | RegexTester.SubmitPastEndLeavesHole | RegexTester.AdjustedEdit |

# Finite automata of fa.rb, modelled in Dafny

`fa.rb` defines one Ruby class, `FiniteAutomaton`. It is a mutable store of
states, final states, transition rows and an alphabet. All automata draw
state ids from one class-wide counter, `@@nextID`. On top of the store sit:

- the DFA acceptance check `accept?`;
- the Thompson-style constructors `symbol!`, `concat!`, `union!` and `closure!`;
- the subset construction `to_dfa`, with its helpers `move` and `get_epsilon`;
- the completion-and-flip `complement!`.

## How the model is organised

The project has seven modules:

- **`Automata`** (`automata.dfy`)
  - `Auto` is the store as a value: start, states, finals, rows and alphabet.
  - A row maps a `Label` to a `Dest`. A label is `Eps` (the source's `""`) or `Sym(c)`. A destination is a list `Many(..)`, written by `add_transition`, or a single state `One(..)`, written by `add_transitiondfa`.
  - The store's queries and mutators are functions over `Auto`.
- **`Acceptance`** (`acceptance.dfy`): `accept?` as a recursive function over deterministic rows.
- **`EpsilonClosure`** (`epsilon.dfy`)
  - The meaning of `""` transitions: the epsilon-closure (as the least closed superset) and `move`.
  - The textbook extended transition function `NDelta`, which defines the language of an NFA.
- **`Thompson`** (`thompson.dfy`)
  - `symbol!`, `concat!`, `union!` and `closure!` as functions of the old store.
  - The invariants they keep.
  - The language of `symbol!`.
- **`SubsetConstruction`** (`subset.dfy`)
  - `SubsetDfa`: what `to_dfa` builds, stated row by row.
  - Its determinism, and that its language is the NFA's.
  - The invariant of the worklist.
- **`Complementation`** (`complement.dfy`)
  - `complement!` as written, and the corrected completion.
  - The corrected completion's language is the complement.
- **`FiniteAutomata`** (`fa.dfy`)
  - The class `FiniteAutomaton` has the five fields and a shared `Allocator` object that stands for `@@nextID`.
  - Every mutator changes the fields in place, and its `ensures` ties the new `Value()` to the function of the old one.
  - `get_epsilon`, `move` and `to_dfa` are methods with the source's loops. They are proved against the functions above.
  - `complement!` is modelled twice. `AsWrittenComplement` runs the source's loops and returns `ComplementAsWritten`. `Complement` runs the same loops, then completes the sink's loops, and returns the corrected `Complemented` (see Findings).

Where the code and its comments disagree, the model follows the code:

- `add_transition` appends to the destination list, with duplicates; it does not replace earlier transitions.
- When `complement!` creates the sink, the sink becomes final: it is a state of the result and not a final of the input.

## Model

| member | source | states |
|---|---|---|
| FiniteAutomata.Allocator.constructor | fa.rb:4 | the class-wide counter starts at 0 |
| FiniteAutomata.FiniteAutomaton.constructor | fa.rb:9-15 | a new automaton has no start, no states, no finals, no rows and an empty alphabet |
| Automata.NumStates | fa.rb:19-21 | the number of states is 0 exactly when there are no states |
| Automata.NewState | fa.rb:25-31 | the new id joins the states with an empty row; every other row, the start, the finals and the alphabet are kept |
| FiniteAutomata.FiniteAutomaton.NewState | fa.rb:25-31 | returns the counter's old value, bumps the counter by one, and registers the id with an empty row |
| Automata.NewStateIsFresh | fa.rb:25-31 | an id drawn from a counter above every state is not yet a state, stays below the bumped counter, and adds one to num_states |
| Automata.AddState | fa.rb:35-40 | adds v with an empty row only when v is not a state; an existing state is left as it is (idempotent, never clears a row) |
| FiniteAutomata.FiniteAutomaton.AddState | fa.rb:35-40 | the fields become AddState of the old store |
| Automata.HasState | fa.rb:44-46 | on a well-formed store, being a state is the same as having a row |
| Automata.SetStart | fa.rb:50-53 | the start becomes v, v is registered, and finals and alphabet are kept |
| FiniteAutomata.FiniteAutomaton.SetStart | fa.rb:50-53 | the fields become SetStart of the old store |
| Automata.SetFinal | fa.rb:57-64 | registers v; set_final(v, true) adds v to the finals; set_final(v, false) removes v from the finals but not from the states |
| FiniteAutomata.FiniteAutomaton.SetFinal | fa.rb:57-64 | the fields become SetFinal of the old store |
| Automata.IsFinal | fa.rb:68-74 | on a well-formed store a final is a state |
| Automata.AddTransition | fa.rb:78-86 | registers v1 and v2; the list of (v1, x) becomes the old list followed by v2; every other entry and row is kept |
| FiniteAutomata.FiniteAutomaton.AddTransition | fa.rb:78-86 | the fields become AddTransition of the old store |
| Automata.AddTransitionKeepsDuplicates | fa.rb:78-86 | adding the same transition twice keeps both copies, so earlier destinations are not removed |
| Automata.AddTransitionDfa | fa.rb:88-92 | registers v1 and v2; the entry of (v1, x) becomes the single state v2; every other entry and row is kept |
| FiniteAutomata.FiniteAutomaton.AddTransitionDfa | fa.rb:88-92 | the fields become AddTransitionDfa of the old store |
| Automata.AddTransitionDfaLastWins | fa.rb:88-92 | of two add_transitiondfa calls on the same (v1, x), the later one is what get_transition returns |
| Automata.GetTransition | fa.rb:97-103 | None for an unknown state; on a state, Some exactly when the row has an entry for x, and then that entry |
| Acceptance.Accepts | fa.rb:107-118 | accept?(s, q) holds exactly when the run from q over s gets through every letter and stops in a final state |
| Acceptance.AcceptsFromStart | fa.rb:107-118 | accept?(s) with the default start: false when there is no start, otherwise the run from the start over s gets through and stops in a final state |
| Acceptance.AcceptsAppend | fa.rb:107-118 | u + v is accepted from q exactly when the run over u gets through and v is accepted from where it stops |
| Acceptance.MissingLetterRejects | fa.rb:110-113 | a word whose first letter has no entry at q is rejected |
| Thompson.Symbol | fa.rb:192-202 | symbol!(sym) gives exactly the two states n and n + 1, start n, finals {n + 1}, the single entry n -sym-> [n + 1], and alphabet [c] for a letter or [] for "" |
| FiniteAutomata.FiniteAutomaton.Symbol | fa.rb:192-202 | the old content is discarded, the counter moves by two, and the fields become Symbol of the old counter |
| Thompson.SymbolKeeps | fa.rb:192-202 | symbol! gives a well-formed, closed NFA with a duplicate-free alphabet, two distinct states, and a start that is not final |
| Thompson.SymbolEdges | fa.rb:192-202 | the only transition of symbol!(sym) is n -sym-> n + 1 |
| Thompson.SymbolLanguage | fa.rb:192-202 | symbol!(c) accepts exactly the one-letter word c |
| Thompson.EpsilonSymbolLanguage | fa.rb:192-202 | symbol!("") accepts exactly the empty word |
| FiniteAutomata.FiniteAutomaton.AddEpsFrom | fa.rb:208 | "" transitions from every state of F to v, each appended to that state's row |
| FiniteAutomata.FiniteAutomaton.SetFinalEach | fa.rb:209 | set_final(key, final) for every key of F, in any order, gives SetFinalEach |
| FiniteAutomata.FiniteAutomaton.MergeFrom | fa.rb:211-212 | merge! of rows and states: the argument's rows win over the receiver's |
| FiniteAutomata.FiniteAutomaton.MergeAlphabet | fa.rb:215-219 | each letter of the argument's alphabet is pushed unless already present |
| FiniteAutomata.FiniteAutomaton.Concat | fa.rb:206-220 | the fields become Concat of the old receiver and argument |
| Thompson.Concat | fa.rb:206-220 | concat! on values: "" from every final to the argument's start, the finals cleared, the argument merged in, its finals made final, the alphabets merged; the result is well-formed |
| Thompson.ConcatKeeps | fa.rb:206-220 | on any operands whose "" entries are lists (DFAs included), concat! keeps well-formedness, closedness, labels within the alphabet, a duplicate-free alphabet and the "" lists; on NFA operands it also keeps NFA rows |
| Thompson.ConcatFields | fa.rb:206-220 | after concat! the start is kept, the finals are exactly the argument's, the states are the union, and the alphabet is the duplicate-free union |
| FiniteAutomata.FiniteAutomaton.UnionHead | fa.rb:226-231 | two fresh ids ustart and uend; ustart gets "" to both starts and becomes the start |
| FiniteAutomata.FiniteAutomaton.LinkEps | fa.rb:229-230 | two "" transitions appended from v, to s1 and then to s2 |
| FiniteAutomata.FiniteAutomaton.UnionTail | fa.rb:236-241 | "" from every final of both to uend; the old finals are cleared; uend becomes final |
| FiniteAutomata.FiniteAutomaton.Union | fa.rb:224-250 | the counter moves by two, and the fields become Union of the old receiver and argument |
| Thompson.Union | fa.rb:224-250 | union! on values: the head (fresh ustart with "" to both starts), the merge, then the tail ("" from every final to uend, uend the only final) and the merged alphabet; the result is well-formed |
| Thompson.UnionKeeps | fa.rb:224-250 | on any operands whose "" entries are lists (DFAs included), union! keeps well-formedness, closedness, labels within the alphabet, a duplicate-free alphabet and the "" lists; on NFA operands it also keeps NFA rows |
| Thompson.UnionFields | fa.rb:224-250 | after union! the start is ustart, the finals are exactly {uend}, the states are both state sets plus the two fresh ids, and the alphabet is the duplicate-free union |
| FiniteAutomata.FiniteAutomaton.ClosureHead | fa.rb:255-261 | two fresh ids cstart and cend, linked both ways by "", and cstart -""-> the old start |
| FiniteAutomata.FiniteAutomaton.ClosureTail | fa.rb:262-266 | "" from every old final to cend; cstart becomes the start; the old finals are cleared; cend becomes final |
| FiniteAutomata.FiniteAutomaton.Closure | fa.rb:254-269 | the counter moves by two, and the fields become Closure of the old store |
| Thompson.Closure | fa.rb:254-269 | closure! on values: the head (fresh cstart and cend joined by "" both ways, cstart to the old start), "" from every old final to cend, cstart the start and cend the only final; the result is well-formed |
| Thompson.ClosureKeeps | fa.rb:254-269 | on any operand whose "" entries are lists (DFAs included), closure! keeps well-formedness, closedness, labels within the alphabet, a duplicate-free alphabet and the "" lists; on an NFA operand it also keeps NFA rows |
| Thompson.ClosureFields | fa.rb:254-269 | after closure! the start is cstart, the finals are exactly {cend}, the states gain the two fresh ids, and the alphabet is kept |
| EpsilonClosure.ECloseContains | fa.rb:338-359 | the epsilon-closure of S contains S |
| EpsilonClosure.ECloseIsClosed | fa.rb:338-359 | no "" transition leaves the epsilon-closure |
| EpsilonClosure.ECloseLeast | fa.rb:338-359 | the epsilon-closure lies inside every closed superset of S, so it holds only states reachable by "" |
| EpsilonClosure.ECloseIdempotent | fa.rb:338-359 | closing a closure changes nothing |
| EpsilonClosure.ECloseUnion | fa.rb:292-298 | the closure of a union is the union of the closures, which is why to_dfa may close each state of move separately |
| FiniteAutomata.AddUnseen | fa.rb:348-352 | the destinations not yet in the hash join it, in order, marked unvisited; visited marks are unchanged |
| FiniteAutomata.FiniteAutomaton.EpsVisit | fa.rb:345-354 | visiting an unvisited key marks it and nothing else, and keeps the worklist invariant |
| FiniteAutomata.FiniteAutomaton.EpsPass | fa.rb:344-356 | one pass over the keys keeps the worklist invariant and visits at least one more key while one is unvisited |
| FiniteAutomata.FiniteAutomaton.GetEpsilon | fa.rb:338-359 | get_epsilon(s) ends; its result is duplicate-free, starts with s, and holds exactly the epsilon-closure of {s} |
| FiniteAutomata.PushNew | fa.rb:326-330 | pushing the destinations not yet in the result gives the duplicate-free append |
| EpsilonClosure.MoveAddOne | fa.rb:324-332 | one more source state adds exactly its destinations on the letter |
| FiniteAutomata.FiniteAutomaton.Move | fa.rb:322-334 | move(states, c) is duplicate-free and holds exactly the destinations on c of the given states |
| Automata.Uniq | fa.rb:298 | uniq! leaves no duplicates and keeps exactly the same elements |
| FiniteAutomata.FiniteAutomaton.CloseAll | fa.rb:292-298 | the concatenated closures, after uniq!, are duplicate-free and hold exactly the closure of the moved-to states |
| FiniteAutomata.FiniteAutomaton.SubsetClosure | fa.rb:292-298 | the eclose of a key on a letter is duplicate-free, lies within the NFA's states, and is the closure of the key's move |
| FiniteAutomata.FiniteAutomaton.NewKeyState | fa.rb:301 | a new DFA state is drawn from the receiver's counter and joins the receiver as an isolated state |
| SubsetConstruction.AddIsolatedGraph | fa.rb:283 | the isolated states that to_dfa adds to the receiver change none of its closures or moves |
| FiniteAutomata.FiniteAutomaton.SubsetLetter | fa.rb:291-306 | one letter of one key keeps the construction invariant and leaves the visited marks as they were |
| FiniteAutomata.FiniteAutomaton.SubsetKey | fa.rb:289-307 | processing an unvisited key marks exactly that key and keeps the invariant |
| FiniteAutomata.FiniteAutomaton.SubsetPass | fa.rb:288-308 | a pass over the keys keeps the invariant and marks at least one more key while one is unmarked |
| SubsetConstruction.KeyBound | fa.rb:287-309 | every key is a duplicate-free sequence of NFA states, so there are finitely many and the while loop ends |
| FiniteAutomata.FiniteAutomaton.MarkIfFinal | fa.rb:311-315 | a DFA state becomes final exactly when its key meets the receiver's finals |
| FiniteAutomata.FiniteAutomaton.MarkFinals | fa.rb:310-316 | the finals become the DFA states whose key meets the NFA's finals |
| FiniteAutomata.FiniteAutomaton.ToDfa | fa.rb:273-319 | the result is the subset-construction DFA of the old receiver, and the receiver gains only isolated states drawn for the DFA |
| SubsetConstruction.SubsetIsDeterministic | fa.rb:273-319 | the result of to_dfa has one destination per entry and no "" entry |
| SubsetConstruction.SubsetStep | fa.rb:299-305 | on letter c, DFA state q has no entry when the closure of move is empty, and otherwise goes to a state whose key holds exactly that closure |
| SubsetConstruction.SubsetRun | fa.rb:273-319 | from a DFA state, accept? holds exactly when the NFA, started in that state's key, reaches a final |
| SubsetConstruction.SubsetLanguage | fa.rb:273-319 | the DFA accepts exactly the words the NFA accepts |
| Complementation.Handled | fa.rb:374-390 | after the nested loops newdfa keeps the start and is well-formed with no finals; the sink is a state exactly when some gap was filled |
| Complementation.HandledGap | fa.rb:378-379 | the two add_transitiondfa calls on a gap send it to the sink and add the letter to the sink's loop |
| Complementation.ReceiverGap | fa.rb:370 | because the rows are shared, the gap's entry shows in the receiver's row too |
| Complementation.GapCheck | fa.rb:384 | get_transition is nil on the shared row exactly when the pair is a new gap |
| FiniteAutomata.FiniteAutomaton.FillGap | fa.rb:378-379 | one gap is filled in newdfa and in the receiver's shared row |
| FiniteAutomata.FiniteAutomaton.FillState | fa.rb:375-388 | every letter is filled when the row is empty; otherwise exactly the letters get_transition finds nil are filled |
| FiniteAutomata.FiniteAutomaton.FillAll | fa.rb:374-390 | after the loops newdfa is Handled over all gaps, and the receiver has the filled rows and an isolated sink |
| FiniteAutomata.FiniteAutomaton.CopyInto | fa.rb:367-370 | newdfa gets the receiver's start, states and rows, with no finals and an empty alphabet |
| FiniteAutomata.FiniteAutomaton.ConcatAlphabet | fa.rb:393 | alphabet.concat appends the letters as given, repetitions kept, and changes nothing else (the same call copies the alphabet at the end of to_dfa, fa.rb:317) |
| FiniteAutomata.FiniteAutomaton.FlipFinals | fa.rb:391-393 | the finals become all of newdfa's states minus the receiver's finals, and the alphabet is copied |
| FiniteAutomata.FiniteAutomaton.SinkLoops | fa.rb:377-387 | the corrected completion: the sink loops on every letter of the alphabet |
| Complementation.ComplementAsWritten | fa.rb:364-395 | complement! as written keeps the start and the alphabet; the sink is a state only when some gap exists; the finals are all states minus the input's finals |
| Complementation.Complemented | fa.rb:364-395 | the corrected completion has the same states, start, alphabet and flipped finals |
| Complementation.AsWrittenFinish | fa.rb:391-393 | the filled newdfa, with its finals flipped and the alphabet copied, is complement! as written |
| FiniteAutomata.FiniteAutomaton.CompleteAsWrittenFrom | fa.rb:372-393 | once newdfa holds the copy and the sink is drawn, the source's loops and the final flip give complement! as written, and the receiver has the filled rows and the isolated sink |
| FiniteAutomata.FiniteAutomaton.AsWrittenComplement | fa.rb:364-395 | complement! as written: returns ComplementAsWritten of the old receiver with the sink drawn from the counter's old value; the receiver keeps the sink as an isolated state and sees the filled rows |
| FiniteAutomata.FiniteAutomaton.Complement | fa.rb:364-395 | returns the corrected completion drawn with the counter's old value; the receiver keeps the sink as an isolated state and sees the filled rows |
| Complementation.CompleteNeedsNoSink | fa.rb:374-390 | when no entry is missing, no sink is added and as written equals the corrected completion |
| Complementation.ComplementedDeterministic | fa.rb:364-395 | the completion of a deterministic store is deterministic |
| Complementation.ComplementedStep | fa.rb:374-389 | an existing entry is kept, a missing letter goes to the sink, and the sink loops on every letter |
| Complementation.SinkAccepts | fa.rb:391 | from the sink, which is final, every word over the alphabet is accepted |
| Complementation.ComplementedFlips | fa.rb:364-395 | from any state of the input, the completion accepts exactly the words over the alphabet that the input rejects |
| Complementation.ComplementedLanguage | fa.rb:364-395 | on words over the alphabet the completion accepts exactly what the input DFA rejects |
| Complementation.OneLoopAsWritten | fa.rb:383-387 | on the one-state example, as written the sink loops on b only |
| Complementation.OneLoopCompleted | fa.rb:383-387 | on the one-state example, the corrected sink loops on a and b |
| Complementation.AsWrittenMissesSinkLoop | fa.rb:383-387 | on the one-state example, "ba" is rejected by the input and by complement! as written, and is accepted by the corrected completion |

## Left out

- `interpreter`, the main block, `pretty_print`, `print_stats`, `num_trans`, `gen_str` and the disabled debug block are console I/O, reporting and enumeration, not part of this model.
- Strings are single characters: a symbol is one `char`, and `""` is `Eps`. Labels of several characters, which the interpreter never builds, are not modelled.
- Acceptance.Accepts: defined only on deterministic rows. On list-shaped rows the source reaches `is_final?`'s array case or `has_state?` on an array, which this model does not follow.
- FiniteAutomata.FiniteAutomaton.Concat, FiniteAutomata.FiniteAutomaton.Union: require the argument to be a different object. Its rows are shared with the receiver after `merge!`, and the argument is treated as consumed.
- FiniteAutomata.FiniteAutomaton.Concat, FiniteAutomata.FiniteAutomaton.Union, FiniteAutomata.FiniteAutomaton.Closure: require a start state, because the source would add `nil` as a state.
- FiniteAutomata.FiniteAutomaton.Concat, FiniteAutomata.FiniteAutomaton.Union, FiniteAutomata.FiniteAutomaton.Closure: require every `""` entry to be a list (`EpsLists`), because `add_transition` on a single-state entry would push onto an integer. Every store the program builds meets this, DFAs included, since `add_transitiondfa` only ever writes letters.
- Thompson.ConcatKeeps, Thompson.UnionKeeps, Thompson.ClosureKeeps: state the structural results of `concat!`, `union!` and `closure!`, but not the language equations of concatenation, union and star. Only the language of `symbol!` is proved.
- FiniteAutomata.FiniteAutomaton.ToDfa: requires NFA-shaped rows, as the source does: `move` iterates over each entry. It also requires a start state, closed rows (every destination a state) and a counter above every state. The source needs none of these three. Every automaton the interpreter builds has all three. Without a start, the source would return a one-state DFA that accepts nothing. A destination that is not a state would simply have no edges.
- FiniteAutomata.FiniteAutomaton.ToDfa: the language result holds for words over the letters of the input's rows (`LabelsInAlphabet`).
- FiniteAutomata.FiniteAutomaton.Complement: returns the corrected completion, not the source's result; AsWrittenComplement returns the source's result.
- FiniteAutomata.FiniteAutomaton.Complement, FiniteAutomata.FiniteAutomaton.AsWrittenComplement: require a start state and a counter above every state. Every automaton the interpreter builds has both. Without a start, the source's `set_start(nil)` would register `nil` as a state. The language result is proved for deterministic, closed input and words over the alphabet.
- Ruby hashes iterate in insertion order, and the loops over `keys` in `get_epsilon` and `to_dfa` follow that order. The loops over the finals and over newdfa's states are modelled over sets, which is sound because their results do not depend on the order.
- FiniteAutomata.FiniteAutomaton.Move, FiniteAutomata.FiniteAutomaton.GetEpsilon: the contracts state the elements of the returned lists and that they have no duplicates, but not their order.
- FiniteAutomata.FiniteAutomaton.ToDfa: the contract fixes only the element set of each key. `to_dfa` compares keys as ordered arrays, so two DFA states can have keys with the same elements in different orders. The contract does not say how many states the DFA has, or which of several such states a row targets. The language result does not depend on this.
- Integer widths play no role: Ruby integers are unbounded, and so are the model's.

## Findings

| source | as written | input that shows it | evidently intended | confidence | as-written member | corrected member |
|---|---|---|---|---|---|---|
| fa.rb:383-387 | A state with a non-empty row sends each missing letter to the sink, and adds a sink self-loop only on that letter. The sink then loops only on letters that were missing somewhere, so a run that enters the sink dies on any other letter. | Alphabet [a, b], one state q0 that is start and final, with q0 -a-> q0. The input rejects "ba". complement! sends b to the sink, which loops on b only, so "ba" dies in the sink and is rejected too. | The sink loops on every letter of the alphabet, so the result accepts exactly the words over the alphabet that the input rejects. | not executed | Complementation.AsWrittenMissesSinkLoop | Complementation.ComplementedLanguage |

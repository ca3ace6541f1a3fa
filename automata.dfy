/** The automaton store of fa.rb as values: states, start, finals, rows and
    alphabet, the queries on them, and one pure function per mutator of the
    store. The class in fa.dfy updates its fields exactly as these say. */
module Automata {

  /** State identifiers are handed out by a counter starting at 0. */
  type State = nat

  datatype Option<T> = None | Some(value: T)

  /** A transition label; `Eps` is the empty-string symbol "". */
  datatype Label = Eps | Sym(c: char)

  /** A row entry. An NFA row keeps a list of destinations that
      `add_transition` appends to; a DFA row keeps one state that
      `add_transitiondfa` overwrites. */
  datatype Dest = Many(list: seq<State>) | One(to: State)

  type Row = map<Label, Dest>

  /** The five fields of a FiniteAutomaton: @start, @state, @final,
      @transition and @alphabet (the hashes used as sets become sets). */
  datatype Auto = Auto(start: Option<State>, states: set<State>, finals: set<State>,
                       trans: map<State, Row>, alphabet: seq<char>)

  /** What `initialize` leaves behind. */
  const Empty: Auto := Auto(None, {}, {}, map[], [])

  function Elems<T>(s: seq<T>): set<T> {
    set x | x in s
  }

  /** The elements of the first i + 1 entries. */
  lemma ElemsPrefix<T>(s: seq<T>, i: nat)
    requires i < |s|
    ensures Elems(s[..i + 1]) == Elems(s[..i]) + {s[i]} && s[i] in Elems(s)
  {
    assert s[..i + 1] == s[..i] + [s[i]];
  }

  lemma ElemsNone<T>(s: seq<T>)
    ensures Elems(s[..0]) == {}
  {
    assert s[..0] == [];
  }

  predicate NoDup<T(==)>(s: seq<T>) {
    forall i, j :: 0 <= i < j < |s| ==> s[i] != s[j]
  }

  /** The states a row entry leads to. */
  function Targets(d: Dest): set<State> {
    match d
    case Many(ds) => Elems(ds)
    case One(q) => {q}
  }

  // ---------------------------------------------------------------------
  // Shape of a store

  /** Every state has a row, finals and start are states. */
  predicate WellFormed(a: Auto) {
    && a.trans.Keys == a.states
    && a.finals <= a.states
    && (a.start.Some? ==> a.start.value in a.states)
  }

  lemma StartIsState(a: Auto)
    requires WellFormed(a) && a.start.Some?
    ensures a.start.value in a.states
  {
  }

  /** Every destination is a state. */
  predicate Closed(a: Auto) {
    forall q, x :: q in a.trans && x in a.trans[q] ==> Targets(a.trans[q][x]) <= a.states
  }

  /** Every non-empty label is a letter of the alphabet. */
  predicate LabelsInAlphabet(a: Auto) {
    forall q, x :: q in a.trans && x in a.trans[q] && x.Sym? ==> x.c in a.alphabet
  }

  /** Every row entry is a destination list (the shape `add_transition` builds). */
  predicate NfaShaped(a: Auto) {
    forall q, x :: q in a.trans && x in a.trans[q] ==> a.trans[q][x].Many?
  }

  /** Every "" entry is a destination list. add_transitiondfa is only ever
      called on letters, so every store the program builds has this shape,
      DFAs included. */
  predicate EpsLists(a: Auto) {
    forall q :: q in a.trans && Eps in a.trans[q] ==> a.trans[q][Eps].Many?
  }

  /** Every row entry is a single state (the shape `add_transitiondfa` builds). */
  predicate Deterministic(a: Auto) {
    forall q, x :: q in a.trans && x in a.trans[q] ==> a.trans[q][x].One?
  }

  /** No row has an entry for "". */
  predicate EpsFree(a: Auto) {
    forall q :: q in a.trans ==> Eps !in a.trans[q]
  }

  /** Every state was handed out before the counter reached n. */
  predicate Below(a: Auto, n: nat) {
    forall q :: q in a.states ==> q < n
  }

  /** The invariants the construction operators keep. */
  predicate Invariants(a: Auto) {
    WellFormed(a) && Closed(a) && LabelsInAlphabet(a) && NoDup(a.alphabet)
  }

  // ---------------------------------------------------------------------
  // Queries (num_states, has_state?, is_final?, get_transition)

  function NumStates(a: Auto): (n: nat)
    ensures n == 0 <==> a.states == {}
  {
    |a.states|
  }

  predicate HasState(a: Auto, v: State)
    ensures WellFormed(a) ==> (HasState(a, v) <==> v in a.trans)
  {
    v in a.states
  }

  predicate IsFinal(a: Auto, v: State)
    ensures WellFormed(a) && IsFinal(a, v) ==> HasState(a, v)
  {
    v in a.finals
  }

  /** Total lookup: None for an unknown state or a label without entry. */
  function GetTransition(a: Auto, v: State, x: Label): (r: Option<Dest>)
    ensures !HasState(a, v) ==> r == None
    ensures WellFormed(a) && HasState(a, v) ==> (r.Some? <==> x in a.trans[v])
    ensures r.Some? ==> v in a.trans && x in a.trans[v] && r.value == a.trans[v][x]
  {
    if HasState(a, v) && v in a.trans && x in a.trans[v] then Some(a.trans[v][x]) else None
  }

  // ---------------------------------------------------------------------
  // Mutators (new_state, add_state, set_start, set_final, add_transition,
  // add_transitiondfa) as functions of the old store

  /** new_state with counter value id: registers id with an empty row. */
  function NewState(a: Auto, id: State): (r: Auto)
    ensures r.states == a.states + {id} && id in r.trans && r.trans[id] == map[]
    ensures forall q :: q in a.trans && q != id ==> q in r.trans && r.trans[q] == a.trans[q]
    ensures r.start == a.start && r.finals == a.finals && r.alphabet == a.alphabet
    ensures WellFormed(a) ==> WellFormed(r)
  {
    a.(states := a.states + {id}, trans := a.trans[id := map[]])
  }

  /** add_state: idempotent, never clears an existing row. */
  function AddState(a: Auto, v: State): (r: Auto)
    ensures r.states == a.states + {v}
    ensures HasState(a, v) ==> r == a
    ensures !HasState(a, v) ==> r.trans == a.trans[v := map[]]
    ensures r.start == a.start && r.finals == a.finals && r.alphabet == a.alphabet
    ensures WellFormed(a) ==> WellFormed(r)
  {
    if HasState(a, v) then a else a.(states := a.states + {v}, trans := a.trans[v := map[]])
  }

  function SetStart(a: Auto, v: State): (r: Auto)
    ensures r.start == Some(v) && r.states == a.states + {v}
    ensures r.finals == a.finals && r.alphabet == a.alphabet
    ensures WellFormed(a) ==> WellFormed(r)
  {
    AddState(a, v).(start := Some(v))
  }

  /** set_final(v, false) removes v from the finals, never from the states. */
  function SetFinal(a: Auto, v: State, final: bool): (r: Auto)
    ensures r.states == a.states + {v} && r.start == a.start && r.alphabet == a.alphabet
    ensures r.finals == if final then a.finals + {v} else a.finals - {v}
    ensures WellFormed(a) ==> WellFormed(r)
  {
    var b := AddState(a, v);
    if final then b.(finals := b.finals + {v}) else b.(finals := b.finals - {v})
  }

  /** The row of k, empty when k has none. */
  function RowAt(a: Auto, k: State): Row {
    if k in a.trans then a.trans[k] else map[]
  }

  /** The keys of m flagged true: the processed entries of a worklist hash. */
  function Marked<K>(m: map<K, bool>): set<K> {
    set k | k in m && m[k]
  }

  /** The destination list of (v, x), empty when there is none. */
  function ListAt(a: Auto, v: State, x: Label): seq<State> {
    if v in a.trans && x in a.trans[v] && a.trans[v][x].Many? then a.trans[v][x].list else []
  }

  /** `add_transition` pushes onto an existing entry; on a DFA-shaped entry
      (a single state) the push is undefined. */
  predicate Appendable(a: Auto, v: State, x: Label) {
    !(v in a.trans && x in a.trans[v] && a.trans[v][x].One?)
  }

  /** add_transition: appends v2 to the list of (v1, x), keeping earlier
      destinations and duplicates, and registers v1 and v2. */
  function AddTransition(a: Auto, v1: State, v2: State, x: Label): (r: Auto)
    requires WellFormed(a) && Appendable(a, v1, x)
    ensures WellFormed(r) && r.states == a.states + {v1, v2}
    ensures r.start == a.start && r.finals == a.finals && r.alphabet == a.alphabet
    ensures v1 in r.trans && x in r.trans[v1] && r.trans[v1][x] == Many(ListAt(a, v1, x) + [v2])
    ensures forall y :: y != x && v1 in a.trans && y in a.trans[v1] ==>
              y in r.trans[v1] && r.trans[v1][y] == a.trans[v1][y]
    ensures forall y :: y != x ==> y in r.trans[v1] ==> v1 in a.trans && y in a.trans[v1]
    ensures forall q :: q in a.trans && q != v1 ==> r.trans[q] == a.trans[q]
    ensures forall q :: q in r.trans && q !in a.trans && q != v1 ==> r.trans[q] == map[]
  {
    var b := AddState(AddState(a, v1), v2);
    var row := b.trans[v1];
    if GetTransition(b, v1, x).Some? then
      b.(trans := b.trans[v1 := row[x := Many(row[x].list + [v2])]])
    else
      assert ListAt(a, v1, x) + [v2] == [v2];
      b.(trans := b.trans[v1 := row[x := Many([v2])]])
  }

  /** add_transitiondfa: overwrites the entry of (v1, x) with the single state v2. */
  function AddTransitionDfa(a: Auto, v1: State, v2: State, x: Label): (r: Auto)
    requires WellFormed(a)
    ensures WellFormed(r) && r.states == a.states + {v1, v2}
    ensures r.start == a.start && r.finals == a.finals && r.alphabet == a.alphabet
    ensures v1 in r.trans && x in r.trans[v1] && r.trans[v1][x] == One(v2)
    ensures v1 in a.trans ==> r.trans[v1] == a.trans[v1][x := One(v2)]
    ensures v1 !in a.trans ==> r.trans[v1] == map[x := One(v2)]
    ensures forall q :: q in a.trans && q != v1 ==> r.trans[q] == a.trans[q]
    ensures v2 != v1 && v2 !in a.trans ==> r.trans[v2] == map[]
  {
    var b := AddState(AddState(a, v1), v2);
    b.(trans := b.trans[v1 := b.trans[v1][x := One(v2)]])
  }

  // ---------------------------------------------------------------------
  // Properties of the store

  /** The counter hands out ids above every registered state, so a new
      state is never one that exists, and the store stays below the counter. */
  lemma NewStateIsFresh(a: Auto, n: nat)
    requires Below(a, n)
    ensures n !in a.states
    ensures Below(NewState(a, n), n + 1)
    ensures NumStates(NewState(a, n)) == NumStates(a) + 1
  {
  }

  /** Appending twice keeps both destinations, in order, even when equal. */
  lemma {:induction false} AddTransitionKeepsDuplicates(a: Auto, v1: State, v2: State, x: Label)
    requires WellFormed(a) && Appendable(a, v1, x)
    ensures Appendable(AddTransition(a, v1, v2, x), v1, x)
    ensures AddTransition(AddTransition(a, v1, v2, x), v1, v2, x).trans[v1][x]
            == Many(ListAt(a, v1, x) + [v2, v2])
  {
    var b := AddTransition(a, v1, v2, x);
    assert ListAt(b, v1, x) == ListAt(a, v1, x) + [v2];
    assert ListAt(a, v1, x) + [v2] + [v2] == ListAt(a, v1, x) + [v2, v2];
  }

  /** A DFA write overwrites: the last write wins. */
  lemma AddTransitionDfaLastWins(a: Auto, v1: State, v2: State, v3: State, x: Label)
    requires WellFormed(a)
    ensures GetTransition(AddTransitionDfa(AddTransitionDfa(a, v1, v2, x), v1, v3, x), v1, x)
            == Some(One(v3))
  {
  }

  // ---------------------------------------------------------------------
  // The alphabet merge of concat! and union!: push every letter that is
  // not yet present.

  /** x followed by the elements of y not already present, in order of
      first occurrence. */
  function AppendNew<T(==)>(x: seq<T>, y: seq<T>): (r: seq<T>)
    ensures Elems(r) == Elems(x) + Elems(y)
    ensures NoDup(x) ==> NoDup(r)
    ensures |x| <= |r| && r[..|x|] == x
    decreases |y|
  {
    if y == [] then x
    else
      var m := AppendNew(x, y[..|y| - 1]);
      assert y == y[..|y| - 1] + [y[|y| - 1]];
      assert Elems(y) == Elems(y[..|y| - 1]) + {y[|y| - 1]};
      if y[|y| - 1] in m then m else m + [y[|y| - 1]]
  }

  /** One more element of y handled by AppendNew. */
  lemma AppendNewStep<T>(x: seq<T>, y: seq<T>, j: nat)
    requires j < |y|
    ensures var m := AppendNew(x, y[..j]);
            AppendNew(x, y[..j + 1]) == if y[j] in m then m else m + [y[j]]
  {
    assert y[..j + 1][..j] == y[..j];
  }

  /** With nothing to append, AppendNew leaves x as it is. */
  lemma AppendNewNone<T>(x: seq<T>, y: seq<T>)
    ensures AppendNew(x, y[..0]) == x
  {
    assert y[..0] == [];
  }

  /** `uniq`: the elements of s without repetitions, first occurrences kept. */
  function Uniq<T(==)>(s: seq<T>): (r: seq<T>)
    ensures NoDup(r) && Elems(r) == Elems(s)
  {
    AppendNew([], s)
  }
}

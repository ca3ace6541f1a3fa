/** `symbol!`, `concat!`, `union!` and `closure!` of fa.rb as functions of
    the old store(s): each is the composition of the store operations the
    Ruby method performs, in the same order. */
module Thompson {
  import opened Automata
  import opened EpsilonClosure

  /** The row with v appended to its "" list. */
  function AppendEps(row: Row, v: State): Row {
    row[Eps := Many((if Eps in row && row[Eps].Many? then row[Eps].list else []) + [v])]
  }

  /** Every state of F can take one more "" destination. */
  predicate EpsAppendable(a: Auto, F: set<State>) {
    forall k :: k in F ==> Appendable(a, k, Eps)
  }

  lemma SwapUnion(A: set<State>, B: set<State>, C: set<State>)
    ensures A + B + C == A + C + B
  {
  }

  /** A "" transition from each state of F to v: every state of F
      gets v appended to its "" list; F and (when F is not empty) v are
      registered. */
  function AddEpsFrom(a: Auto, F: set<State>, v: State): (r: Auto)
    requires WellFormed(a)
    ensures WellFormed(r)
    ensures r.states == a.states + F + (if F == {} then {} else {v})
    ensures r.start == a.start && r.finals == a.finals && r.alphabet == a.alphabet
    ensures forall k :: k in F ==> r.trans[k] == AppendEps(RowAt(a, k), v)
    ensures forall k :: k in a.trans && k !in F ==> r.trans[k] == a.trans[k]
    ensures forall k :: k in r.trans && k !in a.trans && k !in F ==> r.trans[k] == map[]
  {
    if F == {} then a
    else
      var b := AddState(a, v);
      var states := b.states + F;
      SwapUnion(a.states, {v}, F);
      Auto(a.start, states, a.finals,
           map k | k in states :: if k in F then AppendEps(RowAt(b, k), v) else b.trans[k],
           a.alphabet)
  }

  /** set_final(key, final) for every key of F. */
  function SetFinalEach(a: Auto, F: set<State>, final: bool): (r: Auto)
    requires WellFormed(a)
    ensures WellFormed(r) && r.states == a.states + F
    ensures r.finals == if final then a.finals + F else a.finals - F
    ensures r.start == a.start && r.alphabet == a.alphabet
    ensures forall k :: k in r.trans ==> r.trans[k] == RowAt(a, k)
  {
    var states := a.states + F;
    Auto(a.start, states, if final then a.finals + F else a.finals - F,
         map k | k in states :: RowAt(a, k), a.alphabet)
  }

  /** The merge of b's rows and states into a's:
      the argument's rows win on shared keys. */
  function Merge(a: Auto, b: Auto): (r: Auto)
    requires WellFormed(a) && WellFormed(b)
    ensures WellFormed(r) && r.states == a.states + b.states
    ensures forall k :: k in b.trans ==> r.trans[k] == b.trans[k]
    ensures forall k :: k in a.trans && k !in b.trans ==> r.trans[k] == a.trans[k]
    ensures r.start == a.start && r.finals == a.finals && r.alphabet == a.alphabet
  {
    a.(trans := a.trans + b.trans, states := a.states + b.states)
  }

  // ---------------------------------------------------------------------
  // The loops of the operators, one key at a time

  /** `add_transition(k, v, "")` appends v to the "" list of k's row. */
  lemma AddTransitionEps(b: Auto, k: State, v: State)
    requires WellFormed(b) && Appendable(b, k, Eps)
    ensures AddTransition(b, k, v, Eps).trans[k] == AppendEps(RowAt(b, k), v)
  {
    var b' := AddState(AddState(b, k), v);
    assert b'.trans[k] == RowAt(b, k);
  }

  /** A key outside D keeps its row. */
  lemma EpsFromRowAt(a: Auto, D: set<State>, v: State, k: State)
    requires WellFormed(a) && k !in D
    ensures RowAt(AddEpsFrom(a, D, v), k) == RowAt(a, k)
  {
  }

  /** A key outside D can still take a "" destination. */
  lemma EpsFromAppendable(a: Auto, D: set<State>, v: State, k: State)
    requires WellFormed(a) && k !in D && Appendable(a, k, Eps)
    ensures Appendable(AddEpsFrom(a, D, v), k, Eps)
  {
    var b := AddEpsFrom(a, D, v);
    EpsFromRowAt(a, D, v, k);
    if k in b.trans && Eps in b.trans[k] {
      assert b.trans[k] == RowAt(a, k);
    }
  }

  /** The row of the new key: its "" list gains v. */
  lemma EpsFromStepKey(a: Auto, D: set<State>, v: State, k: State)
    requires WellFormed(a) && k !in D && Appendable(a, k, Eps)
    requires Appendable(AddEpsFrom(a, D, v), k, Eps)
    ensures AddTransition(AddEpsFrom(a, D, v), k, v, Eps).trans[k] == AddEpsFrom(a, D + {k}, v).trans[k]
  {
    EpsFromRowAt(a, D, v, k);
    AddTransitionEps(AddEpsFrom(a, D, v), k, v);
  }

  /** The other rows: unchanged by the new key. */
  lemma EpsFromStepOther(a: Auto, D: set<State>, v: State, k: State, p: State)
    requires WellFormed(a) && k !in D && Appendable(a, k, Eps)
    requires Appendable(AddEpsFrom(a, D, v), k, Eps)
    requires p in AddEpsFrom(a, D, v).trans && p != k
    ensures p in AddEpsFrom(a, D + {k}, v).trans
    ensures AddEpsFrom(a, D, v).trans[p] == AddEpsFrom(a, D + {k}, v).trans[p]
  {
    if p !in D && p !in a.trans {
      assert p == v;
    }
  }

  /** The state v, when add_transition is the first to register it. */
  lemma EpsFromStepTarget(a: Auto, D: set<State>, v: State, k: State)
    requires WellFormed(a) && k !in D && Appendable(a, k, Eps)
    requires Appendable(AddEpsFrom(a, D, v), k, Eps)
    requires v !in AddEpsFrom(a, D, v).trans && v != k
    ensures v in AddEpsFrom(a, D + {k}, v).trans && AddEpsFrom(a, D + {k}, v).trans[v] == map[]
  {
  }

  /** One more key of F: `add_transition(k, v, "")` on the store that
      already handled D. */
  lemma AddEpsFromStep(a: Auto, D: set<State>, v: State, k: State)
    requires WellFormed(a) && k !in D && Appendable(a, k, Eps)
    ensures Appendable(AddEpsFrom(a, D, v), k, Eps)
    ensures AddTransition(AddEpsFrom(a, D, v), k, v, Eps) == AddEpsFrom(a, D + {k}, v)
  {
    hide AddEpsFrom, AddTransition, AddState;
    EpsFromAppendable(a, D, v, k);
    var r := AddTransition(AddEpsFrom(a, D, v), k, v, Eps);
    var t := AddEpsFrom(a, D + {k}, v);
    assert r.trans == t.trans by {
      forall p | p in r.trans ensures p in t.trans && r.trans[p] == t.trans[p] {
        var b := AddEpsFrom(a, D, v);
        if p == k {
          EpsFromStepKey(a, D, v, k);
        } else if p in b.trans {
          assert r.trans[p] == b.trans[p];
          EpsFromStepOther(a, D, v, k, p);
        } else {
          assert p == v && r.trans[p] == map[];
          EpsFromStepTarget(a, D, v, k);
        }
      }
    }
  }

  /** One more key of F: `set_final(k, final)` on the store that already
      handled D. */
  lemma SetFinalEachStep(a: Auto, D: set<State>, k: State, final: bool)
    requires WellFormed(a)
    ensures SetFinal(SetFinalEach(a, D, final), k, final) == SetFinalEach(a, D + {k}, final)
  {
    var r := SetFinal(SetFinalEach(a, D, final), k, final);
    var t := SetFinalEach(a, D + {k}, final);
    forall p | p in r.trans ensures r.trans[p] == t.trans[p] {
    }
    assert r.trans == t.trans;
  }

  /** Marking states that exist touches only the finals. */
  lemma SetFinalEachInside(a: Auto, F: set<State>, final: bool)
    requires WellFormed(a) && F <= a.states
    ensures SetFinalEach(a, F, final) == a.(finals := if final then a.finals + F else a.finals - F)
  {
    var r := SetFinalEach(a, F, final);
    assert r.trans == a.trans;
  }

  // The shape the operators need: "" entries are lists

  /** An NFA-shaped store has "" lists. */
  lemma NfaEpsLists(a: Auto)
    requires NfaShaped(a)
    ensures EpsLists(a)
  {
  }

  /** Every state can take one more "" destination when "" entries are lists. */
  lemma EpsListsAppendable(a: Auto, F: set<State>)
    requires EpsLists(a)
    ensures EpsAppendable(a, F)
  {
  }

  /** Appending "" destinations keeps "" entries lists. */
  lemma AddEpsFromEps(a: Auto, F: set<State>, v: State)
    requires WellFormed(a) && EpsLists(a)
    ensures EpsLists(AddEpsFrom(a, F, v))
  {
  }

  /** new_state keeps "" entries lists. */
  lemma NewStateEps(a: Auto, id: State)
    requires EpsLists(a)
    ensures EpsLists(NewState(a, id))
  {
  }

  /** set_start keeps "" entries lists. */
  lemma SetStartEps(a: Auto, v: State)
    requires EpsLists(a)
    ensures EpsLists(SetStart(a, v))
  {
  }

  /** Merging two stores whose "" entries are lists gives one. */
  lemma MergeEps(a: Auto, b: Auto)
    requires WellFormed(a) && WellFormed(b) && EpsLists(a) && EpsLists(b)
    ensures EpsLists(Merge(a, b))
  {
  }

  /** A "" add_transition keeps "" entries lists. */
  lemma AddEpsTransitionEps(a: Auto, v1: State, v2: State)
    requires WellFormed(a) && EpsLists(a)
    ensures Appendable(a, v1, Eps) && EpsLists(AddTransition(a, v1, v2, Eps))
  {
    var r := AddTransition(a, v1, v2, Eps);
    forall q | q in r.trans && Eps in r.trans[q] ensures r.trans[q][Eps].Many? {
      if q != v1 && q in a.trans {
        assert r.trans[q] == a.trans[q];
      }
    }
  }

  // ---------------------------------------------------------------------
  // The four operators

  /** symbol!(sym) with the counter at n: a fresh two-state automaton. */
  function Symbol(sym: Label, n: State): (r: Auto)
    ensures r.states == {n, n + 1} && r.start == Some(n) && r.finals == {n + 1}
    ensures r.trans == map[n := map[sym := Many([n + 1])], n + 1 := map[]]
    ensures r.alphabet == if sym.Sym? then [sym.c] else []
  {
    var a1 := NewState(NewState(Empty, n), n + 1);
    var a2 := SetFinal(SetStart(a1, n), n + 1, true);
    var a3 := AddTransition(a2, n, n + 1, sym);
    if sym.Sym? && sym.c !in a3.alphabet then a3.(alphabet := a3.alphabet + [sym.c]) else a3
  }

  /** Before its one edge, symbol!'s automaton is well formed and the edge
      from n is free. */
  lemma SymbolPrefix(sym: Label, n: State)
    ensures WellFormed(SetFinal(SetStart(NewState(NewState(Empty, n), n + 1), n), n + 1, true))
    ensures Appendable(SetFinal(SetStart(NewState(NewState(Empty, n), n + 1), n), n + 1, true), n, sym)
  {
    var a2 := SetFinal(SetStart(NewState(NewState(Empty, n), n + 1), n), n + 1, true);
    assert a2.trans[n] == map[];
  }

  /** symbol!(sym) step by step, as the method performs it. */
  lemma SymbolSteps(sym: Label, n: State, a1: Auto, a2: Auto, a3: Auto)
    requires a1 == NewState(NewState(Empty, n), n + 1)
    requires a2 == SetFinal(SetStart(a1, n), n + 1, true)
    requires WellFormed(a2) && Appendable(a2, n, sym) && a3 == AddTransition(a2, n, n + 1, sym)
    ensures Symbol(sym, n) == if sym.Sym? && sym.c !in a3.alphabet then a3.(alphabet := a3.alphabet + [sym.c]) else a3
  {
  }

  /** concat!(b): "" from every final to b's start, the finals cleared,
      b's rows and states merged in, b's finals made final, alphabets
      merged. */
  function Concat(a: Auto, b: Auto): (r: Auto)
    requires WellFormed(a) && WellFormed(b) && b.start.Some?
    ensures WellFormed(r)
  {
    var a1 := AddEpsFrom(a, a.finals, b.start.value);
    var a2 := SetFinalEach(a1, a.finals, false);
    var a3 := Merge(a2, b);
    var a4 := SetFinalEach(a3, b.finals, true);
    a4.(alphabet := AppendNew(a.alphabet, b.alphabet))
  }

  /** Fresh us and us + 1, then "" from us to s1 and to s2. */
  function UnionLinks(a: Auto, us: State, s1: State, s2: State): (r: Auto)
    requires WellFormed(a)
    ensures WellFormed(r) && r.start == a.start && r.finals == a.finals && r.alphabet == a.alphabet
    ensures r.states == a.states + {us, us + 1, s1, s2}
  {
    hide NewState, AddTransition;
    var a1 := NewState(NewState(a, us), us + 1);
    var a2 := AddTransition(a1, us, s1, Eps);
    AddTransition(a2, us, s2, Eps)
  }

  /** The states after union!'s head: the two old sets and the two fresh ids. */
  lemma UnionHeadStates(A: set<State>, B: set<State>, us: State, s1: State, s2: State)
    requires s1 in A && s2 in B
    ensures (A + {us, us + 1, s1, s2}) + {us} + B == A + B + {us, us + 1}
  {
  }

  /** The first half of union!(b) with the counter at us: fresh us (the new
      start) and us + 1, "" from us to both starts, b's rows and states
      merged in. */
  function UnionHead(a: Auto, b: Auto, us: State): (r: Auto)
    requires WellFormed(a) && WellFormed(b) && a.start.Some? && b.start.Some?
    ensures WellFormed(r) && r.start == Some(us) && r.finals == a.finals
    ensures r.states == a.states + b.states + {us, us + 1} && r.alphabet == a.alphabet
  {
    StartIsState(a);
    StartIsState(b);
    UnionHeadStates(a.states, b.states, us, a.start.value, b.start.value);
    hide SetStart, Merge, UnionLinks, WellFormed;
    Merge(SetStart(UnionLinks(a, us, a.start.value, b.start.value), us), b)
  }

  /** The second half of union!: "" from every state of Fa and of Fb (the
      finals of both operands) to ue, Fa made non-final, ue made final. */
  function UnionTail(h: Auto, Fa: set<State>, Fb: set<State>, ue: State): (r: Auto)
    requires WellFormed(h)
  {
    var a6 := AddEpsFrom(h, Fa, ue);
    var a7 := AddEpsFrom(a6, Fb, ue);
    SetFinal(SetFinalEach(a7, Fa, false), ue, true)
  }

  /** union!(b) with the counter at us. */
  function Union(a: Auto, b: Auto, us: State): (r: Auto)
    requires WellFormed(a) && WellFormed(b) && a.start.Some? && b.start.Some?
    ensures WellFormed(r)
  {
    UnionTail(UnionHead(a, b, us), a.finals, b.finals, us + 1)
      .(alphabet := AppendNew(a.alphabet, b.alphabet))
  }

  /** The first half of closure! with the counter at cs: fresh cs and
      cs + 1 with "" cs -> cs + 1, cs + 1 -> cs and cs -> old start. */
  function ClosureHead(a: Auto, cs: State): (r: Auto)
    requires WellFormed(a) && a.start.Some?
    ensures WellFormed(r) && r.start == a.start && r.finals == a.finals
    ensures r.states == a.states + {cs, cs + 1} && r.alphabet == a.alphabet
  {
    var a1 := NewState(NewState(a, cs), cs + 1);
    var a2 := AddTransition(a1, cs, cs + 1, Eps);
    var a3 := AddTransition(a2, cs + 1, cs, Eps);
    assert a3.states == a1.states;
    AddTransition(a3, cs, a.start.value, Eps)
  }

  /** The links of union!'s head are the store steps the method performs. */
  lemma UnionLinksIs(a: Auto, us: State, s1: State, s2: State)
    requires WellFormed(a)
    ensures var a1 := NewState(NewState(a, us), us + 1);
      && Appendable(a1, us, Eps) && Appendable(AddTransition(a1, us, s1, Eps), us, Eps)
      && UnionLinks(a, us, s1, s2) == AddTransition(AddTransition(a1, us, s1, Eps), us, s2, Eps)
  {
  }

  /** union!(b) step by step, as the method performs it. */
  lemma UnionSteps(a: Auto, b: Auto, us: State, h: Auto, t: Auto)
    requires WellFormed(a) && WellFormed(b) && a.start.Some? && b.start.Some?
    requires h == UnionHead(a, b, us) && t == UnionTail(h, h.finals, b.finals, us + 1)
    ensures t.alphabet == a.alphabet
    ensures Union(a, b, us) == t.(alphabet := AppendNew(t.alphabet, b.alphabet))
  {
  }

  /** The first half of closure! step by step, as the method performs it. */
  lemma ClosureHeadSteps(a: Auto, cs: State, a1: Auto, a2: Auto, a3: Auto, a4: Auto)
    requires WellFormed(a) && a.start.Some?
    requires a1 == NewState(NewState(a, cs), cs + 1) && WellFormed(a1)
    requires Appendable(a1, cs, Eps) && a2 == AddTransition(a1, cs, cs + 1, Eps)
    requires Appendable(a2, cs + 1, Eps) && a3 == AddTransition(a2, cs + 1, cs, Eps)
    requires Appendable(a3, cs, Eps) && a4 == AddTransition(a3, cs, a.start.value, Eps)
    ensures ClosureHead(a, cs) == a4
  {
  }

  /** The head of closure! keeps "" entries lists. */
  lemma ClosureHeadEps(a: Auto, cs: State)
    requires WellFormed(a) && EpsLists(a) && a.start.Some?
    ensures EpsLists(ClosureHead(a, cs))
  {
    var a1 := NewState(NewState(a, cs), cs + 1);
    NewStateEps(a, cs);
    NewStateEps(NewState(a, cs), cs + 1);
    AddEpsTransitionEps(a1, cs, cs + 1);
    var a2 := AddTransition(a1, cs, cs + 1, Eps);
    AddEpsTransitionEps(a2, cs + 1, cs);
    AddEpsTransitionEps(AddTransition(a2, cs + 1, cs, Eps), cs, a.start.value);
  }

  /** closure! step by step, as the method performs it. */
  lemma ClosureSteps(a: Auto, cs: State, h: Auto, t1: Auto, t2: Auto)
    requires WellFormed(a) && a.start.Some? && h == ClosureHead(a, cs)
    requires t1 == AddEpsFrom(h, a.finals, cs + 1)
    requires t2 == SetFinal(SetFinalEach(SetStart(t1, cs), a.finals, false), cs + 1, true)
    ensures Closure(a, cs) == t2
  {
  }

  /** closure! with the counter at cs: after the head, "" from every old
      final to cs + 1; cs becomes the start and cs + 1 the only final. */
  function Closure(a: Auto, cs: State): (r: Auto)
    requires WellFormed(a) && a.start.Some?
    ensures WellFormed(r)
  {
    var a4 := ClosureHead(a, cs);
    var a5 := AddEpsFrom(a4, a.finals, cs + 1);
    SetFinal(SetFinalEach(SetStart(a5, cs), a.finals, false), cs + 1, true)
  }

  // ---------------------------------------------------------------------
  // Each store step keeps the shape

  /** Every label is a letter of A. */
  predicate LabelsWithin(a: Auto, A: set<char>) {
    forall q, x :: q in a.trans && x in a.trans[q] && x.Sym? ==> x.c in A
  }

  /** The entry (q, y) leads to states under a label from A; a "" entry,
      and when nfa holds every entry, is a destination list. */
  predicate EntryOk(a: Auto, q: State, y: Label, A: set<char>, nfa: bool)
    requires q in a.trans && y in a.trans[q]
  {
    && ((nfa || y.Eps?) ==> a.trans[q][y].Many?)
    && Targets(a.trans[q][y]) <= a.states && (y.Sym? ==> y.c in A)
  }

  /** The shape the construction steps keep: well formed, closed, "" lists
      (every entry a list when nfa holds), labels drawn from A. */
  predicate Shaped(a: Auto, A: set<char>, nfa: bool) {
    WellFormed(a) && forall q, y :: q in a.trans && y in a.trans[q] ==> EntryOk(a, q, y, A, nfa)
  }

  /** The shape, unfolded into the store predicates. */
  lemma ShapedMeans(a: Auto, A: set<char>, nfa: bool)
    requires Shaped(a, A, nfa)
    ensures WellFormed(a) && Closed(a) && EpsLists(a) && (nfa ==> NfaShaped(a)) && LabelsWithin(a, A)
  {
    forall q, y | q in a.trans && y in a.trans[q] ensures Targets(a.trans[q][y]) <= a.states {
      assert EntryOk(a, q, y, A, nfa);
    }
    forall q | q in a.trans && Eps in a.trans[q] ensures a.trans[q][Eps].Many? {
      assert EntryOk(a, q, Eps, A, nfa);
    }
  }

  lemma NewStateKeeps(a: Auto, id: State, A: set<char>, nfa: bool)
    requires Shaped(a, A, nfa)
    ensures Shaped(NewState(a, id), A, nfa)
  {
  }

  /** A "" add_transition keeps the shape. */
  lemma AddTransitionKeeps(a: Auto, v1: State, v2: State, A: set<char>, nfa: bool)
    requires Shaped(a, A, nfa)
    ensures Appendable(a, v1, Eps) && Shaped(AddTransition(a, v1, v2, Eps), A, nfa)
  {
    if v1 in a.trans && Eps in a.trans[v1] {
      assert EntryOk(a, v1, Eps, A, nfa);
    }
    var r := AddTransition(a, v1, v2, Eps);
    forall q, y | q in r.trans && y in r.trans[q] ensures EntryOk(r, q, y, A, nfa) {
      if q == v1 && y == Eps {
        if v1 in a.trans && Eps in a.trans[v1] {
          assert EntryOk(a, v1, Eps, A, nfa);
        }
      } else if q == v1 {
        assert v1 in a.trans && y in a.trans[v1] && r.trans[q][y] == a.trans[q][y];
        assert EntryOk(a, q, y, A, nfa);
      } else if q in a.trans {
        assert r.trans[q] == a.trans[q];
        assert EntryOk(a, q, y, A, nfa);
      }
    }
  }

  lemma SetStartKeeps(a: Auto, v: State, A: set<char>, nfa: bool)
    requires Shaped(a, A, nfa)
    ensures Shaped(SetStart(a, v), A, nfa)
  {
  }

  lemma SetFinalKeeps(a: Auto, v: State, final: bool, A: set<char>, nfa: bool)
    requires Shaped(a, A, nfa)
    ensures Shaped(SetFinal(a, v, final), A, nfa)
  {
  }

  lemma AddEpsFromKeeps(a: Auto, F: set<State>, v: State, A: set<char>, nfa: bool)
    requires Shaped(a, A, nfa)
    ensures Shaped(AddEpsFrom(a, F, v), A, nfa)
  {
    var r := AddEpsFrom(a, F, v);
    forall q, y | q in r.trans && y in r.trans[q] ensures EntryOk(r, q, y, A, nfa) {
      if q in a.trans && y in a.trans[q] {
        assert EntryOk(a, q, y, A, nfa);
      }
    }
  }

  lemma SetFinalEachKeeps(a: Auto, F: set<State>, final: bool, A: set<char>, nfa: bool)
    requires Shaped(a, A, nfa)
    ensures Shaped(SetFinalEach(a, F, final), A, nfa)
  {
  }

  lemma MergeKeeps(a: Auto, b: Auto, A: set<char>, nfa: bool)
    requires Shaped(a, A, nfa) && Shaped(b, A, nfa)
    ensures Shaped(Merge(a, b), A, nfa)
  {
  }

  /** The invariants of a store, read as a shape over its own alphabet. */
  lemma InvariantsAsShape(a: Auto, nfa: bool)
    requires Invariants(a) && EpsLists(a) && (nfa ==> NfaShaped(a))
    ensures Shaped(a, Elems(a.alphabet), nfa)
  {
    forall q, y | q in a.trans && y in a.trans[q] ensures EntryOk(a, q, y, Elems(a.alphabet), nfa) {
      assert Targets(a.trans[q][y]) <= a.states;
    }
  }

  /** A shape over a set of letters that the alphabet covers is a store
      whose labels are in its alphabet. */
  lemma ShapeWithAlphabet(a: Auto, A: set<char>, nfa: bool)
    requires Shaped(a, A, nfa) && A <= Elems(a.alphabet) && NoDup(a.alphabet)
    ensures Invariants(a) && EpsLists(a) && (nfa ==> NfaShaped(a))
  {
    ShapedMeans(a, A, nfa);
    forall q, x | q in a.trans && x in a.trans[q] && x.Sym? ensures x.c in a.alphabet {
      assert x.c in Elems(a.alphabet);
    }
  }

  lemma ShapeWiden(a: Auto, A: set<char>, B: set<char>, nfa: bool)
    requires Shaped(a, A, nfa) && A <= B
    ensures Shaped(a, B, nfa)
  {
    forall q, y | q in a.trans && y in a.trans[q] ensures EntryOk(a, q, y, B, nfa) {
      assert EntryOk(a, q, y, A, nfa);
    }
  }

  // ---------------------------------------------------------------------
  // The operators keep the invariants and fix start and finals

  /** symbol! leaves a well-shaped store whose alphabet is [sym] or []. */
  lemma SymbolKeeps(sym: Label, n: State)
    ensures Invariants(Symbol(sym, n)) && NfaShaped(Symbol(sym, n))
    ensures |Symbol(sym, n).states| == 2 && Symbol(sym, n).start.value !in Symbol(sym, n).finals
  {
    hide Symbol;
    var r := Symbol(sym, n);
    forall q, y | q in r.trans && y in r.trans[q]
      ensures r.trans[q][y] == Many([n + 1]) && y == sym
    {
    }
    assert Elems([n + 1]) == {n + 1};
  }

  /** concat! keeps the invariants and the "" lists on any operands the
      program builds, DFAs included, and keeps NFA rows on NFA operands. */
  lemma ConcatKeeps(a: Auto, b: Auto)
    requires Invariants(a) && EpsLists(a) && Invariants(b) && EpsLists(b) && b.start.Some?
    ensures Invariants(Concat(a, b)) && EpsLists(Concat(a, b))
    ensures NfaShaped(a) && NfaShaped(b) ==> NfaShaped(Concat(a, b))
  {
    var nfa := NfaShaped(a) && NfaShaped(b);
    var A := Elems(a.alphabet) + Elems(b.alphabet);
    InvariantsAsShape(a, nfa);
    InvariantsAsShape(b, nfa);
    ShapeWiden(a, Elems(a.alphabet), A, nfa);
    ShapeWiden(b, Elems(b.alphabet), A, nfa);
    var a1 := AddEpsFrom(a, a.finals, b.start.value);
    AddEpsFromKeeps(a, a.finals, b.start.value, A, nfa);
    var a2 := SetFinalEach(a1, a.finals, false);
    SetFinalEachKeeps(a1, a.finals, false, A, nfa);
    var a3 := Merge(a2, b);
    MergeKeeps(a2, b, A, nfa);
    var a4 := SetFinalEach(a3, b.finals, true);
    SetFinalEachKeeps(a3, b.finals, true, A, nfa);
    var r := a4.(alphabet := AppendNew(a.alphabet, b.alphabet));
    assert r == Concat(a, b);
    ShapeWithAlphabet(r, A, nfa);
  }

  /** concat!: the start stays, the finals become the argument's finals,
      the states are the union, the alphabet the duplicate-free union. */
  lemma ConcatFields(a: Auto, b: Auto)
    requires WellFormed(a) && WellFormed(b) && b.start.Some?
    ensures Concat(a, b).start == a.start && Concat(a, b).finals == b.finals
    ensures Concat(a, b).states == a.states + b.states
    ensures Concat(a, b).alphabet == AppendNew(a.alphabet, b.alphabet)
    ensures Elems(Concat(a, b).alphabet) == Elems(a.alphabet) + Elems(b.alphabet)
  {
    StartIsState(b);
  }

  /** union! keeps the invariants and the "" lists on any operands the
      program builds, and keeps NFA rows on NFA operands. */
  lemma UnionKeeps(a: Auto, b: Auto, us: State)
    requires Invariants(a) && EpsLists(a) && Invariants(b) && EpsLists(b)
    requires a.start.Some? && b.start.Some?
    ensures Invariants(Union(a, b, us)) && EpsLists(Union(a, b, us))
    ensures NfaShaped(a) && NfaShaped(b) ==> NfaShaped(Union(a, b, us))
  {
    var nfa := NfaShaped(a) && NfaShaped(b);
    var A := Elems(a.alphabet) + Elems(b.alphabet);
    var ue := us + 1;
    InvariantsAsShape(a, nfa);
    InvariantsAsShape(b, nfa);
    ShapeWiden(a, Elems(a.alphabet), A, nfa);
    ShapeWiden(b, Elems(b.alphabet), A, nfa);
    var a1 := NewState(NewState(a, us), ue);
    NewStateKeeps(a, us, A, nfa);
    NewStateKeeps(NewState(a, us), ue, A, nfa);
    var a2 := AddTransition(a1, us, a.start.value, Eps);
    AddTransitionKeeps(a1, us, a.start.value, A, nfa);
    var a3 := AddTransition(a2, us, b.start.value, Eps);
    AddTransitionKeeps(a2, us, b.start.value, A, nfa);
    var a4 := SetStart(a3, us);
    SetStartKeeps(a3, us, A, nfa);
    var a5 := Merge(a4, b);
    MergeKeeps(a4, b, A, nfa);
    assert a5 == UnionHead(a, b, us);
    var a6 := AddEpsFrom(a5, a.finals, ue);
    AddEpsFromKeeps(a5, a.finals, ue, A, nfa);
    var a7 := AddEpsFrom(a6, b.finals, ue);
    AddEpsFromKeeps(a6, b.finals, ue, A, nfa);
    var a8 := SetFinalEach(a7, a.finals, false);
    SetFinalEachKeeps(a7, a.finals, false, A, nfa);
    var a9 := SetFinal(a8, ue, true);
    SetFinalKeeps(a8, ue, true, A, nfa);
    assert a9 == UnionTail(a5, a.finals, b.finals, ue);
    var r := a9.(alphabet := AppendNew(a.alphabet, b.alphabet));
    ShapeWithAlphabet(r, A, nfa);
  }

  /** closure! keeps the invariants and the "" lists on any operand the
      program builds, and keeps NFA rows on an NFA operand. */
  lemma ClosureKeeps(a: Auto, cs: State)
    requires Invariants(a) && EpsLists(a) && a.start.Some?
    ensures Invariants(Closure(a, cs)) && EpsLists(Closure(a, cs))
    ensures NfaShaped(a) ==> NfaShaped(Closure(a, cs))
  {
    var nfa := NfaShaped(a);
    var A := Elems(a.alphabet);
    var ce := cs + 1;
    InvariantsAsShape(a, nfa);
    var a1 := NewState(NewState(a, cs), ce);
    NewStateKeeps(a, cs, A, nfa);
    NewStateKeeps(NewState(a, cs), ce, A, nfa);
    var a2 := AddTransition(a1, cs, ce, Eps);
    AddTransitionKeeps(a1, cs, ce, A, nfa);
    var a3 := AddTransition(a2, ce, cs, Eps);
    AddTransitionKeeps(a2, ce, cs, A, nfa);
    var a4 := AddTransition(a3, cs, a.start.value, Eps);
    AddTransitionKeeps(a3, cs, a.start.value, A, nfa);
    assert a4 == ClosureHead(a, cs);
    var a5 := AddEpsFrom(a4, a.finals, ce);
    AddEpsFromKeeps(a4, a.finals, ce, A, nfa);
    var a6 := SetStart(a5, cs);
    SetStartKeeps(a5, cs, A, nfa);
    var a7 := SetFinalEach(a6, a.finals, false);
    SetFinalEachKeeps(a6, a.finals, false, A, nfa);
    var r := SetFinal(a7, ce, true);
    SetFinalKeeps(a7, ce, true, A, nfa);
    ShapeWithAlphabet(r, A, nfa);
  }

  /** closure!: the start is the fresh cs, the only final the fresh cs + 1,
      the alphabet unchanged. */
  lemma ClosureFields(a: Auto, cs: State)
    requires WellFormed(a) && a.start.Some?
    ensures Closure(a, cs).start == Some(cs) && Closure(a, cs).finals == {cs + 1}
    ensures Closure(a, cs).states == a.states + {cs, cs + 1}
    ensures Closure(a, cs).alphabet == a.alphabet
  {
    hide ClosureHead, AddEpsFrom;
    EpsFromFields(ClosureHead(a, cs), a.finals, cs + 1);
  }

  /** The loop of "" additions changes no field but the rows when F and v
      are states already. */
  lemma EpsFromFields(a: Auto, F: set<State>, v: State)
    requires WellFormed(a) && F <= a.states && v in a.states
    ensures AddEpsFrom(a, F, v).states == a.states && AddEpsFrom(a, F, v).finals == a.finals
    ensures AddEpsFrom(a, F, v).start == a.start && AddEpsFrom(a, F, v).alphabet == a.alphabet
  {
  }

  /** The tail of union! on a head whose finals are Fa: only ue stays final. */
  lemma UnionTailFields(h: Auto, Fa: set<State>, Fb: set<State>, ue: State)
    requires WellFormed(h) && Fa <= h.states && Fb <= h.states && ue in h.states && h.finals == Fa
    ensures UnionTail(h, Fa, Fb, ue).start == h.start && UnionTail(h, Fa, Fb, ue).finals == {ue}
    ensures UnionTail(h, Fa, Fb, ue).states == h.states
    ensures UnionTail(h, Fa, Fb, ue).alphabet == h.alphabet
  {
    EpsFromFields(h, Fa, ue);
    EpsFromFields(AddEpsFrom(h, Fa, ue), Fb, ue);
  }

  /** union!: the start is the fresh us, the only final the fresh us + 1,
      the alphabet the duplicate-free union. */
  lemma UnionFields(a: Auto, b: Auto, us: State)
    requires WellFormed(a) && WellFormed(b) && a.start.Some? && b.start.Some?
    ensures Union(a, b, us).start == Some(us) && Union(a, b, us).finals == {us + 1}
    ensures Union(a, b, us).states == a.states + b.states + {us, us + 1}
    ensures Union(a, b, us).alphabet == AppendNew(a.alphabet, b.alphabet)
  {
    UnionTailFields(UnionHead(a, b, us), a.finals, b.finals, us + 1);
  }

  // ---------------------------------------------------------------------
  // The language of symbol!

  /** Without "" transitions every set is its own closure. */
  lemma NoEpsClose(a: Auto, S: set<State>)
    requires forall p :: LabelTargets(a, p, Eps) == {}
    ensures EClose(a, S) == S
  {
    ECloseContains(a, S);
    ECloseLeast(a, S, S);
  }

  /** The only edge of symbol!(sym) leads from n to n + 1 on sym. */
  lemma SymbolEdges(sym: Label, n: State, p: State, x: Label)
    ensures LabelTargets(Symbol(sym, n), p, x) == if p == n && x == sym then {n + 1} else {}
  {
    var r := Symbol(sym, n);
    if p == n {
      assert r.trans[n] == map[sym := Many([n + 1])];
      assert Elems([n + 1]) == {n + 1};
    } else if p == n + 1 {
      assert r.trans[p] == map[];
    } else {
      assert p !in r.trans;
    }
  }

  /** The edge relation of symbol!(Sym(c)) with the counter at n. */
  ghost predicate OneEdge(r: Auto, n: State, c: char) {
    forall p, x :: LabelTargets(r, p, x) == if p == n && x == Sym(c) then {n + 1} else {}
  }

  lemma OneEdgeMove(r: Auto, n: State, c: char, S: set<State>, d: char)
    requires OneEdge(r, n, c)
    ensures Move(r, S, d) == if n in S && d == c then {n + 1} else {}
  {
    if n in S && d == c {
      assert n + 1 in LabelTargets(r, n, Sym(c));
    }
  }

  lemma OneEdgeClose(r: Auto, n: State, c: char, S: set<State>)
    requires OneEdge(r, n, c)
    ensures EClose(r, S) == S
  {
    forall p ensures LabelTargets(r, p, Eps) == {} {
    }
    NoEpsClose(r, S);
  }

  /** What the one edge means for runs: closures change nothing, c leads
      from n to n + 1, and nothing else moves. */
  ghost predicate OneEdgeSteps(r: Auto, n: State, m: State, c: char) {
    && m == n + 1
    && (forall S :: EClose(r, S) == S)
    && (forall d :: Move(r, {n}, d) == if d == c then {m} else {})
    && (forall d :: Move(r, {m}, d) == {})
  }

  lemma OneEdgeHasSteps(r: Auto, n: State, c: char)
    requires OneEdge(r, n, c)
    ensures OneEdgeSteps(r, n, n + 1, c)
  {
    forall S ensures EClose(r, S) == S {
      OneEdgeClose(r, n, c, S);
    }
    forall d ensures Move(r, {n}, d) == if d == c then {n + 1} else {} {
      OneEdgeMove(r, n, c, {n}, d);
    }
    var m := n + 1;
    forall d ensures Move(r, {m}, d) == {} {
      OneEdgeMove(r, n, c, {m}, d);
    }
  }

  /** A word that does not start with c leads nowhere. */
  lemma OneEdgeWrongLetter(r: Auto, n: State, c: char, w: string)
    requires OneEdgeSteps(r, n, n + 1, c) && w != [] && w[0] != c
    ensures NDelta(r, {n}, w) == {}
  {
    NDeltaStep(r, {n}, w);
    NDeltaEmpty(r, w[1..]);
  }

  /** A word longer than one letter leads nowhere. */
  lemma OneEdgeTooLong(r: Auto, n: State, c: char, w: string)
    requires OneEdgeSteps(r, n, n + 1, c) && |w| > 1 && w[0] == c
    ensures NDelta(r, {n}, w) == {}
  {
    NDeltaStep(r, {n}, w);
    NDeltaStep(r, {n + 1}, w[1..]);
    NDeltaEmpty(r, w[2..]);
  }

  /** The word c leads to n + 1. */
  lemma OneEdgeLetter(r: Auto, n: State, c: char)
    requires OneEdgeSteps(r, n, n + 1, c)
    ensures NDelta(r, {n}, [c]) == {n + 1}
  {
    NDeltaStep(r, {n}, [c]);
  }

  /** A store whose only edge is n -c-> n + 1, started at n with only
      n + 1 final, accepts exactly the word c. */
  lemma OneEdgeLanguage(r: Auto, n: State, c: char, w: string)
    requires r.start == Some(n) && r.finals == {n + 1} && OneEdgeSteps(r, n, n + 1, c)
    ensures NAccepts(r, w) <==> w == [c]
  {
    assert EClose(r, {n}) == {n};
    if w == [c] {
      OneEdgeLetter(r, n, c);
    } else if w != [] && w[0] != c {
      OneEdgeWrongLetter(r, n, c, w);
    } else if w != [] {
      OneEdgeTooLong(r, n, c, w);
    }
  }

  /** After symbol!(c) the automaton accepts exactly the one-letter word c. */
  lemma SymbolLanguage(c: char, n: State, w: string)
    ensures NAccepts(Symbol(Sym(c), n), w) <==> w == [c]
  {
    var r := Symbol(Sym(c), n);
    forall p, x ensures LabelTargets(r, p, x) == if p == n && x == Sym(c) then {n + 1} else {} {
      SymbolEdges(Sym(c), n, p, x);
    }
    OneEdgeHasSteps(r, n, c);
    OneEdgeLanguage(r, n, c, w);
  }

  /** After symbol!("") the automaton accepts exactly the empty word. */
  lemma {:induction false} EpsilonSymbolLanguage(n: State, w: string)
    ensures NAccepts(Symbol(Eps, n), w) <==> w == []
  {
    var r := Symbol(Eps, n);
    var closed := EClose(r, {n});
    if w == [] {
      SymbolEdges(Eps, n, n, Eps);
      ECloseContains(r, {n});
      ECloseIsClosed(r, {n});
      assert n + 1 in closed;
    } else {
      forall p | p in closed ensures LabelTargets(r, p, Sym(w[0])) == {} {
        SymbolEdges(Eps, n, p, Sym(w[0]));
      }
      assert Move(r, closed, w[0]) == {};
      ECloseEmpty(r);
      NDeltaEmpty(r, w[1..]);
    }
  }
}

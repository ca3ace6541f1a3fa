/** `complement!` of fa.rb over values. newdfa copies the start, the states
    and (sharing them) the rows of the receiver; every missing entry of a
    state on a letter of the alphabet is sent to a fresh sink; finals are
    flipped. As written, the sink loops only on the letters that were
    missing somewhere; `Complemented` is the completion the method's
    comment promises, with its language proved to be the complement. */
module Complementation {
  import opened Automata
  import opened Acceptance

  /** Every pair of a state of D and a letter of L. */
  function Grid(D: set<State>, L: set<char>): set<(State, char)> {
    set q, c | q in D && c in L :: (q, c)
  }

  /** The pairs of P whose letter has no entry at its state in a. */
  function Gaps(a: Auto, P: set<(State, char)>): set<(State, char)> {
    set p | p in P && Sym(p.1) !in RowAt(a, p.0)
  }

  /** The labels of the letters of L. */
  function Syms(L: set<char>): set<Label> {
    set c | c in L :: Sym(c)
  }

  /** A row sending each letter of L to dead. */
  function SinkRow(L: set<char>, dead: State): Row {
    map x | x in Syms(L) :: One(dead)
  }

  /** The letters of the gaps of G at q. */
  function GapsAt(G: set<(State, char)>, q: State): set<char> {
    set p | p in G && p.0 == q :: p.1
  }

  /** The letters of all gaps of G. */
  function GapLetters(G: set<(State, char)>): set<char> {
    set p | p in G :: p.1
  }

  /** The row of q with each of its gaps in G sent to dead. */
  function FilledRow(a: Auto, G: set<(State, char)>, q: State, dead: State): Row {
    RowAt(a, q) + SinkRow(GapsAt(G, q), dead)
  }

  /** The rows of a's states once the gaps in G are filled. */
  function FilledRows(a: Auto, G: set<(State, char)>, dead: State): map<State, Row> {
    map q | q in a.states :: FilledRow(a, G, q, dead)
  }

  /** newdfa once the nested loops have filled the gaps G: a's start,
      states and rows, each gap sent to dead, and dead (registered by the
      first gap) looping on the letters of the gaps only. */
  function Handled(a: Auto, dead: State, G: set<(State, char)>): (r: Auto)
    requires WellFormed(a)
    ensures WellFormed(r) && r.start == a.start && r.finals == {} && r.alphabet == []
    ensures r.states == a.states + (if G == {} then {} else {dead})
    ensures G != {} ==> r.trans[dead] == SinkRow(GapLetters(G), dead)
  {
    if G == {} then Auto(a.start, a.states, {}, FilledRows(a, G, dead), [])
    else Auto(a.start, a.states + {dead}, {},
              FilledRows(a, G, dead)[dead := SinkRow(GapLetters(G), dead)], [])
  }

  /** The receiver at the same point: it shares its rows with newdfa, and
      new_state gave it dead with an empty row of its own. */
  function ReceiverAfter(a: Auto, dead: State, G: set<(State, char)>): (r: Auto)
    ensures r.start == a.start && r.finals == a.finals && r.alphabet == a.alphabet
    ensures r.states == a.states + {dead}
  {
    var none: Row := map[];
    a.(states := a.states + {dead}, trans := FilledRows(a, G, dead)[dead := none])
  }

  /** Every gap of a on its alphabet. */
  function AllGaps(a: Auto): set<(State, char)> {
    Gaps(a, Grid(a.states, Elems(a.alphabet)))
  }

  /** complement! as written: every gap filled, finals flipped over all of
      newdfa's states (the sink included), the alphabet copied. */
  function ComplementAsWritten(a: Auto, dead: State): (r: Auto)
    requires WellFormed(a)
    ensures WellFormed(r) && r.start == a.start && r.alphabet == a.alphabet
    ensures r.states == a.states + (if AllGaps(a) == {} then {} else {dead})
    ensures r.finals == r.states - a.finals
  {
    var h := Handled(a, dead, AllGaps(a));
    h.(finals := h.states - a.finals, alphabet := a.alphabet)
  }

  /** The evidently intended completion: as written, except that the sink
      loops on every letter of the alphabet. */
  function Complemented(a: Auto, dead: State): (r: Auto)
    requires WellFormed(a)
    ensures WellFormed(r) && r.start == a.start && r.alphabet == a.alphabet
    ensures r.states == ComplementAsWritten(a, dead).states
    ensures r.finals == r.states - a.finals
  {
    var h := ComplementAsWritten(a, dead);
    if AllGaps(a) == {} then h else h.(trans := h.trans[dead := SinkRow(Elems(a.alphabet), dead)])
  }

  // ---------------------------------------------------------------------
  // The steps of the nested loops, stated row by row

  /** x is newdfa once the gaps G are filled (Handled, row by row). */
  ghost predicate IsHandled(x: Auto, a: Auto, dead: State, G: set<(State, char)>) {
    && x.start == a.start && x.finals == {} && x.alphabet == []
    && x.states == a.states + (if G == {} then {} else {dead})
    && x.trans.Keys == x.states
    && (forall p :: p in a.states ==> x.trans[p] == FilledRow(a, G, p, dead))
    && (G != {} ==> x.trans[dead] == SinkRow(GapLetters(G), dead))
  }

  /** x is the receiver once the gaps G are filled (ReceiverAfter, row by row). */
  ghost predicate IsReceiver(x: Auto, a: Auto, dead: State, G: set<(State, char)>) {
    && x.start == a.start && x.finals == a.finals && x.alphabet == a.alphabet
    && x.states == a.states + {dead} && x.trans.Keys == x.states
    && (forall p :: p in a.states ==> x.trans[p] == FilledRow(a, G, p, dead))
    && x.trans[dead] == map[]
  }

  lemma FilledRowNone(a: Auto, dead: State, p: State)
    ensures FilledRow(a, {}, p, dead) == RowAt(a, p)
  {
    assert GapsAt({}, p) == {};
    assert SinkRow({}, dead) == map[];
  }

  /** Before the loops: newdfa holds the receiver's start, states and rows,
      and the receiver has gained dead. */
  lemma HandledNone(a: Auto, dead: State)
    requires WellFormed(a) && dead !in a.states
    ensures IsHandled(Auto(a.start, a.states, {}, a.trans, []), a, dead, {})
    ensures IsReceiver(NewState(a, dead), a, dead, {})
  {
    forall p | p in a.states ensures FilledRow(a, {}, p, dead) == a.trans[p] {
      FilledRowNone(a, dead, p);
    }
  }

  lemma SinkRowAdd(L: set<char>, c: char, dead: State)
    ensures SinkRow(L, dead)[Sym(c) := One(dead)] == SinkRow(L + {c}, dead)
  {
    assert Syms(L + {c}) == Syms(L) + {Sym(c)};
  }

  lemma GapsAtAdd(G: set<(State, char)>, q: State, c: char, p: State)
    ensures GapsAt(G + {(q, c)}, p) == if p == q then GapsAt(G, p) + {c} else GapsAt(G, p)
  {
  }

  /** Filling the gap (q, c) adds the entry c -> dead to q's row and to no
      other row. */
  lemma FilledRowGap(a: Auto, G: set<(State, char)>, dead: State, q: State, c: char, p: State)
    ensures FilledRow(a, G + {(q, c)}, p, dead)
            == if p == q then FilledRow(a, G, q, dead)[Sym(c) := One(dead)] else FilledRow(a, G, p, dead)
  {
    GapsAtAdd(G, q, c, p);
    if p == q {
      SinkRowAdd(GapsAt(G, q), c, dead);
    }
  }

  lemma GapLettersAdd(G: set<(State, char)>, q: State, c: char)
    ensures GapLetters(G + {(q, c)}) == GapLetters(G) + {c}
  {
    assert c in GapLetters(G + {(q, c)}) by {
      assert (q, c) in G + {(q, c)};
    }
  }

  /** The sink's row once the gap letter c is added. */
  lemma SinkGap(G: set<(State, char)>, dead: State, q: State, c: char)
    ensures (if G == {} then map[] else SinkRow(GapLetters(G), dead))[Sym(c) := One(dead)]
            == SinkRow(GapLetters(G + {(q, c)}), dead)
  {
    GapLettersAdd(G, q, c);
    SinkRowAdd(GapLetters(G), c, dead);
    if G == {} {
      assert SinkRow({}, dead) == map[];
      assert GapLetters(G + {(q, c)}) == {c};
    }
  }

  /** The states after the two writes of a gap: the old ones and dead. */
  lemma GapStates(A: set<State>, D: set<State>, q: State, dead: State)
    requires q in A && D <= {dead}
    ensures A + D + {q, dead} + {dead, dead} == A + {dead}
  {
  }

  /** On a gap (q, c): q goes to the sink on c, then the sink gets a loop
      on c. */
  lemma HandledGap(x: Auto, a: Auto, dead: State, G: set<(State, char)>, q: State, c: char)
    requires IsHandled(x, a, dead, G) && WellFormed(a)
    requires dead !in a.states && q in a.states && Sym(c) !in RowAt(a, q)
    ensures WellFormed(x) && WellFormed(AddTransitionDfa(x, q, dead, Sym(c)))
    ensures IsHandled(AddTransitionDfa(AddTransitionDfa(x, q, dead, Sym(c)), dead, dead, Sym(c)),
                      a, dead, G + {(q, c)})
  {
    hide AddTransitionDfa;
    var x1 := AddTransitionDfa(x, q, dead, Sym(c));
    var x2 := AddTransitionDfa(x1, dead, dead, Sym(c));
    var G' := G + {(q, c)};
    assert (q, c) in G' && G' != {};
    GapStates(a.states, x.states - a.states, q, dead);
    forall p | p in a.states ensures x2.trans[p] == FilledRow(a, G', p, dead) {
      FilledRowGap(a, G, dead, q, c, p);
    }
    assert x1.trans[dead] == if G == {} then map[] else SinkRow(GapLetters(G), dead);
    SinkGap(G, dead, q, c);
    assert x2.trans[dead] == SinkRow(GapLetters(G'), dead);
    assert x2.states == a.states + {dead};
    assert x2.trans.Keys == x2.states;
    assert x2.start == a.start && x2.finals == {} && x2.alphabet == [];
  }

  /** The receiver's row of key is the same hash as newdfa's, so the gap
      shows in the receiver too. */
  lemma ReceiverGap(x: Auto, a: Auto, dead: State, G: set<(State, char)>, q: State, c: char)
    requires IsReceiver(x, a, dead, G) && dead !in a.states && q in a.states
    ensures IsReceiver(x.(trans := x.trans[q := FilledRow(a, G + {(q, c)}, q, dead)]), a, dead, G + {(q, c)})
  {
    forall p | p in a.states ensures FilledRow(a, G + {(q, c)}, p, dead) == if p == q then FilledRow(a, G + {(q, c)}, q, dead) else x.trans[p] {
      FilledRowGap(a, G, dead, q, c, p);
    }
  }

  /** The row-by-row description determines newdfa. */
  lemma HandledUnique(x: Auto, a: Auto, dead: State, G: set<(State, char)>)
    requires IsHandled(x, a, dead, G) && WellFormed(a) && dead !in a.states
    ensures x == Handled(a, dead, G)
  {
    var h := Handled(a, dead, G);
    assert x.trans == h.trans by {
      forall p | p in x.trans ensures x.trans[p] == h.trans[p] {
      }
    }
  }

  /** The row-by-row description determines the receiver. */
  lemma ReceiverUnique(x: Auto, a: Auto, dead: State, G: set<(State, char)>)
    requires IsReceiver(x, a, dead, G) && dead !in a.states
    ensures x == ReceiverAfter(a, dead, G)
  {
    var h := ReceiverAfter(a, dead, G);
    assert x.trans == h.trans by {
      forall p | p in x.trans ensures x.trans[p] == h.trans[p] {
      }
    }
  }

  /** Nothing visited, no gap. */
  lemma GapsNone(a: Auto, A: set<char>)
    ensures Gaps(a, Grid({}, A)) == {}
  {
  }

  /** The inner loop visits one more letter of the current state. */
  lemma GridLetter(D: set<State>, A: set<char>, q: State, L: set<char>, c: char)
    ensures Grid(D, A) + Grid({q}, L + {c}) == Grid(D, A) + Grid({q}, L) + {(q, c)}
  {
  }

  /** The inner loop starts with no letter of the state visited. */
  lemma GridLetterNone(D: set<State>, A: set<char>, q: State)
    ensures Grid(D, A) + Grid({q}, {}) == Grid(D, A)
  {
  }

  /** The inner loop ends having visited every letter of the state. */
  lemma GridState(D: set<State>, A: set<char>, q: State)
    ensures Grid(D, A) + Grid({q}, A) == Grid(D + {q}, A)
  {
  }

  /** A state not visited yet has no gap filled: its row is a's row. */
  lemma FilledRowUntouched(a: Auto, D: set<State>, A: set<char>, q: State, dead: State)
    requires q !in D
    ensures FilledRow(a, Gaps(a, Grid(D, A)), q, dead) == RowAt(a, q)
  {
    assert GapsAt(Gaps(a, Grid(D, A)), q) == {};
    assert SinkRow({}, dead) == map[];
  }

  /** The receiver's check for a missing entry, made on the rows
      it shares with newdfa: a gap exactly when the pair adds one. */
  lemma GapCheck(a: Auto, P: set<(State, char)>, q: State, c: char, dead: State)
    ensures Sym(c) !in FilledRow(a, Gaps(a, P), q, dead) ==>
              Sym(c) !in RowAt(a, q) && Gaps(a, P + {(q, c)}) == Gaps(a, P) + {(q, c)}
    ensures Sym(c) in FilledRow(a, Gaps(a, P), q, dead) ==> Gaps(a, P + {(q, c)}) == Gaps(a, P)
  {
    FilledRowHas(a, Gaps(a, P), q, dead, c);
    GapsAdd(a, P, q, c);
  }

  /** Visiting one more pair: a gap is added exactly when the letter had no
      entry in a. */
  lemma GapsAdd(a: Auto, P: set<(State, char)>, q: State, c: char)
    ensures Sym(c) !in RowAt(a, q) ==> Gaps(a, P + {(q, c)}) == Gaps(a, P) + {(q, c)}
    ensures Sym(c) in RowAt(a, q) ==> Gaps(a, P + {(q, c)}) == Gaps(a, P)
  {
  }

  /** A filled row has an entry for c exactly when a has one or (q, c) is a
      gap. */
  lemma FilledRowHas(a: Auto, G: set<(State, char)>, q: State, dead: State, c: char)
    ensures Sym(c) in FilledRow(a, G, q, dead) <==> Sym(c) in RowAt(a, q) || (q, c) in G
  {
    if (q, c) in G {
      assert c in GapsAt(G, q);
    }
    if Sym(c) in SinkRow(GapsAt(G, q), dead) {
      var e :| e in GapsAt(G, q) && Sym(c) == Sym(e);
    }
  }

  /** The letters of the gaps are letters of the alphabet. */
  lemma GapLettersInAlphabet(a: Auto)
    ensures GapLetters(AllGaps(a)) <= Elems(a.alphabet)
  {
  }

  /** h with the sink's row looping on the letters of L. */
  function WithSink(h: Auto, dead: State, L: set<char>): (r: Auto)
    ensures r.states == h.states && r.finals == h.finals && r.start == h.start && r.alphabet == h.alphabet
    ensures WellFormed(h) && dead in h.states ==> WellFormed(r)
  {
    h.(trans := h.trans[dead := SinkRow(L, dead)])
  }

  /** One more letter on the sink's row. */
  lemma SinkLoopStep(h: Auto, dead: State, L: set<char>, c: char)
    requires WellFormed(h) && dead in h.states
    ensures WellFormed(WithSink(h, dead, L))
    ensures AddTransitionDfa(WithSink(h, dead, L), dead, dead, Sym(c)) == WithSink(h, dead, L + {c})
  {
    SinkRowAdd(L, c, dead);
    var x := WithSink(h, dead, L);
    assert AddTransitionDfa(x, dead, dead, Sym(c)).trans == h.trans[dead := SinkRow(L + {c}, dead)];
  }

  /** Before the correction the sink already loops on the gap letters. */
  lemma SinkLoopNone(a: Auto, dead: State)
    requires WellFormed(a) && AllGaps(a) != {}
    ensures var h := Handled(a, dead, AllGaps(a));
            WithSink(h, dead, GapLetters(AllGaps(a))) == h
  {
    hide Handled, SinkRow, GapLetters, AllGaps;
    var h := Handled(a, dead, AllGaps(a));
    assert h.trans[dead := SinkRow(GapLetters(AllGaps(a)), dead)] == h.trans;
  }

  /** Where there is no gap, newdfa has not registered the sink. */
  lemma SinkRegistered(a: Auto, dead: State)
    requires WellFormed(a) && dead !in a.states
    ensures dead in Handled(a, dead, AllGaps(a)).states <==> AllGaps(a) != {}
  {
  }

  /** The store after the loops, finals flipped and alphabet copied. */
  lemma ComplementFinish(a: Auto, dead: State, x: Auto)
    requires WellFormed(a)
    requires var h := Handled(a, dead, AllGaps(a));
             x == if AllGaps(a) == {} then h else WithSink(h, dead, Elems(a.alphabet))
    ensures x.(finals := x.states - a.finals, alphabet := a.alphabet) == Complemented(a, dead)
  {
  }

  /** The store after the loops alone, finals flipped and alphabet copied,
      is complement! as written. */
  lemma AsWrittenFinish(a: Auto, dead: State, x: Auto)
    requires WellFormed(a) && x == Handled(a, dead, AllGaps(a))
    ensures x.(finals := x.states - a.finals, alphabet := a.alphabet) == ComplementAsWritten(a, dead)
  {
  }

  // ---------------------------------------------------------------------
  // The finding: what the sink is missing, and the corrected completion

  /** A word every letter of which is in the alphabet. */
  predicate OverAlphabet(a: Auto, w: string) {
    forall i :: 0 <= i < |w| ==> w[i] in a.alphabet
  }

  /** Every entry of a row is a single state. */
  predicate RowDet(row: Row) {
    forall x :: x in row ==> row[x].One?
  }

  /** Filling gaps with the sink keeps a deterministic row deterministic. */
  lemma FilledRowDet(a: Auto, G: set<(State, char)>, q: State, dead: State)
    requires Deterministic(a) && q in a.trans
    ensures RowDet(FilledRow(a, G, q, dead))
  {
    assert RowDet(a.trans[q]);
  }

  /** The rows of a's states in the corrected completion are filled. */
  lemma ComplementedRow(a: Auto, dead: State, q: State)
    requires WellFormed(a) && dead !in a.states && q in a.states
    ensures Complemented(a, dead).trans[q] == FilledRow(a, AllGaps(a), q, dead)
  {
  }

  /** The only other row is the sink's, looping on the whole alphabet. */
  lemma ComplementedSinkRow(a: Auto, dead: State, q: State)
    requires WellFormed(a) && dead !in a.states && q in Complemented(a, dead).trans && q !in a.states
    ensures q == dead && Complemented(a, dead).trans[q] == SinkRow(Elems(a.alphabet), dead)
  {
  }

  /** The corrected completion is deterministic when a is. */
  lemma ComplementedDeterministic(a: Auto, dead: State)
    requires WellFormed(a) && Deterministic(a) && dead !in a.states
    ensures Deterministic(Complemented(a, dead))
  {
    var r := Complemented(a, dead);
    hide Complemented, FilledRow, SinkRow;
    forall q | q in r.trans ensures RowDet(r.trans[q]) {
      if q in a.states {
        ComplementedRow(a, dead, q);
        FilledRowDet(a, AllGaps(a), q, dead);
      } else {
        ComplementedSinkRow(a, dead, q);
        SinkRowDet(Elems(a.alphabet), dead);
      }
    }
  }

  lemma SinkRowDet(L: set<char>, dead: State)
    ensures RowDet(SinkRow(L, dead))
  {
  }

  /** Letter by letter: a's entries are kept, a missing letter of the
      alphabet goes to the sink, and the sink loops on every letter. */
  lemma ComplementedStep(a: Auto, dead: State, q: State, c: char)
    requires WellFormed(a) && Deterministic(a) && dead !in a.states
    requires q in a.states + {dead} && c in a.alphabet
    ensures Deterministic(Complemented(a, dead))
    ensures q in a.states && Sym(c) in a.trans[q] ==>
              GetTransition(Complemented(a, dead), q, Sym(c)) == GetTransition(a, q, Sym(c))
    ensures (q in a.states && Sym(c) !in a.trans[q]) || (q == dead && dead in Complemented(a, dead).states) ==>
              dead in Complemented(a, dead).states &&
              GetTransition(Complemented(a, dead), q, Sym(c)) == Some(One(dead))
  {
    ComplementedDeterministic(a, dead);
    var r := Complemented(a, dead);
    hide Complemented, AllGaps;
    if q in a.states {
      ComplementedRow(a, dead, q);
      FilledRowHas(a, AllGaps(a), q, dead, c);
      if Sym(c) !in a.trans[q] {
        GapAt(a, q, c);
        FilledRowGapEntry(a, AllGaps(a), q, dead, c);
      }
    } else if dead in r.states {
      ComplementedSinkRow(a, dead, q);
      SinkRowEntry(Elems(a.alphabet), dead, c);
    }
  }

  /** A letter of the alphabet missing from a state's row is a gap. */
  lemma GapAt(a: Auto, q: State, c: char)
    requires WellFormed(a) && q in a.states && c in a.alphabet && Sym(c) !in a.trans[q]
    ensures (q, c) in AllGaps(a)
  {
    assert (q, c) in Grid(a.states, Elems(a.alphabet));
  }

  /** A gap's entry in a filled row is the sink. */
  lemma FilledRowGapEntry(a: Auto, G: set<(State, char)>, q: State, dead: State, c: char)
    requires (q, c) in G && Sym(c) !in RowAt(a, q)
    ensures Sym(c) in FilledRow(a, G, q, dead) && FilledRow(a, G, q, dead)[Sym(c)] == One(dead)
  {
    assert c in GapsAt(G, q);
    SinkRowEntry(GapsAt(G, q), dead, c);
  }

  /** The sink row's entry for a letter of L. */
  lemma SinkRowEntry(L: set<char>, dead: State, c: char)
    requires c in L
    ensures Sym(c) in SinkRow(L, dead) && SinkRow(L, dead)[Sym(c)] == One(dead)
  {
    assert Sym(c) in Syms(L);
  }

  /** From the sink every word over the alphabet is accepted. */
  lemma {:induction false} SinkAccepts(a: Auto, dead: State, w: string)
    requires WellFormed(a) && Deterministic(a) && dead !in a.states
    requires dead in Complemented(a, dead).states && OverAlphabet(a, w)
    ensures Deterministic(Complemented(a, dead))
    ensures Accepts(Complemented(a, dead), w, dead)
    decreases |w|
  {
    ComplementedDeterministic(a, dead);
    hide Complemented, AllGaps;
    if w != [] {
      ComplementedStep(a, dead, dead, w[0]);
      SinkAccepts(a, dead, w[1..]);
    }
  }

  /** The corrected completion accepts, from any state of a, exactly the
      words over the alphabet that a rejects from there. */
  lemma {:induction false} ComplementedFlips(a: Auto, dead: State, w: string, q: State)
    requires WellFormed(a) && Closed(a) && Deterministic(a) && dead !in a.states
    requires q in a.states && OverAlphabet(a, w)
    ensures Deterministic(Complemented(a, dead))
    ensures Accepts(Complemented(a, dead), w, q) <==> !Accepts(a, w, q)
    decreases |w|
  {
    ComplementedDeterministic(a, dead);
    hide Complemented, AllGaps;
    if w != [] {
      ComplementedStep(a, dead, q, w[0]);
      if Sym(w[0]) in a.trans[q] {
        var t := a.trans[q][Sym(w[0])].to;
        assert t in Targets(a.trans[q][Sym(w[0])]);
        ComplementedFlips(a, dead, w[1..], t);
      } else {
        SinkAccepts(a, dead, w[1..]);
      }
    }
  }

  /** The language of the corrected completion is the complement, relative
      to the words over the alphabet. */
  lemma ComplementedLanguage(a: Auto, dead: State, w: string)
    requires WellFormed(a) && Closed(a) && Deterministic(a) && dead !in a.states
    requires a.start.Some? && OverAlphabet(a, w)
    ensures Deterministic(Complemented(a, dead))
    ensures Accepts(Complemented(a, dead), w, a.start.value) <==> !Accepts(a, w, a.start.value)
  {
    ComplementedFlips(a, dead, w, a.start.value);
  }

  /** Where no entry is missing there is no sink, and as written is the
      corrected completion. */
  lemma CompleteNeedsNoSink(a: Auto, dead: State)
    requires WellFormed(a) && AllGaps(a) == {}
    ensures ComplementAsWritten(a, dead) == Complemented(a, dead)
    ensures ComplementAsWritten(a, dead).states == a.states
  {
  }

  /** One state q0, final, with q0 -a-> q0 over the alphabet [a, b]. */
  function OneLoop(): (a: Auto)
    ensures WellFormed(a)
  {
    Auto(Some(0), {0}, {0}, map[0 := map[Sym('a') := One(0)]], ['a', 'b'])
  }

  /** Its one gap is (q0, b). */
  lemma OneLoopGaps()
    ensures AllGaps(OneLoop()) == {(0, 'b')}
  {
    var a := OneLoop();
    assert Elems(a.alphabet) == {'a', 'b'};
    assert Grid(a.states, Elems(a.alphabet)) == {(0, 'a'), (0, 'b')};
  }

  /** complement! as written: q0 gains b to the sink, the sink loops on b only. */
  lemma OneLoopAsWritten()
    ensures var h := ComplementAsWritten(OneLoop(), 1);
      && h.trans.Keys == {0, 1} && h.finals == {1}
      && h.trans[0] == map[Sym('a') := One(0), Sym('b') := One(1)]
      && h.trans[1] == map[Sym('b') := One(1)]
  {
    var a := OneLoop();
    OneLoopGaps();
    var G := AllGaps(a);
    assert GapLetters(G) == {'b'};
    assert GapsAt(G, 0) == {'b'};
    assert Syms({'b'}) == {Sym('b')};
    assert SinkRow({'b'}, 1) == map[Sym('b') := One(1)];
  }

  /** The corrected completion: the sink loops on a and b. */
  lemma OneLoopCompleted()
    ensures var h := Complemented(OneLoop(), 1);
      && h.trans.Keys == {0, 1} && h.finals == {1}
      && h.trans[0] == map[Sym('a') := One(0), Sym('b') := One(1)]
      && h.trans[1] == map[Sym('a') := One(1), Sym('b') := One(1)]
  {
    OneLoopAsWritten();
    OneLoopGaps();
    hide ComplementAsWritten;
    assert Elems(OneLoop().alphabet) == {'a', 'b'};
    assert Syms({'a', 'b'}) == {Sym('a'), Sym('b')};
    assert SinkRow({'a', 'b'}, 1) == map[Sym('a') := One(1), Sym('b') := One(1)];
  }

  /** The sink as written loops only on gap letters: on OneLoop, "ba" leads
      from q0 to the sink, which has no entry for a, so the result rejects
      "ba" just as the input does, while the corrected completion accepts it. */
  lemma AsWrittenMissesSinkLoop()
    ensures var a := OneLoop();
            && Deterministic(ComplementAsWritten(a, 1)) && Deterministic(Complemented(a, 1))
            && !Accepts(a, "ba", 0)
            && !Accepts(ComplementAsWritten(a, 1), "ba", 0)
            && Accepts(Complemented(a, 1), "ba", 0)
  {
    OneLoopAsWritten();
    OneLoopCompleted();
    hide ComplementAsWritten, Complemented;
    assert "ba"[1..] == "a" && "a"[1..] == "";
  }
}

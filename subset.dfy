/** What `to_dfa` of fa.rb builds, stated over values: each DFA state stands
    for one key, an ordered duplicate-free list of NFA states, and its rows
    follow the subset construction. The language of such a DFA is the
    language of the NFA. */
module SubsetConstruction {
  import opened Automata
  import opened Acceptance
  import opened EpsilonClosure

  // ---------------------------------------------------------------------
  // Keys

  /** Every sequence over U of length at most n. */
  function SeqsUpTo(U: set<State>, n: nat): set<seq<State>>
    decreases n
  {
    if n == 0 then {[]}
    else {[]} + set x, t | x in U && t in SeqsUpTo(U, n - 1) :: [x] + t
  }

  lemma {:induction false} SeqsUpToComplete(U: set<State>, n: nat, s: seq<State>)
    requires Elems(s) <= U && |s| <= n
    ensures s in SeqsUpTo(U, n)
    decreases n
  {
    if s != [] {
      assert s[0] in Elems(s);
      assert Elems(s[1..]) <= Elems(s);
      SeqsUpToComplete(U, n - 1, s[1..]);
      assert s == [s[0]] + s[1..];
    }
  }

  /** A duplicate-free sequence has as many distinct elements as entries. */
  lemma {:induction false} NoDupCount(s: seq<State>)
    requires NoDup(s)
    ensures |Elems(s)| == |s|
    decreases |s|
  {
    if s != [] {
      var t := s[1..];
      assert NoDup(t);
      NoDupCount(t);
      assert Elems(s) == {s[0]} + Elems(t);
      assert s[0] !in Elems(t);
    }
  }

  lemma SubsetCount(A: set<State>, B: set<State>)
    requires A <= B
    ensures |A| <= |B|
  {
    assert B == A + (B - A);
  }

  /** The keys of to_dfa, duplicate-free lists of states of U, are finitely
      many. */
  lemma KeyBound(U: set<State>, s: seq<State>)
    requires NoDup(s) && Elems(s) <= U
    ensures s in SeqsUpTo(U, |U|)
  {
    NoDupCount(s);
    SubsetCount(Elems(s), U);
    SeqsUpToComplete(U, |U|, s);
  }

  // ---------------------------------------------------------------------
  // The shape of the DFA

  /** The entry of DFA state q on letter c is the one the subset construction
      prescribes: none when the closure of the move is empty, otherwise
      a DFA state whose key holds exactly that closure. */
  ghost predicate StepOk(a0: Auto, d: Auto, keyOf: map<State, seq<State>>, q: State, c: char)
    requires q in keyOf && q in d.trans
  {
    var T := EClose(a0, Move(a0, Elems(keyOf[q]), c));
    if T == {} then Sym(c) !in d.trans[q]
    else
      && Sym(c) in d.trans[q] && d.trans[q][Sym(c)].One?
      && d.trans[q][Sym(c)].to in keyOf && Elems(keyOf[d.trans[q][Sym(c)].to]) == T
  }

  /** The row of q is right for every letter of C and has no other entry. */
  ghost predicate RowCovers(a0: Auto, d: Auto, keyOf: map<State, seq<State>>, q: State, C: set<char>)
  {
    && q in keyOf && q in d.trans
    && (forall c :: c in C ==> StepOk(a0, d, keyOf, q, c))
    && (forall x :: x in d.trans[q] ==> x.Sym? && x.c in C)
  }

  /** keyOf maps DFA states to distinct keys, each duplicate-free. */
  predicate KeysDistinct(keyOf: map<State, seq<State>>) {
    && (forall q :: q in keyOf ==> NoDup(keyOf[q]))
    && (forall q1, q2 :: q1 in keyOf && q2 in keyOf && keyOf[q1] == keyOf[q2] ==> q1 == q2)
  }

  /** d is the subset-construction DFA of a0 under keyOf: its start stands
      for the closure of a0's start, a state is final exactly when its key
      meets a0's finals, every row follows the construction on every letter
      of the alphabet, and the alphabet is copied. */
  ghost predicate SubsetDfa(a0: Auto, d: Auto, keyOf: map<State, seq<State>>) {
    && a0.start.Some? && d.start.Some? && d.start.value in keyOf
    && Elems(keyOf[d.start.value]) == EClose(a0, {a0.start.value})
    && WellFormed(d) && d.states == keyOf.Keys && KeysDistinct(keyOf)
    && (forall q :: q in keyOf ==> (q in d.finals <==> Elems(keyOf[q]) * a0.finals != {}))
    && (forall q :: q in keyOf ==> RowCovers(a0, d, keyOf, q, Elems(a0.alphabet)))
    && d.alphabet == a0.alphabet
  }

  // ---------------------------------------------------------------------
  // Properties of the subset DFA

  /** Letters outside the alphabet label no NFA edge, so a full row is right
      on every letter. */
  lemma FullRowStep(a0: Auto, d: Auto, keyOf: map<State, seq<State>>, q: State, c: char)
    requires LabelsInAlphabet(a0) && RowCovers(a0, d, keyOf, q, Elems(a0.alphabet))
    ensures StepOk(a0, d, keyOf, q, c)
  {
    if c !in Elems(a0.alphabet) {
      assert Move(a0, Elems(keyOf[q]), c) == {} by {
        forall p | p in Elems(keyOf[q]) ensures LabelTargets(a0, p, Sym(c)) == {} {
        }
      }
      ECloseEmpty(a0);
    }
  }

  /** The subset DFA has one destination per entry and no "" entries. */
  lemma SubsetIsDeterministic(a0: Auto, d: Auto, keyOf: map<State, seq<State>>)
    requires SubsetDfa(a0, d, keyOf)
    ensures Deterministic(d) && EpsFree(d)
  {
    forall q, x | q in d.trans && x in d.trans[q] ensures d.trans[q][x].One? && x.Sym? {
      assert RowCovers(a0, d, keyOf, q, Elems(a0.alphabet));
      assert StepOk(a0, d, keyOf, q, x.c);
    }
  }

  /** One letter of the subset DFA: no entry exactly when the closure of
      the move is empty, otherwise a single DFA state keyed by it. */
  lemma SubsetStep(a0: Auto, d: Auto, keyOf: map<State, seq<State>>, q: State, c: char)
    requires SubsetDfa(a0, d, keyOf) && LabelsInAlphabet(a0) && q in keyOf
    ensures var T := EClose(a0, Move(a0, Elems(keyOf[q]), c));
      && (T == {} ==> GetTransition(d, q, Sym(c)) == None)
      && (T != {} ==> && GetTransition(d, q, Sym(c)).Some?
                      && GetTransition(d, q, Sym(c)).value.One?
                      && GetTransition(d, q, Sym(c)).value.to in keyOf
                      && Elems(keyOf[GetTransition(d, q, Sym(c)).value.to]) == T)
  {
    FullRowStep(a0, d, keyOf, q, c);
  }

  /** From DFA state q the DFA accepts w exactly when the NFA, started on the
      states of q's key, can end in a final state. */
  lemma {:induction false} SubsetRun(a0: Auto, d: Auto, keyOf: map<State, seq<State>>, q: State, w: string)
    requires SubsetDfa(a0, d, keyOf) && LabelsInAlphabet(a0) && q in keyOf
    ensures Deterministic(d)
    ensures Accepts(d, w, q) <==> NDelta(a0, Elems(keyOf[q]), w) * a0.finals != {}
    decreases |w|
  {
    SubsetIsDeterministic(a0, d, keyOf);
    if w != [] {
      var S := Elems(keyOf[q]);
      SubsetStep(a0, d, keyOf, q, w[0]);
      NDeltaStep(a0, S, w);
      var T := EClose(a0, Move(a0, S, w[0]));
      if T == {} {
        NDeltaEmpty(a0, w[1..]);
      } else {
        SubsetRun(a0, d, keyOf, GetTransition(d, q, Sym(w[0])).value.to, w[1..]);
      }
    }
  }

  /** The subset DFA accepts exactly the language of the NFA. */
  lemma SubsetLanguage(a0: Auto, d: Auto, keyOf: map<State, seq<State>>, w: string)
    requires SubsetDfa(a0, d, keyOf) && LabelsInAlphabet(a0)
    ensures Deterministic(d)
    ensures Accepts(d, w, d.start.value) <==> NAccepts(a0, w)
  {
    SubsetRun(a0, d, keyOf, d.start.value, w);
  }

  // ---------------------------------------------------------------------
  // The receiver during to_dfa

  /** The receiver after to_dfa's calls to its own new_state: the ids of I
      registered with empty rows. */
  function AddIsolated(a: Auto, I: set<State>): (r: Auto)
    ensures r.states == a.states + I && r.start == a.start && r.finals == a.finals
    ensures r.alphabet == a.alphabet
  {
    var none: Row := map[];
    a.(states := a.states + I, trans := a.trans + map q | q in I :: none)
  }

  lemma AddIsolatedNone(a: Auto)
    ensures AddIsolated(a, {}) == a
  {
    assert AddIsolated(a, {}).trans == a.trans;
  }

  /** One more new_state adds one more isolated state. */
  lemma AddIsolatedNew(a: Auto, I: set<State>, n: State)
    ensures NewState(AddIsolated(a, I), n) == AddIsolated(a, I + {n})
  {
    var L, R := NewState(AddIsolated(a, I), n).trans, AddIsolated(a, I + {n}).trans;
    assert L.Keys == R.Keys;
    forall q | q in L ensures L[q] == R[q] {
    }
  }

  /** Fresh isolated states change neither the graph nor the shape of the
      rows, so closures and moves of the receiver are those of the input. */
  lemma AddIsolatedGraph(a: Auto, I: set<State>)
    requires WellFormed(a) && I * a.states == {}
    ensures WellFormed(AddIsolated(a, I)) && SameGraph(AddIsolated(a, I), a)
    ensures NfaShaped(a) ==> NfaShaped(AddIsolated(a, I))
  {
    var b := AddIsolated(a, I);
    forall p, x ensures LabelTargets(b, p, x) == LabelTargets(a, p, x) {
      if p in I {
        assert p !in I * a.states;
      }
    }
    if NfaShaped(a) {
      forall q, x | q in b.trans && x in b.trans[q] ensures b.trans[q][x].Many? {
        assert q !in I;
      }
    }
  }

  // ---------------------------------------------------------------------
  // The worklist of to_dfa

  /** The hashes of to_dfa: `r` (processed flag) and `r2` (DFA state) have
      the keys listed in `order`, keyOf inverts r2, and every key is a
      non-empty duplicate-free list of states of a0. */
  ghost predicate Tables(a0: Auto, keyOf: map<State, seq<State>>, r: map<seq<State>, bool>,
                         r2: map<seq<State>, State>, order: seq<seq<State>>)
  {
    && r.Keys == Elems(order) && r2.Keys == r.Keys
    && (forall k :: k in r2 ==> r2[k] in keyOf && keyOf[r2[k]] == k)
    && (forall q :: q in keyOf ==> keyOf[q] in r2 && r2[keyOf[q]] == q)
    && (forall k :: k in r ==> k != [] && NoDup(k) && Elems(k) <= a0.states)
  }

  /** The fields of newdfa while its rows are being filled. */
  predicate Frame(d: Auto, keyOf: map<State, seq<State>>, s0: State) {
    && WellFormed(d) && d.states == keyOf.Keys && d.start == Some(s0)
    && d.finals == {} && d.alphabet == []
  }

  /** The letters the row of q is complete for: C for the key being
      processed, the whole alphabet for processed keys, none for the rest. */
  function Coverage(a0: Auto, keyOf: map<State, seq<State>>, r: map<seq<State>, bool>,
                    q: State, cur: Option<State>, C: set<char>): set<char>
    requires q in keyOf
  {
    if cur == Some(q) then C
    else if keyOf[q] in r && r[keyOf[q]] then Elems(a0.alphabet)
    else {}
  }

  ghost predicate Rows(a0: Auto, d: Auto, keyOf: map<State, seq<State>>, r: map<seq<State>, bool>,
                       cur: Option<State>, C: set<char>)
  {
    forall q :: q in keyOf ==> RowCovers(a0, d, keyOf, q, Coverage(a0, keyOf, r, q, cur, C))
  }

  /** The loop invariant of to_dfa: tables, newdfa's fields and rows, and
      the start state standing for the closure of a0's start. */
  ghost predicate Building(a0: Auto, d: Auto, keyOf: map<State, seq<State>>, r: map<seq<State>, bool>,
                           r2: map<seq<State>, State>, order: seq<seq<State>>, s0: State,
                           cur: Option<State>, C: set<char>)
  {
    && Tables(a0, keyOf, r, r2, order) && Frame(d, keyOf, s0) && Rows(a0, d, keyOf, r, cur, C)
    && a0.start.Some? && s0 in keyOf && Elems(keyOf[s0]) == EClose(a0, {a0.start.value})
    && (cur.Some? ==> cur.value in keyOf && keyOf[cur.value] in r && r[keyOf[cur.value]])
  }

  /** keyOf' agrees with keyOf on keyOf's states. */
  ghost predicate Extends(keyOf: map<State, seq<State>>, keyOf': map<State, seq<State>>) {
    forall t :: t in keyOf ==> t in keyOf' && keyOf'[t] == keyOf[t]
  }

  /** The closure of the move from q's key on c. */
  function Next(a0: Auto, keyOf: map<State, seq<State>>, q: State, c: char): set<State>
    requires q in keyOf
  {
    EClose(a0, Move(a0, Elems(keyOf[q]), c))
  }

  // Row maintenance

  lemma RowKeep(a0: Auto, d: Auto, d': Auto, keyOf: map<State, seq<State>>,
                keyOf': map<State, seq<State>>, q: State, C: set<char>)
    requires RowCovers(a0, d, keyOf, q, C) && Extends(keyOf, keyOf')
    requires q in d'.trans && d'.trans[q] == d.trans[q]
    ensures RowCovers(a0, d', keyOf', q, C)
  {
    forall c | c in C ensures StepOk(a0, d', keyOf', q, c) {
      assert StepOk(a0, d, keyOf, q, c);
    }
  }

  /** Writing the entry of letter c makes the row complete for c too. */
  lemma RowWrite(a0: Auto, d: Auto, d': Auto, keyOf: map<State, seq<State>>,
                 keyOf': map<State, seq<State>>, q: State, C: set<char>, c: char, t: State)
    requires RowCovers(a0, d, keyOf, q, C) && Extends(keyOf, keyOf')
    requires t in keyOf' && Elems(keyOf'[t]) == Next(a0, keyOf, q, c) != {}
    requires q in d'.trans && d'.trans[q] == d.trans[q][Sym(c) := One(t)]
    ensures RowCovers(a0, d', keyOf', q, C + {c})
  {
    forall e | e in C + {c} ensures StepOk(a0, d', keyOf', q, e) {
      if e != c {
        assert StepOk(a0, d, keyOf, q, e);
      }
    }
  }

  /** A letter whose closure is empty needs no entry. */
  lemma RowSkip(a0: Auto, d: Auto, keyOf: map<State, seq<State>>, q: State, C: set<char>, c: char)
    requires RowCovers(a0, d, keyOf, q, C) && Next(a0, keyOf, q, c) == {}
    ensures RowCovers(a0, d, keyOf, q, C + {c})
  {
    if c !in C {
      assert Sym(c) !in d.trans[q];
    }
  }

  // Steps of the worklist

  lemma BuildingInit(a0: Auto, e0: seq<State>, s0: State)
    requires a0.start.Some? && Elems(e0) == EClose(a0, {a0.start.value})
    requires e0 != [] && NoDup(e0) && Elems(e0) <= a0.states
    ensures Building(a0, SetStart(Empty, s0), map[s0 := e0], map[e0 := false], map[e0 := s0],
                     [e0], s0, None, {})
  {
    var d := SetStart(Empty, s0);
    assert d.trans == map[s0 := map[]];
    assert Elems([e0]) == {e0};
  }

  /** `r[key] = true`: the key becomes the one being processed, its row still empty. */
  lemma BuildingMark(a0: Auto, d: Auto, keyOf: map<State, seq<State>>, r: map<seq<State>, bool>,
                     r2: map<seq<State>, State>, order: seq<seq<State>>, s0: State, key: seq<State>)
    requires Building(a0, d, keyOf, r, r2, order, s0, None, {}) && key in r && !r[key]
    ensures key in r2 && r2[key] in keyOf && keyOf[r2[key]] == key
    ensures Building(a0, d, keyOf, r[key := true], r2, order, s0, Some(r2[key]), {})
    ensures Marked(r[key := true]) == Marked(r) + {key}
  {
    hide Rows, RowCovers;
    var q := r2[key];
    forall p | p in keyOf && p != q ensures keyOf[p] != key {
      assert r2[keyOf[p]] == p;
    }
    RowsMark(a0, d, keyOf, r, q, key);
  }

  lemma RowsMark(a0: Auto, d: Auto, keyOf: map<State, seq<State>>, r: map<seq<State>, bool>,
                 q: State, key: seq<State>)
    requires Rows(a0, d, keyOf, r, None, {}) && key in r && !r[key] && q in keyOf && keyOf[q] == key
    requires forall p :: p in keyOf && p != q ==> keyOf[p] != key
    ensures Rows(a0, d, keyOf, r[key := true], Some(q), {})
  {
    hide RowCovers;
    forall p | p in keyOf
      ensures RowCovers(a0, d, keyOf, p, Coverage(a0, keyOf, r[key := true], p, Some(q), {}))
    {
      assert RowCovers(a0, d, keyOf, p, Coverage(a0, keyOf, r, p, None, {}));
      assert Coverage(a0, keyOf, r[key := true], p, Some(q), {}) == Coverage(a0, keyOf, r, p, None, {});
    }
  }

  /** After the last letter the key counts as processed. */
  lemma BuildingFinish(a0: Auto, d: Auto, keyOf: map<State, seq<State>>, r: map<seq<State>, bool>,
                       r2: map<seq<State>, State>, order: seq<seq<State>>, s0: State, q: State)
    requires Building(a0, d, keyOf, r, r2, order, s0, Some(q), Elems(a0.alphabet))
    ensures Building(a0, d, keyOf, r, r2, order, s0, None, {})
  {
    hide RowCovers;
    forall p | p in keyOf
      ensures RowCovers(a0, d, keyOf, p, Coverage(a0, keyOf, r, p, None, {}))
    {
      assert RowCovers(a0, d, keyOf, p, Coverage(a0, keyOf, r, p, Some(q), Elems(a0.alphabet)));
      assert Coverage(a0, keyOf, r, p, None, {}) == Coverage(a0, keyOf, r, p, Some(q), Elems(a0.alphabet));
    }
  }

  /** A letter whose closure is empty: nothing is written. */
  lemma BuildingEmpty(a0: Auto, d: Auto, keyOf: map<State, seq<State>>, r: map<seq<State>, bool>,
                      r2: map<seq<State>, State>, order: seq<seq<State>>, s0: State,
                      q: State, C: set<char>, c: char)
    requires Building(a0, d, keyOf, r, r2, order, s0, Some(q), C) && Next(a0, keyOf, q, c) == {}
    ensures Building(a0, d, keyOf, r, r2, order, s0, Some(q), C + {c})
  {
    hide RowCovers;
    forall p | p in keyOf
      ensures RowCovers(a0, d, keyOf, p, Coverage(a0, keyOf, r, p, Some(q), C + {c}))
    {
      assert RowCovers(a0, d, keyOf, p, Coverage(a0, keyOf, r, p, Some(q), C));
      if p == q {
        RowSkip(a0, d, keyOf, q, C, c);
      }
    }
  }

  /** A closure already among the keys: the entry goes to its DFA state. */
  lemma BuildingOld(a0: Auto, d: Auto, keyOf: map<State, seq<State>>, r: map<seq<State>, bool>,
                    r2: map<seq<State>, State>, order: seq<seq<State>>, s0: State,
                    q: State, C: set<char>, c: char, k: seq<State>)
    requires Building(a0, d, keyOf, r, r2, order, s0, Some(q), C)
    requires k in r && Elems(k) == Next(a0, keyOf, q, c) && k != []
    ensures k in r2 && q in keyOf
    ensures Building(a0, AddTransitionDfa(d, q, r2[k], Sym(c)), keyOf, r, r2, order, s0, Some(q), C + {c})
  {
    hide Rows, RowCovers;
    assert k[0] in Elems(k);
    assert r2[k] in keyOf && keyOf.Keys + {r2[k]} == keyOf.Keys;
    RowsOld(a0, d, keyOf, r, q, C, c, r2[k]);
    FrameWrite(d, keyOf, keyOf, s0, q, r2[k], c);
  }

  lemma RowsOld(a0: Auto, d: Auto, keyOf: map<State, seq<State>>, r: map<seq<State>, bool>,
                q: State, C: set<char>, c: char, t: State)
    requires Rows(a0, d, keyOf, r, Some(q), C) && WellFormed(d) && d.states == keyOf.Keys && q in keyOf
    requires t in keyOf && Elems(keyOf[t]) == Next(a0, keyOf, q, c) != {}
    ensures Rows(a0, AddTransitionDfa(d, q, t, Sym(c)), keyOf, r, Some(q), C + {c})
  {
    hide RowCovers;
    var d' := AddTransitionDfa(d, q, t, Sym(c));
    forall p | p in keyOf
      ensures RowCovers(a0, d', keyOf, p, Coverage(a0, keyOf, r, p, Some(q), C + {c}))
    {
      assert RowCovers(a0, d, keyOf, p, Coverage(a0, keyOf, r, p, Some(q), C));
      if p == q {
        RowWrite(a0, d, d', keyOf, keyOf, q, C, c, t);
      } else {
        assert Coverage(a0, keyOf, r, p, Some(q), C + {c}) == Coverage(a0, keyOf, r, p, Some(q), C);
        RowKeep(a0, d, d', keyOf, keyOf, p, Coverage(a0, keyOf, r, p, Some(q), C));
      }
    }
  }

  /** A new closure: it becomes a key, unprocessed, with a fresh DFA state
      whose row is empty, and the entry goes there. */
  lemma BuildingNew(a0: Auto, d: Auto, keyOf: map<State, seq<State>>, r: map<seq<State>, bool>,
                    r2: map<seq<State>, State>, order: seq<seq<State>>, s0: State,
                    q: State, C: set<char>, c: char, k: seq<State>, id: State)
    requires Building(a0, d, keyOf, r, r2, order, s0, Some(q), C)
    requires k !in r && k != [] && NoDup(k) && Elems(k) <= a0.states
    requires Elems(k) == Next(a0, keyOf, q, c) && id !in keyOf
    ensures q in keyOf
    ensures Building(a0, AddTransitionDfa(d, q, id, Sym(c)), keyOf[id := k], r[k := false],
                     r2[k := id], order + [k], s0, Some(q), C + {c})
    ensures Marked(r[k := false]) == Marked(r)
  {
    hide Rows, RowCovers;
    TablesNew(a0, keyOf, r, r2, order, k, id);
    RowsNew(a0, d, keyOf, r, q, C, c, k, id);
    FrameWrite(d, keyOf, keyOf[id := k], s0, q, id, c);
    assert s0 != id && q != id && keyOf[q] != k;
  }

  /** An entry between DFA states keeps newdfa's fields. */
  lemma FrameWrite(d: Auto, keyOf: map<State, seq<State>>, keyOf': map<State, seq<State>>,
                   s0: State, q: State, t: State, c: char)
    requires Frame(d, keyOf, s0) && q in keyOf && keyOf'.Keys == keyOf.Keys + {t}
    ensures Frame(AddTransitionDfa(d, q, t, Sym(c)), keyOf', s0)
  {
  }

  lemma TablesNew(a0: Auto, keyOf: map<State, seq<State>>, r: map<seq<State>, bool>,
                  r2: map<seq<State>, State>, order: seq<seq<State>>, k: seq<State>, id: State)
    requires Tables(a0, keyOf, r, r2, order)
    requires k !in r && k != [] && NoDup(k) && Elems(k) <= a0.states && id !in keyOf
    ensures Tables(a0, keyOf[id := k], r[k := false], r2[k := id], order + [k])
    ensures Marked(r[k := false]) == Marked(r)
  {
    assert Elems(order + [k]) == Elems(order) + {k};
  }

  lemma RowsNew(a0: Auto, d: Auto, keyOf: map<State, seq<State>>, r: map<seq<State>, bool>,
                q: State, C: set<char>, c: char, k: seq<State>, id: State)
    requires Rows(a0, d, keyOf, r, Some(q), C) && WellFormed(d) && d.states == keyOf.Keys
    requires q in keyOf && keyOf[q] in r && k !in r && k != []
    requires Elems(k) == Next(a0, keyOf, q, c) && id !in keyOf
    ensures Rows(a0, AddTransitionDfa(d, q, id, Sym(c)), keyOf[id := k], r[k := false], Some(q), C + {c})
  {
    var d', keyOf', r' := AddTransitionDfa(d, q, id, Sym(c)), keyOf[id := k], r[k := false];
    assert k[0] in Elems(k);
    assert Extends(keyOf, keyOf');
    forall p | p in keyOf'
      ensures RowCovers(a0, d', keyOf', p, Coverage(a0, keyOf', r', p, Some(q), C + {c}))
    {
      if p == id {
        assert d'.trans[id] == map[];
      } else {
        assert RowCovers(a0, d, keyOf, p, Coverage(a0, keyOf, r, p, Some(q), C));
        assert Coverage(a0, keyOf', r', p, Some(q), C) == Coverage(a0, keyOf, r, p, Some(q), C);
        if p == q {
          RowWrite(a0, d, d', keyOf, keyOf', q, C, c, id);
        } else {
          RowKeep(a0, d, d', keyOf, keyOf', p, Coverage(a0, keyOf, r, p, Some(q), C));
        }
      }
    }
  }

  /** The processed keys are among the finitely many candidate keys. */
  lemma MarkedBound(a0: Auto, keyOf: map<State, seq<State>>, r: map<seq<State>, bool>,
                    r2: map<seq<State>, State>, order: seq<seq<State>>)
    requires Tables(a0, keyOf, r, r2, order)
    ensures Marked(r) <= SeqsUpTo(a0.states, |a0.states|)
  {
    forall k | k in Marked(r) ensures k in SeqsUpTo(a0.states, |a0.states|) {
      KeyBound(a0.states, k);
    }
  }

  /** The DFA states whose key holds a final state of a0, among the keys of ks. */
  function FinalsOver(F: set<State>, keyOf: map<State, seq<State>>, ks: set<seq<State>>): set<State> {
    set q | q in keyOf && keyOf[q] in ks && Elems(keyOf[q]) * F != {}
  }

  /** One more key for the finals loop. */
  lemma FinalsOverAdd(F: set<State>, keyOf: map<State, seq<State>>, r2: map<seq<State>, State>,
                      ks: set<seq<State>>, key: seq<State>)
    requires key in r2 && r2[key] in keyOf && keyOf[r2[key]] == key
    requires forall q :: q in keyOf ==> keyOf[q] in r2 && r2[keyOf[q]] == q
    ensures FinalsOver(F, keyOf, ks + {key})
            == FinalsOver(F, keyOf, ks) + (if Elems(key) * F != {} then {r2[key]} else {})
  {
  }

  /** When every key is processed, newdfa with its finals and alphabet set
      is the subset-construction DFA. */
  lemma BuildingDone(a0: Auto, d: Auto, keyOf: map<State, seq<State>>, r: map<seq<State>, bool>,
                     r2: map<seq<State>, State>, order: seq<seq<State>>, s0: State)
    requires Building(a0, d, keyOf, r, r2, order, s0, None, {}) && false !in r.Values
    ensures SubsetDfa(a0, d.(finals := FinalsOver(a0.finals, keyOf, Elems(order)), alphabet := a0.alphabet), keyOf)
  {
    hide Rows, RowCovers;
    var d' := d.(finals := FinalsOver(a0.finals, keyOf, Elems(order)), alphabet := a0.alphabet);
    RowsDone(a0, d, d', keyOf, r);
    forall q1, q2 | q1 in keyOf && q2 in keyOf && keyOf[q1] == keyOf[q2] ensures q1 == q2 {
      assert r2[keyOf[q1]] == q1;
    }
  }

  /** With every key processed, each row is complete for the alphabet. */
  lemma RowsDone(a0: Auto, d: Auto, d': Auto, keyOf: map<State, seq<State>>, r: map<seq<State>, bool>)
    requires Rows(a0, d, keyOf, r, None, {}) && false !in r.Values && d'.trans == d.trans
    requires keyOf.Keys <= d.trans.Keys && forall q :: q in keyOf ==> keyOf[q] in r
    ensures forall q :: q in keyOf ==> RowCovers(a0, d', keyOf, q, Elems(a0.alphabet))
  {
    hide RowCovers;
    forall q | q in keyOf ensures RowCovers(a0, d', keyOf, q, Elems(a0.alphabet)) {
      assert RowCovers(a0, d, keyOf, q, Coverage(a0, keyOf, r, q, None, {}));
      assert r[keyOf[q]] in r.Values;
      assert Coverage(a0, keyOf, r, q, None, {}) == Elems(a0.alphabet);
      RowKeep(a0, d, d', keyOf, keyOf, q, Elems(a0.alphabet));
    }
  }
}

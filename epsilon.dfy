/** The meaning of an NFA with "" transitions: epsilon-closure (what
    `get_epsilon` computes), `move`, and the language, as the textbook
    extended transition function over sets of states. */
module EpsilonClosure {
  import opened Automata

  /** The destinations of (p, x), empty when there is no entry. */
  function LabelTargets(a: Auto, p: State, x: Label): set<State> {
    if p in a.trans && x in a.trans[p] then Targets(a.trans[p][x]) else {}
  }

  /** Two stores with the same transition graph (they may differ in
      isolated states, finals, start or alphabet). */
  ghost predicate SameGraph(a: Auto, b: Auto) {
    forall p, x :: LabelTargets(a, p, x) == LabelTargets(b, p, x)
  }

  /** Every state some "" transition leads to. */
  function EpsTargetSet(a: Auto): set<State> {
    set p, q | p in a.trans && q in LabelTargets(a, p, Eps) :: q
  }

  /** One round of "" transitions out of S. */
  function EpsStep(a: Auto, S: set<State>): set<State> {
    set p, q | p in S && q in LabelTargets(a, p, Eps) :: q
  }

  /** k rounds of adding what "" transitions lead to. */
  function CloseIter(a: Auto, S: set<State>, k: nat): set<State>
    decreases k
  {
    if k == 0 then S else CloseIter(a, S + EpsStep(a, S), k - 1)
  }

  /** The epsilon-closure of S. Every round before the fixpoint adds a
      state of EpsTargetSet(a), so that many rounds reach it; the lemmas
      below show it is the least superset of S that no "" transition
      leaves. */
  function EClose(a: Auto, S: set<State>): set<State> {
    CloseIter(a, S, |EpsTargetSet(a)|)
  }

  /** A set no "" transition leaves. */
  ghost predicate EpsClosedSet(a: Auto, C: set<State>) {
    forall q, t :: q in C && t in LabelTargets(a, q, Eps) ==> t in C
  }

  /** `move`: every destination on letter c from a state of S. */
  function Move(a: Auto, S: set<State>, c: char): set<State> {
    set p, q | p in S && q in LabelTargets(a, p, Sym(c)) :: q
  }

  /** The set of states the NFA can be in after reading w from the closed set S. */
  ghost function NDelta(a: Auto, S: set<State>, w: string): set<State>
    decreases |w|
  {
    if w == [] then S else NDelta(a, EClose(a, Move(a, S, w[0])), w[1..])
  }

  /** The language of an NFA: some run over w ends in a final state. */
  ghost predicate NAccepts(a: Auto, w: string) {
    a.start.Some? && NDelta(a, EClose(a, {a.start.value}), w) * a.finals != {}
  }

  // ---------------------------------------------------------------------
  // Closure lemmas

  lemma EpsStepInTargets(a: Auto, S: set<State>)
    ensures EpsStep(a, S) <= EpsTargetSet(a)
  {
    forall q | q in EpsStep(a, S) ensures q in EpsTargetSet(a) {
      var p :| p in S && q in LabelTargets(a, p, Eps);
      assert p in a.trans;
    }
  }

  /** A set is closed exactly when one round adds nothing. */
  lemma ClosedIffStepInside(a: Auto, C: set<State>)
    ensures EpsClosedSet(a, C) <==> EpsStep(a, C) <= C
  {
    if EpsStep(a, C) <= C {
      forall q, t | q in C && t in LabelTargets(a, q, Eps) ensures t in C {
        assert t in EpsStep(a, C);
      }
    }
  }

  lemma {:induction false} IterContains(a: Auto, S: set<State>, k: nat)
    ensures S <= CloseIter(a, S, k)
    decreases k
  {
    if k > 0 {
      IterContains(a, S + EpsStep(a, S), k - 1);
    }
  }

  lemma {:induction false} IterLeast(a: Auto, S: set<State>, C: set<State>, k: nat)
    requires S <= C && EpsClosedSet(a, C)
    ensures CloseIter(a, S, k) <= C
    decreases k
  {
    if k > 0 {
      assert EpsStep(a, S) <= C;
      IterLeast(a, S + EpsStep(a, S), C, k - 1);
    }
  }

  /** Iterating on a closed set changes nothing. */
  lemma {:induction false} IterFixed(a: Auto, S: set<State>, k: nat)
    requires EpsClosedSet(a, S)
    ensures CloseIter(a, S, k) == S
    decreases k
  {
    if k > 0 {
      ClosedIffStepInside(a, S);
      assert S + EpsStep(a, S) == S;
      IterFixed(a, S, k - 1);
    }
  }

  /** Adding a new element of U leaves fewer elements of U outside. */
  lemma FewerOutside<T>(U: set<T>, S: set<T>, S': set<T>, t: T)
    requires S <= S' && t in U && t in S' && t !in S
    ensures |U - S'| < |U - S|
  {
    var A, B := U - S', U - S;
    assert B == A + (B - A);
    assert t in B - A;
    assert |B - A| > 0;
  }

  /** A strictly larger subset of U leaves fewer elements of U outside. */
  lemma StrictFewer<T>(U: set<T>, S: set<T>, S': set<T>)
    requires S < S' <= U
    ensures |U - S'| < |U - S|
  {
    assert S' - S != {} by {
      assert S' == S + (S' - S);
    }
    var t :| t in S' - S;
    FewerOutside(U, S, S', t);
  }

  /** Enough rounds reach the fixpoint: each round that is not one adds a
      new state of EpsTargetSet(a). */
  lemma {:induction false} IterClosed(a: Auto, S: set<State>, k: nat)
    requires |EpsTargetSet(a) - S| <= k
    ensures EpsClosedSet(a, CloseIter(a, S, k))
    decreases k, 1
  {
    if EpsStep(a, S) <= S {
      ClosedIffStepInside(a, S);
      IterFixed(a, S, k);
    } else {
      var t :| t in EpsStep(a, S) && t !in S;
      IterGrows(a, S, k, t);
    }
  }

  /** The round out of a set that is not closed: it adds a new state, so one
      round fewer suffices from there. */
  lemma {:induction false} IterGrows(a: Auto, S: set<State>, k: nat, t: State)
    requires |EpsTargetSet(a) - S| <= k && t in EpsStep(a, S) && t !in S
    ensures EpsClosedSet(a, CloseIter(a, S, k))
    decreases k, 0
  {
    RoundShrinks(a, S, k, t);
    IterUnfold(a, S, k);
    IterClosed(a, S + EpsStep(a, S), k - 1);
  }

  lemma RoundShrinks(a: Auto, S: set<State>, k: nat, t: State)
    requires |EpsTargetSet(a) - S| <= k && t in EpsStep(a, S) && t !in S
    ensures k > 0 && |EpsTargetSet(a) - (S + EpsStep(a, S))| <= k - 1
  {
    EpsStepInTargets(a, S);
    FewerOutside(EpsTargetSet(a), S, S + EpsStep(a, S), t);
  }

  lemma IterUnfold(a: Auto, S: set<State>, k: nat)
    requires k > 0
    ensures CloseIter(a, S, k) == CloseIter(a, S + EpsStep(a, S), k - 1)
  {
  }

  lemma ECloseContains(a: Auto, S: set<State>)
    ensures S <= EClose(a, S)
  {
    IterContains(a, S, |EpsTargetSet(a)|);
  }

  /** The closure is closed under "" transitions. */
  lemma ECloseIsClosed(a: Auto, S: set<State>)
    ensures EpsClosedSet(a, EClose(a, S))
  {
    assert |EpsTargetSet(a) - S| <= |EpsTargetSet(a)| by {
      assert EpsTargetSet(a) - S <= EpsTargetSet(a);
    }
    IterClosed(a, S, |EpsTargetSet(a)|);
  }

  /** The closure is the least closed set containing S. */
  lemma ECloseLeast(a: Auto, S: set<State>, C: set<State>)
    requires S <= C && EpsClosedSet(a, C)
    ensures EClose(a, S) <= C
  {
    IterLeast(a, S, C, |EpsTargetSet(a)|);
  }

  /** Epsilon-closure is idempotent. */
  lemma ECloseIdempotent(a: Auto, S: set<State>)
    ensures EClose(a, EClose(a, S)) == EClose(a, S)
  {
    ECloseContains(a, EClose(a, S));
    ECloseIsClosed(a, S);
    ECloseLeast(a, EClose(a, S), EClose(a, S));
  }

  /** A closed set between S and the closure of S is the closure of S. */
  lemma ECloseCharacterized(a: Auto, S: set<State>, C: set<State>)
    requires S <= C && EpsClosedSet(a, C) && C <= EClose(a, S)
    ensures C == EClose(a, S)
  {
    ECloseLeast(a, S, C);
  }

  /** The closure of a union is the union of the closures. */
  lemma ECloseUnion(a: Auto, S: set<State>, T: set<State>)
    ensures EClose(a, S + T) == EClose(a, S) + EClose(a, T)
  {
    var U := EClose(a, S + T);
    ECloseContains(a, S + T);
    ECloseIsClosed(a, S + T);
    ECloseLeast(a, S, U);
    ECloseLeast(a, T, U);
    ECloseContains(a, S);
    ECloseContains(a, T);
    ECloseIsClosed(a, S);
    ECloseIsClosed(a, T);
    ECloseLeast(a, S + T, EClose(a, S) + EClose(a, T));
  }

  lemma ECloseEmpty(a: Auto)
    ensures EClose(a, {}) == {}
  {
    ECloseLeast(a, {}, {});
  }

  /** One step of the extended transition function. */
  lemma NDeltaStep(a: Auto, S: set<State>, w: string)
    requires w != []
    ensures NDelta(a, S, w) == NDelta(a, EClose(a, Move(a, S, w[0])), w[1..])
  {
  }

  /** From the empty set nothing is ever reached. */
  lemma {:induction false} NDeltaEmpty(a: Auto, w: string)
    ensures NDelta(a, {}, w) == {}
    decreases |w|
  {
    if w != [] {
      assert Move(a, {}, w[0]) == {};
      ECloseEmpty(a);
      NDeltaEmpty(a, w[1..]);
    }
  }

  lemma {:induction false} SameGraphIter(a: Auto, b: Auto, S: set<State>, k: nat)
    requires SameGraph(a, b)
    ensures CloseIter(a, S, k) == CloseIter(b, S, k)
    decreases k
  {
    if k > 0 {
      assert EpsStep(a, S) == EpsStep(b, S);
      SameGraphIter(a, b, S + EpsStep(a, S), k - 1);
    }
  }

  /** Stores with the same graph have the same closures and moves. */
  lemma SameGraphClosures(a: Auto, b: Auto, S: set<State>, c: char)
    requires SameGraph(a, b)
    ensures EClose(a, S) == EClose(b, S) && Move(a, S, c) == Move(b, S, c)
  {
    forall q | q in EpsTargetSet(a) ensures q in EpsTargetSet(b) {
      var p :| p in a.trans && q in LabelTargets(a, p, Eps);
      assert q in LabelTargets(b, p, Eps);
      assert p in b.trans;
    }
    forall q | q in EpsTargetSet(b) ensures q in EpsTargetSet(a) {
      var p :| p in b.trans && q in LabelTargets(b, p, Eps);
      assert q in LabelTargets(a, p, Eps);
      assert p in a.trans;
    }
    assert EpsTargetSet(a) == EpsTargetSet(b);
    SameGraphIter(a, b, S, |EpsTargetSet(a)|);
  }

  /** Moving from one more state adds that state's destinations. */
  lemma MoveAddOne(a: Auto, S: set<State>, p: State, c: char)
    ensures Move(a, S + {p}, c) == Move(a, S, c) + LabelTargets(a, p, Sym(c))
  {
  }

  /** In a closed store a move stays among the states. */
  lemma MoveInStates(a: Auto, S: set<State>, c: char)
    requires Closed(a)
    ensures Move(a, S, c) <= a.states
  {
    forall q | q in Move(a, S, c) ensures q in a.states {
      var p :| p in S && q in LabelTargets(a, p, Sym(c));
      assert p in a.trans && Sym(c) in a.trans[p];
    }
  }

  /** In a closed store the closure of a set of states stays among the states. */
  lemma ECloseInStates(a: Auto, S: set<State>)
    requires Closed(a) && S <= a.states
    ensures EClose(a, S) <= a.states
  {
    forall q, t | q in a.states && t in LabelTargets(a, q, Eps) ensures t in a.states {
    }
    ECloseLeast(a, S, a.states);
  }
}

/** The class FiniteAutomaton of fa.rb. Its five fields are updated in
    place exactly as the functions of the value modules say: every mutator
    ensures that the new `Value()` is the corresponding function of the old
    one, and the algorithms (`get_epsilon`, `move`, `to_dfa`,
    `complement!`) are loops proved against the closure, move, subset
    construction and completion defined there. */
module FiniteAutomata {
  import opened Automata
  import opened EpsilonClosure
  import opened Thompson
  import opened SubsetConstruction
  import opened Complementation

  /** The class variable @@nextID, shared by every automaton. */
  class Allocator {
    var next: nat

    constructor ()
      ensures next == 0
    {
      next := 0;
    }
  }

  /** Pushes each element of lst onto result unless result already holds it. */
  method PushNew(result: seq<State>, lst: seq<State>) returns (r: seq<State>)
    ensures r == AppendNew(result, lst)
  {
    r := result;
    for j := 0 to |lst|
      invariant r == AppendNew(result, lst[..j])
    {
      assert lst[..j + 1][..j] == lst[..j];
      if lst[j] !in r {
        r := r + [lst[j]];
      }
    }
    assert lst[..|lst|] == lst;
  }

  /** Enters each element of lst not yet a key of the hash as unvisited;
      the hash's keys, in insertion order, are `order`. */
  method AddUnseen(flag: map<State, bool>, order: seq<State>, lst: seq<State>)
    returns (flag': map<State, bool>, order': seq<State>)
    requires flag.Keys == Elems(order)
    ensures order' == AppendNew(order, lst) && flag'.Keys == Elems(order')
    ensures forall k :: k in flag ==> flag'[k] == flag[k]
    ensures forall k :: k in flag' && k !in flag ==> !flag'[k]
    ensures Marked(flag') == Marked(flag)
  {
    hide Marked, AppendNew;
    flag', order' := flag, order;
    AppendNewNone(order, lst);
    for j := 0 to |lst|
      invariant order' == AppendNew(order, lst[..j]) && flag'.Keys == Elems(order')
      invariant forall k :: k in flag ==> k in flag' && flag'[k] == flag[k]
      invariant forall k :: k in flag' && k !in flag ==> !flag'[k]
    {
      AppendNewStep(order, lst, j);
      if lst[j] !in flag' {
        flag' := flag'[lst[j] := false];
        order' := order' + [lst[j]];
      }
    }
    assert lst[..|lst|] == lst;
    MarkedUnchanged(flag, flag');
  }

  /** New keys added as false mark nothing. */
  lemma MarkedUnchanged<K>(m: map<K, bool>, m': map<K, bool>)
    requires forall k :: k in m ==> k in m' && m'[k] == m[k]
    requires forall k :: k in m' && k !in m ==> !m'[k]
    ensures Marked(m') == Marked(m)
  {
  }

  lemma ConcatEmpty<T>(x: seq<T>, y: seq<T>)
    requires x == []
    ensures x + y == y
  {
  }

  /** An empty eclose stands for an empty closure. */
  lemma EmptyClosure(a0: Auto, keyOf: map<State, seq<State>>, q: State, c: char, eclose: seq<State>)
    requires q in keyOf && Elems(eclose) == Next(a0, keyOf, q, c)
    ensures eclose == [] ==> Next(a0, keyOf, q, c) == {}
  {
  }

  /** A pass that has marked every key it started from has marked at least
      one more key when some key was unmarked before. */
  lemma PassMarksAll<K>(m: map<K, bool>, m': map<K, bool>)
    requires m.Keys <= Marked(m') && Marked(m) <= Marked(m')
    ensures false in m.Values ==> Marked(m) < Marked(m')
  {
    if false in m.Values {
      var k :| k in m && !m[k];
      assert k in Marked(m') - Marked(m);
    }
  }

  /** The loop invariant of get_epsilon: the hash's keys are `order`, all
      inside the closure E, and every key already marked true has had its
      "" destinations added. */
  ghost predicate EpsWork(a: Auto, E: set<State>, flag: map<State, bool>, order: seq<State>) {
    && flag.Keys == Elems(order) && NoDup(order) && Elems(order) <= E
    && forall k :: k in flag && flag[k] ==> LabelTargets(a, k, Eps) <= flag.Keys
  }

  /** newdfa as merge! leaves it: set_start(@start) on an empty store,
      then the receiver's states and rows merged in. */
  lemma MergedCopy(a: Auto)
    requires WellFormed(a) && a.start.Some?
    ensures Merge(SetStart(Empty, a.start.value), a) == Auto(a.start, a.states, {}, a.trans, [])
  {
    var m := Merge(SetStart(Empty, a.start.value), a);
    assert m.trans == a.trans;
  }

  class FiniteAutomaton {
    /** The counter this automaton draws new states from. */
    const alloc: Allocator
    var start: Option<State>
    var states: set<State>
    var finals: set<State>
    var trans: map<State, Row>
    var alphabet: seq<char>

    /** The fields as a value. */
    function Value(): Auto
      reads this
    {
      Auto(start, states, finals, trans, alphabet)
    }

    /** Every state has a row; finals and start are states. */
    predicate Valid()
      reads this
    {
      WellFormed(Value())
    }

    /** `initialize`: no start, no states, no rows, empty alphabet. */
    constructor (alloc: Allocator)
      ensures this.alloc == alloc && Value() == Empty
    {
      this.alloc := alloc;
      start := None;
      states := {};
      finals := {};
      trans := map[];
      alphabet := [];
    }

    // -------------------------------------------------------------------
    // The store

    /** `new_state`: takes the next id from the counter and registers it
        with an empty row. */
    method NewState() returns (id: State)
      modifies this, alloc
      ensures id == old(alloc.next) && alloc.next == id + 1
      ensures Value() == Automata.NewState(old(Value()), id)
    {
      id := alloc.next;
      alloc.next := alloc.next + 1;
      states := states + {id};
      trans := trans[id := map[]];
    }

    /** `add_state`: registers v with an empty row unless it is a state. */
    method AddState(v: State)
      modifies this
      ensures Value() == Automata.AddState(old(Value()), v)
    {
      if v !in states {
        states := states + {v};
        trans := trans[v := map[]];
      }
    }

    /** `set_start` */
    method SetStart(v: State)
      modifies this
      ensures Value() == Automata.SetStart(old(Value()), v)
    {
      AddState(v);
      start := Some(v);
    }

    /** `set_final` */
    method SetFinal(v: State, final: bool)
      modifies this
      ensures Value() == Automata.SetFinal(old(Value()), v, final)
    {
      AddState(v);
      if final {
        finals := finals + {v};
      } else {
        finals := finals - {v};
      }
    }

    /** `add_transition`: appends v2 to the destinations of (v1, x). */
    method AddTransition(v1: State, v2: State, x: Label)
      requires Valid() && Appendable(Value(), v1, x)
      modifies this
      ensures Value() == Automata.AddTransition(old(Value()), v1, v2, x)
    {
      AddState(v1);
      AddState(v2);
      if GetTransition(Value(), v1, x).Some? {
        var row := trans[v1];
        trans := trans[v1 := row[x := Many(row[x].list + [v2])]];
      } else {
        trans := trans[v1 := trans[v1][x := Many([v2])]];
      }
    }

    /** `add_transitiondfa`: the entry of (v1, x) becomes the single state v2. */
    method AddTransitionDfa(v1: State, v2: State, x: Label)
      requires Valid()
      modifies this
      ensures Value() == Automata.AddTransitionDfa(old(Value()), v1, v2, x)
    {
      AddState(v1);
      AddState(v2);
      trans := trans[v1 := trans[v1][x := One(v2)]];
    }

    // -------------------------------------------------------------------
    // The loops the operators share

    /** A "" transition from every state of F to v. */
    method AddEpsFrom(F: set<State>, v: State)
      requires Valid() && EpsAppendable(Value(), F)
      modifies this
      ensures Value() == Thompson.AddEpsFrom(old(Value()), F, v)
    {
      ghost var a := Value();
      var todo := F;
      while todo != {}
        invariant todo <= F
        invariant Value() == Thompson.AddEpsFrom(a, F - todo, v)
        decreases todo
      {
        var k :| k in todo;
        assert (F - todo) + {k} == F - (todo - {k});
        AddEpsFromStep(a, F - todo, v, k);
        AddTransition(k, v, Eps);
        todo := todo - {k};
      }
      assert F - todo == F;
    }

    /** set_final(key, final) for every key of F. */
    method SetFinalEach(F: set<State>, final: bool)
      requires Valid()
      modifies this
      ensures Value() == Thompson.SetFinalEach(old(Value()), F, final)
    {
      ghost var a := Value();
      SetFinalEachInside(a, {}, final);
      var todo := F;
      while todo != {}
        invariant todo <= F
        invariant Value() == Thompson.SetFinalEach(a, F - todo, final)
        decreases todo
      {
        var k :| k in todo;
        assert (F - todo) + {k} == F - (todo - {k});
        SetFinalEachStep(a, F - todo, k, final);
        SetFinal(k, final);
        todo := todo - {k};
      }
      assert F - todo == F;
    }

    /** Pushes each letter onto the alphabet unless it is already there. */
    method MergeAlphabet(letters: seq<char>)
      modifies this
      ensures Value() == old(Value()).(alphabet := AppendNew(old(alphabet), letters))
    {
      ghost var x := alphabet;
      for i := 0 to |letters|
        invariant Value() == old(Value()).(alphabet := AppendNew(x, letters[..i]))
      {
        assert letters[..i + 1][..i] == letters[..i];
        if letters[i] !in alphabet {
          alphabet := alphabet + [letters[i]];
        }
      }
      assert letters[..|letters|] == letters;
    }

    /** The letters are appended to the alphabet as given, repetitions kept. */
    method ConcatAlphabet(letters: seq<char>)
      modifies this
      ensures Value() == old(Value()).(alphabet := old(alphabet) + letters)
    {
      alphabet := alphabet + letters;
    }

    /** The merge of b's rows and states into the receiver's; b's win. */
    method MergeFrom(b: FiniteAutomaton)
      requires b != this && Valid() && b.Valid()
      modifies this
      ensures Value() == Merge(old(Value()), b.Value())
    {
      trans := trans + b.trans;
      states := states + b.states;
    }

    // -------------------------------------------------------------------
    // The construction operators

    /** `symbol!(sym)`: the receiver is reset to a fresh automaton for sym. */
    method Symbol(sym: Label)
      modifies this, alloc
      ensures alloc.next == old(alloc.next) + 2
      ensures Value() == Thompson.Symbol(sym, old(alloc.next))
    {
      hide Automata.NewState, Automata.AddState, Automata.SetStart, Automata.SetFinal, Automata.AddTransition,
        Thompson.Symbol;
      start, states, finals, trans, alphabet := None, {}, {}, map[], [];
      assert Value() == Empty;
      var s0 := NewState();
      var s1 := NewState();
      ghost var a1 := Value();
      assert s1 == s0 + 1 && a1 == Automata.NewState(Automata.NewState(Empty, s0), s0 + 1);
      SetStart(s0);
      SetFinal(s1, true);
      ghost var a2 := Value();
      assert a2 == Automata.SetFinal(Automata.SetStart(a1, s0), s0 + 1, true);
      SymbolPrefix(sym, s0);
      AddTransition(s0, s1, sym);
      SymbolSteps(sym, s0, a1, a2, Value());
      if sym.Sym? && sym.c !in alphabet {
        alphabet := alphabet + [sym.c];
      }
    }

    /** `concat!(b)`: b's rows, states and finals are merged into the receiver. */
    method Concat(b: FiniteAutomaton)
      requires b != this && Valid() && b.Valid() && EpsLists(Value()) && b.start.Some?
      modifies this
      ensures Value() == Thompson.Concat(old(Value()), old(b.Value()))
    {
      EpsListsAppendable(Value(), finals);
      var F := finals;
      AddEpsFrom(F, b.start.value);
      SetFinalEach(F, false);
      MergeFrom(b);
      SetFinalEach(b.finals, true);
      MergeAlphabet(b.alphabet);
    }

    /** The first half of `union!`: the two fresh states, "" from the first
        to the start and to sb, the first made the start. */
    method UnionHead(sb: State) returns (us: State)
      requires Valid() && EpsLists(Value()) && start.Some?
      modifies this, alloc
      ensures us == old(alloc.next) && alloc.next == us + 2
      ensures Value() == Automata.SetStart(Thompson.UnionLinks(old(Value()), us, old(start.value), sb), us)
      ensures EpsLists(Value())
    {
      hide Automata.NewState, Automata.AddState, Automata.SetStart, Automata.SetFinal, Automata.AddTransition,
        Thompson.UnionLinks;
      ghost var a := Value();
      us := NewState();
      var ue := NewState();
      NewStateEps(a, us);
      NewStateEps(Automata.NewState(a, us), ue);
      LinkEps(us, start.value, sb);
      SetStartEps(Value(), us);
      SetStart(us);
      UnionLinksIs(a, us, a.start.value, sb);
    }

    /** Two `add_transition(v, _, "")` calls from v: to s1, then to s2. */
    method LinkEps(v: State, s1: State, s2: State)
      requires Valid() && EpsLists(Value())
      modifies this
      ensures Appendable(old(Value()), v, Eps)
      ensures Appendable(Automata.AddTransition(old(Value()), v, s1, Eps), v, Eps)
      ensures Value() == Automata.AddTransition(Automata.AddTransition(old(Value()), v, s1, Eps), v, s2, Eps)
      ensures EpsLists(Value())
    {
      AddEpsTransitionEps(Value(), v, s1);
      AddTransition(v, s1, Eps);
      AddEpsTransitionEps(Value(), v, s2);
      AddTransition(v, s2, Eps);
    }

    /** The second half of `union!`: "" from the finals Fa and Fb to ue,
        Fa made non-final, ue made final. */
    method UnionTail(Fa: set<State>, Fb: set<State>, ue: State)
      requires Valid() && EpsLists(Value())
      modifies this
      ensures Value() == Thompson.UnionTail(old(Value()), Fa, Fb, ue)
    {
      ghost var h := Value();
      EpsListsAppendable(h, Fa);
      AddEpsFromEps(h, Fa, ue);
      AddEpsFrom(Fa, ue);
      EpsListsAppendable(Value(), Fb);
      AddEpsFrom(Fb, ue);
      SetFinalEach(Fa, false);
      SetFinal(ue, true);
    }

    /** `union!(b)`: a fresh start with "" to both starts, a fresh final
        reached by "" from the finals of both. */
    method Union(b: FiniteAutomaton)
      requires b != this && Valid() && b.Valid() && EpsLists(Value()) && EpsLists(b.Value())
      requires start.Some? && b.start.Some?
      modifies this, alloc
      ensures alloc.next == old(alloc.next) + 2
      ensures Value() == Thompson.Union(old(Value()), old(b.Value()), old(alloc.next))
    {
      hide Automata.NewState, Automata.AddState, Automata.SetStart, Automata.SetFinal, Automata.AddTransition,
        Thompson.AddEpsFrom, Thompson.SetFinalEach, Thompson.Merge, Thompson.UnionLinks, Thompson.UnionTail,
        Thompson.Union, Thompson.ClosureHead, Thompson.Closure;
      ghost var a, bv := Value(), b.Value();
      var us := UnionHead(b.start.value);
      MergeEps(Value(), b.Value());
      MergeFrom(b);
      ghost var h := Value();
      assert h == Thompson.UnionHead(a, bv, us);
      UnionTail(finals, b.finals, us + 1);
      UnionSteps(a, bv, us, h, Value());
      MergeAlphabet(b.alphabet);
    }

    /** The first half of `closure!`: fresh cs and ce joined by "" both
        ways, and "" from cs to the old start. */
    method ClosureHead() returns (cs: State)
      requires Valid() && EpsLists(Value()) && start.Some?
      modifies this, alloc
      ensures cs == old(alloc.next) && alloc.next == cs + 2
      ensures Value() == Thompson.ClosureHead(old(Value()), cs)
    {
      hide Automata.NewState, Automata.AddState, Automata.SetStart, Automata.SetFinal, Automata.AddTransition,
        Thompson.Merge, Thompson.UnionHead, Thompson.ClosureHead;
      ghost var a := Value();
      cs := NewState();
      var ce := NewState();
      ghost var a1 := Value();
      NewStateEps(a, cs);
      NewStateEps(Automata.NewState(a, cs), ce);
      AddEpsTransitionEps(a1, cs, ce);
      AddTransition(cs, ce, Eps);
      ghost var a2 := Value();
      AddEpsTransitionEps(a2, ce, cs);
      AddTransition(ce, cs, Eps);
      ghost var a3 := Value();
      AddEpsTransitionEps(a3, cs, a.start.value);
      AddTransition(cs, start.value, Eps);
      ClosureHeadSteps(a, cs, a1, a2, a3, Value());
    }

    /** The second half of `closure!`: "" from the finals F to cs + 1,
        cs made the start, F made non-final, cs + 1 made final. */
    method ClosureTail(F: set<State>, cs: State)
      requires Valid() && EpsLists(Value())
      modifies this
      ensures Value() == Automata.SetFinal(Thompson.SetFinalEach(Automata.SetStart(
                Thompson.AddEpsFrom(old(Value()), F, cs + 1), cs), F, false), cs + 1, true)
    {
      EpsListsAppendable(Value(), F);
      AddEpsFrom(F, cs + 1);
      SetStart(cs);
      SetFinalEach(F, false);
      SetFinal(cs + 1, true);
    }

    /** `closure!`: fresh start and final joined by "" both ways, "" from
        the start to the old start and from the old finals to the final. */
    method Closure()
      requires Valid() && EpsLists(Value()) && start.Some?
      modifies this, alloc
      ensures alloc.next == old(alloc.next) + 2
      ensures Value() == Thompson.Closure(old(Value()), old(alloc.next))
    {
      hide Automata.NewState, Automata.AddState, Automata.SetStart, Automata.SetFinal, Automata.AddTransition,
        Thompson.AddEpsFrom, Thompson.SetFinalEach, Thompson.Merge, Thompson.UnionHead, Thompson.UnionTail,
        Thompson.Union, Thompson.ClosureHead, Thompson.Closure;
      ghost var a := Value();
      var cs := ClosureHead();
      ghost var h := Value();
      assert h == Thompson.ClosureHead(a, cs) && finals == a.finals;
      ClosureHeadEps(a, cs);
      ClosureTail(finals, cs);
      ClosureSteps(a, cs, h, Thompson.AddEpsFrom(h, a.finals, cs + 1), Value());
    }

    // -------------------------------------------------------------------
    // The queries of the subset construction

    /** One pass of `epsilon.keys.each` in get_epsilon: every key still
        false is marked true and its "" destinations not yet present are
        added as false. */
    method EpsPass(ghost E: set<State>, flag: map<State, bool>, order: seq<State>)
      returns (flag': map<State, bool>, order': seq<State>)
      requires Valid() && NfaShaped(Value()) && EpsClosedSet(Value(), E)
      requires EpsWork(Value(), E, flag, order) && |order| > 0
      ensures EpsWork(Value(), E, flag', order')
      ensures |order'| > 0 && order'[0] == order[0]
      ensures Marked(flag) <= Marked(flag')
      ensures false in flag.Values ==> Marked(flag) < Marked(flag')
    {
      flag', order' := flag, order;
      var keys := order;
      assert flag.Keys == Elems(keys);
      ElemsNone(keys);
      hide EpsWork, Elems, Valid, NfaShaped, EpsClosedSet;
      for i := 0 to |keys|
        invariant EpsWork(Value(), E, flag', order')
        invariant |order'| > 0 && order'[0] == order[0]
        invariant flag.Keys <= flag'.Keys && Marked(flag) <= Marked(flag') && Elems(keys[..i]) <= Marked(flag')
      {
        ElemsPrefix(keys, i);
        if !flag'[keys[i]] {
          flag', order' := EpsVisit(E, flag', order', keys[i]);
        }
      }
      assert keys[..|keys|] == keys;
      PassMarksAll(flag, flag');
    }

    /** The body of that pass for one key still false. */
    method EpsVisit(ghost E: set<State>, flag: map<State, bool>, order: seq<State>, key: State)
      returns (flag': map<State, bool>, order': seq<State>)
      requires Valid() && NfaShaped(Value()) && EpsClosedSet(Value(), E)
      requires EpsWork(Value(), E, flag, order) && key in flag && !flag[key] && |order| > 0
      ensures EpsWork(Value(), E, flag', order')
      ensures |order'| > 0 && order'[0] == order[0] && flag.Keys <= flag'.Keys
      ensures Marked(flag') == Marked(flag) + {key}
    {
      flag', order' := flag[key := true], order;
      assert Marked(flag') == Marked(flag) + {key};
      var tr := GetTransition(Value(), key, Eps);
      if tr.Some? {
        assert LabelTargets(Value(), key, Eps) == Elems(tr.value.list) <= E;
        flag', order' := AddUnseen(flag', order', tr.value.list);
        assert order'[..|order|] == order;
      }
    }

    /** `get_epsilon(s)`: the closure of s under "" transitions, as a
        duplicate-free list starting with s. */
    method GetEpsilon(s: State) returns (r: seq<State>)
      requires Valid() && NfaShaped(Value())
      ensures NoDup(r) && |r| > 0 && r[0] == s
      ensures Elems(r) == EClose(Value(), {s})
    {
      ghost var a := Value();
      ghost var E := EClose(a, {s});
      ECloseContains(a, {s});
      ECloseIsClosed(a, {s});
      var flag: map<State, bool> := map[s := false];
      var order: seq<State> := [s];
      while false in flag.Values
        invariant EpsWork(a, E, flag, order) && |order| > 0 && order[0] == s
        decreases |E - Marked(flag)|
      {
        ghost var m := Marked(flag);
        flag, order := EpsPass(E, flag, order);
        StrictFewer(E, m, Marked(flag));
      }
      forall q, t | q in Elems(order) && t in LabelTargets(a, q, Eps) ensures t in Elems(order) {
        assert flag[q] in flag.Values;
      }
      ECloseCharacterized(a, {s}, Elems(order));
      r := order;
    }

    /** `move(S, c)`: the destinations on letter c from the states of S, each
        once. */
    method Move(S: seq<State>, c: char) returns (result: seq<State>)
      requires Valid() && NfaShaped(Value())
      ensures NoDup(result) && Elems(result) == EpsilonClosure.Move(Value(), Elems(S), c)
    {
      result := [];
      for i := 0 to |S|
        invariant NoDup(result) && Elems(result) == EpsilonClosure.Move(Value(), Elems(S[..i]), c)
      {
        assert Elems(S[..i + 1]) == Elems(S[..i]) + {S[i]} by {
          assert S[..i + 1] == S[..i] + [S[i]];
        }
        MoveAddOne(Value(), Elems(S[..i]), S[i], c);
        var tr := GetTransition(Value(), S[i], Sym(c));
        if tr.Some? {
          result := PushNew(result, tr.value.list);
        }
      }
      assert S[..|S|] == S;
    }

    /** The `eclose` of to_dfa: the closures of the states of ns
        concatenated, then `uniq!`. */
    method CloseAll(ns: seq<State>) returns (eclose: seq<State>)
      requires Valid() && NfaShaped(Value())
      ensures NoDup(eclose) && Elems(eclose) == EClose(Value(), Elems(ns))
    {
      eclose := [];
      ECloseEmpty(Value());
      assert Elems(ns[..0]) == {};
      for i := 0 to |ns|
        invariant Elems(eclose) == EClose(Value(), Elems(ns[..i]))
      {
        assert Elems(ns[..i + 1]) == Elems(ns[..i]) + {ns[i]} by {
          assert ns[..i + 1] == ns[..i] + [ns[i]];
        }
        var e := GetEpsilon(ns[i]);
        ECloseUnion(Value(), Elems(ns[..i]), {ns[i]});
        eclose := eclose + e;
      }
      assert ns[..|ns|] == ns;
      eclose := Uniq(eclose);
    }

    // -------------------------------------------------------------------
    // to_dfa

    /** The state of to_dfa between steps: newdfa d is being built from a0,
        the receiver on entry, and the receiver is a0 plus the ids of d's
        states, which it handed out with its own new_state. */
    ghost predicate Subsetting(d: FiniteAutomaton, a0: Auto, keyOf: map<State, seq<State>>,
                               r: map<seq<State>, bool>, r2: map<seq<State>, State>,
                               order: seq<seq<State>>, s0: State, cur: Option<State>, C: set<char>)
      reads this, alloc, d
    {
      && d != this && WellFormed(a0) && NfaShaped(a0) && Closed(a0)
      && Building(a0, d.Value(), keyOf, r, r2, order, s0, cur, C)
      && Value() == AddIsolated(a0, keyOf.Keys) && keyOf.Keys * a0.states == {}
      && Below(Value(), alloc.next)
    }

    /** The `eclose` of one letter: the closure of the move from key, which
        is the closure the subset construction prescribes for a0. */
    method SubsetClosure(ghost a0: Auto, ghost keyOf: map<State, seq<State>>, ghost q: State,
                         key: seq<State>, letter: char) returns (eclose: seq<State>)
      requires WellFormed(a0) && NfaShaped(a0) && Closed(a0)
      requires Value() == AddIsolated(a0, keyOf.Keys) && keyOf.Keys * a0.states == {}
      requires q in keyOf && keyOf[q] == key
      ensures NoDup(eclose) && Elems(eclose) == Next(a0, keyOf, q, letter) <= a0.states
    {
      ghost var a := Value();
      AddIsolatedGraph(a0, keyOf.Keys);
      var ns := Move(key, letter);
      eclose := CloseAll(ns);
      SameGraphClosures(a, a0, Elems(key), letter);
      SameGraphClosures(a, a0, Elems(ns), letter);
      MoveInStates(a0, Elems(key), letter);
      ECloseInStates(a0, EpsilonClosure.Move(a0, Elems(key), letter));
    }

    /** `r2[eclose] = new_state`: the receiver hands out the id of a new DFA
        state and gains it as an isolated state. */
    method NewKeyState(ghost a0: Auto, ghost keyOf: map<State, seq<State>>) returns (id: State)
      requires Value() == AddIsolated(a0, keyOf.Keys) && keyOf.Keys * a0.states == {}
      requires Below(Value(), alloc.next)
      modifies this, alloc
      ensures id !in keyOf && Value() == AddIsolated(a0, keyOf.Keys + {id})
      ensures (keyOf.Keys + {id}) * a0.states == {} && Below(Value(), alloc.next)
    {
      ghost var a := Value();
      id := NewState();
      NewStateIsFresh(a, id);
      AddIsolatedNew(a0, keyOf.Keys, id);
    }

    /** One letter of `alphabet.each` for the key of DFA state r2[key]: the
        closure of the move becomes a new key with a fresh id unless it is
        empty or present already, and a non-empty closure gets its entry. */
    method SubsetLetter(d: FiniteAutomaton, ghost a0: Auto, ghost keyOf: map<State, seq<State>>,
                        r: map<seq<State>, bool>, r2: map<seq<State>, State>, order: seq<seq<State>>,
                        ghost s0: State, key: seq<State>, ghost C: set<char>, letter: char)
      returns (ghost keyOf': map<State, seq<State>>, r': map<seq<State>, bool>,
               r2': map<seq<State>, State>, order': seq<seq<State>>)
      requires key in r2 && Subsetting(d, a0, keyOf, r, r2, order, s0, Some(r2[key]), C)
      modifies this, alloc, d
      ensures Subsetting(d, a0, keyOf', r', r2', order', s0, Some(r2[key]), C + {letter})
      ensures key in r2' && r2'[key] == r2[key]
      ensures r.Keys <= r'.Keys && Marked(r') == Marked(r)
    {
      hide Subsetting, Building, Rows, RowCovers, StepOk, Coverage, EClose, EpsilonClosure.Move,
        AddIsolated, SeqsUpTo, Marked, Below, WellFormed, NfaShaped, Closed;
      ghost var q := r2[key];
      ghost var dv := d.Value();
      SubsettingParts(d, a0, keyOf, r, r2, order, s0, Some(q), C);
      var eclose := SubsetClosure(a0, keyOf, q, key, letter);
      EmptyClosure(a0, keyOf, q, letter, eclose);
      keyOf', r', r2', order' := keyOf, r, r2, order;
      if eclose !in r && eclose != [] {
        var id := NewKeyState(a0, keyOf);
        BuildingNew(a0, dv, keyOf, r, r2, order, s0, q, C, letter, eclose, id);
        keyOf', r', r2', order' := keyOf[id := eclose], r[eclose := false], r2[eclose := id], order + [eclose];
        assert keyOf'.Keys == keyOf.Keys + {id};
      }
      if eclose != [] {
        if eclose in r {
          BuildingOld(a0, dv, keyOf, r, r2, order, s0, q, C, letter, eclose);
        }
        d.AddTransitionDfa(r2'[key], r2'[eclose], Sym(letter));
      } else {
        BuildingEmpty(a0, dv, keyOf, r, r2, order, s0, q, C, letter);
      }
      SubsettingIntro(d, a0, keyOf', r', r2', order', s0, Some(q), C + {letter});
    }

    /** The parts of the state of to_dfa. */
    lemma SubsettingParts(d: FiniteAutomaton, a0: Auto, keyOf: map<State, seq<State>>,
                          r: map<seq<State>, bool>, r2: map<seq<State>, State>, order: seq<seq<State>>,
                          s0: State, cur: Option<State>, C: set<char>)
      requires Subsetting(d, a0, keyOf, r, r2, order, s0, cur, C)
      ensures d != this && WellFormed(a0) && NfaShaped(a0) && Closed(a0)
      ensures Building(a0, d.Value(), keyOf, r, r2, order, s0, cur, C)
      ensures Value() == AddIsolated(a0, keyOf.Keys) && keyOf.Keys * a0.states == {}
      ensures Below(Value(), alloc.next)
      ensures WellFormed(d.Value()) && r2.Keys == r.Keys
      ensures forall k :: k in r2 ==> r2[k] in keyOf && keyOf[r2[k]] == k
    {
    }

    lemma SubsettingIntro(d: FiniteAutomaton, a0: Auto, keyOf: map<State, seq<State>>,
                          r: map<seq<State>, bool>, r2: map<seq<State>, State>, order: seq<seq<State>>,
                          s0: State, cur: Option<State>, C: set<char>)
      requires d != this && WellFormed(a0) && NfaShaped(a0) && Closed(a0)
      requires Building(a0, d.Value(), keyOf, r, r2, order, s0, cur, C)
      requires Value() == AddIsolated(a0, keyOf.Keys) && keyOf.Keys * a0.states == {}
      requires Below(Value(), alloc.next)
      ensures Subsetting(d, a0, keyOf, r, r2, order, s0, cur, C)
    {
    }

    /** `r[key] = true` in terms of the whole state of to_dfa. */
    lemma SubsettingMark(d: FiniteAutomaton, a0: Auto, keyOf: map<State, seq<State>>,
                         r: map<seq<State>, bool>, r2: map<seq<State>, State>, order: seq<seq<State>>,
                         s0: State, key: seq<State>)
      requires key in r && !r[key] && Subsetting(d, a0, keyOf, r, r2, order, s0, None, {})
      ensures key in r2 && alphabet == a0.alphabet && Marked(r[key := true]) == Marked(r) + {key}
      ensures Subsetting(d, a0, keyOf, r[key := true], r2, order, s0, Some(r2[key]), {})
    {
      hide Rows, RowCovers, StepOk, Coverage, EClose, EpsilonClosure.Move, AddIsolated, SeqsUpTo;
      BuildingMark(a0, d.Value(), keyOf, r, r2, order, s0, key);
    }

    /** The last letter handled, in terms of the whole state of to_dfa. */
    lemma SubsettingFinish(d: FiniteAutomaton, a0: Auto, keyOf: map<State, seq<State>>,
                           r: map<seq<State>, bool>, r2: map<seq<State>, State>, order: seq<seq<State>>,
                           s0: State, q: State)
      requires Subsetting(d, a0, keyOf, r, r2, order, s0, Some(q), Elems(a0.alphabet))
      ensures Subsetting(d, a0, keyOf, r, r2, order, s0, None, {})
    {
      hide Rows, RowCovers, StepOk, Coverage, EClose, EpsilonClosure.Move, AddIsolated, SeqsUpTo;
      BuildingFinish(a0, d.Value(), keyOf, r, r2, order, s0, q);
    }

    /** The keys of r are those listed in order. */
    lemma SubsettingOrder(d: FiniteAutomaton, a0: Auto, keyOf: map<State, seq<State>>,
                          r: map<seq<State>, bool>, r2: map<seq<State>, State>, order: seq<seq<State>>,
                          s0: State)
      requires Subsetting(d, a0, keyOf, r, r2, order, s0, None, {})
      ensures r.Keys == Elems(order)
    {
    }

    /** The body of `r.keys.each` for a key still false: it is marked, and
        every letter of the alphabet is handled. */
    method SubsetKey(d: FiniteAutomaton, ghost a0: Auto, ghost keyOf: map<State, seq<State>>,
                     r: map<seq<State>, bool>, r2: map<seq<State>, State>, order: seq<seq<State>>,
                     ghost s0: State, key: seq<State>)
      returns (ghost keyOf': map<State, seq<State>>, r': map<seq<State>, bool>,
               r2': map<seq<State>, State>, order': seq<seq<State>>)
      requires key in r && !r[key] && Subsetting(d, a0, keyOf, r, r2, order, s0, None, {})
      modifies this, alloc, d
      ensures Subsetting(d, a0, keyOf', r', r2', order', s0, None, {})
      ensures r.Keys <= r'.Keys && Marked(r') == Marked(r) + {key}
    {
      hide Subsetting, Elems, Marked;
      SubsettingMark(d, a0, keyOf, r, r2, order, s0, key);
      keyOf', r', r2', order' := keyOf, r[key := true], r2, order;
      var letters := alphabet;
      ElemsNone(letters);
      for j := 0 to |letters|
        invariant Subsetting(d, a0, keyOf', r', r2', order', s0, Some(r2[key]), Elems(letters[..j]))
        invariant key in r2' && r2'[key] == r2[key]
        invariant r.Keys <= r'.Keys && Marked(r') == Marked(r) + {key}
      {
        ElemsPrefix(letters, j);
        keyOf', r', r2', order' := SubsetLetter(d, a0, keyOf', r', r2', order', s0, key, Elems(letters[..j]), letters[j]);
      }
      assert letters[..|letters|] == letters;
      SubsettingFinish(d, a0, keyOf', r', r2', order', s0, r2[key]);
    }

    /** One pass of `r.keys.each`: every key still false is processed. */
    method SubsetPass(d: FiniteAutomaton, ghost a0: Auto, ghost keyOf: map<State, seq<State>>,
                      r: map<seq<State>, bool>, r2: map<seq<State>, State>, order: seq<seq<State>>,
                      ghost s0: State)
      returns (ghost keyOf': map<State, seq<State>>, r': map<seq<State>, bool>,
               r2': map<seq<State>, State>, order': seq<seq<State>>)
      requires Subsetting(d, a0, keyOf, r, r2, order, s0, None, {})
      modifies this, alloc, d
      ensures Subsetting(d, a0, keyOf', r', r2', order', s0, None, {})
      ensures Marked(r) <= Marked(r')
      ensures false in r.Values ==> Marked(r) < Marked(r')
    {
      hide Subsetting, Elems;
      SubsettingOrder(d, a0, keyOf, r, r2, order, s0);
      keyOf', r', r2', order' := keyOf, r, r2, order;
      var keys := order;
      ElemsNone(keys);
      for i := 0 to |keys|
        invariant Subsetting(d, a0, keyOf', r', r2', order', s0, None, {})
        invariant r.Keys <= r'.Keys && Marked(r) <= Marked(r') && Elems(keys[..i]) <= Marked(r')
      {
        ElemsPrefix(keys, i);
        if !r'[keys[i]] {
          keyOf', r', r2', order' := SubsetKey(d, a0, keyOf', r', r2', order', s0, keys[i]);
        }
      }
      assert keys[..|keys|] == keys;
      PassMarksAll(r, r');
    }

    /** What the last loop of to_dfa relies on. */
    lemma SubsettingFinals(d: FiniteAutomaton, a0: Auto, keyOf: map<State, seq<State>>,
                           r: map<seq<State>, bool>, r2: map<seq<State>, State>, order: seq<seq<State>>,
                           s0: State)
      requires Subsetting(d, a0, keyOf, r, r2, order, s0, None, {})
      ensures d != this && finals == a0.finals && d.finals == {} && d.states == keyOf.Keys
      ensures FinalsOver(a0.finals, keyOf, {}) == {}
      ensures forall k :: k in Elems(order) ==> k in r2 && r2[k] in keyOf && keyOf[r2[k]] == k
      ensures forall q :: q in keyOf ==> keyOf[q] in r2 && r2[keyOf[q]] == q
    {
      hide Rows, RowCovers, StepOk, Coverage, EClose, EpsilonClosure.Move, SeqsUpTo;
    }

    /** v becomes final in d when some NFA state of its key is final here. */
    method MarkIfFinal(d: FiniteAutomaton, key: seq<State>, v: State)
      requires d != this && v in d.states
      modifies d
      ensures d.Value() == old(d.Value()).(finals := old(d.finals) + if Elems(key) * finals != {} then {v} else {})
    {
      ghost var dv := d.Value();
      ElemsNone(key);
      for j := 0 to |key|
        invariant d.Value() == dv.(finals := dv.finals + if Elems(key[..j]) * finals != {} then {v} else {})
      {
        ElemsPrefix(key, j);
        if key[j] in finals {
          assert key[j] in Elems(key[..j + 1]) * finals;
          d.SetFinal(v, true);
        } else {
          assert Elems(key[..j + 1]) * finals == Elems(key[..j]) * finals;
        }
      }
      assert key[..|key|] == key;
    }

    /** The last loop of to_dfa: a DFA state becomes final when its key holds
        a final state of the receiver. */
    method MarkFinals(d: FiniteAutomaton, ghost a0: Auto, ghost keyOf: map<State, seq<State>>,
                      ghost r: map<seq<State>, bool>, r2: map<seq<State>, State>, order: seq<seq<State>>,
                      ghost s0: State)
      requires Subsetting(d, a0, keyOf, r, r2, order, s0, None, {})
      modifies d
      ensures d.Value() == old(d.Value()).(finals := FinalsOver(a0.finals, keyOf, Elems(order)))
    {
      hide Subsetting, Elems, FinalsOver;
      ghost var dv := d.Value();
      SubsettingFinals(d, a0, keyOf, r, r2, order, s0);
      ElemsNone(order);
      for i := 0 to |order|
        invariant d.Value() == dv.(finals := FinalsOver(a0.finals, keyOf, Elems(order[..i])))
      {
        ElemsPrefix(order, i);
        var key := order[i];
        assert key in Elems(order);
        FinalsOverAdd(a0.finals, keyOf, r2, Elems(order[..i]), key);
        MarkIfFinal(d, key, r2[key]);
      }
      assert order[..|order|] == order;
    }

    /** `to_dfa`: the subset construction. newdfa's states are ids drawn
        from the receiver's counter (so the receiver gains them as isolated
        states), each standing for a closure, listed as a key; its rows,
        finals and alphabet are those of the subset-construction DFA. */
    method ToDfa() returns (d: FiniteAutomaton, ghost keyOf: map<State, seq<State>>)
      requires Valid() && NfaShaped(Value()) && Closed(Value()) && start.Some?
      requires Below(Value(), alloc.next)
      modifies this, alloc
      ensures fresh(d) && d.alloc == alloc
      ensures SubsetDfa(old(Value()), d.Value(), keyOf)
      ensures Value() == AddIsolated(old(Value()), keyOf.Keys) && keyOf.Keys * old(states) == {}
    {
      hide WellFormed, NfaShaped, Closed, Below, AddIsolated, EClose, Elems, SeqsUpTo, FinalsOver,
        Automata.NewState, Automata.SetStart, Subsetting, SubsetDfa;
      ghost var a0 := Value();
      d := new FiniteAutomaton(alloc);
      var e0 := GetEpsilon(start.value);
      var s0 := NewState();
      d.SetStart(s0);
      var r: map<seq<State>, bool> := map[e0 := false];
      var r2: map<seq<State>, State> := map[e0 := s0];
      var order: seq<seq<State>> := [e0];
      keyOf := map[s0 := e0];
      SubsettingInit(d, a0, e0, s0);
      ghost var U := SeqsUpTo(a0.states, |a0.states|);
      while false in r.Values
        invariant fresh(d) && d.alloc == alloc
        invariant Subsetting(d, a0, keyOf, r, r2, order, s0, None, {})
        decreases |U - Marked(r)|
      {
        SubsettingBound(d, a0, keyOf, r, r2, order, s0);
        ghost var m := Marked(r);
        keyOf, r, r2, order := SubsetPass(d, a0, keyOf, r, r2, order, s0);
        SubsettingBound(d, a0, keyOf, r, r2, order, s0);
        StrictFewer(U, m, Marked(r));
      }
      ghost var dv := d.Value();
      SubsettingDone(d, a0, keyOf, r, r2, order, s0);
      MarkFinals(d, a0, keyOf, r, r2, order, s0);
      ghost var d1 := d.Value();
      assert d1 == dv.(finals := FinalsOver(a0.finals, keyOf, Elems(order)));
      assert d1.alphabet == [];
      var letters := alphabet;
      ConcatEmpty(d1.alphabet, letters);
      d.ConcatAlphabet(letters);
      assert d.Value() == d1.(alphabet := letters);
    }

    // -------------------------------------------------------------------
    // complement!

    /** One gap (key, c): `newdfa.add_transitiondfa(key, dead_state, c)`,
        which writes into the row the receiver shares, then
        `newdfa.add_transitiondfa(dead_state, dead_state, c)`. */
    method FillGap(d: FiniteAutomaton, ghost a: Auto, dead: State, ghost G: set<(State, char)>,
                   key: State, c: char)
      requires d != this && WellFormed(a) && dead !in a.states && key in a.states
      requires Sym(c) !in RowAt(a, key)
      requires IsHandled(d.Value(), a, dead, G) && IsReceiver(Value(), a, dead, G)
      modifies this, d
      ensures alphabet == old(alphabet)
      ensures IsHandled(d.Value(), a, dead, G + {(key, c)})
      ensures IsReceiver(Value(), a, dead, G + {(key, c)})
    {
      hide IsHandled, IsReceiver, FilledRow;
      HandledGap(d.Value(), a, dead, G, key, c);
      ReceiverGap(Value(), a, dead, G, key, c);
      d.AddTransitionDfa(key, dead, Sym(c));
      d.AddTransitionDfa(dead, dead, Sym(c));
      HandledRow(d.Value(), a, dead, G + {(key, c)}, key);
      trans := trans[key := d.trans[key]];
    }

    /** The row of a state of the receiver in a filled store. */
    lemma HandledRow(x: Auto, a: Auto, dead: State, G: set<(State, char)>, key: State)
      requires IsHandled(x, a, dead, G) && key in a.states
      ensures key in x.trans && x.trans[key] == FilledRow(a, G, key, dead)
    {
    }

    /** The body of `newdfa.state.keys.each` for one key: every letter of
        the alphabet when the receiver's row of key is empty, otherwise the
        letters `get_transition(key, letter)` finds nil. */
    method FillState(d: FiniteAutomaton, ghost a: Auto, dead: State, ghost D: set<State>, key: State)
      requires d != this && WellFormed(a) && dead !in a.states && key in a.states && key !in D
      requires alphabet == a.alphabet
      requires IsHandled(d.Value(), a, dead, Gaps(a, Grid(D, Elems(a.alphabet))))
      requires IsReceiver(Value(), a, dead, Gaps(a, Grid(D, Elems(a.alphabet))))
      modifies this, d
      ensures alphabet == a.alphabet
      ensures IsHandled(d.Value(), a, dead, Gaps(a, Grid(D + {key}, Elems(a.alphabet))))
      ensures IsReceiver(Value(), a, dead, Gaps(a, Grid(D + {key}, Elems(a.alphabet))))
    {
      hide IsHandled, IsReceiver, Gaps, Grid, FilledRow, Elems;
      ghost var A := Elems(a.alphabet);
      ghost var P := Grid(D, A);
      FilledRowUntouched(a, D, A, key, dead);
      ReceiverRow(Value(), a, dead, Gaps(a, P), key);
      ElemsNone(alphabet);
      assert P + Grid({key}, Elems(alphabet[..0])) == P by {
        GridLetterNone(D, A, key);
      }
      if trans[key] == map[] {
        assert RowAt(a, key) == map[];
        for i := 0 to |alphabet|
          invariant alphabet == a.alphabet
          invariant IsHandled(d.Value(), a, dead, Gaps(a, P + Grid({key}, Elems(alphabet[..i]))))
          invariant IsReceiver(Value(), a, dead, Gaps(a, P + Grid({key}, Elems(alphabet[..i]))))
        {
          ghost var Q := P + Grid({key}, Elems(alphabet[..i]));
          ElemsPrefix(alphabet, i);
          GridLetter(D, A, key, Elems(alphabet[..i]), alphabet[i]);
          GapsAdd(a, Q, key, alphabet[i]);
          FillGap(d, a, dead, Gaps(a, Q), key, alphabet[i]);
        }
      } else {
        for i := 0 to |alphabet|
          invariant alphabet == a.alphabet
          invariant IsHandled(d.Value(), a, dead, Gaps(a, P + Grid({key}, Elems(alphabet[..i]))))
          invariant IsReceiver(Value(), a, dead, Gaps(a, P + Grid({key}, Elems(alphabet[..i]))))
        {
          ghost var Q := P + Grid({key}, Elems(alphabet[..i]));
          ElemsPrefix(alphabet, i);
          GridLetter(D, A, key, Elems(alphabet[..i]), alphabet[i]);
          ReceiverRow(Value(), a, dead, Gaps(a, Q), key);
          GapCheck(a, Q, key, alphabet[i], dead);
          if GetTransition(Value(), key, Sym(alphabet[i])) == None {
            FillGap(d, a, dead, Gaps(a, Q), key, alphabet[i]);
          }
        }
      }
      assert alphabet[..|alphabet|] == alphabet;
      GridState(D, A, key);
    }

    /** The row of a state of the receiver while the gaps are filled. */
    lemma ReceiverRow(x: Auto, a: Auto, dead: State, G: set<(State, char)>, key: State)
      requires IsReceiver(x, a, dead, G) && WellFormed(a) && key in a.states
      ensures WellFormed(x) && HasState(x, key) && x.trans[key] == FilledRow(a, G, key, dead)
    {
    }

    /** The correction: the sink loops on every letter of the alphabet,
        not only on the letters that were missing somewhere. */
    method SinkLoops(d: FiniteAutomaton, ghost a: Auto, dead: State)
      requires d != this && WellFormed(a) && dead !in a.states && AllGaps(a) != {}
      requires alphabet == a.alphabet && d.Value() == Handled(a, dead, AllGaps(a))
      modifies d
      ensures d.Value() == WithSink(Handled(a, dead, AllGaps(a)), dead, Elems(a.alphabet))
    {
      hide Handled, AllGaps, Elems, GapLetters, WithSink, Automata.AddTransitionDfa, Gaps, Grid,
        FilledRows, SinkRow;
      ghost var G := AllGaps(a);
      ghost var h := Handled(a, dead, G);
      SinkRegistered(a, dead);
      SinkLoopNone(a, dead);
      ghost var L := GapLetters(G);
      ElemsNone(alphabet);
      for i := 0 to |alphabet|
        invariant L == GapLetters(G) + Elems(alphabet[..i])
        invariant d.Value() == WithSink(h, dead, L)
      {
        ElemsPrefix(alphabet, i);
        SinkLetter(d, h, dead, L, alphabet[i]);
        L := L + {alphabet[i]};
      }
      assert alphabet[..|alphabet|] == alphabet;
      GapLettersInAlphabet(a);
      assert L == Elems(a.alphabet);
    }

    /** `newdfa.add_transitiondfa(dead_state, dead_state, c)` on the sink. */
    method SinkLetter(d: FiniteAutomaton, ghost h: Auto, dead: State, ghost L: set<char>, c: char)
      requires WellFormed(h) && dead in h.states && d.Value() == WithSink(h, dead, L)
      modifies d
      ensures d.Value() == WithSink(h, dead, L + {c})
    {
      SinkLoopStep(h, dead, L, c);
      d.AddTransitionDfa(dead, dead, Sym(c));
    }

    /** The nested loops of complement! over `newdfa.state.keys`, a
        snapshot taken before the sink joins newdfa. */
    method FillAll(d: FiniteAutomaton, ghost a: Auto, dead: State)
      requires d != this && WellFormed(a) && dead !in a.states && alphabet == a.alphabet
      requires d.Value() == Auto(a.start, a.states, {}, a.trans, [])
      requires Value() == Automata.NewState(a, dead)
      modifies this, d
      ensures d.Value() == Handled(a, dead, AllGaps(a))
      ensures Value() == ReceiverAfter(a, dead, AllGaps(a))
    {
      HandledNone(a, dead);
      hide IsHandled, IsReceiver, Gaps, Grid, Handled, ReceiverAfter, Elems, Automata.NewState;
      ghost var A := Elems(a.alphabet);
      GapsNone(a, A);
      var todo := d.states;
      assert a.states - todo == {};
      while todo != {}
        invariant todo <= a.states && alphabet == a.alphabet
        invariant IsHandled(d.Value(), a, dead, Gaps(a, Grid(a.states - todo, A)))
        invariant IsReceiver(Value(), a, dead, Gaps(a, Grid(a.states - todo, A)))
        decreases todo
      {
        var key :| key in todo;
        FillState(d, a, dead, a.states - todo, key);
        assert (a.states - todo) + {key} == a.states - (todo - {key});
        todo := todo - {key};
      }
      assert a.states - todo == a.states;
      HandledUnique(d.Value(), a, dead, AllGaps(a));
      ReceiverUnique(Value(), a, dead, AllGaps(a));
    }

    /** Every state of d becomes final, then every final of the receiver is
        unset again, then the receiver's alphabet is appended to d's. */
    method FlipFinals(d: FiniteAutomaton, ghost a: Auto)
      requires d != this && d.Valid() && d.finals == {} && d.alphabet == []
      requires finals == a.finals && a.finals <= d.states && alphabet == a.alphabet
      modifies d
      ensures d.Value() == old(d.Value()).(finals := old(d.states) - a.finals, alphabet := a.alphabet)
    {
      ghost var x := d.Value();
      var all := d.states;
      SetFinalEachInside(x, all, true);
      d.SetFinalEach(all, true);
      ghost var x1 := d.Value();
      assert x1 == x.(finals := all);
      SetFinalEachInside(x1, a.finals, false);
      d.SetFinalEach(finals, false);
      ConcatEmpty(d.alphabet, alphabet);
      d.ConcatAlphabet(alphabet);
    }

    /** complement! once newdfa holds the receiver's start, states and
        rows and the sink is drawn: the gaps filled, the sink's loops
        completed, the finals flipped and the alphabet copied. */
    method CompleteFrom(d: FiniteAutomaton, ghost a: Auto, dead: State)
      requires d != this && WellFormed(a) && dead !in a.states
      requires d.Value() == Auto(a.start, a.states, {}, a.trans, [])
      requires Value() == Automata.NewState(a, dead)
      modifies this, d
      ensures d.Value() == Complemented(a, dead)
      ensures Value() == ReceiverAfter(a, dead, AllGaps(a))
    {
      hide Handled, ReceiverAfter, Complemented, AllGaps, WithSink, Automata.NewState;
      FillAll(d, a, dead);
      SinkRegistered(a, dead);
      if dead in d.states {
        SinkLoops(d, a, dead);
      }
      ghost var x := d.Value();
      FlipFinals(d, a);
      ComplementFinish(a, dead, x);
    }

    /** complement! as written, once newdfa holds the receiver's start,
        states and rows and the sink is drawn: the gaps filled, the finals
        flipped and the alphabet copied, with no further loops on the sink. */
    method CompleteAsWrittenFrom(d: FiniteAutomaton, ghost a: Auto, dead: State)
      requires d != this && WellFormed(a) && dead !in a.states
      requires d.Value() == Auto(a.start, a.states, {}, a.trans, [])
      requires Value() == Automata.NewState(a, dead)
      modifies this, d
      ensures d.Value() == ComplementAsWritten(a, dead)
      ensures Value() == ReceiverAfter(a, dead, AllGaps(a))
    {
      hide Handled, ReceiverAfter, ComplementAsWritten, AllGaps, Automata.NewState;
      FillAll(d, a, dead);
      ghost var x := d.Value();
      FlipFinals(d, a);
      AsWrittenFinish(a, dead, x);
    }

    /** d gets the receiver's start, then the receiver's states and rows are
        merged into d. */
    method CopyInto(d: FiniteAutomaton)
      requires d != this && Valid() && start.Some? && d.Value() == Empty
      modifies d
      ensures d.Value() == Auto(start, states, {}, trans, [])
    {
      d.SetStart(start.value);
      d.MergeFrom(this);
      MergedCopy(Value());
    }

    /** `complement!`: newdfa copies the receiver's start, states and rows
        (the rows shared with the receiver), every letter of the alphabet a
        state has no entry for is sent to a sink drawn from the receiver's
        counter, and the finals are flipped. The sink loops on every letter
        (the correction `Complemented` describes); the receiver keeps the
        sink as an isolated state and sees the filled rows. */
    method Complement() returns (d: FiniteAutomaton)
      requires Valid() && start.Some? && Below(Value(), alloc.next)
      modifies this, alloc
      ensures fresh(d) && d.alloc == alloc && alloc.next == old(alloc.next) + 1
      ensures d.Value() == Complemented(old(Value()), old(alloc.next))
      ensures Value() == ReceiverAfter(old(Value()), old(alloc.next), AllGaps(old(Value())))
    {
      hide Complemented, ReceiverAfter, AllGaps, Automata.NewState;
      ghost var a := Value();
      d := new FiniteAutomaton(alloc);
      CopyInto(d);
      var dead := NewState();
      NewStateIsFresh(a, dead);
      CompleteFrom(d, a, dead);
    }

    /** `complement!` as fa.rb has it, for a receiver with a start and a
        counter above its states: as Complement, except that the sink loops
        only on the letters that were missing somewhere. */
    method AsWrittenComplement() returns (d: FiniteAutomaton)
      requires Valid() && start.Some? && Below(Value(), alloc.next)
      modifies this, alloc
      ensures fresh(d) && d.alloc == alloc && alloc.next == old(alloc.next) + 1
      ensures d.Value() == ComplementAsWritten(old(Value()), old(alloc.next))
      ensures Value() == ReceiverAfter(old(Value()), old(alloc.next), AllGaps(old(Value())))
    {
      hide ComplementAsWritten, ReceiverAfter, AllGaps, Automata.NewState;
      ghost var a := Value();
      d := new FiniteAutomaton(alloc);
      CopyInto(d);
      var dead := NewState();
      NewStateIsFresh(a, dead);
      CompleteAsWrittenFrom(d, a, dead);
    }

    /** The state of to_dfa once newdfa's start is set. */
    lemma SubsettingInit(d: FiniteAutomaton, a0: Auto, e0: seq<State>, s0: State)
      requires d != this && WellFormed(a0) && NfaShaped(a0) && Closed(a0) && a0.start.Some?
      requires Below(a0, s0) && alloc.next == s0 + 1 && Value() == Automata.NewState(a0, s0)
      requires d.Value() == Automata.SetStart(Empty, s0)
      requires NoDup(e0) && |e0| > 0 && Elems(e0) == EClose(a0, {a0.start.value})
      ensures Subsetting(d, a0, map[s0 := e0], map[e0 := false], map[e0 := s0], [e0], s0, None, {})
    {
      hide Rows, RowCovers, StepOk, Coverage, EClose, EpsilonClosure.Move, AddIsolated, SeqsUpTo;
      StartIsState(a0);
      ECloseInStates(a0, {a0.start.value});
      NewStateIsFresh(a0, s0);
      AddIsolatedNone(a0);
      AddIsolatedNew(a0, {}, s0);
      BuildingInit(a0, e0, s0);
    }

    /** The processed keys are among the finitely many candidate keys. */
    lemma SubsettingBound(d: FiniteAutomaton, a0: Auto, keyOf: map<State, seq<State>>,
                          r: map<seq<State>, bool>, r2: map<seq<State>, State>, order: seq<seq<State>>,
                          s0: State)
      requires Subsetting(d, a0, keyOf, r, r2, order, s0, None, {})
      ensures Marked(r) <= SeqsUpTo(a0.states, |a0.states|)
    {
      hide Rows, RowCovers, StepOk, Coverage, EClose, EpsilonClosure.Move, AddIsolated, SeqsUpTo;
      MarkedBound(a0, keyOf, r, r2, order);
    }

    /** Once no key is false, newdfa with the finals and alphabet to_dfa
        gives it is the subset-construction DFA. */
    lemma SubsettingDone(d: FiniteAutomaton, a0: Auto, keyOf: map<State, seq<State>>,
                         r: map<seq<State>, bool>, r2: map<seq<State>, State>, order: seq<seq<State>>,
                         s0: State)
      requires Subsetting(d, a0, keyOf, r, r2, order, s0, None, {}) && false !in r.Values
      ensures SubsetDfa(a0, d.Value().(finals := FinalsOver(a0.finals, keyOf, Elems(order)), alphabet := alphabet), keyOf)
      ensures d.Value().alphabet == [] && alphabet == a0.alphabet
      ensures Value() == AddIsolated(a0, keyOf.Keys) && keyOf.Keys * a0.states == {}
    {
      hide Rows, RowCovers, StepOk, Coverage, EClose, EpsilonClosure.Move, AddIsolated, SeqsUpTo;
      BuildingDone(a0, d.Value(), keyOf, r, r2, order, s0);
    }
  }
}

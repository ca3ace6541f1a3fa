/** `accept?` of fa.rb: a run over deterministic rows. */
module Acceptance {
  import opened Automata

  /** The state reached from q by reading s, or None once a letter has no
      entry. */
  function Run(a: Auto, q: State, s: string): Option<State>
    requires Deterministic(a)
    decreases |s|
  {
    if s == [] then Some(q)
    else
      match GetTransition(a, q, Sym(s[0]))
      case None => None
      case Some(d) => Run(a, d.to, s[1..])
  }

  /** accept?(s, q): on "" whether q is final; false as soon as the entry
      for the next letter is missing; otherwise go on from the single
      destination. Only defined on deterministic rows. */
  function Accepts(a: Auto, s: string, q: State): (r: bool)
    requires Deterministic(a)
    ensures r <==> Run(a, q, s).Some? && Run(a, q, s).value in a.finals
    decreases |s|
  {
    if s == [] then IsFinal(a, q)
    else
      match GetTransition(a, q, Sym(s[0]))
      case None => false
      case Some(d) => Accepts(a, s[1..], d.to)
  }

  /** accept?(s) with its default argument, the start: a store without a
      start accepts nothing, since neither a row nor a final exists for nil. */
  function AcceptsFromStart(a: Auto, s: string): (r: bool)
    requires Deterministic(a)
    ensures r <==> a.start.Some? && Run(a, a.start.value, s).Some? && Run(a, a.start.value, s).value in a.finals
  {
    match a.start
    case None => false
    case Some(q) => Accepts(a, s, q)
  }

  /** Reading u then v: accept u + v exactly when the run over u gets
      through and the rest is accepted from where it stopped. */
  lemma {:induction false} AcceptsAppend(a: Auto, u: string, v: string, q: State)
    requires Deterministic(a)
    ensures Accepts(a, u + v, q) <==> Run(a, q, u).Some? && Accepts(a, v, Run(a, q, u).value)
    decreases |u|
  {
    if u == [] {
      assert u + v == v;
    } else {
      assert (u + v)[0] == u[0] && (u + v)[1..] == u[1..] + v;
      match GetTransition(a, q, Sym(u[0]))
      case None =>
      case Some(d) => AcceptsAppend(a, u[1..], v, d.to);
    }
  }

  /** A letter with no entry at q makes every word starting with it fail. */
  lemma MissingLetterRejects(a: Auto, q: State, c: char, s: string)
    requires Deterministic(a) && GetTransition(a, q, Sym(c)) == None
    ensures !Accepts(a, [c] + s, q)
  {
  }
}

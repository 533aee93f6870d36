/** The language of an automaton as the simulator of
    app/components/NFASimulator.tsx decides it: start from the ε-closure
    of the initial state, take one step per input symbol, and accept when
    the final live set holds a state flagged final. */
module Language {
  import opened Automaton
  import opened Closures

  /** The live set after reading `w` from `S`. */
  function Run(ts: seq<Transition>, S: set<Id>, w: seq<Symbol>): set<Id>
    decreases |w|
  {
    if |w| == 0 then S else Step(ts, Run(ts, S, w[..|w| - 1]), w[|w| - 1])
  }

  lemma RunLast(ts: seq<Transition>, S: set<Id>, w: seq<Symbol>)
    requires |w| > 0
    ensures Run(ts, S, w) == Step(ts, Run(ts, S, w[..|w| - 1]), w[|w| - 1])
  {
  }

  /** The ε-closure of the first initial state, or of the id `""` when no
      state is initial. */
  function Start(nfa: Nfa): set<Id>
  {
    Closure(nfa.transitions, {InitialIdOrEmpty(nfa.states)})
  }

  predicate Accepts(nfa: Nfa, w: seq<Symbol>)
  {
    HasFinal(nfa.states, Run(nfa.transitions, Start(nfa), w))
  }

  /** Once the live set is empty it stays empty. */
  lemma {:induction false} RunFromEmpty(ts: seq<Transition>, w: seq<Symbol>)
    ensures Run(ts, {}, w) == {}
    decreases |w|
  {
    if |w| > 0 {
      RunFromEmpty(ts, w[..|w| - 1]);
      StepEmpty(ts, w[|w| - 1]);
    }
  }

  /** Reading `u` then `v` is reading `u + v`. */
  lemma {:induction false} RunAppend(ts: seq<Transition>, S: set<Id>, u: seq<Symbol>, v: seq<Symbol>)
    ensures Run(ts, S, u + v) == Run(ts, Run(ts, S, u), v)
    decreases |v|
  {
    if |v| == 0 {
      assert u + v == u;
    } else {
      var w := u + v;
      RunAppend(ts, S, u, v[..|v| - 1]);
      assert w[..|w| - 1] == u + v[..|v| - 1];
      assert w[|w| - 1] == v[|v| - 1];
      RunLast(ts, S, w);
      RunLast(ts, Run(ts, S, u), v);
    }
  }

  /** Early halt: when the live set empties after a prefix, the rest of the
      input cannot revive it, so the input is rejected. */
  lemma RunHalts(nfa: Nfa, w: seq<Symbol>, i: nat)
    requires i <= |w| && Run(nfa.transitions, Start(nfa), w[..i]) == {}
    ensures Run(nfa.transitions, Start(nfa), w) == {}
    ensures !Accepts(nfa, w)
  {
    var ts, S := nfa.transitions, Start(nfa);
    var u, v := w[..i], w[i..];
    assert u + v == w;
    RunAppend(ts, S, u, v);
    RunFromEmpty(ts, v);
    assert Run(ts, S, w) == {};
  }

  /** Every live set is ε-closed. */
  lemma RunClosed(nfa: Nfa, w: seq<Symbol>)
    ensures EpsClosed(nfa.transitions, Run(nfa.transitions, Start(nfa), w))
  {
  }

  /** Each element of the closure of `X` lies in the closure of one
      element of `X`. */
  lemma ClosureUnion(ts: seq<Transition>, X: set<Id>, y: Id)
    requires y in Closure(ts, X)
    ensures exists x :: x in X && y in Closure(ts, {x})
  {
    var U := set z | z in X + Targets(ts) && exists x :: x in X && z in Closure(ts, {x});
    forall x | x in X ensures x in U {
      assert x in Closure(ts, {x});
    }
    forall z | z in Post(ts, U, Epsilon) ensures z in U {
      var t :| t in ts && t.from in U && t.symbol == Epsilon && t.to == z;
      var x :| x in X && t.from in Closure(ts, {x});
      assert z in Post(ts, Closure(ts, {x}), Epsilon);
    }
    assert EpsClosed(ts, U);
    ClosureLeast(ts, X, U);
  }

  /** A state no transition leaves closes to itself. */
  lemma ClosureOfSink(ts: seq<Transition>, x: Id)
    requires forall t :: t in ts ==> t.from != x
    ensures Closure(ts, {x}) == {x}
  {
    assert Post(ts, {x}, Epsilon) == {};
    assert EpsClosed(ts, {x});
  }

  /** With distinct ids, `IsFinalId` asks whether the state with that id is
      flagged final. */
  lemma IsFinalIdDistinct(states: seq<State>, id: Id)
    requires DistinctIds(states)
    ensures IsFinalId(states, id) <==> exists s :: s in states && s.id == id && s.isFinal
  {
    if exists s :: s in states && s.id == id && s.isFinal {
      var s :| s in states && s.id == id && s.isFinal;
      var r := FindById(states, id);
      var k :| 0 <= k < |states| && states[k] == r.value;
      var j :| 0 <= j < |states| && states[j] == s;
    }
  }
}

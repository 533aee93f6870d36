/** The ε-closure engine and the `move` operation shared by the simulator
    (app/components/NFASimulator.tsx), both subset constructions
    (app/components/NfaToDfa.ts, app/components/NFAtoDFA.tsx) and
    ε-removal (app/components/RegexToNFA.tsx). The four copies in the
    source run the same worklist algorithm; it is modelled once. */
module Closures {
  import opened Automaton

  /** The targets of the `symbol`-transitions that leave `S`. */
  function Post(ts: seq<Transition>, S: set<Id>, symbol: Symbol): (r: set<Id>)
    ensures r <= Targets(ts)
  {
    set t | t in ts && t.from in S && t.symbol == symbol :: t.to
  }

  /** No ε-transition leaves `S`. */
  predicate EpsClosed(ts: seq<Transition>, S: set<Id>)
  {
    Post(ts, S, Epsilon) <= S
  }

  /** The ε-closure of `S`: a superset of `S` that no ε-transition leaves,
      the least one by `ClosureLeast`. */
  function Closure(ts: seq<Transition>, S: set<Id>): (r: set<Id>)
    ensures S <= r <= S + Targets(ts)
    ensures EpsClosed(ts, r)
    decreases |Targets(ts) - S|
  {
    var next := S + Post(ts, S, Epsilon);
    if next == S then S
    else
      ProperSubsetSmaller(Targets(ts) - next, Targets(ts) - S);
      Closure(ts, next)
  }

  /** Every ε-closed superset of `S` contains the closure of `S`. */
  lemma {:induction false} ClosureLeast(ts: seq<Transition>, S: set<Id>, T: set<Id>)
    requires S <= T && EpsClosed(ts, T)
    ensures Closure(ts, S) <= T
    decreases |Targets(ts) - S|
  {
    var next := S + Post(ts, S, Epsilon);
    if next != S {
      ProperSubsetSmaller(Targets(ts) - next, Targets(ts) - S);
      PostMonotonic(ts, S, T, Epsilon);
      ClosureLeast(ts, next, T);
    }
  }

  lemma PostMonotonic(ts: seq<Transition>, S: set<Id>, T: set<Id>, symbol: Symbol)
    requires S <= T
    ensures Post(ts, S, symbol) <= Post(ts, T, symbol)
  {
  }

  /** Closing twice is closing once. */
  lemma ClosureIdempotent(ts: seq<Transition>, S: set<Id>)
    ensures Closure(ts, Closure(ts, S)) == Closure(ts, S)
  {
    ClosureLeast(ts, Closure(ts, S), Closure(ts, S));
  }

  /** Closure is monotonic. */
  lemma ClosureMonotonic(ts: seq<Transition>, S: set<Id>, T: set<Id>)
    requires S <= T
    ensures Closure(ts, S) <= Closure(ts, T)
  {
    ClosureLeast(ts, S, Closure(ts, T));
  }

  /** `move(S, symbol)`: the targets of the `symbol`-transitions leaving `S`. */
  function Move(ts: seq<Transition>, S: set<Id>, symbol: Symbol): (r: set<Id>)
    ensures forall t :: t in ts && t.from in S && t.symbol == symbol ==> t.to in r
    ensures forall x :: x in r ==> exists t :: t in ts && t.from in S && t.symbol == symbol && t.to == x
  {
    Post(ts, S, symbol)
  }

  /** One simulation step: close, move on `symbol`, close again. */
  function Step(ts: seq<Transition>, S: set<Id>, symbol: Symbol): set<Id>
  {
    Closure(ts, Move(ts, Closure(ts, S), symbol))
  }

  /** Nothing leaves the empty set. */
  lemma StepEmpty(ts: seq<Transition>, symbol: Symbol)
    ensures Step(ts, {}, symbol) == {}
  {
    ClosureLeast(ts, {}, {});
    assert Move(ts, {}, symbol) == {};
    ClosureLeast(ts, {}, {});
  }

  /** A proper subset of a finite set is smaller. */
  lemma ProperSubsetSmaller(A: set<Id>, B: set<Id>)
    requires A < B
    ensures |A| < |B|
  {
    assert B - A != {};
    var x :| x in B - A;
    SubsetNotLarger(A, B - {x});
  }

  lemma {:induction false} SubsetNotLarger(A: set<Id>, B: set<Id>)
    requires A <= B
    ensures |A| <= |B|
    decreases |A|
  {
    if A != {} {
      var x :| x in A;
      SubsetNotLarger(A - {x}, B - {x});
    }
  }

  /** Every ε-transition out of `closure`, except from the states still
      `pending` on the worklist, stays inside `closure`. */
  predicate Scanned(ts: seq<Transition>, closure: set<Id>, pending: seq<Id>)
  {
    forall t :: t in ts && t.from in closure && t.from !in pending && t.symbol == Epsilon
                ==> t.to in closure
  }

  lemma ScannedGrow(ts: seq<Transition>, closure: set<Id>, pending: seq<Id>, x: Id, pending': seq<Id>)
    requires Scanned(ts, closure, pending)
    requires x in pending'
    requires forall y :: y in pending ==> y in pending'
    ensures Scanned(ts, closure + {x}, pending')
  {
  }

  /** The worklist ε-closure: every state added is pushed, every state
      popped has its ε-transitions scanned in list order. */
  method EpsilonClosure(ts: seq<Transition>, states: set<Id>) returns (closure: set<Id>)
    ensures closure == Closure(ts, states)
  {
    ghost var full := Closure(ts, states);
    closure := states;
    var stack := ToList(states);
    while |stack| > 0
      invariant states <= closure <= full
      invariant forall k :: 0 <= k < |stack| ==> stack[k] in closure
      invariant Scanned(ts, closure, stack)
      decreases |full - closure|, |stack|
    {
      var state := stack[|stack| - 1];
      assert stack == stack[..|stack| - 1] + [state];
      stack := stack[..|stack| - 1];
      ghost var closure0, stack0 := closure, stack;
      closure, stack := ScanEpsilonEdges(ts, state, closure, stack, full);
      if closure != closure0 {
        ProperSubsetSmaller(full - closure, full - closure0);
      }
    }
    ScannedAllClosed(ts, closure);
    ClosureLeast(ts, states, closure);
  }

  lemma ScannedAllClosed(ts: seq<Transition>, closure: set<Id>)
    requires Scanned(ts, closure, [])
    ensures EpsClosed(ts, closure)
  {
  }

  /** `Array.from(S)`: the elements of a set, each once, in some order. */
  method ToList(S: set<Id>) returns (r: seq<Id>)
    ensures forall k :: 0 <= k < |r| ==> r[k] in S
    ensures forall x :: x in S ==> x in r
    ensures |r| == |S|
  {
    r := [];
    var rest := S;
    while rest != {}
      invariant rest <= S
      invariant forall k :: 0 <= k < |r| ==> r[k] in S - rest
      invariant forall x :: x in S - rest ==> x in r
      invariant |r| + |rest| == |S|
      decreases |rest|
    {
      var x :| x in rest;
      r := r + [x];
      rest := rest - {x};
    }
  }

  /** One pop of the worklist: scan the transitions in list order and add,
      and push, every unseen target of an ε-transition from `state`. */
  method ScanEpsilonEdges(ts: seq<Transition>, state: Id, closure0: set<Id>, stack0: seq<Id>,
                          ghost full: set<Id>)
    returns (closure: set<Id>, stack: seq<Id>)
    requires state in closure0 && closure0 <= full && EpsClosed(ts, full)
    requires forall k :: 0 <= k < |stack0| ==> stack0[k] in closure0
    requires Scanned(ts, closure0, stack0 + [state])
    ensures closure0 <= closure <= full
    ensures closure == closure0 ==> stack == stack0
    ensures forall k :: 0 <= k < |stack| ==> stack[k] in closure
    ensures Scanned(ts, closure, stack)
  {
    closure, stack := closure0, stack0;
    for j := 0 to |ts|
      invariant closure0 <= closure <= full
      invariant closure == closure0 ==> stack == stack0
      invariant forall k :: 0 <= k < |stack| ==> stack[k] in closure
      invariant Scanned(ts, closure, stack + [state])
      invariant forall k :: 0 <= k < j ==> (ts[k].from == state && ts[k].symbol == Epsilon
                                            ==> ts[k].to in closure)
    {
      var t := ts[j];
      if t.from == state && t.symbol == Epsilon && t.to !in closure {
        assert t.to in Post(ts, full, Epsilon);
        ScannedGrow(ts, closure, stack + [state], t.to, stack + [t.to] + [state]);
        closure := closure + {t.to};
        stack := stack + [t.to];
      }
    }
  }

  /** `move`: for each state of the set, scan the transitions in order and
      collect the targets of those labelled `symbol`. */
  method MoveStates(ts: seq<Transition>, states: set<Id>, symbol: Symbol) returns (result: set<Id>)
    ensures result == Move(ts, states, symbol)
  {
    result := {};
    var rest := states;
    while rest != {}
      invariant rest <= states
      invariant result == Post(ts, states - rest, symbol)
      decreases |rest|
    {
      var state :| state in rest;
      ghost var done := Post(ts, states - rest, symbol);
      for j := 0 to |ts|
        invariant result == done + Post(ts[..j], {state}, symbol)
      {
        var t := ts[j];
        assert ts[..j + 1] == ts[..j] + [t];
        if t.from == state && t.symbol == symbol {
          result := result + {t.to};
        }
      }
      assert ts[..|ts|] == ts;
      rest := rest - {state};
      assert Post(ts, states - rest, symbol) == done + Post(ts, {state}, symbol);
    }
  }
}

/** `removeEpsilonTransitions` of app/components/RegexToNFA.tsx: every
    state takes over the non-ε edges of its ε-closure and becomes final
    when its closure holds a final state; the ε-edges are dropped and the
    new edges are deduplicated through string keys `from|to|symbol`. */
module EpsilonRemoval {
  import opened Strings
  import opened Seqs
  import opened Automaton
  import opened Closures
  import opened Language

  /** The ids of the states flagged final. */
  function FinalIdSet(states: seq<State>): set<Id>
  {
    set s | s in states && s.isFinal :: s.id
  }

  /** The state as the ε-free automaton keeps it: same id, label and
      initial flag, final when its closure meets a final state. */
  function Reflagged(ts: seq<Transition>, finals: set<Id>, s: State): (r: State)
    ensures r.id == s.id && r.isInitial == s.isInitial && r.displayLabel == s.displayLabel
  {
    s.(isFinal := Closure(ts, {s.id}) * finals != {})
  }

  /** The non-ε edges leaving `sources`, re-rooted at `id`. */
  function EdgesFrom(ts: seq<Transition>, id: Id, sources: set<Id>): (r: set<Transition>)
    ensures forall e :: e in r <==> exists t :: t in ts && t.from in sources && t.symbol != Epsilon
                                                && e == Transition(id, t.to, t.symbol)
  {
    set t | t in ts && t.from in sources && t.symbol != Epsilon :: Transition(id, t.to, t.symbol)
  }

  /** The edges the ε-free automaton gives the states of `ss`. */
  function EdgesOf(ts: seq<Transition>, ss: seq<State>): set<Transition>
  {
    set s, t | s in ss && t in ts && t.from in Closure(ts, {s.id}) && t.symbol != Epsilon
             :: Transition(s.id, t.to, t.symbol)
  }

  /** What `removeEpsilonTransitions(nfa)` returns, up to the order of its
      transitions: the reflagged states in the same order, the same
      alphabet, and the edges of `EdgesOf` each listed once. */
  ghost predicate IsEpsilonFree(r: Nfa, nfa: Nfa)
  {
    |r.states| == |nfa.states|
    && (forall i :: 0 <= i < |r.states| ==>
          r.states[i] == Reflagged(nfa.transitions, FinalIdSet(nfa.states), nfa.states[i]))
    && r.alphabet == nfa.alphabet
    && Distinct(r.transitions)
    && (forall e :: e in r.transitions <==> e in EdgesOf(nfa.transitions, nfa.states))
  }

  /** The ε-free automaton has no ε-edge, its edges leave its own states,
      and it keeps the ids and the initial flags. */
  lemma EpsilonFreeShape(r: Nfa, nfa: Nfa)
    requires IsEpsilonFree(r, nfa)
    ensures forall t :: t in r.transitions ==> t.symbol != Epsilon && t.from in StateIds(nfa.states)
    ensures Ids(r.states) == Ids(nfa.states)
    ensures forall i :: 0 <= i < |r.states| ==> r.states[i].isInitial == nfa.states[i].isInitial
  {
  }

  /** A state of the ε-free automaton is final exactly when its ε-closure
      in the original holds a state flagged final. */
  lemma EpsilonFreeFinal(r: Nfa, nfa: Nfa, i: nat)
    requires IsEpsilonFree(r, nfa) && i < |r.states|
    ensures r.states[i].isFinal
            <==> exists s :: s in nfa.states && s.isFinal && s.id in Closure(nfa.transitions, {nfa.states[i].id})
  {
    var c := Closure(nfa.transitions, {nfa.states[i].id});
    var finals := FinalIdSet(nfa.states);
    assert r.states[i] == Reflagged(nfa.transitions, finals, nfa.states[i]);
    assert r.states[i].isFinal == (c * finals != {});
    if r.states[i].isFinal {
      var x :| x in c * finals;
      var s :| s in nfa.states && s.isFinal && s.id == x;
    } else {
      forall s | s in nfa.states && s.isFinal ensures s.id !in c {
        assert s.id in finals;
        assert s.id in c ==> s.id in c * finals;
      }
    }
  }

  /** The ε-free automaton has an edge `s -c-> t` exactly when some state
      of the ε-closure of `s` has a `c`-edge to `t`, for `c` other than ε. */
  lemma EpsilonFreeEdges(r: Nfa, nfa: Nfa, s: State, e: Transition)
    requires IsEpsilonFree(r, nfa) && s in nfa.states && e.from == s.id
    requires DistinctIds(nfa.states)
    ensures e in r.transitions
            <==> e.symbol != Epsilon
                 && exists t :: t in nfa.transitions && t.from in Closure(nfa.transitions, {s.id})
                                && t.symbol == e.symbol && t.to == e.to
  {
    var ts := nfa.transitions;
    if e in r.transitions {
      var s', t :| s' in nfa.states && t in ts && t.from in Closure(ts, {s'.id}) && t.symbol != Epsilon
                   && e == Transition(s'.id, t.to, t.symbol);
    }
    if e.symbol != Epsilon
       && exists t :: t in ts && t.from in Closure(ts, {s.id}) && t.symbol == e.symbol && t.to == e.to {
      var t :| t in ts && t.from in Closure(ts, {s.id}) && t.symbol == e.symbol && t.to == e.to;
      assert e == Transition(s.id, t.to, t.symbol);
      assert e in EdgesOf(ts, nfa.states);
    }
  }

  // ---------------------------------------------------------------------
  // Transition keys
  // ---------------------------------------------------------------------

  /** `${t.from}|${t.to}|${t.symbol}`. */
  function KeyOf(t: Transition): string
  {
    Join([t.from, t.to, t.symbol], '|')
  }

  predicate KeySafe(t: Transition)
  {
    '|' !in t.from && '|' !in t.to && '|' !in t.symbol
  }

  /** `str.split('|')` into `[from, to, symbol]`. */
  function Unkey(key: string): (t: Transition)
    requires |Split(key, '|')| >= 3
  {
    var parts := Split(key, '|');
    Transition(parts[0], parts[1], parts[2])
  }

  /** Splitting a key gives back the transition when no part holds `|`. */
  lemma KeyRoundTrip(t: Transition)
    requires KeySafe(t)
    ensures Split(KeyOf(t), '|') == [t.from, t.to, t.symbol]
    ensures Unkey(KeyOf(t)) == t
  {
    SplitJoin([t.from, t.to, t.symbol], '|');
  }

  /** A key with a `|` inside a part splits into too many pieces and no
      longer decodes to its transition. */
  lemma KeyAmbiguous()
    ensures var t := Transition("a|b", "c", "d");
            |Split(KeyOf(t), '|')| >= 3 && Unkey(KeyOf(t)) != t
  {
    var t := Transition("a|b", "c", "d");
    assert KeyOf(t) == "a" + "|" + ("b" + "|" + ("c" + "|" + "d"));
    SplitNoSep("d", '|');
    SplitPrefix("c", "d", '|');
    SplitPrefix("b", "c|d", '|');
    SplitPrefix("a", "b|c|d", '|');
    assert "c" + "|" + "d" == "c|d" && "b" + "|" + "c|d" == "b|c|d" && "a" + "|" + "b|c|d" == KeyOf(t);
  }

  // ---------------------------------------------------------------------
  // The method
  // ---------------------------------------------------------------------

  /** `removeEpsilonTransitions`. */
  method RemoveEpsilonTransitions(nfa: Nfa) returns (r: Nfa)
    requires forall s :: s in nfa.states ==> '|' !in s.id
    requires forall t :: t in nfa.transitions ==> '|' !in t.to && '|' !in t.symbol
    ensures IsEpsilonFree(r, nfa)
  {
    var states, ts := nfa.states, nfa.transitions;
    // 1. the ε-closure of each state
    var closure := ClosureMap(ts, states);
    // 2. the non-ε edges of each closure, re-rooted
    var newTransitions := CollectEdges(ts, states, closure);
    // 3. the final flags
    var finalStates := set s | s in states && s.isFinal :: s.id;
    var newStates := seq(|states|, i requires 0 <= i < |states| && states[i].id in closure
                                   => states[i].(isFinal := closure[states[i].id] * finalStates != {}));
    // 4. deduplicate through the string keys
    var keys := seq(|newTransitions|, i requires 0 <= i < |newTransitions| => KeyOf(newTransitions[i]));
    var uniqueKeys := Dedup(keys);
    KeysDecode(newTransitions, keys, uniqueKeys);
    var uniqueTransitions := seq(|uniqueKeys|, i requires 0 <= i < |uniqueKeys| && |Split(uniqueKeys[i], '|')| >= 3
                                               => Unkey(uniqueKeys[i]));
    UniqueTransitions(newTransitions, keys, uniqueKeys, uniqueTransitions);
    r := Nfa(newStates, uniqueTransitions, nfa.alphabet);
  }

  /** Step 1: the ε-closure of each state, by id. */
  method ClosureMap(ts: seq<Transition>, states: seq<State>) returns (closure: map<Id, set<Id>>)
    ensures forall k :: 0 <= k < |states| ==> states[k].id in closure
    ensures forall x :: x in closure ==> closure[x] == Closure(ts, {x})
  {
    closure := map[];
    for i := 0 to |states|
      invariant forall k :: 0 <= k < i ==> states[k].id in closure
      invariant forall x :: x in closure ==> closure[x] == Closure(ts, {x})
    {
      var c := EpsilonClosure(ts, {states[i].id});
      closure := closure[states[i].id := c];
    }
  }

  /** Step 2: for each state, for each id of its closure, for each
      transition leaving that id on a non-ε symbol, push the re-rooted
      edge. */
  method CollectEdges(ts: seq<Transition>, states: seq<State>, closure: map<Id, set<Id>>)
    returns (newTransitions: seq<Transition>)
    requires forall k :: 0 <= k < |states| ==> states[k].id in closure
    requires forall x :: x in closure ==> closure[x] == Closure(ts, {x})
    requires forall s :: s in states ==> '|' !in s.id
    requires forall t :: t in ts ==> '|' !in t.to && '|' !in t.symbol
    ensures forall e :: e in newTransitions <==> e in EdgesOf(ts, states)
    ensures forall e :: e in newTransitions ==> KeySafe(e)
  {
    newTransitions := [];
    for i := 0 to |states|
      invariant forall e :: e in newTransitions <==> e in EdgesOf(ts, states[..i])
      invariant forall e :: e in newTransitions ==> KeySafe(e)
    {
      var state := states[i];
      assert state in states;
      newTransitions := PushClosureEdges(ts, state.id, closure[state.id], newTransitions);
      EdgesOfStep(ts, states, i);
    }
    assert states[..|states|] == states;
  }

  /** The loop over the ids of one closure. */
  method PushClosureEdges(ts: seq<Transition>, id: Id, targets: set<Id>, acc: seq<Transition>)
    returns (newTransitions: seq<Transition>)
    requires '|' !in id
    requires forall t :: t in ts ==> '|' !in t.to && '|' !in t.symbol
    requires forall e :: e in acc ==> KeySafe(e)
    ensures forall e :: e in newTransitions <==> e in acc || e in EdgesFrom(ts, id, targets)
    ensures forall e :: e in newTransitions ==> KeySafe(e)
  {
    newTransitions := acc;
    var rest := targets;
    while rest != {}
      invariant rest <= targets
      invariant forall e :: e in newTransitions <==> e in acc || e in EdgesFrom(ts, id, targets - rest)
      invariant forall e :: e in newTransitions ==> KeySafe(e)
      decreases |rest|
    {
      var target :| target in rest;
      newTransitions := PushTargetEdges(ts, id, target, newTransitions);
      rest := rest - {target};
      EdgesFromSplit(ts, id, targets - rest, target);
    }
  }

  /** The loop over the transitions for one id of the closure. */
  method PushTargetEdges(ts: seq<Transition>, id: Id, target: Id, acc: seq<Transition>)
    returns (newTransitions: seq<Transition>)
    requires '|' !in id
    requires forall t :: t in ts ==> '|' !in t.to && '|' !in t.symbol
    requires forall e :: e in acc ==> KeySafe(e)
    ensures forall e :: e in newTransitions <==> e in acc || e in EdgesFrom(ts, id, {target})
    ensures forall e :: e in newTransitions ==> KeySafe(e)
  {
    newTransitions := acc;
    for j := 0 to |ts|
      invariant forall e :: e in newTransitions <==> e in acc || e in EdgesFrom(ts[..j], id, {target})
      invariant forall e :: e in newTransitions ==> KeySafe(e)
    {
      var t := ts[j];
      assert ts[..j + 1] == ts[..j] + [t];
      if t.from == target && t.symbol != Epsilon {
        newTransitions := newTransitions + [Transition(id, t.to, t.symbol)];
      }
    }
    assert ts[..|ts|] == ts;
  }

  lemma EdgesFromSplit(ts: seq<Transition>, id: Id, sources: set<Id>, x: Id)
    requires x in sources
    ensures EdgesFrom(ts, id, sources) == EdgesFrom(ts, id, sources - {x}) + EdgesFrom(ts, id, {x})
  {
  }

  lemma EdgesOfStep(ts: seq<Transition>, states: seq<State>, i: nat)
    requires i < |states|
    ensures EdgesOf(ts, states[..i + 1])
            == EdgesOf(ts, states[..i]) + EdgesFrom(ts, states[i].id, Closure(ts, {states[i].id}))
  {
    assert states[..i + 1] == states[..i] + [states[i]];
  }

  /** Every key decodes, and the decoded keys are the transitions. */
  lemma KeysDecode(newTransitions: seq<Transition>, keys: seq<string>, uniqueKeys: seq<string>)
    requires forall e :: e in newTransitions ==> KeySafe(e)
    requires |keys| == |newTransitions|
    requires forall i :: 0 <= i < |keys| ==> keys[i] == KeyOf(newTransitions[i])
    requires uniqueKeys == Dedup(keys)
    ensures forall i :: 0 <= i < |uniqueKeys| ==> |Split(uniqueKeys[i], '|')| >= 3
  {
    forall i | 0 <= i < |uniqueKeys| ensures |Split(uniqueKeys[i], '|')| >= 3 {
      var t := KeyedBy(newTransitions, keys, uniqueKeys[i]);
    }
  }

  /** The transition a listed key was made from. */
  lemma KeyedBy(newTransitions: seq<Transition>, keys: seq<string>, key: string) returns (t: Transition)
    requires forall e :: e in newTransitions ==> KeySafe(e)
    requires |keys| == |newTransitions|
    requires forall i :: 0 <= i < |keys| ==> keys[i] == KeyOf(newTransitions[i])
    requires key in keys
    ensures Split(key, '|') == [t.from, t.to, t.symbol]
    ensures t in newTransitions && key == KeyOf(t) && Unkey(key) == t
  {
    var k :| 0 <= k < |keys| && keys[k] == key;
    t := newTransitions[k];
    KeyRoundTrip(t);
  }

  /** Decoding the deduplicated keys lists every transition exactly once. */
  lemma UniqueTransitions(newTransitions: seq<Transition>, keys: seq<string>, uniqueKeys: seq<string>,
                          uniqueTransitions: seq<Transition>)
    requires forall e :: e in newTransitions ==> KeySafe(e)
    requires |keys| == |newTransitions|
    requires forall i :: 0 <= i < |keys| ==> keys[i] == KeyOf(newTransitions[i])
    requires uniqueKeys == Dedup(keys)
    requires forall i :: 0 <= i < |uniqueKeys| ==> |Split(uniqueKeys[i], '|')| >= 3
    requires |uniqueTransitions| == |uniqueKeys|
    requires forall i :: 0 <= i < |uniqueKeys| ==> uniqueTransitions[i] == Unkey(uniqueKeys[i])
    ensures Distinct(uniqueTransitions)
    ensures forall e :: e in uniqueTransitions <==> e in newTransitions
  {
    forall i | 0 <= i < |uniqueKeys|
      ensures uniqueKeys[i] == KeyOf(uniqueTransitions[i]) && uniqueTransitions[i] in newTransitions
    {
      var t := KeyedBy(newTransitions, keys, uniqueKeys[i]);
    }
    forall e | e in newTransitions ensures e in uniqueTransitions {
      var k :| 0 <= k < |newTransitions| && newTransitions[k] == e;
      assert keys[k] in uniqueKeys;
      var i :| 0 <= i < |uniqueKeys| && uniqueKeys[i] == keys[k];
      KeyRoundTrip(e);
      assert uniqueTransitions[i] == e;
    }
  }

  // ---------------------------------------------------------------------
  // The ε-free automaton accepts the same words
  // ---------------------------------------------------------------------

  /** Without ε-edges every set is its own closure. */
  lemma ClosureNoEpsilon(ts: seq<Transition>, S: set<Id>)
    requires forall t :: t in ts ==> t.symbol != Epsilon
    ensures Closure(ts, S) == S
  {
    assert Post(ts, S, Epsilon) == {};
  }

  lemma {:induction false} InitialIdSame(a: seq<State>, b: seq<State>)
    requires |a| == |b|
    requires forall i :: 0 <= i < |a| ==> a[i].id == b[i].id && a[i].isInitial == b[i].isInitial
    ensures InitialIdOrEmpty(a) == InitialIdOrEmpty(b)
    decreases |a|
  {
    if |a| > 0 && !a[0].isInitial {
      InitialIdSame(a[1..], b[1..]);
    }
  }

  /** One step of the ε-free automaton from `X` reaches what the original
      reaches from the closure of `X`. */
  lemma MoveEpsilonFree(r: Nfa, nfa: Nfa, X: set<Id>, a: Symbol)
    requires IsEpsilonFree(r, nfa) && EdgesLeaveStates(nfa) && a != Epsilon
    ensures Move(r.transitions, X, a) == Move(nfa.transitions, Closure(nfa.transitions, X), a)
  {
    var ts := nfa.transitions;
    forall y | y in Move(r.transitions, X, a) ensures y in Move(ts, Closure(ts, X), a) {
      MoveForward(ts, nfa.states, r.transitions, X, a, y);
    }
    forall y | y in Move(ts, Closure(ts, X), a) ensures y in Move(r.transitions, X, a) {
      MoveBackward(ts, nfa.states, r.transitions, X, a, y);
    }
  }

  lemma MoveForward(ts: seq<Transition>, states: seq<State>, ts': seq<Transition>, X: set<Id>, a: Symbol, y: Id)
    requires forall e :: e in ts' ==> e in EdgesOf(ts, states)
    requires y in Move(ts', X, a)
    ensures y in Move(ts, Closure(ts, X), a)
  {
    var e :| e in ts' && e.from in X && e.symbol == a && e.to == y;
    assert e in EdgesOf(ts, states);
    var s, t :| s in states && t in ts && t.from in Closure(ts, {s.id}) && t.symbol != Epsilon
                && e == Transition(s.id, t.to, t.symbol);
    ClosureMonotonic(ts, {s.id}, X);
    assert t.from in Closure(ts, X);
  }

  lemma MoveBackward(ts: seq<Transition>, states: seq<State>, ts': seq<Transition>, X: set<Id>, a: Symbol, y: Id)
    requires forall e :: e in EdgesOf(ts, states) ==> e in ts'
    requires forall t :: t in ts ==> t.from in StateIds(states)
    requires a != Epsilon && y in Move(ts, Closure(ts, X), a)
    ensures y in Move(ts', X, a)
  {
    var t :| t in ts && t.from in Closure(ts, X) && t.symbol == a && t.to == y;
    var x := SourceOf(ts, states, X, t.from);
    var s :| s in states && s.id == x;
    assert Transition(x, t.to, t.symbol) in EdgesOf(ts, states);
  }

  /** A listed state in the closure of `X` lies in the closure of a listed
      state of `X`, when every transition leaves a listed state. */
  lemma SourceOf(ts: seq<Transition>, states: seq<State>, X: set<Id>, z: Id) returns (x: Id)
    requires forall t :: t in ts ==> t.from in StateIds(states)
    requires z in Closure(ts, X) && z in StateIds(states)
    ensures x in X && z in Closure(ts, {x})
    ensures x in StateIds(states)
  {
    ClosureUnion(ts, X, z);
    x :| x in X && z in Closure(ts, {x});
    if x !in StateIds(states) {
      ClosureOfSink(ts, x);
    }
  }

  /** Closing the live set of the ε-free automaton gives the live set of
      the original, word by word. */
  lemma {:induction false} RunEpsilonFree(r: Nfa, nfa: Nfa, w: seq<Symbol>)
    requires IsEpsilonFree(r, nfa) && EdgesLeaveStates(nfa)
    requires forall k :: 0 <= k < |w| ==> w[k] != Epsilon
    ensures Closure(nfa.transitions, Run(r.transitions, Start(r), w)) == Run(nfa.transitions, Start(nfa), w)
    decreases |w|
  {
    var ts, ts' := nfa.transitions, r.transitions;
    EpsilonFreeShape(r, nfa);
    if |w| == 0 {
      InitialIdSame(r.states, nfa.states);
      ClosureNoEpsilon(ts', {InitialIdOrEmpty(r.states)});
    } else {
      var p, a := w[..|w| - 1], w[|w| - 1];
      RunEpsilonFree(r, nfa, p);
      var X := Run(ts', Start(r), p);
      RunLast(ts', Start(r), w);
      RunLast(ts, Start(nfa), w);
      ClosureNoEpsilon(ts', X);
      ClosureNoEpsilon(ts', Move(ts', X, a));
      MoveEpsilonFree(r, nfa, X, a);
      ClosureIdempotent(ts, X);
    }
  }

  /** The ε-free automaton accepts a live set exactly when the original
      accepts its closure. */
  lemma HasFinalEpsilonFree(r: Nfa, nfa: Nfa, X: set<Id>)
    requires IsEpsilonFree(r, nfa) && EdgesLeaveStates(nfa) && DistinctIds(nfa.states)
    ensures HasFinal(r.states, X) <==> HasFinal(nfa.states, Closure(nfa.transitions, X))
  {
    if HasFinal(r.states, X) {
      var id :| id in X && IsFinalId(r.states, id);
      FinalForward(r, nfa, X, id);
    }
    if HasFinal(nfa.states, Closure(nfa.transitions, X)) {
      var y :| y in Closure(nfa.transitions, X) && IsFinalId(nfa.states, y);
      FinalBackward(r, nfa, X, y);
    }
  }

  lemma FinalForward(r: Nfa, nfa: Nfa, X: set<Id>, id: Id)
    requires IsEpsilonFree(r, nfa) && DistinctIds(nfa.states)
    requires id in X && IsFinalId(r.states, id)
    ensures HasFinal(nfa.states, Closure(nfa.transitions, X))
  {
    var ts := nfa.transitions;
    var k :| 0 <= k < |r.states| && r.states[k] == FindById(r.states, id).value;
    EpsilonFreeFinal(r, nfa, k);
    var f :| f in nfa.states && f.isFinal && f.id in Closure(ts, {nfa.states[k].id});
    ClosureMonotonic(ts, {id}, X);
    IsFinalIdDistinct(nfa.states, f.id);
    assert f.id in Closure(ts, X) && IsFinalId(nfa.states, f.id);
  }

  /** Removing ε-transitions keeps the ids, so keeps them distinct. */
  lemma EpsilonFreeDistinct(r: Nfa, nfa: Nfa)
    requires IsEpsilonFree(r, nfa) && DistinctIds(nfa.states)
    ensures DistinctIds(r.states)
  {
    EpsilonFreeShape(r, nfa);
    forall a, b | 0 <= a < b < |r.states| ensures r.states[a].id != r.states[b].id {
      assert Ids(r.states)[a] == Ids(nfa.states)[a] && Ids(r.states)[b] == Ids(nfa.states)[b];
    }
  }

  lemma FinalBackward(r: Nfa, nfa: Nfa, X: set<Id>, y: Id)
    requires IsEpsilonFree(r, nfa) && EdgesLeaveStates(nfa) && DistinctIds(nfa.states)
    requires y in Closure(nfa.transitions, X) && IsFinalId(nfa.states, y)
    ensures HasFinal(r.states, X)
  {
    var ts := nfa.transitions;
    var f := FindById(nfa.states, y).value;
    assert y in StateIds(nfa.states);
    var x := SourceOf(ts, nfa.states, X, y);
    var s :| s in nfa.states && s.id == x;
    var i :| 0 <= i < |nfa.states| && nfa.states[i] == s;
    EpsilonFreeFinal(r, nfa, i);
    EpsilonFreeDistinct(r, nfa);
    IsFinalIdDistinct(r.states, x);
    assert r.states[i] in r.states;
    assert IsFinalId(r.states, x);
  }

  /** Removing ε-transitions keeps the language: on every word without the
      symbol ε the ε-free automaton accepts exactly when the original does
      (ids distinct, every transition leaving a listed state). */
  lemma EpsilonFreeAccepts(r: Nfa, nfa: Nfa, w: seq<Symbol>)
    requires IsEpsilonFree(r, nfa) && EdgesLeaveStates(nfa) && DistinctIds(nfa.states)
    requires forall k :: 0 <= k < |w| ==> w[k] != Epsilon
    ensures Accepts(r, w) <==> Accepts(nfa, w)
  {
    RunEpsilonFree(r, nfa, w);
    HasFinalEpsilonFree(r, nfa, Run(r.transitions, Start(r), w));
  }
}

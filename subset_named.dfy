/** `nfaToDfa` of app/components/NfaToDfa.ts: the subset construction by
    breadth-first search, each DFA state named by its set of NFA states
    (`getStateName`). */
module SubsetNamed {
  import opened Wrappers
  import opened Strings
  import opened Seqs
  import opened Automaton
  import opened Closures
  import opened Language
  import opened Dfas

  const NoInitialError: string := "NFA has no initial state"

  /** What the search knows after `done` dequeues: every registered name
      is visited, listed once in registration order and names its own
      ε-closed subset of the universe; the queue holds the registered sets
      not yet dequeued, in registration order; every emitted transition
      leads from a dequeued state to the closure of the targets of its
      set; and every dequeued state has a transition on every symbol. */
  ghost predicate Explored(nfa: Nfa, alphabet: seq<Symbol>, dfaStates: map<Id, set<Id>>, order: seq<Id>,
                           visited: set<Id>, queue: seq<set<Id>>, transitions: seq<Transition>, done: nat)
  {
    var ts := nfa.transitions;
    dfaStates.Keys == visited
    && Distinct(order) && (forall x :: x in order <==> x in dfaStates)
    && (forall p :: p in dfaStates ==>
          p == SetName(dfaStates[p]) && dfaStates[p] <= Universe(nfa) && EpsClosed(ts, dfaStates[p]))
    && done + |queue| == |order|
    && (forall k :: 0 <= k < |queue| ==> order[done + k] == SetName(queue[k]) && queue[k] == dfaStates[order[done + k]])
    && (forall t :: t in transitions ==>
          t.from in dfaStates && t.to in dfaStates && t.symbol in alphabet
          && dfaStates[t.to] == Delta(ts, dfaStates[t.from], t.symbol))
    && (forall k, a :: 0 <= k < done && a in alphabet ==> DfaNext(transitions, order[k], a).Some?)
    && |transitions| == done * |alphabet|
  }

  /** `nfaToDfa`: fails when no state is initial; otherwise explores the
      closures reachable from the initial closure, emitting one transition
      per dequeued set and alphabet symbol, and returns a subset automaton
      of `nfa` whose states are named by their sets. */
  method NfaToDfa(nfa: Nfa) returns (r: Result<Dfa, string>, ghost sets: map<Id, set<Id>>)
    requires NameSafe(nfa)
    ensures FindInitial(nfa.states).None? ==> r == Err(NoInitialError)
    ensures FindInitial(nfa.states).Some? ==> r.Ok? && IsSubsetDfa(nfa, r.value, sets)
    ensures r.Ok? ==> r.value.initialState == SetName(Start(nfa))
    ensures r.Ok? ==> forall p :: p in sets ==> p == SetName(sets[p])
    ensures r.Ok? ==> forall w :: (forall k :: 0 <= k < |w| ==> w[k] in r.value.alphabet) ==>
                        (DfaAccepts(r.value, w) <==> Accepts(nfa, w))
  {
    var ts := nfa.transitions;
    var nfaAlphabet := NonEpsilon(nfa.alphabet);
    var nfaInitial := FindInitial(nfa.states);
    if nfaInitial.None? {
      return Err(NoInitialError), map[];
    }
    UniverseSafe(nfa);
    StartInUniverse(nfa);
    var initialClosure := EpsilonClosure(ts, {nfaInitial.value.id});
    var initialName := SetName(initialClosure);
    var dfaStates: map<Id, set<Id>> := map[initialName := initialClosure];
    var order: seq<Id> := [initialName];
    var dfaTransitions: seq<Transition> := [];
    var queue: seq<set<Id>> := [initialClosure];
    var visited: set<Id> := {initialName};
    ghost var done: nat := 0;
    ghost var names := AllNames(Universe(nfa));
    ExploredStart(nfa, nfaAlphabet, initialClosure);

    while |queue| > 0
      invariant Explored(nfa, nfaAlphabet, dfaStates, order, visited, queue, dfaTransitions, done)
      invariant initialName in dfaStates && dfaStates[initialName] == Start(nfa)
      invariant visited <= names
      decreases |names - visited|, |queue|
    {
      var current := queue[0];
      RowStart(nfa, nfaAlphabet, dfaStates, order, visited, queue, dfaTransitions, done);
      queue := queue[1..];
      var currentName := SetName(current);
      dfaStates, order, visited, queue, dfaTransitions :=
        ExpandSet(nfa, nfaAlphabet, current, currentName, dfaStates, order, visited, queue, dfaTransitions, done,
                  initialName, names);
      RowEnd(nfa, nfaAlphabet, dfaStates, order, visited, queue, dfaTransitions, done, current, currentName);
      done := done + 1;
    }
    var dfa := BuildDfa(nfa, nfaAlphabet, dfaStates, order, dfaTransitions, initialName);
    ExploredDfa(nfa, nfaAlphabet, dfaStates, order, visited, dfaTransitions, done, initialName);
    SubsetDfaLanguage(nfa, dfa, dfaStates);
    return Ok(dfa), dfaStates;
  }

  /** The `for (const symbol of nfaAlphabet)` loop: for each symbol,
      close the targets of `current`, register and enqueue the closure when
      its name is new, and emit the transition between the names. */
  method ExpandSet(nfa: Nfa, nfaAlphabet: seq<Symbol>, current: set<Id>, currentName: Id,
                   dfaStates0: map<Id, set<Id>>, order0: seq<Id>, visited0: set<Id>, queue0: seq<set<Id>>,
                   dfaTransitions0: seq<Transition>, ghost done: nat, ghost initialName: Id, ghost names: set<Id>)
    returns (dfaStates: map<Id, set<Id>>, order: seq<Id>, visited: set<Id>, queue: seq<set<Id>>,
             dfaTransitions: seq<Transition>)
    requires NameSafe(nfa) && FindInitial(nfa.states).Some? && names == AllNames(Universe(nfa))
    requires ExploringRow(nfa, nfaAlphabet, dfaStates0, order0, visited0, queue0, dfaTransitions0, done,
                          current, currentName, 0)
    requires initialName in dfaStates0 && dfaStates0[initialName] == Start(nfa)
    requires visited0 <= names
    ensures ExploringRow(nfa, nfaAlphabet, dfaStates, order, visited, queue, dfaTransitions, done,
                         current, currentName, |nfaAlphabet|)
    ensures initialName in dfaStates && dfaStates[initialName] == Start(nfa)
    ensures visited0 <= visited <= names
    ensures visited == visited0 ==> |queue| == |queue0|
    ensures visited == visited0 || |names - visited| < |names - visited0|
  {
    var ts := nfa.transitions;
    dfaStates, order, visited, queue, dfaTransitions := dfaStates0, order0, visited0, queue0, dfaTransitions0;
    for j := 0 to |nfaAlphabet|
      invariant ExploringRow(nfa, nfaAlphabet, dfaStates, order, visited, queue, dfaTransitions, done,
                             current, currentName, j)
      invariant initialName in dfaStates && dfaStates[initialName] == Start(nfa)
      invariant visited0 <= visited <= names
      invariant visited == visited0 ==> |queue| == |queue0|
      invariant visited == visited0 || |names - visited| < |names - visited0|
    {
      var symbol := nfaAlphabet[j];
      var moveSet := MoveStates(ts, current, symbol);
      var closure := EpsilonClosure(ts, moveSet);
      var closureName := SetName(closure);
      ghost var dfaStates1, order1, visited1, queue1, transitions1 := dfaStates, order, visited, queue, dfaTransitions;
      assert closure == Delta(ts, current, nfaAlphabet[j]);
      if closureName !in dfaStates {
        dfaStates := dfaStates[closureName := closure];
        order := order + [closureName];
      }
      if closureName !in visited {
        queue := queue + [closure];
        visited := visited + {closureName};
      }
      dfaTransitions := dfaTransitions + [Transition(currentName, closureName, symbol)];
      RowStep(nfa, nfaAlphabet, dfaStates1, order1, visited1, queue1, transitions1, done, current, currentName, j,
              closure, closureName, dfaStates, order, visited, queue, dfaTransitions);
      VisitStep(names, visited0, visited1, visited);
    }
  }

  lemma ExploredStart(nfa: Nfa, alphabet: seq<Symbol>, initialClosure: set<Id>)
    requires FindInitial(nfa.states).Some? && initialClosure == Start(nfa)
    ensures var initialName := SetName(initialClosure);
            Explored(nfa, alphabet, map[initialName := initialClosure], [initialName], {initialName},
                     [initialClosure], [], 0)
  {
    StartInUniverse(nfa);
  }

  lemma RowStart(nfa: Nfa, alphabet: seq<Symbol>, dfaStates: map<Id, set<Id>>, order: seq<Id>,
                 visited: set<Id>, queue: seq<set<Id>>, transitions: seq<Transition>, done: nat)
    requires Explored(nfa, alphabet, dfaStates, order, visited, queue, transitions, done) && |queue| > 0
    ensures ExploringRow(nfa, alphabet, dfaStates, order, visited, queue[1..], transitions, done,
                         queue[0], SetName(queue[0]), 0)
  {
    forall k | 0 <= k < |queue[1..]|
      ensures order[done + 1 + k] == SetName(queue[1..][k]) && queue[1..][k] == dfaStates[order[done + 1 + k]]
    {
      assert queue[1..][k] == queue[k + 1];
    }
  }

  lemma RowStep(nfa: Nfa, alphabet: seq<Symbol>, dfaStates: map<Id, set<Id>>, order: seq<Id>,
                visited: set<Id>, queue: seq<set<Id>>, transitions: seq<Transition>, done: nat,
                current: set<Id>, currentName: Id, j: nat, closure: set<Id>, closureName: Id,
                dfaStates': map<Id, set<Id>>, order': seq<Id>, visited': set<Id>, queue': seq<set<Id>>,
                transitions': seq<Transition>)
    requires NameSafe(nfa) && FindInitial(nfa.states).Some?
    requires ExploringRow(nfa, alphabet, dfaStates, order, visited, queue, transitions, done, current, currentName, j)
    requires j < |alphabet|
    requires closure == Delta(nfa.transitions, current, alphabet[j]) && closureName == SetName(closure)
    requires dfaStates' == (if closureName in dfaStates then dfaStates else dfaStates[closureName := closure])
             && order' == (if closureName in dfaStates then order else order + [closureName])
             && visited' == (if closureName in visited then visited else visited + {closureName})
             && queue' == (if closureName in visited then queue else queue + [closure])
             && transitions' == transitions + [Transition(currentName, closureName, alphabet[j])]
    ensures ExploringRow(nfa, alphabet, dfaStates', order', visited', queue', transitions', done,
                         current, currentName, j + 1)
    ensures visited' <= AllNames(Universe(nfa))
  {
    UniverseSafe(nfa);
    DeltaInUniverse(nfa, current, alphabet[j]);
    if closureName in dfaStates {
      SetNameInjective(dfaStates[closureName], closure);
    }
    StepSets(dfaStates, order, closure, closureName, dfaStates', order');
    StepNamed(nfa, dfaStates, closure, dfaStates');
    NamesBound(nfa, dfaStates', Universe(nfa));
    StepQueue(dfaStates, order, queue, done, closure, dfaStates', order', queue');
    StepTransitions(nfa, alphabet, dfaStates, transitions, current, currentName, j, dfaStates', transitions');
    StepNext(alphabet, order, transitions, done, currentName, j, order', transitions');
  }

  /** Registering `closure` under its name keeps every name listed once
      and extends the map without changing it. */
  lemma StepSets(dfaStates: map<Id, set<Id>>, order: seq<Id>, closure: set<Id>, closureName: Id,
                 dfaStates': map<Id, set<Id>>, order': seq<Id>)
    requires Distinct(order) && (forall x :: x in order <==> x in dfaStates)
    requires closureName in dfaStates ==> dfaStates[closureName] == closure
    requires dfaStates' == (if closureName in dfaStates then dfaStates else dfaStates[closureName := closure])
    requires order' == (if closureName in dfaStates then order else order + [closureName])
    ensures Distinct(order') && (forall x :: x in order' <==> x in dfaStates')
    ensures dfaStates'.Keys == dfaStates.Keys + {closureName} && dfaStates'[closureName] == closure
    ensures forall p :: p in dfaStates ==> dfaStates'[p] == dfaStates[p]
    ensures |order'| == |order| + (if closureName in dfaStates then 0 else 1)
    ensures forall k :: 0 <= k < |order| ==> order'[k] == order[k]
    ensures closureName !in dfaStates ==> order'[|order|] == closureName
  {
    if closureName !in dfaStates {
      DistinctSnoc(order, closureName);
    }
  }

  /** Every registered name keeps naming its own ε-closed subset of the
      universe. */
  lemma StepNamed(nfa: Nfa, dfaStates: map<Id, set<Id>>, closure: set<Id>, dfaStates': map<Id, set<Id>>)
    requires forall p :: p in dfaStates ==>
               p == SetName(dfaStates[p]) && dfaStates[p] <= Universe(nfa) && EpsClosed(nfa.transitions, dfaStates[p])
    requires closure <= Universe(nfa) && EpsClosed(nfa.transitions, closure)
    requires dfaStates'.Keys == dfaStates.Keys + {SetName(closure)} && dfaStates'[SetName(closure)] == closure
    requires forall p :: p in dfaStates ==> dfaStates'[p] == dfaStates[p]
    ensures forall p :: p in dfaStates' ==>
              p == SetName(dfaStates'[p]) && dfaStates'[p] <= Universe(nfa) && EpsClosed(nfa.transitions, dfaStates'[p])
  {
  }

  /** Registered names are names of subsets of the universe. */
  lemma NamesBound(nfa: Nfa, dfaStates: map<Id, set<Id>>, U: set<Id>)
    requires U == Universe(nfa)
    requires forall p :: p in dfaStates ==> p == SetName(dfaStates[p]) && dfaStates[p] <= U
    ensures dfaStates.Keys <= AllNames(U)
  {
    forall p | p in dfaStates ensures p in AllNames(U) {
      assert p == SetName(dfaStates[p]);
    }
  }

  lemma StepQueue(dfaStates: map<Id, set<Id>>, order: seq<Id>, queue: seq<set<Id>>, done: nat, closure: set<Id>,
                  dfaStates': map<Id, set<Id>>, order': seq<Id>, queue': seq<set<Id>>)
    requires done + 1 + |queue| == |order|
    requires forall x :: x in order <==> x in dfaStates
    requires forall k :: 0 <= k < |queue| ==>
               order[done + 1 + k] == SetName(queue[k]) && queue[k] == dfaStates[order[done + 1 + k]]
    requires forall p :: p in dfaStates ==> p in dfaStates' && dfaStates'[p] == dfaStates[p]
    requires SetName(closure) in dfaStates'  && dfaStates'[SetName(closure)] == closure
    requires |order'| == |order| + (if SetName(closure) in dfaStates then 0 else 1)
    requires forall k :: 0 <= k < |order| ==> order'[k] == order[k]
    requires SetName(closure) !in dfaStates ==> order'[|order|] == SetName(closure)
    requires queue' == (if SetName(closure) in dfaStates then queue else queue + [closure])
    ensures done + 1 + |queue'| == |order'|
    ensures forall k :: 0 <= k < |queue'| ==>
              order'[done + 1 + k] == SetName(queue'[k]) && queue'[k] == dfaStates'[order'[done + 1 + k]]
  {
    forall k | 0 <= k < |queue'|
      ensures order'[done + 1 + k] == SetName(queue'[k]) && queue'[k] == dfaStates'[order'[done + 1 + k]]
    {
      if k < |queue| {
        assert order'[done + 1 + k] == order[done + 1 + k];
        assert order[done + 1 + k] in dfaStates;
      }
    }
  }

  lemma StepTransitions(nfa: Nfa, alphabet: seq<Symbol>, dfaStates: map<Id, set<Id>>, transitions: seq<Transition>,
                        current: set<Id>, currentName: Id, j: nat,
                        dfaStates': map<Id, set<Id>>, transitions': seq<Transition>)
    requires j < |alphabet|
    requires currentName in dfaStates && dfaStates[currentName] == current
    requires forall t :: t in transitions ==>
               t.from in dfaStates && t.to in dfaStates && t.symbol in alphabet
               && dfaStates[t.to] == Delta(nfa.transitions, dfaStates[t.from], t.symbol)
    requires forall p :: p in dfaStates ==> p in dfaStates' && dfaStates'[p] == dfaStates[p]
    requires var closure := Delta(nfa.transitions, current, alphabet[j]);
             SetName(closure) in dfaStates' && dfaStates'[SetName(closure)] == closure
             && transitions' == transitions + [Transition(currentName, SetName(closure), alphabet[j])]
    ensures forall t :: t in transitions' ==>
              t.from in dfaStates' && t.to in dfaStates' && t.symbol in alphabet
              && dfaStates'[t.to] == Delta(nfa.transitions, dfaStates'[t.from], t.symbol)
  {
  }

  lemma StepNext(alphabet: seq<Symbol>, order: seq<Id>, transitions: seq<Transition>, done: nat,
                 currentName: Id, j: nat, order': seq<Id>, transitions': seq<Transition>)
    requires j < |alphabet| && done < |order| <= |order'|
    requires forall k :: 0 <= k < |order| ==> order'[k] == order[k]
    requires (forall k, a :: 0 <= k < done && a in alphabet ==> DfaNext(transitions, order[k], a).Some?)
    requires forall i :: 0 <= i < j ==> DfaNext(transitions, currentName, alphabet[i]).Some?
    requires exists to :: transitions' == transitions + [Transition(currentName, to, alphabet[j])]
    ensures forall k, a :: 0 <= k < done && a in alphabet ==> DfaNext(transitions', order'[k], a).Some?
    ensures forall i :: 0 <= i < j + 1 ==> DfaNext(transitions', currentName, alphabet[i]).Some?
  {
    forall k, a | 0 <= k < done && a in alphabet ensures DfaNext(transitions', order'[k], a).Some? {
      assert order'[k] == order[k];
      NextKept(transitions, transitions', order[k], a);
    }
    forall i | 0 <= i < j + 1 ensures DfaNext(transitions', currentName, alphabet[i]).Some? {
      if i < j {
        NextKept(transitions, transitions', currentName, alphabet[i]);
      } else {
        assert transitions'[|transitions|] in transitions';
      }
    }
  }

  lemma NextKept(ts: seq<Transition>, ts': seq<Transition>, p: Id, a: Symbol)
    requires DfaNext(ts, p, a).Some? && forall t :: t in ts ==> t in ts'
    ensures DfaNext(ts', p, a).Some?
  {
  }

  lemma DistinctSnoc(xs: seq<Id>, x: Id)
    requires Distinct(xs) && x !in xs
    ensures Distinct(xs + [x])
  {
  }

  lemma RowEnd(nfa: Nfa, alphabet: seq<Symbol>, dfaStates: map<Id, set<Id>>, order: seq<Id>,
               visited: set<Id>, queue: seq<set<Id>>, transitions: seq<Transition>, done: nat,
               current: set<Id>, currentName: Id)
    requires ExploringRow(nfa, alphabet, dfaStates, order, visited, queue, transitions, done,
                          current, currentName, |alphabet|)
    ensures Explored(nfa, alphabet, dfaStates, order, visited, queue, transitions, done + 1)
  {
    forall k, a | 0 <= k < done + 1 && a in alphabet ensures DfaNext(transitions, order[k], a).Some? {
      if k == done {
        var i :| 0 <= i < |alphabet| && alphabet[i] == a;
      }
    }
    assert (done + 1) * |alphabet| == done * |alphabet| + |alphabet|;
  }

  lemma ExploredDfa(nfa: Nfa, alphabet: seq<Symbol>, dfaStates: map<Id, set<Id>>, order: seq<Id>,
                    visited: set<Id>, transitions: seq<Transition>, done: nat, initialName: Id)
    requires Explored(nfa, alphabet, dfaStates, order, visited, [], transitions, done)
    requires alphabet == NonEpsilon(nfa.alphabet) && FindInitial(nfa.states).Some?
    requires initialName in dfaStates && dfaStates[initialName] == Start(nfa)
    ensures IsSubsetDfa(nfa, BuildDfa(nfa, alphabet, dfaStates, order, transitions, initialName), dfaStates)
  {
    var dfa := BuildDfa(nfa, alphabet, dfaStates, order, transitions, initialName);
    BuildDfaStates(nfa, alphabet, dfaStates, order, transitions, initialName);
    ExploredSets(nfa, dfa, dfaStates);
    ExploredTransitions(nfa, dfa, dfaStates, order, done);
  }

  lemma ExploredSets(nfa: Nfa, dfa: Dfa, dfaStates: map<Id, set<Id>>)
    requires dfa.alphabet == NonEpsilon(nfa.alphabet) && FindInitial(nfa.states).Some?
    requires dfa.initialState in dfaStates && dfaStates[dfa.initialState] == Start(nfa)
    requires forall p :: p in dfaStates ==> p == SetName(dfaStates[p]) && EpsClosed(nfa.transitions, dfaStates[p])
    ensures SubsetSets(nfa, dfa, dfaStates)
  {
    forall p, q | p in dfaStates && q in dfaStates && dfaStates[p] == dfaStates[q] ensures p == q {
      assert p == SetName(dfaStates[p]) && q == SetName(dfaStates[q]);
    }
  }

  lemma ExploredTransitions(nfa: Nfa, dfa: Dfa, dfaStates: map<Id, set<Id>>, order: seq<Id>, done: nat)
    requires done == |order| == |dfa.states|
    requires forall x :: x in order <==> x in dfaStates
    requires forall t :: t in dfa.transitions ==>
               t.from in dfaStates && t.to in dfaStates && t.symbol in dfa.alphabet
               && dfaStates[t.to] == Delta(nfa.transitions, dfaStates[t.from], t.symbol)
    requires forall k, a :: 0 <= k < done && a in dfa.alphabet ==> DfaNext(dfa.transitions, order[k], a).Some?
    requires |dfa.transitions| == done * |dfa.alphabet|
    ensures SubsetTransitions(nfa, dfa, dfaStates)
  {
    forall p, a | p in dfaStates && a in dfa.alphabet ensures DfaNext(dfa.transitions, p, a).Some? {
      var k :| 0 <= k < |order| && order[k] == p;
    }
  }

  /** The invariant of the inner loop, over the symbols of the set being
      expanded. */
  ghost predicate ExploringRow(nfa: Nfa, alphabet: seq<Symbol>, dfaStates: map<Id, set<Id>>, order: seq<Id>,
                               visited: set<Id>, queue: seq<set<Id>>, transitions: seq<Transition>, done: nat,
                               current: set<Id>, currentName: Id, j: nat)
  {
    var ts := nfa.transitions;
    j <= |alphabet|
    && dfaStates.Keys == visited
    && Distinct(order) && (forall x :: x in order <==> x in dfaStates)
    && (forall p :: p in dfaStates ==>
          p == SetName(dfaStates[p]) && dfaStates[p] <= Universe(nfa) && EpsClosed(ts, dfaStates[p]))
    && done + 1 + |queue| == |order|
    && order[done] == currentName && currentName in dfaStates && dfaStates[currentName] == current
    && (forall k :: 0 <= k < |queue| ==>
          order[done + 1 + k] == SetName(queue[k]) && queue[k] == dfaStates[order[done + 1 + k]])
    && (forall t :: t in transitions ==>
          t.from in dfaStates && t.to in dfaStates && t.symbol in alphabet
          && dfaStates[t.to] == Delta(ts, dfaStates[t.from], t.symbol))
    && (forall k, a :: 0 <= k < done && a in alphabet ==> DfaNext(transitions, order[k], a).Some?)
    && (forall i :: 0 <= i < j ==> DfaNext(transitions, currentName, alphabet[i]).Some?)
    && |transitions| == done * |alphabet| + j
  }
}

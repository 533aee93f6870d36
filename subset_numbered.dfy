/** `nfaToDfa` of app/components/NFAtoDFA.tsx: the same breadth-first
    subset construction as app/components/NfaToDfa.ts, except that each
    DFA state is named `e1`, `e2`, … in the order its set is first met
    (`getEqName`), the set key (`getSetKey`) serving only to recognise
    sets already met. The search is modelled with the key-named
    transitions kept alongside as ghost state; the result is their
    one-to-one renaming. */
module SubsetNumbered {
  import opened Wrappers
  import opened Strings
  import opened Seqs
  import opened Automaton
  import opened Closures
  import opened Language
  import opened Dfas
  import opened Renaming
  import opened SubsetNamed

  /** The equivalence-class name `e${n}`. */
  function EqName(n: nat): (name: Id)
    ensures |name| >= 2 && name[0] == 'e'
  {
    "e" + NatToString(n)
  }

  lemma EqNameInjective(a: nat, b: nat)
    requires EqName(a) == EqName(b)
    ensures a == b
  {
    assert NatToString(a) == EqName(a)[1..];
    assert NatToString(b) == EqName(b)[1..];
    NatToStringInjective(a, b);
  }

  /** `getEqName`: the name of the set's key, giving the key the next
      `e${eqCounter}` name first when it has none. */
  method GetEqName(stateNameMap: map<Id, Id>, eqCounter: nat, states: set<Id>)
    returns (name: Id, stateNameMap': map<Id, Id>, eqCounter': nat)
    ensures SetName(states) in stateNameMap' && name == stateNameMap'[SetName(states)]
    ensures SetName(states) in stateNameMap ==> stateNameMap' == stateNameMap && eqCounter' == eqCounter
    ensures SetName(states) !in stateNameMap ==>
              stateNameMap' == stateNameMap[SetName(states) := EqName(eqCounter)] && eqCounter' == eqCounter + 1
  {
    var key := SetName(states);
    stateNameMap', eqCounter' := stateNameMap, eqCounter;
    if key !in stateNameMap' {
      stateNameMap' := stateNameMap'[key := EqName(eqCounter')];
      eqCounter' := eqCounter' + 1;
    }
    name := stateNameMap'[key];
  }

  /** The keys met so far, in order, are named `e1`, `e2`, … and the
      counter holds the next number. */
  ghost predicate Numbered(order: seq<Id>, stateNameMap: map<Id, Id>, eqCounter: nat)
  {
    eqCounter == |order| + 1
    && (forall x :: x in stateNameMap <==> x in order)
    && (forall k :: 0 <= k < |order| ==> stateNameMap[order[k]] == EqName(k + 1))
  }

  /** Naming a set keeps the numbering in step with the registration of
      its key. */
  lemma NumberStep(order: seq<Id>, dfaStates: map<Id, set<Id>>, stateNameMap: map<Id, Id>, eqCounter: nat,
                   key: Id, order': seq<Id>, stateNameMap': map<Id, Id>, eqCounter': nat)
    requires Numbered(order, stateNameMap, eqCounter) && (forall x :: x in order <==> x in dfaStates)
    requires key in stateNameMap ==> stateNameMap' == stateNameMap && eqCounter' == eqCounter
    requires key !in stateNameMap ==> stateNameMap' == stateNameMap[key := EqName(eqCounter)] && eqCounter' == eqCounter + 1
    requires order' == (if key in dfaStates then order else order + [key])
    ensures Numbered(order', stateNameMap', eqCounter')
    ensures forall x :: x in stateNameMap ==> x in stateNameMap' && stateNameMap'[x] == stateNameMap[x]
  {
  }

  lemma NumberedStart(initialKey: Id, stateNameMap: map<Id, Id>, eqCounter: nat)
    requires stateNameMap == map[][initialKey := EqName(1)] && eqCounter == 2
    ensures Numbered([initialKey], stateNameMap, eqCounter)
    ensures NamedEdges([], [], stateNameMap)
  {
    assert RenameTransitions([], stateNameMap) == [];
  }

  /** Numbered keys listed once have different names. */
  lemma NumberedOneToOne(order: seq<Id>, stateNameMap: map<Id, Id>, eqCounter: nat, keys: set<Id>)
    requires Numbered(order, stateNameMap, eqCounter) && Distinct(order)
    requires forall x :: x in keys <==> x in order
    ensures OneToOne(stateNameMap, keys)
  {
    forall p, q | p in keys && q in keys && stateNameMap[p] == stateNameMap[q] ensures p == q {
      var i :| 0 <= i < |order| && order[i] == p;
      var j :| 0 <= j < |order| && order[j] == q;
      EqNameInjective(i + 1, j + 1);
    }
  }

  /** The emitted transitions are the key-named ones renamed. */
  ghost predicate NamedEdges(dfaTransitions: seq<Transition>, keyTransitions: seq<Transition>, stateNameMap: map<Id, Id>)
  {
    (forall t :: t in keyTransitions ==> t.from in stateNameMap && t.to in stateNameMap)
    && dfaTransitions == RenameTransitions(keyTransitions, stateNameMap)
  }

  lemma NamedEdgesStep(dfaTransitions: seq<Transition>, keyTransitions: seq<Transition>, stateNameMap: map<Id, Id>,
                       from: Id, to: Id, a: Symbol,
                       dfaTransitions': seq<Transition>, keyTransitions': seq<Transition>, stateNameMap': map<Id, Id>)
    requires NamedEdges(dfaTransitions, keyTransitions, stateNameMap)
    requires forall x :: x in stateNameMap ==> x in stateNameMap' && stateNameMap'[x] == stateNameMap[x]
    requires from in stateNameMap' && to in stateNameMap'
    requires dfaTransitions' == dfaTransitions + [Transition(stateNameMap'[from], stateNameMap'[to], a)]
    requires keyTransitions' == keyTransitions + [Transition(from, to, a)]
    ensures NamedEdges(dfaTransitions', keyTransitions', stateNameMap')
  {
    var renamed := RenameTransitions(keyTransitions', stateNameMap');
    forall i | 0 <= i < |keyTransitions'| ensures renamed[i] == dfaTransitions'[i] {
      if i < |keyTransitions| {
        assert keyTransitions'[i] == keyTransitions[i] && keyTransitions[i] in keyTransitions;
      }
    }
  }

  /** The state list (app/components/NFAtoDFA.tsx:113-127): one state per key, in the order the
      keys were registered, named and labelled by the key's name. */
  function NumberedStates(nfa: Nfa, dfaStates: map<Id, set<Id>>, order: seq<Id>, stateNameMap: map<Id, Id>,
                          initialKey: Id): (states: seq<State>)
    requires forall x :: x in order ==> x in dfaStates && x in stateNameMap
    ensures |states| == |order|
    ensures forall k :: 0 <= k < |order| ==> states[k].id == stateNameMap[order[k]]
  {
    seq(|order|, k requires 0 <= k < |order| =>
          State(stateNameMap[order[k]], HasFinal(nfa.states, dfaStates[order[k]]), order[k] == initialKey,
                stateNameMap[order[k]]))
  }

  /** The numbered automaton is the key-named one of `BuildDfa` renamed. */
  lemma NumberedIsRenamed(nfa: Nfa, alphabet: seq<Symbol>, dfaStates: map<Id, set<Id>>, order: seq<Id>,
                          keyTransitions: seq<Transition>, dfaTransitions: seq<Transition>,
                          stateNameMap: map<Id, Id>, initialKey: Id)
    requires forall x :: x in order <==> x in dfaStates
    requires forall x :: x in order ==> x in stateNameMap
    requires initialKey in stateNameMap
    requires NamedEdges(dfaTransitions, keyTransitions, stateNameMap)
    ensures Covers(stateNameMap, BuildDfa(nfa, alphabet, dfaStates, order, keyTransitions, initialKey))
    ensures var states := NumberedStates(nfa, dfaStates, order, stateNameMap, initialKey);
            Dfa(states, dfaTransitions, alphabet, stateNameMap[initialKey], Ids(FinalStates(states)))
            == RenameDfa(BuildDfa(nfa, alphabet, dfaStates, order, keyTransitions, initialKey), stateNameMap)
  {
    var keyed := BuildDfa(nfa, alphabet, dfaStates, order, keyTransitions, initialKey);
    assert forall s :: s in keyed.states ==> s.id in stateNameMap by {
      forall s | s in keyed.states ensures s.id in stateNameMap {
        var k :| 0 <= k < |keyed.states| && keyed.states[k] == s;
      }
    }
    var states := NumberedStates(nfa, dfaStates, order, stateNameMap, initialKey);
    var renamed := RenameStates(keyed.states, stateNameMap);
    assert states == renamed by {
      forall k | 0 <= k < |order| ensures states[k] == renamed[k] {
      }
    }
  }

  /** The `for (const symbol of nfaAlphabet)` loop (app/components/NFAtoDFA.tsx:87-109): for
      each symbol, close the targets of `current`, name the closure, register
      and enqueue it when new, and emit the transition between the names. */
  method ExpandSet(nfa: Nfa, nfaAlphabet: seq<Symbol>, current: set<Id>, currentKey: Id, currentEq: Id,
                   dfaStates0: map<Id, set<Id>>, order0: seq<Id>, visited0: set<Id>, queue0: seq<set<Id>>,
                   dfaTransitions0: seq<Transition>, stateNameMap0: map<Id, Id>, eqCounter0: nat,
                   ghost keyTransitions0: seq<Transition>, ghost done: nat, ghost initialKey: Id,
                   ghost names: set<Id>)
    returns (dfaStates: map<Id, set<Id>>, order: seq<Id>, visited: set<Id>, queue: seq<set<Id>>,
             dfaTransitions: seq<Transition>, stateNameMap: map<Id, Id>, eqCounter: nat,
             ghost keyTransitions: seq<Transition>)
    requires NameSafe(nfa) && FindInitial(nfa.states).Some? && names == AllNames(Universe(nfa))
    requires ExploringRow(nfa, nfaAlphabet, dfaStates0, order0, visited0, queue0, keyTransitions0, done,
                          current, currentKey, 0)
    requires initialKey in dfaStates0 && dfaStates0[initialKey] == Start(nfa)
    requires |order0| > 0 && order0[0] == initialKey
    requires Numbered(order0, stateNameMap0, eqCounter0)
    requires NamedEdges(dfaTransitions0, keyTransitions0, stateNameMap0)
    requires currentKey in stateNameMap0 && currentEq == stateNameMap0[currentKey]
    requires visited0 <= names
    ensures ExploringRow(nfa, nfaAlphabet, dfaStates, order, visited, queue, keyTransitions, done,
                         current, currentKey, |nfaAlphabet|)
    ensures initialKey in dfaStates && dfaStates[initialKey] == Start(nfa)
    ensures |order| > 0 && order[0] == initialKey
    ensures Numbered(order, stateNameMap, eqCounter)
    ensures NamedEdges(dfaTransitions, keyTransitions, stateNameMap)
    ensures visited0 <= visited <= names
    ensures visited == visited0 ==> |queue| == |queue0|
    ensures visited == visited0 || |names - visited| < |names - visited0|
  {
    var ts := nfa.transitions;
    dfaStates, order, visited, queue := dfaStates0, order0, visited0, queue0;
    dfaTransitions, stateNameMap, eqCounter, keyTransitions := dfaTransitions0, stateNameMap0, eqCounter0, keyTransitions0;
    for j := 0 to |nfaAlphabet|
      invariant ExploringRow(nfa, nfaAlphabet, dfaStates, order, visited, queue, keyTransitions, done,
                             current, currentKey, j)
      invariant initialKey in dfaStates && dfaStates[initialKey] == Start(nfa)
      invariant |order| > 0 && order[0] == initialKey
      invariant Numbered(order, stateNameMap, eqCounter)
      invariant NamedEdges(dfaTransitions, keyTransitions, stateNameMap)
      invariant currentKey in stateNameMap && currentEq == stateNameMap[currentKey]
      invariant visited0 <= visited <= names
      invariant visited == visited0 ==> |queue| == |queue0|
      invariant visited == visited0 || |names - visited| < |names - visited0|
    {
      var symbol := nfaAlphabet[j];
      var moveSet := MoveStates(ts, current, symbol);
      var closure := EpsilonClosure(ts, moveSet);
      var closureKey := SetName(closure);
      ghost var dfaStates1, order1, visited1, queue1, keyTransitions1 := dfaStates, order, visited, queue, keyTransitions;
      ghost var nameMap1, counter1, dfaTransitions1 := stateNameMap, eqCounter, dfaTransitions;
      assert closure == Delta(ts, current, nfaAlphabet[j]);
      var closureEq;
      closureEq, stateNameMap, eqCounter := GetEqName(stateNameMap, eqCounter, closure);
      if closureKey !in dfaStates {
        dfaStates := dfaStates[closureKey := closure];
        order := order + [closureKey];
      }
      if closureKey !in visited {
        queue := queue + [closure];
        visited := visited + {closureKey};
      }
      dfaTransitions := dfaTransitions + [Transition(currentEq, closureEq, symbol)];
      keyTransitions := keyTransitions + [Transition(currentKey, closureKey, symbol)];
      RowStep(nfa, nfaAlphabet, dfaStates1, order1, visited1, queue1, keyTransitions1, done, current, currentKey, j,
              closure, closureKey, dfaStates, order, visited, queue, keyTransitions);
      NumberStep(order1, dfaStates1, nameMap1, counter1, closureKey, order, stateNameMap, eqCounter);
      NamedEdgesStep(dfaTransitions1, keyTransitions1, nameMap1, currentKey, closureKey, symbol,
                     dfaTransitions, keyTransitions, stateNameMap);
      VisitStep(names, visited0, visited1, visited);
    }
  }

  /** `nfaToDfa`: throws when no state is initial; otherwise a subset
      automaton of `nfa` whose states are `e1`, `e2`, … in the order the
      search first meets their sets, `e1` being the initial closure. */
  method NfaToDfa(nfa: Nfa) returns (r: Result<Dfa, string>, ghost sets: map<Id, set<Id>>)
    requires NameSafe(nfa)
    ensures FindInitial(nfa.states).None? ==> r == Err(NoInitialError)
    ensures FindInitial(nfa.states).Some? ==> r.Ok? && IsSubsetDfa(nfa, r.value, sets)
    ensures r.Ok? ==> r.value.initialState == EqName(1)
    ensures r.Ok? ==> forall k :: 0 <= k < |r.value.states| ==> r.value.states[k].id == EqName(k + 1)
    ensures r.Ok? ==> forall w :: (forall k :: 0 <= k < |w| ==> w[k] in r.value.alphabet) ==>
                        (DfaAccepts(r.value, w) <==> Accepts(nfa, w))
  {
    var ts := nfa.transitions;
    var nfaAlphabet := NonEpsilon(nfa.alphabet);
    var dfaStates: map<Id, set<Id>> := map[];
    var dfaTransitions: seq<Transition> := [];
    var stateNameMap: map<Id, Id> := map[];
    var eqCounter: nat := 1;
    var nfaInitial := FindInitial(nfa.states);
    if nfaInitial.None? {
      return Err(NoInitialError), map[];
    }
    UniverseSafe(nfa);
    StartInUniverse(nfa);
    var initialClosure := EpsilonClosure(ts, {nfaInitial.value.id});
    var queue: seq<set<Id>> := [];
    var visited: set<Id> := {};
    var initialKey := SetName(initialClosure);
    dfaStates := dfaStates[initialKey := initialClosure];
    queue := queue + [initialClosure];
    visited := visited + {initialKey};
    var initialEq;
    initialEq, stateNameMap, eqCounter := GetEqName(stateNameMap, eqCounter, initialClosure);
    var order: seq<Id> := [initialKey];
    ExploredStart(nfa, nfaAlphabet, initialClosure);
    assert dfaStates == map[initialKey := initialClosure];
    assert queue == [initialClosure] && visited == {initialKey};
    NumberedStart(initialKey, stateNameMap, eqCounter);
    ghost var keyTransitions, done;
    dfaStates, order, visited, dfaTransitions, stateNameMap, eqCounter, keyTransitions, done :=
      Explore(nfa, nfaAlphabet, initialKey, dfaStates, order, visited, queue, dfaTransitions, stateNameMap, eqCounter);
    var dfa;
    dfa, sets := AssembleDfa(nfa, nfaAlphabet, dfaStates, order, dfaTransitions, stateNameMap, eqCounter, initialKey,
                             visited, keyTransitions, done);
    r := Ok(dfa);
  }

  /** The `while (queue.length > 0)` loop: take the next set off the
      queue, name it, and expand it on every symbol, until the queue is
      empty. */
  method Explore(nfa: Nfa, nfaAlphabet: seq<Symbol>, initialKey: Id, dfaStates0: map<Id, set<Id>>, order0: seq<Id>,
                 visited0: set<Id>, queue0: seq<set<Id>>, dfaTransitions0: seq<Transition>,
                 stateNameMap0: map<Id, Id>, eqCounter0: nat)
    returns (dfaStates: map<Id, set<Id>>, order: seq<Id>, visited: set<Id>, dfaTransitions: seq<Transition>,
             stateNameMap: map<Id, Id>, eqCounter: nat, ghost keyTransitions: seq<Transition>, ghost done: nat)
    requires NameSafe(nfa) && FindInitial(nfa.states).Some?
    requires Explored(nfa, nfaAlphabet, dfaStates0, order0, visited0, queue0, [], 0)
    requires initialKey in dfaStates0 && dfaStates0[initialKey] == Start(nfa)
    requires |order0| > 0 && order0[0] == initialKey
    requires Numbered(order0, stateNameMap0, eqCounter0)
    requires NamedEdges(dfaTransitions0, [], stateNameMap0)
    requires visited0 <= AllNames(Universe(nfa))
    ensures Explored(nfa, nfaAlphabet, dfaStates, order, visited, [], keyTransitions, done)
    ensures initialKey in dfaStates && dfaStates[initialKey] == Start(nfa)
    ensures |order| > 0 && order[0] == initialKey
    ensures Numbered(order, stateNameMap, eqCounter)
    ensures NamedEdges(dfaTransitions, keyTransitions, stateNameMap)
  {
    dfaStates, order, visited, dfaTransitions, stateNameMap, eqCounter := dfaStates0, order0, visited0, dfaTransitions0,
                                                                          stateNameMap0, eqCounter0;
    var queue := queue0;
    keyTransitions, done := [], 0;
    ghost var names := AllNames(Universe(nfa));
    while |queue| > 0
      invariant Explored(nfa, nfaAlphabet, dfaStates, order, visited, queue, keyTransitions, done)
      invariant initialKey in dfaStates && dfaStates[initialKey] == Start(nfa)
      invariant |order| > 0 && order[0] == initialKey
      invariant Numbered(order, stateNameMap, eqCounter)
      invariant NamedEdges(dfaTransitions, keyTransitions, stateNameMap)
      invariant visited <= names
      decreases |names - visited|, |queue|
    {
      var current := queue[0];
      RowStart(nfa, nfaAlphabet, dfaStates, order, visited, queue, keyTransitions, done);
      queue := queue[1..];
      var currentKey := SetName(current);
      var currentEq;
      currentEq, stateNameMap, eqCounter := GetEqName(stateNameMap, eqCounter, current);
      dfaStates, order, visited, queue, dfaTransitions, stateNameMap, eqCounter, keyTransitions :=
        ExpandSet(nfa, nfaAlphabet, current, currentKey, currentEq, dfaStates, order, visited, queue, dfaTransitions,
                  stateNameMap, eqCounter, keyTransitions, done, initialKey, names);
      RowEnd(nfa, nfaAlphabet, dfaStates, order, visited, queue, keyTransitions, done, current, currentKey);
      done := done + 1;
    }
  }

  /** The assembly (app/components/NFAtoDFA.tsx:112-137): one state per registered key, in registration order,
      named by the key's `eN` name and flagged final when its set holds a
      final NFA state; the initial state is the initial key's name. */
  method AssembleDfa(nfa: Nfa, nfaAlphabet: seq<Symbol>, dfaStates: map<Id, set<Id>>, order: seq<Id>,
                     dfaTransitions: seq<Transition>, stateNameMap: map<Id, Id>, eqCounter: nat, initialKey: Id,
                     ghost visited: set<Id>, ghost keyTransitions: seq<Transition>, ghost done: nat)
    returns (dfa: Dfa, ghost sets: map<Id, set<Id>>)
    requires Explored(nfa, nfaAlphabet, dfaStates, order, visited, [], keyTransitions, done)
    requires nfaAlphabet == NonEpsilon(nfa.alphabet) && FindInitial(nfa.states).Some?
    requires initialKey in dfaStates && dfaStates[initialKey] == Start(nfa)
    requires |order| > 0 && order[0] == initialKey
    requires Numbered(order, stateNameMap, eqCounter)
    requires NamedEdges(dfaTransitions, keyTransitions, stateNameMap)
    ensures IsSubsetDfa(nfa, dfa, sets)
    ensures dfa.initialState == EqName(1)
    ensures forall k :: 0 <= k < |dfa.states| ==> dfa.states[k].id == EqName(k + 1)
    ensures forall w :: (forall k :: 0 <= k < |w| ==> w[k] in dfa.alphabet) ==>
              (DfaAccepts(dfa, w) <==> Accepts(nfa, w))
  {
    var states := NumberedStates(nfa, dfaStates, order, stateNameMap, initialKey);
    dfa := Dfa(states, dfaTransitions, nfaAlphabet, stateNameMap[initialKey], Ids(FinalStates(states)));
    NumberedIds(nfa, dfaStates, order, stateNameMap, initialKey, states);
    ExploredDfa(nfa, nfaAlphabet, dfaStates, order, visited, keyTransitions, done, initialKey);
    NumberedOneToOne(order, stateNameMap, eqCounter, dfaStates.Keys);
    sets := RenameSets(dfaStates, stateNameMap);
    NumberedResult(nfa, nfaAlphabet, dfaStates, order, keyTransitions, dfaTransitions, stateNameMap, initialKey,
                   dfa, sets);
    SubsetDfaLanguage(nfa, dfa, sets);
  }

  lemma NumberedResult(nfa: Nfa, alphabet: seq<Symbol>, dfaStates: map<Id, set<Id>>, order: seq<Id>,
                       keyTransitions: seq<Transition>, dfaTransitions: seq<Transition>,
                       stateNameMap: map<Id, Id>, initialKey: Id, dfa: Dfa, sets: map<Id, set<Id>>)
    requires forall x :: x in order <==> x in dfaStates
    requires IsSubsetDfa(nfa, BuildDfa(nfa, alphabet, dfaStates, order, keyTransitions, initialKey), dfaStates)
    requires OneToOne(stateNameMap, dfaStates.Keys)
    requires forall x :: x in order ==> x in stateNameMap
    requires initialKey in stateNameMap
    requires NamedEdges(dfaTransitions, keyTransitions, stateNameMap)
    requires var states := NumberedStates(nfa, dfaStates, order, stateNameMap, initialKey);
             dfa == Dfa(states, dfaTransitions, alphabet, stateNameMap[initialKey], Ids(FinalStates(states)))
    requires sets == RenameSets(dfaStates, stateNameMap)
    ensures IsSubsetDfa(nfa, dfa, sets)
  {
    var keyed := BuildDfa(nfa, alphabet, dfaStates, order, keyTransitions, initialKey);
    NumberedIsRenamed(nfa, alphabet, dfaStates, order, keyTransitions, dfaTransitions, stateNameMap, initialKey);
    RenameSubsetDfa(nfa, keyed, dfaStates, stateNameMap);
  }

  /** The numbered states are `e1`, `e2`, … in registration order, the
      initial key's being `e1`. */
  lemma NumberedIds(nfa: Nfa, dfaStates: map<Id, set<Id>>, order: seq<Id>, stateNameMap: map<Id, Id>,
                    initialKey: Id, states: seq<State>)
    requires Numbered(order, stateNameMap, |order| + 1) && |order| > 0 && order[0] == initialKey
    requires forall x :: x in order ==> x in dfaStates
    requires states == NumberedStates(nfa, dfaStates, order, stateNameMap, initialKey)
    ensures initialKey in stateNameMap && stateNameMap[initialKey] == EqName(1)
    ensures forall k :: 0 <= k < |states| ==> states[k].id == EqName(k + 1)
  {
  }
}

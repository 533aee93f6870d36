/** Renaming the states of a DFA through a one-to-one map of ids, as
    app/components/NFAtoDFA.tsx does when it replaces each set key by an
    equivalence-class name `eN`. A subset automaton stays one. */
module Renaming {
  import opened Automaton
  import opened Closures
  import opened Language
  import opened Dfas

  /** `f` names every key of `keys`, and different keys differently. */
  predicate OneToOne(f: map<Id, Id>, keys: set<Id>)
  {
    keys <= f.Keys && forall p, q :: p in keys && q in keys && f[p] == f[q] ==> p == q
  }

  /** `f` names every id the DFA mentions. */
  predicate Covers(f: map<Id, Id>, dfa: Dfa)
  {
    (forall s :: s in dfa.states ==> s.id in f)
    && (forall t :: t in dfa.transitions ==> t.from in f && t.to in f)
    && dfa.initialState in f
  }

  function RenameTransitions(ts: seq<Transition>, f: map<Id, Id>): (r: seq<Transition>)
    requires forall t :: t in ts ==> t.from in f && t.to in f
    ensures |r| == |ts|
    ensures forall i :: 0 <= i < |ts| ==> r[i] == Transition(f[ts[i].from], f[ts[i].to], ts[i].symbol)
  {
    seq(|ts|, i requires 0 <= i < |ts| => Transition(f[ts[i].from], f[ts[i].to], ts[i].symbol))
  }

  /** A renamed state carries its new name as id and label. */
  function RenameStates(states: seq<State>, f: map<Id, Id>): (r: seq<State>)
    requires forall s :: s in states ==> s.id in f
    ensures |r| == |states|
    ensures forall k :: 0 <= k < |states| ==>
              r[k] == State(f[states[k].id], states[k].isFinal, states[k].isInitial, f[states[k].id])
  {
    seq(|states|, k requires 0 <= k < |states| =>
          State(f[states[k].id], states[k].isFinal, states[k].isInitial, f[states[k].id]))
  }

  /** The sets keyed by the new names. */
  ghost function RenameSets(sets: map<Id, set<Id>>, f: map<Id, Id>): (r: map<Id, set<Id>>)
    requires OneToOne(f, sets.Keys)
    ensures forall p :: p in sets ==> f[p] in r && r[f[p]] == sets[p]
    ensures forall x :: x in r ==> exists p :: p in sets && f[p] == x
  {
    map p | p in sets :: f[p] := sets[p]
  }

  function RenameDfa(dfa: Dfa, f: map<Id, Id>): (r: Dfa)
    requires Covers(f, dfa)
    ensures r.alphabet == dfa.alphabet && r.initialState == f[dfa.initialState]
  {
    var states := RenameStates(dfa.states, f);
    Dfa(states, RenameTransitions(dfa.transitions, f), dfa.alphabet, f[dfa.initialState],
        Ids(FinalStates(states)))
  }

  /** A one-to-one renaming of a subset automaton is a subset automaton
      of the same NFA, each new name standing for the set of the old. */
  lemma RenameSubsetDfa(nfa: Nfa, dfa: Dfa, sets: map<Id, set<Id>>, f: map<Id, Id>)
    requires IsSubsetDfa(nfa, dfa, sets) && OneToOne(f, sets.Keys)
    ensures Covers(f, dfa)
    ensures IsSubsetDfa(nfa, RenameDfa(dfa, f), RenameSets(sets, f))
  {
    assert forall s :: s in dfa.states ==> s.id in StateIds(dfa.states);
    var sets' := RenameSets(sets, f);
    var dfa' := RenameDfa(dfa, f);
    RenameKeepsSets(nfa, dfa, sets, f, sets', dfa');
    RenameKeepsTransitions(nfa, dfa, sets, f, sets', dfa');
    RenameKeepsStates(nfa, dfa, sets, f, sets', dfa');
  }

  lemma RenameKeepsSets(nfa: Nfa, dfa: Dfa, sets: map<Id, set<Id>>, f: map<Id, Id>,
                        sets': map<Id, set<Id>>, dfa': Dfa)
    requires SubsetSets(nfa, dfa, sets) && OneToOne(f, sets.Keys)
    requires sets' == RenameSets(sets, f)
    requires dfa'.alphabet == dfa.alphabet && dfa'.initialState == f[dfa.initialState]
    ensures SubsetSets(nfa, dfa', sets')
  {
    forall x | x in sets' ensures EpsClosed(nfa.transitions, sets'[x]) {
      var p :| p in sets && f[p] == x;
    }
    forall x, y | x in sets' && y in sets' && sets'[x] == sets'[y] ensures x == y {
      var p :| p in sets && f[p] == x;
      var q :| q in sets && f[q] == y;
    }
  }

  lemma RenameKeepsTransitions(nfa: Nfa, dfa: Dfa, sets: map<Id, set<Id>>, f: map<Id, Id>,
                               sets': map<Id, set<Id>>, dfa': Dfa)
    requires SubsetTransitions(nfa, dfa, sets) && OneToOne(f, sets.Keys) && Covers(f, dfa)
    requires sets' == RenameSets(sets, f) && dfa' == RenameDfa(dfa, f)
    ensures SubsetTransitions(nfa, dfa', sets')
  {
    forall t' | t' in dfa'.transitions
      ensures t'.from in sets' && t'.to in sets' && t'.symbol in dfa'.alphabet
              && sets'[t'.to] == Delta(nfa.transitions, sets'[t'.from], t'.symbol)
    {
      var i :| 0 <= i < |dfa'.transitions| && dfa'.transitions[i] == t';
      assert dfa.transitions[i] in dfa.transitions;
    }
    forall x, a | x in sets' && a in dfa'.alphabet ensures DfaNext(dfa'.transitions, x, a).Some? {
      var p :| p in sets && f[p] == x;
      NextRenamed(dfa.transitions, f, p, a);
    }
  }

  lemma RenameKeepsStates(nfa: Nfa, dfa: Dfa, sets: map<Id, set<Id>>, f: map<Id, Id>,
                          sets': map<Id, set<Id>>, dfa': Dfa)
    requires SubsetStates(nfa, dfa, sets) && dfa.initialState in sets
    requires OneToOne(f, sets.Keys) && Covers(f, dfa)
    requires sets' == RenameSets(sets, f) && dfa' == RenameDfa(dfa, f)
    ensures SubsetStates(nfa, dfa', sets')
  {
    RenamedFlags(nfa, dfa, sets, f, sets', dfa'.states, dfa'.initialState);
    RenamedIds(dfa.states, sets, f, sets', dfa'.states);
    RenamedFinals(nfa, sets', dfa'.states, dfa'.finalStates);
  }

  lemma RenamedFlags(nfa: Nfa, dfa: Dfa, sets: map<Id, set<Id>>, f: map<Id, Id>,
                     sets': map<Id, set<Id>>, states': seq<State>, initial': Id)
    requires SubsetStates(nfa, dfa, sets) && dfa.initialState in sets
    requires OneToOne(f, sets.Keys) && Covers(f, dfa)
    requires sets' == RenameSets(sets, f) && states' == RenameStates(dfa.states, f)
    requires initial' == f[dfa.initialState]
    ensures forall s' :: s' in states' ==>
              s'.id in sets' && s'.displayLabel == s'.id && (s'.isInitial <==> s'.id == initial')
              && (s'.isFinal <==> HasFinal(nfa.states, sets'[s'.id]))
  {
    forall s' | s' in states'
      ensures s'.id in sets' && s'.displayLabel == s'.id && (s'.isInitial <==> s'.id == initial')
              && (s'.isFinal <==> HasFinal(nfa.states, sets'[s'.id]))
    {
      var k :| 0 <= k < |states'| && states'[k] == s';
      assert dfa.states[k] in dfa.states;
    }
  }

  lemma RenamedIds(states: seq<State>, sets: map<Id, set<Id>>, f: map<Id, Id>,
                   sets': map<Id, set<Id>>, states': seq<State>)
    requires DistinctIds(states) && StateIds(states) == sets.Keys
    requires OneToOne(f, sets.Keys)
    requires sets' == RenameSets(sets, f) && states' == RenameStates(states, f)
    ensures DistinctIds(states') && StateIds(states') == sets'.Keys
  {
    RenamedDistinct(states, sets.Keys, f, states');
    RenamedKeys(states, sets, f, sets', states');
  }

  lemma RenamedDistinct(states: seq<State>, keys: set<Id>, f: map<Id, Id>, states': seq<State>)
    requires DistinctIds(states) && StateIds(states) == keys
    requires OneToOne(f, keys)
    requires states' == RenameStates(states, f)
    ensures DistinctIds(states')
  {
    forall i, j | 0 <= i < j < |states'| ensures states'[i].id != states'[j].id {
      assert states[i] in states && states[j] in states;
    }
  }

  lemma RenamedKeys(states: seq<State>, sets: map<Id, set<Id>>, f: map<Id, Id>,
                    sets': map<Id, set<Id>>, states': seq<State>)
    requires StateIds(states) == sets.Keys && sets.Keys <= f.Keys
    requires forall p :: p in sets ==> f[p] in sets'
    requires forall x :: x in sets' ==> exists p :: p in sets && f[p] == x
    requires states' == RenameStates(states, f)
    ensures StateIds(states') == sets'.Keys
  {
    RenamedKeysCovered(states, sets, f, sets', states');
    RenamedKeysInside(states, sets, f, sets', states');
  }

  lemma RenamedKeysCovered(states: seq<State>, sets: map<Id, set<Id>>, f: map<Id, Id>,
                           sets': map<Id, set<Id>>, states': seq<State>)
    requires StateIds(states) == sets.Keys && sets.Keys <= f.Keys
    requires forall x :: x in sets' ==> exists p :: p in sets && f[p] == x
    requires states' == RenameStates(states, f)
    ensures sets'.Keys <= StateIds(states')
  {
    forall x | x in sets' ensures x in StateIds(states') {
      var p :| p in sets && f[p] == x;
      assert p in StateIds(states);
      var s :| s in states && s.id == p;
      var k :| 0 <= k < |states| && states[k] == s;
      assert states'[k] in states';
    }
  }

  lemma RenamedKeysInside(states: seq<State>, sets: map<Id, set<Id>>, f: map<Id, Id>,
                          sets': map<Id, set<Id>>, states': seq<State>)
    requires StateIds(states) == sets.Keys && sets.Keys <= f.Keys
    requires forall p :: p in sets ==> f[p] in sets'
    requires states' == RenameStates(states, f)
    ensures StateIds(states') <= sets'.Keys
  {
    forall x | x in StateIds(states') ensures x in sets' {
      var s' :| s' in states' && s'.id == x;
      var k :| 0 <= k < |states'| && states'[k] == s';
      assert states[k] in states;
    }
  }

  /** The ids of the final states of a list whose every state is final
      exactly when its set holds a final NFA state. */
  lemma RenamedFinals(nfa: Nfa, sets: map<Id, set<Id>>, states: seq<State>, finalStates: seq<Id>)
    requires StateIds(states) == sets.Keys
    requires forall s :: s in states ==> s.id in sets && (s.isFinal <==> HasFinal(nfa.states, sets[s.id]))
    requires finalStates == Ids(FinalStates(states))
    ensures forall x :: x in finalStates <==> x in sets && HasFinal(nfa.states, sets[x])
  {
    forall x ensures x in finalStates <==> x in sets && HasFinal(nfa.states, sets[x]) {
      var finals := FinalStates(states);
      if x in finalStates {
        var k :| 0 <= k < |finals| && finalStates[k] == x;
        assert finals[k] in states;
      }
      if x in sets && HasFinal(nfa.states, sets[x]) {
        assert x in StateIds(states);
        var s :| s in states && s.id == x;
        IdsMember(finals, s);
      }
    }
  }

  /** A transition on `a` from `p` survives renaming as one from the new
      name of `p`. */
  lemma NextRenamed(ts: seq<Transition>, f: map<Id, Id>, p: Id, a: Symbol)
    requires forall t :: t in ts ==> t.from in f && t.to in f
    requires DfaNext(ts, p, a).Some? && p in f
    ensures DfaNext(RenameTransitions(ts, f), f[p], a).Some?
  {
    var t :| t in ts && t.from == p && t.symbol == a;
    var i :| 0 <= i < |ts| && ts[i] == t;
    var ts' := RenameTransitions(ts, f);
    assert ts'[i] in ts';
  }

  lemma IdsMember(states: seq<State>, s: State)
    requires s in states
    ensures s.id in Ids(states)
  {
    var k :| 0 <= k < |states| && states[k] == s;
    assert Ids(states)[k] == s.id;
  }
}

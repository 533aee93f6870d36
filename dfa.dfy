/** The DFA both subset constructions return (`DFA` in
    app/components/NfaToDfa.ts and app/components/NFAtoDFA.tsx), what it
    means for one to be a subset automaton of an NFA, how it runs, and
    why it then accepts what the NFA accepts. */
module Dfas {
  import opened Wrappers
  import opened Strings
  import opened Automaton
  import opened Closures
  import opened Language

  datatype Dfa = Dfa(states: seq<State>, transitions: seq<Transition>, alphabet: seq<Symbol>,
                     initialState: Id, finalStates: seq<Id>)

  /** `alphabet.filter(a => a !== "ε")`. */
  function NonEpsilon(alphabet: seq<Symbol>): (r: seq<Symbol>)
    ensures |r| <= |alphabet|
    ensures forall a :: a in r <==> a in alphabet && a != Epsilon
  {
    if |alphabet| == 0 then []
    else
      var rest := NonEpsilon(alphabet[1..]);
      assert forall a :: a in alphabet <==> a == alphabet[0] || a in alphabet[1..];
      (if alphabet[0] != Epsilon then [alphabet[0]] else []) + rest
  }

  // ---------------------------------------------------------------------
  // Canonical names of sets of ids
  // ---------------------------------------------------------------------

  /** The keys a plain JavaScript object answers to before anything is
      stored in it: the properties it inherits from `Object.prototype`
      whose names hold no `_`. An `in` test or a lookup on such a key
      succeeds on an empty lookup table. */
  const InheritedNames: set<string> :=
    {"constructor", "hasOwnProperty", "isPrototypeOf", "propertyIsEnumerable",
     "toLocaleString", "toString", "valueOf"}

  /** An id that cannot make two sets share a name: no `_` and not `∅`. */
  predicate Joinable(x: Id)
  {
    '_' !in x && x != "∅"
  }

  /** An id that cannot make two sets share a name, nor give a set a name
      an empty lookup table already answers to. */
  predicate IdSafe(x: Id)
  {
    Joinable(x) && x !in InheritedNames
  }

  /** `getStateName` / `getSetKey`: the sorted ids joined with `_`, or `∅`
      for the empty set. */
  function SetName(S: set<Id>): Id
  {
    if S == {} then "∅" else Join(Sorted(S), '_')
  }

  /** Sets of joinable ids have the same name only when they are equal. */
  lemma SetNameInjective(S1: set<Id>, S2: set<Id>)
    requires forall x :: x in S1 ==> Joinable(x)
    requires forall x :: x in S2 ==> Joinable(x)
    requires SetName(S1) == SetName(S2)
    ensures S1 == S2
  {
    if S1 == {} && S2 != {} {
      EmptyNameUnique(S2);
    } else if S1 != {} && S2 == {} {
      EmptyNameUnique(S1);
    } else if S1 != {} {
      JoinInjective(Sorted(S1), Sorted(S2), '_');
      SortedInjective(S1, S2);
    }
  }

  lemma EmptyNameUnique(S: set<Id>)
    requires S != {} && forall x :: x in S ==> Joinable(x)
    ensures SetName(S) != "∅"
  {
    var xs := Sorted(S);
    if Join(xs, '_') == "∅" {
      SplitJoin(xs, '_');
      SplitNoSep("∅", '_');
    }
  }

  /** No inherited property name holds a `_`. */
  lemma InheritedHasNoBar(name: string)
    requires name in InheritedNames
    ensures '_' !in name
  {
  }

  /** A set of safe ids never gets an inherited property name, so the
      `in` and truthiness tests on the lookup tables keyed by set names
      see only the names stored in them. */
  lemma SetNameNotInherited(S: set<Id>)
    requires forall x :: x in S ==> IdSafe(x)
    ensures SetName(S) !in InheritedNames
  {
    if S != {} {
      var xs := Sorted(S);
      var name := Join(xs, '_');
      if name in InheritedNames {
        InheritedHasNoBar(name);
        SplitJoin(xs, '_');
        SplitNoSep(name, '_');
      }
    }
  }

  // ---------------------------------------------------------------------
  // Subset automata
  // ---------------------------------------------------------------------

  /** The DFA move of the construction: close the `a`-targets of `S`. */
  function Delta(ts: seq<Transition>, S: set<Id>, a: Symbol): set<Id>
  {
    Closure(ts, Move(ts, S, a))
  }

  /** On an ε-closed set the DFA move is a simulation step. */
  lemma DeltaIsStep(ts: seq<Transition>, S: set<Id>, a: Symbol)
    requires EpsClosed(ts, S)
    ensures Delta(ts, S, a) == Step(ts, S, a)
  {
    ClosureLeast(ts, S, S);
  }

  /** `dfa` is a subset automaton of `nfa`, `sets` giving the set of NFA
      states each DFA state stands for. */
  ghost predicate IsSubsetDfa(nfa: Nfa, dfa: Dfa, sets: map<Id, set<Id>>)
  {
    SubsetSets(nfa, dfa, sets) && SubsetTransitions(nfa, dfa, sets) && SubsetStates(nfa, dfa, sets)
  }

  /** The alphabet is the NFA's without ε, the initial state stands for
      the initial closure, and distinct states stand for distinct
      ε-closed sets. */
  ghost predicate SubsetSets(nfa: Nfa, dfa: Dfa, sets: map<Id, set<Id>>)
  {
    dfa.alphabet == NonEpsilon(nfa.alphabet)
    && FindInitial(nfa.states).Some?
    && dfa.initialState in sets && sets[dfa.initialState] == Start(nfa)
    && (forall p :: p in sets ==> EpsClosed(nfa.transitions, sets[p]))
    && (forall p, q :: p in sets && q in sets && sets[p] == sets[q] ==> p == q)
  }

  /** Every transition leads to the closure of the targets of its source
      set, every state has one for every symbol of the alphabet, and there
      is one per state and alphabet entry. */
  ghost predicate SubsetTransitions(nfa: Nfa, dfa: Dfa, sets: map<Id, set<Id>>)
  {
    (forall t :: t in dfa.transitions ==>
       t.from in sets && t.to in sets && t.symbol in dfa.alphabet
       && sets[t.to] == Delta(nfa.transitions, sets[t.from], t.symbol))
    && (forall p, a :: p in sets && a in dfa.alphabet ==> DfaNext(dfa.transitions, p, a).Some?)
    && |dfa.transitions| == |dfa.states| * |dfa.alphabet|
  }

  /** The state list holds each state once, flagged initial and final as
      its set says, and `finalStates` names the final ones. */
  ghost predicate SubsetStates(nfa: Nfa, dfa: Dfa, sets: map<Id, set<Id>>)
  {
    DistinctIds(dfa.states) && StateIds(dfa.states) == sets.Keys
    && (forall s :: s in dfa.states ==>
          s.id in sets && s.displayLabel == s.id && (s.isInitial <==> s.id == dfa.initialState)
          && (s.isFinal <==> HasFinal(nfa.states, sets[s.id])))
    && (forall x :: x in dfa.finalStates <==> x in sets && HasFinal(nfa.states, sets[x]))
  }

  /** A subset automaton is deterministic: two transitions with the same
      source and symbol have the same target. */
  lemma SubsetDfaDeterministic(nfa: Nfa, dfa: Dfa, sets: map<Id, set<Id>>, t1: Transition, t2: Transition)
    requires IsSubsetDfa(nfa, dfa, sets)
    requires t1 in dfa.transitions && t2 in dfa.transitions
    requires t1.from == t2.from && t1.symbol == t2.symbol
    ensures t1.to == t2.to
  {
  }

  /** Exactly one state of a subset automaton is initial: the first
      initial state of its list is `initialState`, and no other state is
      initial. */
  lemma SubsetDfaInitial(nfa: Nfa, dfa: Dfa, sets: map<Id, set<Id>>)
    requires IsSubsetDfa(nfa, dfa, sets)
    ensures FindInitial(dfa.states).Some? && FindInitial(dfa.states).value.id == dfa.initialState
    ensures forall s :: s in dfa.states && s.isInitial ==> s.id == dfa.initialState
  {
    assert dfa.initialState in StateIds(dfa.states);
    var s :| s in dfa.states && s.id == dfa.initialState;
    var k :| 0 <= k < |dfa.states| && dfa.states[k] == s;
  }

  // ---------------------------------------------------------------------
  // Running a DFA
  // ---------------------------------------------------------------------

  /** The target of the first transition from `p` on `a`. */
  function DfaNext(ts: seq<Transition>, p: Id, a: Symbol): (r: Option<Id>)
    ensures r.None? <==> forall t :: t in ts ==> !(t.from == p && t.symbol == a)
    ensures r.Some? ==> exists t :: t in ts && t.from == p && t.symbol == a && t.to == r.value
  {
    if |ts| == 0 then None
    else if ts[0].from == p && ts[0].symbol == a then Some(ts[0].to)
    else
      assert forall t :: t in ts <==> t == ts[0] || t in ts[1..];
      DfaNext(ts[1..], p, a)
  }

  /** The state reached from the initial state on `w`, if any. */
  function DfaRun(dfa: Dfa, w: seq<Symbol>): Option<Id>
    decreases |w|
  {
    if |w| == 0 then Some(dfa.initialState)
    else
      match DfaRun(dfa, w[..|w| - 1])
      case None => None
      case Some(q) => DfaNext(dfa.transitions, q, w[|w| - 1])
  }

  predicate DfaAccepts(dfa: Dfa, w: seq<Symbol>)
  {
    DfaRun(dfa, w).Some? && DfaRun(dfa, w).value in dfa.finalStates
  }

  lemma DfaRunLast(dfa: Dfa, w: seq<Symbol>, q: Id)
    requires |w| > 0 && DfaRun(dfa, w[..|w| - 1]) == Some(q)
    ensures DfaRun(dfa, w) == DfaNext(dfa.transitions, q, w[|w| - 1])
  {
  }

  /** On a word over its alphabet a subset automaton never gets stuck, and
      the set of its state is the NFA's live set. */
  lemma {:induction false} SubsetDfaRun(nfa: Nfa, dfa: Dfa, sets: map<Id, set<Id>>, w: seq<Symbol>)
    requires IsSubsetDfa(nfa, dfa, sets)
    requires forall k :: 0 <= k < |w| ==> w[k] in dfa.alphabet
    ensures DfaRun(dfa, w).Some? && DfaRun(dfa, w).value in sets
    ensures sets[DfaRun(dfa, w).value] == Run(nfa.transitions, Start(nfa), w)
    decreases |w|
  {
    if |w| > 0 {
      var p, a := w[..|w| - 1], w[|w| - 1];
      SubsetDfaRun(nfa, dfa, sets, p);
      var q := DfaRun(dfa, p).value;
      DfaRunLast(dfa, w, q);
      SubsetDfaStep(nfa, dfa, sets, q, a);
      RunLast(nfa.transitions, Start(nfa), w);
    }
  }

  lemma SubsetDfaStep(nfa: Nfa, dfa: Dfa, sets: map<Id, set<Id>>, q: Id, a: Symbol)
    requires IsSubsetDfa(nfa, dfa, sets)
    requires q in sets && a in dfa.alphabet
    ensures DfaNext(dfa.transitions, q, a).Some?
    ensures DfaNext(dfa.transitions, q, a).value in sets
    ensures sets[DfaNext(dfa.transitions, q, a).value] == Step(nfa.transitions, sets[q], a)
  {
    NextStep(dfa.transitions, nfa.transitions, sets, q, a, sets[q]);
  }

  lemma NextStep(dts: seq<Transition>, ts: seq<Transition>, sets: map<Id, set<Id>>, q: Id, a: Symbol, X: set<Id>)
    requires forall t :: t in dts ==> t.from in sets && t.to in sets && sets[t.to] == Delta(ts, sets[t.from], t.symbol)
    requires DfaNext(dts, q, a).Some?
    requires q in sets && X == sets[q] && EpsClosed(ts, X)
    ensures DfaNext(dts, q, a).Some? && DfaNext(dts, q, a).value in sets
    ensures sets[DfaNext(dts, q, a).value] == Step(ts, X, a)
  {
    var q' := DfaNext(dts, q, a).value;
    var t :| t in dts && t.from == q && t.symbol == a && t.to == q';
    DeltaIsStep(ts, X, a);
  }

  /** A subset automaton accepts a word over its alphabet exactly when the
      NFA does. */
  lemma SubsetDfaAccepts(nfa: Nfa, dfa: Dfa, sets: map<Id, set<Id>>, w: seq<Symbol>)
    requires IsSubsetDfa(nfa, dfa, sets)
    requires forall k :: 0 <= k < |w| ==> w[k] in dfa.alphabet
    ensures DfaAccepts(dfa, w) <==> Accepts(nfa, w)
  {
    SubsetDfaRun(nfa, dfa, sets, w);
    var q := DfaRun(dfa, w).value;
    assert q in dfa.finalStates <==> HasFinal(nfa.states, sets[q]);
  }

  /** The same, for every word over the alphabet at once. */
  lemma SubsetDfaLanguage(nfa: Nfa, dfa: Dfa, sets: map<Id, set<Id>>)
    requires IsSubsetDfa(nfa, dfa, sets)
    ensures forall w :: (forall k :: 0 <= k < |w| ==> w[k] in dfa.alphabet) ==>
              (DfaAccepts(dfa, w) <==> Accepts(nfa, w))
  {
    forall w | forall k :: 0 <= k < |w| ==> w[k] in dfa.alphabet
      ensures DfaAccepts(dfa, w) <==> Accepts(nfa, w)
    {
      SubsetDfaAccepts(nfa, dfa, sets, w);
    }
  }

  // ---------------------------------------------------------------------
  // Termination of the breadth-first search
  // ---------------------------------------------------------------------

  /** Every subset of `U`. */
  ghost function PowerSet(U: set<Id>): (P: set<set<Id>>)
    ensures forall S :: S in P <==> S <= U
    decreases |U|
  {
    if U == {} then
      assert forall S: set<Id> :: S <= U ==> S == {};
      {{}}
    else
      var x :| x in U;
      var P' := PowerSet(U - {x});
      AddElementSubsets(U, x, P');
      P' + set S | S in P' :: S + {x}
  }

  /** The subsets of `U` are those of `U - {x}`, with and without `x`. */
  lemma AddElementSubsets(U: set<Id>, x: Id, P': set<set<Id>>)
    requires x in U && forall S :: S in P' <==> S <= U - {x}
    ensures forall S :: S in P' + (set S | S in P' :: S + {x}) <==> S <= U
  {
    var r := P' + set S | S in P' :: S + {x};
    forall S | S <= U ensures S in r {
      if x in S {
        assert S - {x} in P' && S == (S - {x}) + {x};
      }
    }
  }

  /** Every name a subset of `U` can get. */
  ghost function AllNames(U: set<Id>): (N: set<Id>)
    ensures forall S :: S <= U ==> SetName(S) in N
  {
    set S | S in PowerSet(U) :: SetName(S)
  }

  /** What the construction can reach: the initial id and every
      transition target. */
  function Universe(nfa: Nfa): set<Id>
  {
    {InitialIdOrEmpty(nfa.states)} + Targets(nfa.transitions)
  }

  /** Every state id and every transition target is safe to name. */
  predicate NameSafe(nfa: Nfa)
  {
    (forall s :: s in nfa.states ==> IdSafe(s.id))
    && (forall t :: t in nfa.transitions ==> IdSafe(t.to))
  }

  lemma UniverseSafe(nfa: Nfa)
    requires NameSafe(nfa) && FindInitial(nfa.states).Some?
    ensures forall x :: x in Universe(nfa) ==> IdSafe(x)
  {
  }

  /** The sets the construction meets stay inside the universe. */
  lemma DeltaInUniverse(nfa: Nfa, S: set<Id>, a: Symbol)
    ensures Delta(nfa.transitions, S, a) <= Universe(nfa)
  {
  }

  lemma StartInUniverse(nfa: Nfa)
    ensures Start(nfa) <= Universe(nfa)
  {
  }

  /** One step of the search either keeps the visited names or visits a
      new one, so fewer names are left to visit. */
  lemma VisitStep(names: set<Id>, visited0: set<Id>, visited1: set<Id>, visited: set<Id>)
    requires visited0 <= visited1 <= names && visited1 <= visited <= names
    requires visited1 == visited0 || |names - visited1| < |names - visited0|
    ensures visited0 <= visited
    ensures visited == visited0 || |names - visited| < |names - visited0|
  {
    if visited != visited1 {
      ProperSubsetSmaller(names - visited, names - visited1);
    }
  }

  /** The state list and `finalStates` the constructions assemble from
      the registered names, in registration order. */
  function BuildDfa(nfa: Nfa, alphabet: seq<Symbol>, dfaStates: map<Id, set<Id>>, order: seq<Id>,
                    transitions: seq<Transition>, initialName: Id): (dfa: Dfa)
    requires forall x :: x in order ==> x in dfaStates
    ensures |dfa.states| == |order|
    ensures forall k :: 0 <= k < |order| ==> dfa.states[k].id == order[k]
  {
    var states := seq(|order|, k requires 0 <= k < |order| =>
                        State(order[k], HasFinal(nfa.states, dfaStates[order[k]]), order[k] == initialName, order[k]));
    Dfa(states, transitions, alphabet, initialName, Ids(FinalStates(states)))
  }

  /** The assembled states and final list are those of a subset automaton
      once every registered name is listed once. */
  lemma BuildDfaStates(nfa: Nfa, alphabet: seq<Symbol>, dfaStates: map<Id, set<Id>>, order: seq<Id>,
                       transitions: seq<Transition>, initialName: Id)
    requires forall x :: x in order <==> x in dfaStates
    requires forall i, j :: 0 <= i < j < |order| ==> order[i] != order[j]
    ensures SubsetStates(nfa, BuildDfa(nfa, alphabet, dfaStates, order, transitions, initialName), dfaStates)
  {
    var dfa := BuildDfa(nfa, alphabet, dfaStates, order, transitions, initialName);
    BuildDfaKeys(nfa, dfaStates, order, dfa);
    BuildDfaFinals(nfa, dfaStates, order, dfa);
  }

  lemma BuildDfaKeys(nfa: Nfa, dfaStates: map<Id, set<Id>>, order: seq<Id>, dfa: Dfa)
    requires forall x :: x in order <==> x in dfaStates
    requires forall i, j :: 0 <= i < j < |order| ==> order[i] != order[j]
    requires dfa == BuildDfa(nfa, dfa.alphabet, dfaStates, order, dfa.transitions, dfa.initialState)
    ensures DistinctIds(dfa.states) && StateIds(dfa.states) == dfaStates.Keys
    ensures forall s :: s in dfa.states ==>
              s.id in dfaStates && s.displayLabel == s.id && (s.isInitial <==> s.id == dfa.initialState)
              && (s.isFinal <==> HasFinal(nfa.states, dfaStates[s.id]))
  {
    forall x | x in dfaStates ensures x in StateIds(dfa.states) {
      var k :| 0 <= k < |order| && order[k] == x;
      assert dfa.states[k] in dfa.states;
    }
  }

  lemma BuildDfaFinals(nfa: Nfa, dfaStates: map<Id, set<Id>>, order: seq<Id>, dfa: Dfa)
    requires forall x :: x in order <==> x in dfaStates
    requires dfa == BuildDfa(nfa, dfa.alphabet, dfaStates, order, dfa.transitions, dfa.initialState)
    ensures forall x :: x in dfa.finalStates <==> x in dfaStates && HasFinal(nfa.states, dfaStates[x])
  {
    var finals := FinalStates(dfa.states);
    assert dfa.finalStates == Ids(finals);
    forall x ensures x in dfa.finalStates <==> x in dfaStates && HasFinal(nfa.states, dfaStates[x]) {
      if x in dfa.finalStates {
        var k :| 0 <= k < |finals| && dfa.finalStates[k] == x;
        assert finals[k] in dfa.states;
      }
      if x in dfaStates && HasFinal(nfa.states, dfaStates[x]) {
        var k :| 0 <= k < |order| && order[k] == x;
        assert dfa.states[k] in finals;
        var j :| 0 <= j < |finals| && finals[j] == dfa.states[k];
        assert dfa.finalStates[j] == x;
      }
    }
  }
}

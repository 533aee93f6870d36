/** The shapes every component shares: states, transitions and the NFA
    record (app/components/NFATypes.ts), with the lookups the components
    perform on them (`find`, `filter`, `some`). */
module Automaton {
  import opened Wrappers

  /** State ids and transition symbols are JavaScript strings. */
  type Id = string
  type Symbol = string

  /** The reserved symbol of ε-transitions. */
  const Epsilon: Symbol := "ε"

  /** `label` is a Dafny keyword, so the display label is `displayLabel`. */
  datatype State = State(id: Id, isFinal: bool, isInitial: bool, displayLabel: string)

  datatype Transition = Transition(from: Id, to: Id, symbol: Symbol)

  datatype Nfa = Nfa(states: seq<State>, transitions: seq<Transition>, alphabet: seq<Symbol>)

  /** `states.find(s => s.isInitial)`: the first state flagged initial. */
  function FindInitial(states: seq<State>): (r: Option<State>)
    ensures r.None? <==> forall k :: 0 <= k < |states| ==> !states[k].isInitial
    ensures r.Some? ==> r.value in states && r.value.isInitial
  {
    if |states| == 0 then None
    else if states[0].isInitial then Some(states[0])
    else FindInitial(states[1..])
  }

  /** The state `find` returns is the first one flagged initial. */
  lemma {:induction false} FindInitialFirst(states: seq<State>)
    ensures FindInitial(states).Some? ==>
              exists k :: 0 <= k < |states| && states[k] == FindInitial(states).value
                          && forall j :: 0 <= j < k ==> !states[j].isInitial
  {
    if |states| > 0 && !states[0].isInitial {
      FindInitialFirst(states[1..]);
      if FindInitial(states).Some? {
        var k :| 0 <= k < |states[1..]| && states[1..][k] == FindInitial(states).value
                 && forall j :: 0 <= j < k ==> !states[1..][j].isInitial;
        assert states[k + 1] == FindInitial(states).value;
      }
    }
  }

  /** `states.find(s => s.isInitial)?.id || ""`: the id of the first
      initial state, or the empty id when no state is initial. */
  function InitialIdOrEmpty(states: seq<State>): (id: Id)
    ensures FindInitial(states).Some? ==> id == FindInitial(states).value.id
    ensures FindInitial(states).None? ==> id == ""
  {
    match FindInitial(states)
    case Some(s) => s.id
    case None => ""
  }

  /** `states.find(s => s.id === id)`: the first state with this id. */
  function FindById(states: seq<State>, id: Id): (r: Option<State>)
    ensures r.None? <==> forall k :: 0 <= k < |states| ==> states[k].id != id
    ensures r.Some? ==> r.value in states && r.value.id == id
    ensures r.Some? ==> exists k :: 0 <= k < |states| && states[k] == r.value
                                    && forall j :: 0 <= j < k ==> states[j].id != id
  {
    if |states| == 0 then None
    else if states[0].id == id then Some(states[0])
    else
      var r := FindById(states[1..], id);
      if r.Some? then
        var k :| 0 <= k < |states[1..]| && states[1..][k] == r.value
                 && forall j :: 0 <= j < k ==> states[1..][j].id != id;
        assert states[k + 1] == r.value;
        r
      else r
  }

  /** `nfa.states.find(s => s.id === id)?.isFinal`. */
  predicate IsFinalId(states: seq<State>, id: Id)
  {
    FindById(states, id).Some? && FindById(states, id).value.isFinal
  }

  /** `Array.from(S).some(id => states.find(s => s.id === id)?.isFinal)`. */
  predicate HasFinal(states: seq<State>, S: set<Id>)
  {
    exists id :: id in S && IsFinalId(states, id)
  }

  /** `states.filter(s => s.isFinal)`. */
  function FinalStates(states: seq<State>): (r: seq<State>)
    ensures |r| <= |states|
    ensures forall s :: s in r <==> s in states && s.isFinal
  {
    if |states| == 0 then []
    else if states[0].isFinal then [states[0]] + FinalStates(states[1..])
    else FinalStates(states[1..])
  }

  /** The ids of a list of states, in order. */
  function Ids(states: seq<State>): (r: seq<Id>)
    ensures |r| == |states|
    ensures forall k :: 0 <= k < |states| ==> r[k] == states[k].id
  {
    seq(|states|, k requires 0 <= k < |states| => states[k].id)
  }

  predicate DistinctIds(states: seq<State>)
  {
    forall i, j :: 0 <= i < j < |states| ==> states[i].id != states[j].id
  }

  /** The set of ids of a list of states. */
  function StateIds(states: seq<State>): set<Id>
  {
    set s | s in states :: s.id
  }

  /** Every id a transition leads to. */
  function Targets(ts: seq<Transition>): (r: set<Id>)
    ensures forall t :: t in ts ==> t.to in r
    ensures forall x :: x in r ==> exists t :: t in ts && t.to == x
  {
    set t | t in ts :: t.to
  }

  /** No id, endpoint or symbol contains `|`, the separator of the
      transition keys that ε-removal builds
      (app/components/RegexToNFA.tsx:326-331). */
  predicate BarFree(n: Nfa)
  {
    (forall s :: s in n.states ==> '|' !in s.id)
    && (forall t :: t in n.transitions ==> '|' !in t.from && '|' !in t.to && '|' !in t.symbol)
  }

  /** Every transition leaves a listed state. */
  predicate EdgesLeaveStates(nfa: Nfa)
  {
    forall t :: t in nfa.transitions ==> t.from in StateIds(nfa.states)
  }
}

/** The interactive NFA builder of app/components/NFAConstructor.tsx: the
    fields the component keeps (`states`, `transitions`, `alphabet`,
    `initialState`, `finalStates`, `error`), the handlers that replace them,
    and the expression that decides when the fields make an NFA. */
module Builder {
  import opened Wrappers
  import opened Strings
  import opened Automaton

  const DuplicateStateError: string := "State name must be unique."

  /** `states.some(s => s.id === id)`. */
  predicate HasId(states: seq<State>, id: Id)
  {
    exists k :: 0 <= k < |states| && states[k].id == id
  }

  /** No two states are flagged initial. */
  predicate AtMostOneInitial(states: seq<State>)
  {
    forall i, j :: 0 <= i < |states| && 0 <= j < |states| && states[i].isInitial && states[j].isInitial ==> i == j
  }

  /** What the handlers keep true of the builder's fields: ids are
      non-empty, labelled by themselves and distinct; the designated
      initial state is a state, and exactly it is flagged initial; the
      listed final ids are states, and exactly they are flagged final. */
  predicate Consistent(states: seq<State>, initialState: Option<Id>, finalStates: seq<Id>)
  {
    DistinctIds(states)
    && (forall s :: s in states ==> s.id != "" && s.displayLabel == s.id)
    && (forall s :: s in states ==> (s.isInitial <==> initialState == Some(s.id)))
    && (initialState.Some? ==> HasId(states, initialState.value))
    && (forall s :: s in states ==> (s.isFinal <==> s.id in finalStates))
    && (forall x :: x in finalStates ==> HasId(states, x))
  }

  /** `states.map(s => ({ ...s, isInitial: s.id === id }))`. */
  function Retagged(states: seq<State>, id: Id): (r: seq<State>)
    ensures |r| == |states|
    ensures forall k :: 0 <= k < |states| ==> r[k] == states[k].(isInitial := states[k].id == id)
  {
    seq(|states|, k requires 0 <= k < |states| => states[k].(isInitial := states[k].id == id))
  }

  /** `states.map(s => ({ ...s, isFinal: finals.includes(s.id) }))`. */
  function Refinalised(states: seq<State>, finals: seq<Id>): (r: seq<State>)
    ensures |r| == |states|
    ensures forall k :: 0 <= k < |states| ==> r[k] == states[k].(isFinal := states[k].id in finals)
  {
    seq(|states|, k requires 0 <= k < |states| => states[k].(isFinal := states[k].id in finals))
  }

  /** `xs.filter(x => x !== id)`. */
  function Without(xs: seq<Id>, id: Id): (r: seq<Id>)
    ensures |r| <= |xs|
    ensures forall x :: x in r <==> x in xs && x != id
  {
    if |xs| == 0 then []
    else
      assert forall x :: x in xs <==> x == xs[0] || x in xs[1..];
      (if xs[0] != id then [xs[0]] else []) + Without(xs[1..], id)
  }

  /** The new `finalStates` of `handleToggleFinalState`: drop every
      occurrence of `id` when it is listed, append it otherwise. */
  function Toggle(finals: seq<Id>, id: Id): (r: seq<Id>)
    ensures id in r <==> id !in finals
    ensures forall x :: x != id ==> (x in r <==> x in finals)
  {
    if id in finals then Without(finals, id) else finals + [id]
  }

  /** Toggling twice lists the same ids, and gives back the very list when
      `id` was not listed. */
  lemma ToggleTwice(finals: seq<Id>, id: Id)
    ensures forall x :: x in Toggle(Toggle(finals, id), id) <==> x in finals
    ensures id !in finals ==> Toggle(Toggle(finals, id), id) == finals
  {
    if id !in finals {
      WithoutAbsent(finals, id);
      WithoutLast(finals, id);
    }
  }

  lemma {:induction false} WithoutAbsent(xs: seq<Id>, id: Id)
    requires id !in xs
    ensures Without(xs, id) == xs
  {
    if |xs| > 0 {
      WithoutAbsent(xs[1..], id);
      assert xs == [xs[0]] + xs[1..];
    }
  }

  lemma {:induction false} WithoutLast(xs: seq<Id>, id: Id)
    ensures Without(xs + [id], id) == Without(xs, id)
  {
    if |xs| == 0 {
      assert ([id])[1..] == [];
    } else {
      assert (xs + [id])[1..] == xs[1..] + [id];
      WithoutLast(xs[1..], id);
    }
  }

  /** Some piece trims to `y`. */
  predicate TrimsTo(pieces: seq<string>, y: string)
  {
    exists k :: 0 <= k < |pieces| && Trim(pieces[k]) == y
  }

  lemma TrimsToCons(pieces: seq<string>, y: string)
    requires |pieces| > 0
    ensures TrimsTo(pieces, y) <==> y == Trim(pieces[0]) || TrimsTo(pieces[1..], y)
  {
    if TrimsTo(pieces, y) {
      var k :| 0 <= k < |pieces| && Trim(pieces[k]) == y;
      if k > 0 {
        assert Trim(pieces[1..][k - 1]) == y;
      }
    }
    if TrimsTo(pieces[1..], y) {
      var k :| 0 <= k < |pieces[1..]| && Trim(pieces[1..][k]) == y;
      assert Trim(pieces[k + 1]) == y;
    }
  }

  /** `alphabetInput.split(",").map(s => s.trim()).filter(s => s &&
      !alphabet.includes(s))`: the trimmed non-empty pieces not in the
      alphabet, in input order and with their repetitions. */
  function NewSymbols(pieces: seq<string>, alphabet: seq<Symbol>): (r: seq<Symbol>)
    ensures |r| <= |pieces|
    ensures forall x :: x in r <==> x != "" && x !in alphabet && TrimsTo(pieces, x)
  {
    if |pieces| == 0 then []
    else
      var x := Trim(pieces[0]);
      var rest := NewSymbols(pieces[1..], alphabet);
      assert forall y :: TrimsTo(pieces, y) <==> y == x || TrimsTo(pieces[1..], y) by {
        forall y ensures TrimsTo(pieces, y) <==> y == x || TrimsTo(pieces[1..], y) {
          TrimsToCons(pieces, y);
        }
      }
      (if x != "" && x !in alphabet then [x] else []) + rest
  }

  /** A new symbol typed twice in one input is added twice. */
  lemma NewSymbolsKeepsRepeats(piece: string, alphabet: seq<Symbol>)
    requires Trim(piece) != "" && Trim(piece) !in alphabet
    ensures NewSymbols([piece, piece], alphabet) == [Trim(piece), Trim(piece)]
  {
    var x := Trim(piece);
    NewSymbolsCons([piece], alphabet);
    assert ([piece])[1..] == [];
    assert NewSymbols([piece], alphabet) == [x];
    NewSymbolsCons([piece, piece], alphabet);
    assert ([piece, piece])[1..] == [piece];
  }

  lemma NewSymbolsCons(pieces: seq<string>, alphabet: seq<Symbol>)
    requires |pieces| > 0
    ensures var x := Trim(pieces[0]);
            NewSymbols(pieces, alphabet)
            == (if x != "" && x !in alphabet then [x] else []) + NewSymbols(pieces[1..], alphabet)
  {
  }

  /** `states.length > 0 && initialState ? { states, transitions, alphabet }
      : null`; the empty id counts as no initial state. */
  function GateNfa(states: seq<State>, transitions: seq<Transition>, alphabet: seq<Symbol>,
                   initialState: Option<Id>): (r: Option<Nfa>)
    ensures r.Some? ==> r.value == Nfa(states, transitions, alphabet)
  {
    if |states| > 0 && initialState.Some? && initialState.value != "" then Some(Nfa(states, transitions, alphabet))
    else None
  }

  /** The gate opens exactly when there is a state and a designated
      initial state; the NFA it lets through has distinct ids, exactly one
      initial state, the designated one, and exactly the listed final
      states. */
  lemma GateNfaShape(states: seq<State>, transitions: seq<Transition>, alphabet: seq<Symbol>,
                     initialState: Option<Id>, finalStates: seq<Id>)
    requires Consistent(states, initialState, finalStates)
    ensures GateNfa(states, transitions, alphabet, initialState).Some?
            <==> |states| > 0 && initialState.Some? && initialState.value != ""
    ensures GateNfa(states, transitions, alphabet, initialState).Some? ==>
              var nfa := GateNfa(states, transitions, alphabet, initialState).value;
              DistinctIds(nfa.states) && AtMostOneInitial(nfa.states)
              && FindInitial(nfa.states).Some? && Some(FindInitial(nfa.states).value.id) == initialState
              && forall x :: IsFinalId(nfa.states, x) <==> x in finalStates
  {
    if GateNfa(states, transitions, alphabet, initialState).Some? {
      ConsistentInitial(states, initialState, finalStates);
      ConsistentFinals(states, initialState, finalStates);
    }
  }

  /** The designated initial state is the only initial one. */
  lemma ConsistentInitial(states: seq<State>, initialState: Option<Id>, finalStates: seq<Id>)
    requires Consistent(states, initialState, finalStates) && initialState.Some?
    ensures AtMostOneInitial(states)
    ensures FindInitial(states).Some? && FindInitial(states).value.id == initialState.value
  {
    var k :| 0 <= k < |states| && states[k].id == initialState.value;
    assert states[k] in states;
    forall i, j | 0 <= i < |states| && 0 <= j < |states| && states[i].isInitial && states[j].isInitial
      ensures i == j
    {
      assert states[i] in states && states[j] in states;
    }
  }

  /** The final ids are exactly the listed ones. */
  lemma ConsistentFinals(states: seq<State>, initialState: Option<Id>, finalStates: seq<Id>)
    requires Consistent(states, initialState, finalStates)
    ensures forall x :: IsFinalId(states, x) <==> x in finalStates
  {
    forall x ensures IsFinalId(states, x) <==> x in finalStates {
      if x in finalStates {
        var j :| 0 <= j < |states| && states[j].id == x;
      }
    }
  }

  /** Appending a fresh, non-empty, non-initial, non-final state keeps the
      fields consistent. */
  lemma AddStateConsistent(states: seq<State>, initialState: Option<Id>, finalStates: seq<Id>, name: Id)
    requires Consistent(states, initialState, finalStates)
    requires name != "" && !HasId(states, name)
    ensures Consistent(states + [State(name, false, false, name)], initialState, finalStates)
  {
    var states' := states + [State(name, false, false, name)];
    forall i, j | 0 <= i < j < |states'| ensures states'[i].id != states'[j].id {
      if j == |states| {
        assert states'[i] == states[i];
      }
    }
    forall x | HasId(states, x) ensures HasId(states', x) {
      var k :| 0 <= k < |states| && states[k].id == x;
      assert states'[k] == states[k];
    }
  }

  /** Two lists of states with the same ids, position by position, hold
      the same ids. */
  lemma SameIdsHasId(states: seq<State>, states': seq<State>, x: Id)
    requires |states'| == |states| && forall k :: 0 <= k < |states| ==> states'[k].id == states[k].id
    ensures HasId(states', x) <==> HasId(states, x)
  {
    if HasId(states, x) {
      var k :| 0 <= k < |states| && states[k].id == x;
      assert states'[k].id == x;
    }
    if HasId(states', x) {
      var k :| 0 <= k < |states'| && states'[k].id == x;
      assert states[k].id == x;
    }
  }

  /** Designating a state as initial flags exactly the states with its
      id, and the fields stay consistent. */
  lemma RetagConsistent(states: seq<State>, initialState: Option<Id>, finalStates: seq<Id>, id: Id)
    requires Consistent(states, initialState, finalStates)
    requires HasId(states, id)
    ensures Consistent(Retagged(states, id), Some(id), finalStates)
    ensures forall s :: s in Retagged(states, id) ==> (s.isInitial <==> s.id == id)
  {
    var r := Retagged(states, id);
    forall s | s in r ensures s.id != "" && s.displayLabel == s.id && (s.isFinal <==> s.id in finalStates) {
      var k :| 0 <= k < |r| && r[k] == s;
      assert states[k] in states;
    }
    forall x ensures HasId(r, x) <==> HasId(states, x) {
      SameIdsHasId(states, r, x);
    }
  }

  /** After toggling a state's id every state is final exactly when its id
      is listed, and the fields stay consistent. */
  lemma ToggleConsistent(states: seq<State>, initialState: Option<Id>, finalStates: seq<Id>, id: Id)
    requires Consistent(states, initialState, finalStates)
    requires HasId(states, id)
    ensures var finals := Toggle(finalStates, id);
            Consistent(Refinalised(states, finals), initialState, finals)
            && forall s :: s in Refinalised(states, finals) ==> (s.isFinal <==> s.id in finals)
  {
    var finals := Toggle(finalStates, id);
    var r := Refinalised(states, finals);
    forall s | s in r
      ensures s.id != "" && s.displayLabel == s.id && (s.isInitial <==> initialState == Some(s.id))
    {
      var k :| 0 <= k < |r| && r[k] == s;
      assert states[k] in states;
    }
    forall x ensures HasId(r, x) <==> HasId(states, x) {
      SameIdsHasId(states, r, x);
    }
  }

  class NfaBuilder {
    var states: seq<State>
    var transitions: seq<Transition>
    var alphabet: seq<Symbol>
    var initialState: Option<Id>
    var finalStates: seq<Id>
    var error: Option<string>

    ghost predicate Valid()
      reads this
    {
      Consistent(states, initialState, finalStates)
    }

    /** The fields as the component starts: all empty, no initial state,
        no error. */
    constructor()
      ensures Valid()
      ensures states == [] && transitions == [] && alphabet == [] && finalStates == []
      ensures initialState == None && error == None
    {
      states, transitions, alphabet, finalStates := [], [], [], [];
      initialState, error := None, None;
    }

    /** The `nfa` value the component renders: the gated NFA of the
        current fields. */
    function GatedNfa(): (r: Option<Nfa>)
      reads this
      ensures r.Some? ==> r.value.states == states && r.value.transitions == transitions
                          && r.value.alphabet == alphabet
    {
      GateNfa(states, transitions, alphabet, initialState)
    }

    /** `handleAddState`: ignore a blank name, refuse a taken one, append
        a plain state otherwise. */
    method AddState(stateName: string)
      requires Valid()
      modifies this
      ensures Valid()
      ensures var name := Trim(stateName);
              if name == "" then states == old(states) && error == old(error)
              else if HasId(old(states), name) then states == old(states) && error == Some(DuplicateStateError)
              else states == old(states) + [State(name, false, false, name)] && error == None
      ensures transitions == old(transitions) && alphabet == old(alphabet)
      ensures initialState == old(initialState) && finalStates == old(finalStates)
    {
      var name := Trim(stateName);
      if name == "" {
        return;
      }
      if HasId(states, name) {
        error := Some(DuplicateStateError);
        return;
      }
      AddStateConsistent(states, initialState, finalStates, name);
      states := states + [State(name, false, false, name)];
      error := None;
    }

    /** `handleAddTransition`: ignored unless source, target and symbol
        are all non-empty; then appended, with no check that the states or
        the symbol exist. */
    method AddTransition(from: Id, to: Id, symbol: Symbol)
      requires Valid()
      modifies this
      ensures Valid()
      ensures if from == "" || to == "" || symbol == "" then transitions == old(transitions) && error == old(error)
              else transitions == old(transitions) + [Transition(from, to, symbol)] && error == None
      ensures states == old(states) && alphabet == old(alphabet)
      ensures initialState == old(initialState) && finalStates == old(finalStates)
    {
      if from == "" || to == "" || symbol == "" {
        return;
      }
      transitions := transitions + [Transition(from, to, symbol)];
      error := None;
    }

    /** `handleAddAlphabet`. */
    method AddAlphabet(alphabetInput: string)
      requires Valid()
      modifies this
      ensures Valid()
      ensures alphabet == old(alphabet) + NewSymbols(Split(alphabetInput, ','), old(alphabet))
      ensures states == old(states) && transitions == old(transitions) && error == old(error)
      ensures initialState == old(initialState) && finalStates == old(finalStates)
    {
      var pieces := Split(alphabetInput, ',');
      var added := NewSymbols(pieces, alphabet);
      alphabet := alphabet + added;
    }

    /** The "Add ε" button: append `ε` unless already there. */
    method AddEpsilon()
      requires Valid()
      modifies this
      ensures Valid()
      ensures alphabet == if Epsilon in old(alphabet) then old(alphabet) else old(alphabet) + [Epsilon]
      ensures Epsilon in alphabet
      ensures states == old(states) && transitions == old(transitions) && error == old(error)
      ensures initialState == old(initialState) && finalStates == old(finalStates)
    {
      if Epsilon !in alphabet {
        alphabet := alphabet + [Epsilon];
      }
    }

    /** `handleSetInitialState`; the component calls it only from the
        button beside an existing state. */
    method SetInitialState(id: Id)
      requires Valid() && HasId(states, id)
      modifies this
      ensures Valid()
      ensures initialState == Some(id) && states == Retagged(old(states), id)
      ensures forall s :: s in states ==> (s.isInitial <==> s.id == id)
      ensures transitions == old(transitions) && alphabet == old(alphabet)
      ensures finalStates == old(finalStates) && error == old(error)
    {
      RetagConsistent(states, initialState, finalStates, id);
      initialState := Some(id);
      states := Retagged(states, id);
    }

    /** `handleToggleFinalState`; the component calls it only from the
        button beside an existing state. */
    method ToggleFinalState(id: Id)
      requires Valid() && HasId(states, id)
      modifies this
      ensures Valid()
      ensures finalStates == Toggle(old(finalStates), id)
      ensures states == Refinalised(old(states), finalStates)
      ensures forall s :: s in states ==> (s.isFinal <==> s.id in finalStates)
      ensures transitions == old(transitions) && alphabet == old(alphabet)
      ensures initialState == old(initialState) && error == old(error)
    {
      var newFinalStates: seq<Id>;
      if id in finalStates {
        newFinalStates := Without(finalStates, id);
      } else {
        newFinalStates := finalStates + [id];
      }
      ToggleConsistent(states, initialState, finalStates, id);
      finalStates := newFinalStates;
      states := Refinalised(states, newFinalStates);
    }
  }
}

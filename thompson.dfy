/** Thompson's construction as app/components/RegexToNFA.tsx performs it:
    fresh `q<n>` ids from a counter, the four fragment builders, and the
    postfix evaluation with a stack of fragments (`parseRegexToNFA`). The
    module-level counter of the source is threaded through explicitly: each
    builder takes its current value and returns the next one. */
module Thompson {
  import opened Wrappers
  import opened Strings
  import opened Seqs
  import opened Automaton
  import RegexConcat
  import RegexParser

  // ---------------------------------------------------------------------
  // Fresh ids
  // ---------------------------------------------------------------------

  /** `getNextStateId` when the counter holds `n`: the id `q<n>`. */
  function Fresh(n: nat): (id: Id)
    ensures |id| >= 2 && id[0] == 'q'
    ensures forall i :: 1 <= i < |id| ==> '0' <= id[i] <= '9'
  {
    "q" + NatToString(n)
  }

  /** Different counter values give different ids. */
  lemma FreshInjective(a: nat, b: nat)
    requires Fresh(a) == Fresh(b)
    ensures a == b
  {
    assert Fresh(a)[1..] == NatToString(a);
    assert Fresh(b)[1..] == NatToString(b);
    NatToStringInjective(a, b);
  }

  /** Every id of `ids` was handed out while the counter was below `c`. */
  ghost predicate FreshBelow(ids: set<Id>, c: nat)
  {
    forall x :: x in ids ==> exists k: nat :: k < c && x == Fresh(k)
  }

  /** An id handed out at `c` or later is not among them. */
  lemma NotFreshBelow(ids: set<Id>, c: nat, k: nat)
    requires FreshBelow(ids, c) && c <= k
    ensures Fresh(k) !in ids
  {
    if Fresh(k) in ids {
      var j: nat :| j < c && Fresh(k) == Fresh(j);
      FreshInjective(j, k);
    }
  }

  // ---------------------------------------------------------------------
  // Flag counts and the list operations the builders use
  // ---------------------------------------------------------------------

  function NumInitial(states: seq<State>): nat
  {
    if |states| == 0 then 0 else (if states[0].isInitial then 1 else 0) + NumInitial(states[1..])
  }

  function NumFinal(states: seq<State>): nat
  {
    if |states| == 0 then 0 else (if states[0].isFinal then 1 else 0) + NumFinal(states[1..])
  }

  lemma {:induction false} NumAppend(a: seq<State>, b: seq<State>)
    ensures NumInitial(a + b) == NumInitial(a) + NumInitial(b)
    ensures NumFinal(a + b) == NumFinal(a) + NumFinal(b)
    decreases |a|
  {
    if |a| > 0 {
      NumAppend(a[1..], b);
      assert (a + b)[1..] == a[1..] + b;
    } else {
      assert a + b == b;
    }
  }

  /** The counts of a list with one state put before it and one after. */
  lemma WrappedCounts(first: State, mid: seq<State>, last: State)
    ensures NumInitial([first] + mid + [last])
            == (if first.isInitial then 1 else 0) + NumInitial(mid) + (if last.isInitial then 1 else 0)
    ensures NumFinal([first] + mid + [last])
            == (if first.isFinal then 1 else 0) + NumFinal(mid) + (if last.isFinal then 1 else 0)
  {
    NumAppend([first] + mid, [last]);
    NumAppend([first], mid);
    assert [first][1..] == [] && [last][1..] == [];
  }

  /** Lists with the same flags position by position count alike. */
  lemma {:induction false} SameFlagsSameCounts(a: seq<State>, b: seq<State>)
    requires |a| == |b|
    ensures (forall i :: 0 <= i < |a| ==> a[i].isInitial == b[i].isInitial)
            ==> NumInitial(a) == NumInitial(b)
    ensures (forall i :: 0 <= i < |a| ==> a[i].isFinal == b[i].isFinal)
            ==> NumFinal(a) == NumFinal(b)
    decreases |a|
  {
    if |a| > 0 {
      SameFlagsSameCounts(a[1..], b[1..]);
    }
  }

  lemma {:induction false} NoFlagsNoCounts(a: seq<State>)
    ensures (forall i :: 0 <= i < |a| ==> !a[i].isInitial) ==> NumInitial(a) == 0
    ensures (forall i :: 0 <= i < |a| ==> !a[i].isFinal) ==> NumFinal(a) == 0
    decreases |a|
  {
    if |a| > 0 {
      NoFlagsNoCounts(a[1..]);
    }
  }

  /** `states.map(s => ({ ...s, isInitial: false, isFinal: false }))`. */
  function Demote(states: seq<State>): (r: seq<State>)
    ensures |r| == |states|
    ensures forall i :: 0 <= i < |r| ==> r[i].id == states[i].id && !r[i].isInitial && !r[i].isFinal
    ensures NumInitial(r) == 0 && NumFinal(r) == 0
    ensures StateIds(r) == StateIds(states)
  {
    var r := seq(|states|, i requires 0 <= i < |states| => states[i].(isInitial := false, isFinal := false));
    NoFlagsNoCounts(r);
    SameIdsSameSet(r, states);
    r
  }

  /** `states.map(s => ({ ...s, isFinal: false }))`. */
  function ClearFinal(states: seq<State>): (r: seq<State>)
    ensures |r| == |states|
    ensures forall i :: 0 <= i < |r| ==> r[i].id == states[i].id && r[i].isInitial == states[i].isInitial
                                         && !r[i].isFinal
    ensures NumInitial(r) == NumInitial(states) && NumFinal(r) == 0
    ensures StateIds(r) == StateIds(states)
  {
    var r := seq(|states|, i requires 0 <= i < |states| => states[i].(isFinal := false));
    NoFlagsNoCounts(r);
    SameFlagsSameCounts(r, states);
    SameIdsSameSet(r, states);
    r
  }

  /** `states.map(s => ({ ...s, isInitial: false }))`. */
  function ClearInitial(states: seq<State>): (r: seq<State>)
    ensures |r| == |states|
    ensures forall i :: 0 <= i < |r| ==> r[i].id == states[i].id && r[i].isFinal == states[i].isFinal
                                         && !r[i].isInitial
    ensures NumFinal(r) == NumFinal(states) && NumInitial(r) == 0
    ensures StateIds(r) == StateIds(states)
  {
    var r := seq(|states|, i requires 0 <= i < |states| => states[i].(isInitial := false));
    NoFlagsNoCounts(r);
    SameFlagsSameCounts(r, states);
    SameIdsSameSet(r, states);
    r
  }

  lemma SameIdsSameSet(a: seq<State>, b: seq<State>)
    requires |a| == |b| && forall i :: 0 <= i < |a| ==> a[i].id == b[i].id
    ensures StateIds(a) == StateIds(b)
    ensures DistinctIds(a) == DistinctIds(b)
  {
    forall x | x in StateIds(a) ensures x in StateIds(b) {
      var s :| s in a && s.id == x;
      var i :| 0 <= i < |a| && a[i] == s;
      assert b[i] in b;
    }
    forall x | x in StateIds(b) ensures x in StateIds(a) {
      var s :| s in b && s.id == x;
      var i :| 0 <= i < |b| && b[i] == s;
      assert a[i] in a;
    }
  }

  /** `states.filter(s => s.isFinal).map(s => ({ from: s.id, to, symbol: "ε" }))`. */
  function FinalEdges(states: seq<State>, to: Id): (r: seq<Transition>)
    ensures |r| == NumFinal(states)
    ensures forall t :: t in r <==> exists s :: s in states && s.isFinal && t == Transition(s.id, to, Epsilon)
  {
    if |states| == 0 then []
    else
      var rest := FinalEdges(states[1..], to);
      assert forall s :: s in states <==> s == states[0] || s in states[1..];
      (if states[0].isFinal then [Transition(states[0].id, to, Epsilon)] else []) + rest
  }

  lemma {:induction false} DistinctAppend(a: seq<State>, b: seq<State>)
    requires DistinctIds(a) && DistinctIds(b) && StateIds(a) !! StateIds(b)
    ensures DistinctIds(a + b)
    ensures StateIds(a + b) == StateIds(a) + StateIds(b)
  {
    forall i, j | 0 <= i < j < |a + b| ensures (a + b)[i].id != (a + b)[j].id {
      if i < |a| && j >= |a| {
        assert a[i] in a && b[j - |a|] in b;
        assert (a + b)[i].id in StateIds(a) && (a + b)[j].id in StateIds(b);
      }
    }
  }

  // ---------------------------------------------------------------------
  // Fragment builders
  // ---------------------------------------------------------------------

  /** `createBasicNFA(symbol)`: a fresh initial state with one
      `symbol`-transition to a fresh final state. */
  function BasicNfa(symbol: Symbol, c: nat): (r: (Nfa, nat))
    ensures r.1 == c + 2
    ensures |r.0.states| == 2 && NumInitial(r.0.states) == 1 && NumFinal(r.0.states) == 1
    ensures r.0.states[0].isInitial && r.0.states[1].isFinal
    ensures r.0.transitions == [Transition(r.0.states[0].id, r.0.states[1].id, symbol)]
    ensures r.0.alphabet == [symbol]
    ensures StateIds(r.0.states) == {Fresh(c), Fresh(c + 1)}
  {
    var s0 := Fresh(c);
    var s1 := Fresh(c + 1);
    var states := [State(s0, false, true, s0), State(s1, true, false, s1)];
    assert states[1..] == [states[1]] && states[1..][1..] == [];
    assert NumInitial(states[1..]) == 0 && NumFinal(states[1..]) == 1;
    (Nfa(states, [Transition(s0, s1, symbol)], [symbol]), c + 2)
  }

  /** `unionNFAs`: a fresh initial state with ε-edges into both operands'
      initial states, and ε-edges from all their final states into a fresh
      final state; the operands' own flags are cleared. */
  function UnionNfa(n1: Nfa, n2: Nfa, c: nat): (r: (Nfa, nat))
    ensures r.1 == c + 2
    ensures NumInitial(r.0.states) == 1 && NumFinal(r.0.states) == 1
    ensures |r.0.states| == |n1.states| + |n2.states| + 2
    ensures |r.0.transitions|
            == |n1.transitions| + |n2.transitions| + 2 + NumFinal(n1.states) + NumFinal(n2.states)
    ensures StateIds(r.0.states) == {Fresh(c), Fresh(c + 1)} + StateIds(n1.states) + StateIds(n2.states)
    ensures forall a :: a in r.0.alphabet <==> a in n1.alphabet || a in n2.alphabet
  {
    var start := Fresh(c);
    var end := Fresh(c + 1);
    var first := [State(start, false, true, start)];
    var last := [State(end, true, false, end)];
    var states := first + Demote(n1.states) + Demote(n2.states) + last;
    WrappedCounts(State(start, false, true, start), Demote(n1.states) + Demote(n2.states),
                  State(end, true, false, end));
    assert states == first + (Demote(n1.states) + Demote(n2.states)) + last;
    NumAppend(Demote(n1.states), Demote(n2.states));
    WrappedIds(State(start, false, true, start), Demote(n1.states), Demote(n2.states),
               State(end, true, false, end));
    var transitions := [Transition(start, InitialIdOrEmpty(n1.states), Epsilon),
                        Transition(start, InitialIdOrEmpty(n2.states), Epsilon)]
                       + n1.transitions + n2.transitions
                       + FinalEdges(n1.states, end) + FinalEdges(n2.states, end);
    (Nfa(states, transitions, Dedup(n1.alphabet + n2.alphabet)), c + 2)
  }

  /** The ids of two lists with one state put before them and one after. */
  lemma WrappedIds(first: State, a: seq<State>, b: seq<State>, last: State)
    ensures StateIds([first] + a + b + [last]) == {first.id, last.id} + StateIds(a) + StateIds(b)
  {
    StateIdsAppend([first], a);
    StateIdsAppend([first] + a, b);
    StateIdsAppend([first] + a + b, [last]);
    assert StateIds([first]) == {first.id};
    assert StateIds([last]) == {last.id};
  }

  /** The ids of a list with one state put before it and one after. */
  lemma WrappedOneIds(first: State, mid: seq<State>, last: State)
    ensures StateIds([first] + mid + [last]) == {first.id, last.id} + StateIds(mid)
  {
    StateIdsAppend([first], mid);
    StateIdsAppend([first] + mid, [last]);
    assert StateIds([first]) == {first.id};
    assert StateIds([last]) == {last.id};
  }

  lemma StateIdsAppend(a: seq<State>, b: seq<State>)
    ensures StateIds(a + b) == StateIds(a) + StateIds(b)
  {
    forall x | x in StateIds(a + b) ensures x in StateIds(a) + StateIds(b) {
      var s :| s in a + b && s.id == x;
    }
  }

  /** `concatenateNFAs`: the first operand's final states get ε-edges into
      the second operand's initial state and lose their final flag; the
      second operand's initial state loses its initial flag. No state is
      allocated. */
  function ConcatNfa(n1: Nfa, n2: Nfa): (r: Nfa)
    ensures NumInitial(r.states) == NumInitial(n1.states)
    ensures NumFinal(r.states) == NumFinal(n2.states)
    ensures |r.states| == |n1.states| + |n2.states|
    ensures |r.transitions| == |n1.transitions| + |n2.transitions| + NumFinal(n1.states)
    ensures StateIds(r.states) == StateIds(n1.states) + StateIds(n2.states)
    ensures forall a :: a in r.alphabet <==> a in n1.alphabet || a in n2.alphabet
  {
    var states := ClearFinal(n1.states) + ClearInitial(n2.states);
    NumAppend(ClearFinal(n1.states), ClearInitial(n2.states));
    StateIdsAppend(ClearFinal(n1.states), ClearInitial(n2.states));
    var transitions := n1.transitions + n2.transitions
                       + FinalEdges(n1.states, InitialIdOrEmpty(n2.states));
    Nfa(states, transitions, Dedup(n1.alphabet + n2.alphabet))
  }

  /** `kleeneStarNFA`: a fresh initial state with ε-edges to the operand's
      initial state and to a fresh final state, and ε-edges from every
      final state of the operand back to its initial state and on to the
      fresh final state. */
  function StarNfa(n: Nfa, c: nat): (r: (Nfa, nat))
    ensures r.1 == c + 2
    ensures NumInitial(r.0.states) == 1 && NumFinal(r.0.states) == 1
    ensures |r.0.states| == |n.states| + 2
    ensures |r.0.transitions| == |n.transitions| + 2 + 2 * NumFinal(n.states)
    ensures StateIds(r.0.states) == {Fresh(c), Fresh(c + 1)} + StateIds(n.states)
    ensures r.0.alphabet == n.alphabet
  {
    var start := Fresh(c);
    var end := Fresh(c + 1);
    var init := InitialIdOrEmpty(n.states);
    var first := [State(start, false, true, start)];
    var last := [State(end, true, false, end)];
    var states := first + Demote(n.states) + last;
    WrappedCounts(State(start, false, true, start), Demote(n.states), State(end, true, false, end));
    WrappedOneIds(State(start, false, true, start), Demote(n.states), State(end, true, false, end));
    var transitions := [Transition(start, init, Epsilon), Transition(start, end, Epsilon)]
                       + n.transitions + FinalEdges(n.states, init) + FinalEdges(n.states, end);
    (Nfa(states, transitions, n.alphabet), c + 2)
  }

  // ---------------------------------------------------------------------
  // What the builders put where
  // ---------------------------------------------------------------------

  /** Union: the fresh start is the initial state and the fresh end the
      final one; the operands' states lie in between, in order, with both
      flags cleared. */
  lemma UnionNfaStates(n1: Nfa, n2: Nfa, c: nat)
    ensures var r := UnionNfa(n1, n2, c).0;
      && r.states[0] == State(Fresh(c), false, true, Fresh(c))
      && r.states[|r.states| - 1] == State(Fresh(c + 1), true, false, Fresh(c + 1))
      && (forall i :: 0 <= i < |n1.states| ==>
            r.states[1 + i].id == n1.states[i].id && !r.states[1 + i].isInitial && !r.states[1 + i].isFinal)
      && (forall i :: 0 <= i < |n2.states| ==>
            r.states[1 + |n1.states| + i].id == n2.states[i].id
            && !r.states[1 + |n1.states| + i].isInitial && !r.states[1 + |n1.states| + i].isFinal)
  {
    var first, last := State(Fresh(c), false, true, Fresh(c)), State(Fresh(c + 1), true, false, Fresh(c + 1));
    UnionStates(n1, n2, c);
    WrappedPositions(first, Demote(n1.states), Demote(n2.states), last);
  }

  /** Where each part of a list with one state put before two lists and
      one after lands. */
  lemma WrappedPositions(first: State, a: seq<State>, b: seq<State>, last: State)
    ensures var w := [first] + a + b + [last];
      && w[0] == first && w[|w| - 1] == last
      && (forall i :: 0 <= i < |a| ==> w[1 + i] == a[i])
      && (forall i :: 0 <= i < |b| ==> w[1 + |a| + i] == b[i])
  {
  }

  /** Union keeps both operands' edges and adds exactly the ε-edges from
      the start into both operands' initial states and from every operand
      final state to the end. */
  lemma UnionNfaEdges(n1: Nfa, n2: Nfa, c: nat)
    ensures forall t :: t in UnionNfa(n1, n2, c).0.transitions <==>
              || t in n1.transitions || t in n2.transitions
              || t == Transition(Fresh(c), InitialIdOrEmpty(n1.states), Epsilon)
              || t == Transition(Fresh(c), InitialIdOrEmpty(n2.states), Epsilon)
              || t in FinalEdges(n1.states, Fresh(c + 1))
              || t in FinalEdges(n2.states, Fresh(c + 1))
  {
  }

  /** Concatenation: the first operand's states keep their initial flag
      and stop being final; the second operand's states follow, keep their
      final flag and stop being initial. */
  lemma ConcatNfaStates(n1: Nfa, n2: Nfa)
    ensures var r := ConcatNfa(n1, n2);
      && (forall i :: 0 <= i < |n1.states| ==>
            r.states[i].id == n1.states[i].id && r.states[i].isInitial == n1.states[i].isInitial
            && !r.states[i].isFinal)
      && (forall i :: 0 <= i < |n2.states| ==>
            r.states[|n1.states| + i].id == n2.states[i].id
            && r.states[|n1.states| + i].isFinal == n2.states[i].isFinal
            && !r.states[|n1.states| + i].isInitial)
  {
    var r := ConcatNfa(n1, n2);
    var a, b := ClearFinal(n1.states), ClearInitial(n2.states);
    assert r.states == a + b;
    forall i | 0 <= i < |n2.states|
      ensures r.states[|n1.states| + i] == b[i]
    {
    }
  }

  /** Concatenation keeps both operands' edges and adds exactly the
      ε-edges from the first operand's final states into the second
      operand's initial state. */
  lemma ConcatNfaEdges(n1: Nfa, n2: Nfa)
    ensures forall t :: t in ConcatNfa(n1, n2).transitions <==>
              || t in n1.transitions || t in n2.transitions
              || t in FinalEdges(n1.states, InitialIdOrEmpty(n2.states))
  {
  }

  /** Star: the fresh start is the initial state and the fresh end the
      final one; the operand's states lie in between, in order, with both
      flags cleared. */
  lemma StarNfaStates(n: Nfa, c: nat)
    ensures var r := StarNfa(n, c).0;
      && r.states[0] == State(Fresh(c), false, true, Fresh(c))
      && r.states[|r.states| - 1] == State(Fresh(c + 1), true, false, Fresh(c + 1))
      && (forall i :: 0 <= i < |n.states| ==>
            r.states[1 + i].id == n.states[i].id && !r.states[1 + i].isInitial && !r.states[1 + i].isFinal)
  {
    var r := StarNfa(n, c).0;
    var d := Demote(n.states);
    StarStates(n, c);
    forall i | 0 <= i < |n.states|
      ensures r.states[1 + i] == d[i]
    {
    }
  }

  /** Star keeps the operand's edges and adds exactly the ε-edges from the
      start to the operand's initial state and to the end, and from every
      operand final state back to its initial state and on to the end. */
  lemma StarNfaEdges(n: Nfa, c: nat)
    ensures forall t :: t in StarNfa(n, c).0.transitions <==>
              || t in n.transitions
              || t == Transition(Fresh(c), InitialIdOrEmpty(n.states), Epsilon)
              || t == Transition(Fresh(c), Fresh(c + 1), Epsilon)
              || t in FinalEdges(n.states, InitialIdOrEmpty(n.states))
              || t in FinalEdges(n.states, Fresh(c + 1))
  {
  }

  // ---------------------------------------------------------------------
  // What every fragment on the stack satisfies
  // ---------------------------------------------------------------------

  /** One initial and one final state, distinct ids all handed out below
      `c`, every edge leaving a listed state, and nothing that would
      confuse the transition keys. */
  ghost predicate WellBuilt(n: Nfa, c: nat)
  {
    NumInitial(n.states) == 1 && NumFinal(n.states) == 1
    && DistinctIds(n.states) && FreshBelow(StateIds(n.states), c) && BarFree(n)
    && EdgesLeaveStates(n)
  }

  lemma FinalEdgesLeave(states: seq<State>, to: Id)
    ensures forall t :: t in FinalEdges(states, to) ==> t.from in StateIds(states)
  {
    forall t | t in FinalEdges(states, to) ensures t.from in StateIds(states) {
      var s :| s in states && s.isFinal && t == Transition(s.id, to, Epsilon);
    }
  }

  lemma UnionEdgesLeave(n1: Nfa, n2: Nfa, c: nat)
    requires EdgesLeaveStates(n1) && EdgesLeaveStates(n2)
    ensures EdgesLeaveStates(UnionNfa(n1, n2, c).0)
  {
    FinalEdgesLeave(n1.states, Fresh(c + 1));
    FinalEdgesLeave(n2.states, Fresh(c + 1));
  }

  lemma ConcatEdgesLeave(n1: Nfa, n2: Nfa)
    requires EdgesLeaveStates(n1) && EdgesLeaveStates(n2)
    ensures EdgesLeaveStates(ConcatNfa(n1, n2))
  {
    FinalEdgesLeave(n1.states, InitialIdOrEmpty(n2.states));
  }

  lemma StarEdgesLeave(n1: Nfa, c: nat)
    requires EdgesLeaveStates(n1)
    ensures EdgesLeaveStates(StarNfa(n1, c).0)
  {
    FinalEdgesLeave(n1.states, InitialIdOrEmpty(n1.states));
    FinalEdgesLeave(n1.states, Fresh(c + 1));
  }

  lemma FreshBelowMono(ids: set<Id>, c: nat, d: nat)
    requires FreshBelow(ids, c) && c <= d
    ensures FreshBelow(ids, d)
  {
  }

  lemma FreshHasNoBar(k: nat)
    ensures '|' !in Fresh(k)
  {
    var id := Fresh(k);
    forall i | 0 <= i < |id| ensures id[i] != '|' {
      if i > 0 { assert '0' <= id[i] <= '9'; }
    }
  }

  lemma InitialIdBarFree(states: seq<State>)
    requires forall s :: s in states ==> '|' !in s.id
    ensures '|' !in InitialIdOrEmpty(states)
  {
  }

  lemma FinalEdgesBarFree(states: seq<State>, to: Id)
    requires forall s :: s in states ==> '|' !in s.id
    requires '|' !in to
    ensures forall t :: t in FinalEdges(states, to) ==> '|' !in t.from && '|' !in t.to && '|' !in t.symbol
  {
    forall t | t in FinalEdges(states, to)
      ensures '|' !in t.from && '|' !in t.to && '|' !in t.symbol
    {
      var s :| s in states && s.isFinal && t == Transition(s.id, to, Epsilon);
      assert forall i :: 0 <= i < |Epsilon| ==> Epsilon[i] != '|';
    }
  }

  /** A basic fragment is well built once the counter has moved past its
      two ids. */
  lemma BasicWellBuilt(symbol: Symbol, c: nat)
    requires '|' !in symbol
    ensures WellBuilt(BasicNfa(symbol, c).0, c + 2)
  {
    var n := BasicNfa(symbol, c).0;
    FreshHasNoBar(c);
    FreshHasNoBar(c + 1);
    if Fresh(c) == Fresh(c + 1) {
      FreshInjective(c, c + 1);
    }
    assert n.states[0].id == Fresh(c) && n.states[1].id == Fresh(c + 1);
    assert forall s :: s in n.states ==> s == n.states[0] || s == n.states[1];
  }

  /** The union of two well-built fragments with disjoint ids is well built. */
  lemma UnionWellBuilt(n1: Nfa, n2: Nfa, c: nat)
    requires WellBuilt(n1, c) && WellBuilt(n2, c)
    requires StateIds(n1.states) !! StateIds(n2.states)
    ensures WellBuilt(UnionNfa(n1, n2, c).0, c + 2)
  {
    UnionDistinct(n1, n2, c);
    UnionFreshBelow(n1, n2, c);
    UnionBarFree(n1, n2, c);
    UnionEdgesLeave(n1, n2, c);
  }

  lemma UnionDistinct(n1: Nfa, n2: Nfa, c: nat)
    requires DistinctIds(n1.states) && DistinctIds(n2.states)
    requires FreshBelow(StateIds(n1.states), c) && FreshBelow(StateIds(n2.states), c)
    requires StateIds(n1.states) !! StateIds(n2.states)
    ensures DistinctIds(UnionNfa(n1, n2, c).0.states)
  {
    var start, end := Fresh(c), Fresh(c + 1);
    if start == end { FreshInjective(c, c + 1); }
    NotFreshBelow(StateIds(n1.states), c, c);
    NotFreshBelow(StateIds(n1.states), c, c + 1);
    NotFreshBelow(StateIds(n2.states), c, c);
    NotFreshBelow(StateIds(n2.states), c, c + 1);
    DemotePairDistinct(n1.states, n2.states);
    WrappedDistinct2(State(start, false, true, start), Demote(n1.states), Demote(n2.states),
                     State(end, true, false, end));
    UnionStates(n1, n2, c);
  }

  lemma UnionStates(n1: Nfa, n2: Nfa, c: nat)
    ensures UnionNfa(n1, n2, c).0.states
            == [State(Fresh(c), false, true, Fresh(c))] + Demote(n1.states) + Demote(n2.states)
               + [State(Fresh(c + 1), true, false, Fresh(c + 1))]
  {
  }

  lemma WrappedDistinct2(first: State, a: seq<State>, b: seq<State>, last: State)
    requires first.id != last.id
    requires DistinctIds(a + b) && first.id !in StateIds(a + b) && last.id !in StateIds(a + b)
    ensures DistinctIds([first] + a + b + [last])
  {
    WrappedDistinct(first, a + b, last);
    assert [first] + a + b + [last] == [first] + (a + b) + [last];
  }

  lemma DemotePairDistinct(a: seq<State>, b: seq<State>)
    requires DistinctIds(a) && DistinctIds(b) && StateIds(a) !! StateIds(b)
    ensures DistinctIds(Demote(a) + Demote(b))
    ensures StateIds(Demote(a) + Demote(b)) == StateIds(a) + StateIds(b)
  {
    SameIdsSameSet(Demote(a), a);
    SameIdsSameSet(Demote(b), b);
    DistinctAppend(Demote(a), Demote(b));
  }

  /** Two new states around a list that holds neither of their ids. */
  lemma WrappedDistinct(first: State, mid: seq<State>, last: State)
    requires first.id != last.id
    ensures DistinctIds(mid) && first.id !in StateIds(mid) && last.id !in StateIds(mid)
            ==> DistinctIds([first] + mid + [last])
  {
    if DistinctIds(mid) && first.id !in StateIds(mid) && last.id !in StateIds(mid) {
      DistinctAppend([first], mid);
      DistinctAppend([first] + mid, [last]);
    }
  }

  lemma UnionFreshBelow(n1: Nfa, n2: Nfa, c: nat)
    requires FreshBelow(StateIds(n1.states), c) && FreshBelow(StateIds(n2.states), c)
    ensures FreshBelow(StateIds(UnionNfa(n1, n2, c).0.states), c + 2)
  {
    var ids := StateIds(n1.states) + StateIds(n2.states);
    assert FreshBelow(ids, c);
    FreshBelowGrow(ids, c);
    assert StateIds(UnionNfa(n1, n2, c).0.states) == {Fresh(c), Fresh(c + 1)} + ids;
  }

  /** The two ids a builder hands out join the ones handed out before. */
  lemma FreshBelowGrow(ids: set<Id>, c: nat)
    requires FreshBelow(ids, c)
    ensures FreshBelow({Fresh(c), Fresh(c + 1)} + ids, c + 2)
  {
    var grown := {Fresh(c), Fresh(c + 1)} + ids;
    forall x | x in grown ensures exists k: nat :: k < c + 2 && x == Fresh(k) {
      if x == Fresh(c) {
        assert c < c + 2;
      } else if x == Fresh(c + 1) {
        assert c + 1 < c + 2;
      } else {
        var k: nat :| k < c && x == Fresh(k);
      }
    }
  }

  lemma UnionBarFree(n1: Nfa, n2: Nfa, c: nat)
    requires BarFree(n1) && BarFree(n2)
    ensures BarFree(UnionNfa(n1, n2, c).0)
  {
    var n := UnionNfa(n1, n2, c).0;
    UnionStatesBarFree(n1, n2, c);
    UnionEdgesBarFree(n1, n2, c);
  }

  lemma UnionStatesBarFree(n1: Nfa, n2: Nfa, c: nat)
    requires BarFree(n1) && BarFree(n2)
    ensures forall s :: s in UnionNfa(n1, n2, c).0.states ==> '|' !in s.id
  {
    FreshHasNoBar(c);
    FreshHasNoBar(c + 1);
    IdsOfBarFree(n1.states);
    IdsOfBarFree(n2.states);
    BarFreeByIds(UnionNfa(n1, n2, c).0.states,
                 {Fresh(c), Fresh(c + 1)} + StateIds(n1.states) + StateIds(n2.states));
  }

  lemma IdsOfBarFree(states: seq<State>)
    requires forall s :: s in states ==> '|' !in s.id
    ensures forall x :: x in StateIds(states) ==> '|' !in x
  {
    forall x | x in StateIds(states) ensures '|' !in x {
      var s :| s in states && s.id == x;
    }
  }

  lemma BarFreeByIds(states: seq<State>, ids: set<Id>)
    requires StateIds(states) == ids && forall x :: x in ids ==> '|' !in x
    ensures forall s :: s in states ==> '|' !in s.id
  {
    forall s | s in states ensures '|' !in s.id {
      assert s.id in StateIds(states);
    }
  }

  lemma UnionEdgesBarFree(n1: Nfa, n2: Nfa, c: nat)
    requires BarFree(n1) && BarFree(n2)
    ensures forall t :: t in UnionNfa(n1, n2, c).0.transitions ==> '|' !in t.from && '|' !in t.to && '|' !in t.symbol
  {
    UnionNfaEdges(n1, n2, c);
    FreshHasNoBar(c);
    FreshHasNoBar(c + 1);
    InitialIdBarFree(n1.states);
    InitialIdBarFree(n2.states);
    FinalEdgesBarFree(n1.states, Fresh(c + 1));
    FinalEdgesBarFree(n2.states, Fresh(c + 1));
    assert forall i :: 0 <= i < |Epsilon| ==> Epsilon[i] != '|';
  }

  /** The concatenation of two well-built fragments with disjoint ids is
      well built. */
  lemma ConcatWellBuilt(n1: Nfa, n2: Nfa, c: nat)
    requires WellBuilt(n1, c) && WellBuilt(n2, c)
    requires StateIds(n1.states) !! StateIds(n2.states)
    ensures WellBuilt(ConcatNfa(n1, n2), c)
  {
    var n := ConcatNfa(n1, n2);
    SameIdsSameSet(ClearFinal(n1.states), n1.states);
    SameIdsSameSet(ClearInitial(n2.states), n2.states);
    DistinctAppend(ClearFinal(n1.states), ClearInitial(n2.states));
    InitialIdBarFree(n2.states);
    FinalEdgesBarFree(n1.states, InitialIdOrEmpty(n2.states));
    ConcatEdgesLeave(n1, n2);
    forall s | s in n.states ensures '|' !in s.id {
      assert s.id in StateIds(n.states);
    }
  }

  /** The star of a well-built fragment is well built. */
  lemma StarWellBuilt(n1: Nfa, c: nat)
    requires WellBuilt(n1, c)
    ensures WellBuilt(StarNfa(n1, c).0, c + 2)
  {
    StarDistinct(n1, c);
    StarFreshBelow(n1, c);
    StarBarFree(n1, c);
    StarEdgesLeave(n1, c);
  }

  lemma StarDistinct(n1: Nfa, c: nat)
    requires DistinctIds(n1.states) && FreshBelow(StateIds(n1.states), c)
    ensures DistinctIds(StarNfa(n1, c).0.states)
  {
    var start, end := Fresh(c), Fresh(c + 1);
    if start == end { FreshInjective(c, c + 1); }
    NotFreshBelow(StateIds(n1.states), c, c);
    NotFreshBelow(StateIds(n1.states), c, c + 1);
    SameIdsSameSet(Demote(n1.states), n1.states);
    WrappedDistinct(State(start, false, true, start), Demote(n1.states), State(end, true, false, end));
    StarStates(n1, c);
  }

  lemma StarStates(n1: Nfa, c: nat)
    ensures StarNfa(n1, c).0.states
            == [State(Fresh(c), false, true, Fresh(c))] + Demote(n1.states)
               + [State(Fresh(c + 1), true, false, Fresh(c + 1))]
  {
  }

  lemma StarFreshBelow(n1: Nfa, c: nat)
    requires FreshBelow(StateIds(n1.states), c)
    ensures FreshBelow(StateIds(StarNfa(n1, c).0.states), c + 2)
  {
    FreshBelowGrow(StateIds(n1.states), c);
  }

  lemma StarBarFree(n1: Nfa, c: nat)
    requires BarFree(n1)
    ensures BarFree(StarNfa(n1, c).0)
  {
    var n := StarNfa(n1, c).0;
    FreshHasNoBar(c);
    FreshHasNoBar(c + 1);
    InitialIdBarFree(n1.states);
    FinalEdgesBarFree(n1.states, InitialIdOrEmpty(n1.states));
    FinalEdgesBarFree(n1.states, Fresh(c + 1));
    assert forall i :: 0 <= i < |Epsilon| ==> Epsilon[i] != '|';
    StarStatesBarFree(n1, c);
  }

  lemma StarStatesBarFree(n1: Nfa, c: nat)
    requires BarFree(n1)
    ensures forall s :: s in StarNfa(n1, c).0.states ==> '|' !in s.id
  {
    var n := StarNfa(n1, c).0;
    FreshHasNoBar(c);
    FreshHasNoBar(c + 1);
    forall s | s in n.states ensures '|' !in s.id {
      assert s.id in StateIds(n.states);
      if s.id in StateIds(n1.states) {
        var s' :| s' in n1.states && s'.id == s.id;
      }
    }
  }

  // ---------------------------------------------------------------------
  // Postfix evaluation
  // ---------------------------------------------------------------------

  const StarError: string := "Invalid regex: insufficient operand for Kleene star"
  const UnionError: string := "Invalid regex: insufficient operands for union"
  const ConcatError: string := "Invalid regex: insufficient operands for concatenation"
  const ParseError: string := "Invalid regex: parsing error"

  /** The fragment stack, top last, and the id counter. */
  datatype Frags = Frags(stack: seq<Nfa>, counter: nat)

  /** One postfix token: `*` replaces the top fragment by its star, `|` and
      `.` replace the top two by their union or concatenation, anything
      else pushes a basic fragment on that one-character symbol. */
  function PushToken(st: Frags, token: char): (r: Result<Frags, string>)
    ensures r.Err? <==> (token == '*' && |st.stack| < 1)
                        || ((token == '|' || token == '.') && |st.stack| < 2)
    ensures r.Ok? ==> r.value.counter >= st.counter
    ensures r.Ok? ==> |r.value.stack|
                      == |st.stack| + (if token == '*' then 0 else if token == '|' || token == '.' then -1 else 1)
    ensures r.Ok? ==> r.value.stack[..|r.value.stack| - 1] == st.stack[..|r.value.stack| - 1]
  {
    var s := st.stack;
    if token == '*' then
      if |s| < 1 then Err(StarError)
      else
        var (n, c) := StarNfa(s[|s| - 1], st.counter);
        Ok(Frags(s[..|s| - 1] + [n], c))
    else if token == '|' then
      if |s| < 2 then Err(UnionError)
      else
        var (n, c) := UnionNfa(s[|s| - 2], s[|s| - 1], st.counter);
        Ok(Frags(s[..|s| - 2] + [n], c))
    else if token == '.' then
      if |s| < 2 then Err(ConcatError)
      else Ok(Frags(s[..|s| - 2] + [ConcatNfa(s[|s| - 2], s[|s| - 1])], st.counter))
    else
      var (n, c) := BasicNfa([token], st.counter);
      Ok(Frags(s + [n], c))
  }

  /** The stack after the tokens of `postfix`, or the first error thrown. */
  function Assemble(postfix: string, c0: nat): Result<Frags, string>
    decreases |postfix|
  {
    if |postfix| == 0 then Ok(Frags([], c0))
    else
      match Assemble(postfix[..|postfix| - 1], c0)
      case Err(e) => Err(e)
      case Ok(st) => PushToken(st, postfix[|postfix| - 1])
  }

  lemma AssembleStep(postfix: string, i: nat, c0: nat, st: Frags)
    requires i < |postfix| && Assemble(postfix[..i], c0) == Ok(st)
    ensures Assemble(postfix[..i + 1], c0) == PushToken(st, postfix[i])
  {
    assert postfix[..i + 1][..i] == postfix[..i];
  }

  /** `parseRegexToNFA`, with the counter value it starts from: the single
      fragment left on the stack and the counter after it. */
  function ParseRegex(regex: string, c0: nat): Result<(Nfa, nat), string>
  {
    var postfix := RegexParser.Postfix(RegexConcat.ExplicitConcat(regex));
    match Assemble(postfix, c0)
    case Err(e) => Err(e)
    case Ok(st) => if |st.stack| != 1 then Err(ParseError) else Ok((st.stack[0], st.counter))
  }

  /** Every fragment on the stack is well built and no two share an id. */
  ghost predicate StackOk(st: Frags)
  {
    (forall i :: 0 <= i < |st.stack| ==> WellBuilt(st.stack[i], st.counter))
    && (forall i, j :: 0 <= i < j < |st.stack| ==> StateIds(st.stack[i].states) !! StateIds(st.stack[j].states))
  }

  lemma PushTokenOk(st: Frags, token: char)
    requires StackOk(st)
    requires PushToken(st, token).Ok?
    ensures StackOk(PushToken(st, token).value)
  {
    if token == '*' {
      PushStarOk(st);
    } else if token == '|' {
      PushUnionOk(st);
    } else if token == '.' {
      PushConcatOk(st);
    } else {
      PushBasicOk(st, token);
    }
  }

  lemma PushStarOk(st: Frags)
    requires StackOk(st) && |st.stack| >= 1
    ensures StackOk(PushToken(st, '*').value)
  {
    var m := |st.stack| - 1;
    var r := StarNfa(st.stack[m], st.counter);
    StarStackOk(st);
    assert PushToken(st, '*') == Ok(Frags(st.stack[..m] + [r.0], r.1));
  }

  lemma StarStackOk(st: Frags)
    requires StackOk(st) && |st.stack| >= 1
    ensures var m := |st.stack| - 1;
            var r := StarNfa(st.stack[m], st.counter);
            StackOk(Frags(st.stack[..m] + [r.0], r.1))
  {
    var c := st.counter;
    var m := |st.stack| - 1;
    var n1 := st.stack[m];
    assert WellBuilt(n1, c);
    StarWellBuilt(n1, c);
    var r := StarNfa(n1, c);
    StarNewOrAbove(st);
    StackRest(st, m, r.0, r.1);
  }

  lemma StarNewOrAbove(st: Frags)
    requires |st.stack| >= 1
    ensures var m := |st.stack| - 1;
            var r := StarNfa(st.stack[m], st.counter);
            forall x :: x in StateIds(r.0.states) ==> NewOrAbove(st, m, r.1, x)
  {
    var c := st.counter;
    var m := |st.stack| - 1;
    var r := StarNfa(st.stack[m], c);
    forall x | x in StateIds(r.0.states) ensures NewOrAbove(st, m, r.1, x) {
      if x == Fresh(c) {
        assert st.counter <= c < r.1 && x == Fresh(c);
      } else if x == Fresh(c + 1) {
        assert st.counter <= c + 1 < r.1 && x == Fresh(c + 1);
      } else {
        assert x in StateIds(st.stack[m].states);
      }
    }
  }

  lemma PushUnionOk(st: Frags)
    requires StackOk(st) && |st.stack| >= 2
    ensures StackOk(PushToken(st, '|').value)
  {
    var m := |st.stack| - 2;
    var r := UnionNfa(st.stack[m], st.stack[m + 1], st.counter);
    UnionStackOk(st);
    assert PushToken(st, '|') == Ok(Frags(st.stack[..m] + [r.0], r.1));
  }

  lemma UnionStackOk(st: Frags)
    requires StackOk(st) && |st.stack| >= 2
    ensures var m := |st.stack| - 2;
            var r := UnionNfa(st.stack[m], st.stack[m + 1], st.counter);
            StackOk(Frags(st.stack[..m] + [r.0], r.1))
  {
    var c := st.counter;
    var m := |st.stack| - 2;
    var n1, n2 := st.stack[m], st.stack[m + 1];
    assert WellBuilt(n1, c) && WellBuilt(n2, c);
    assert StateIds(n1.states) !! StateIds(n2.states);
    UnionWellBuilt(n1, n2, c);
    var r := UnionNfa(n1, n2, c);
    UnionNewOrAbove(st);
    StackRest(st, m, r.0, r.1);
  }

  lemma UnionNewOrAbove(st: Frags)
    requires |st.stack| >= 2
    ensures var m := |st.stack| - 2;
            var r := UnionNfa(st.stack[m], st.stack[m + 1], st.counter);
            forall x :: x in StateIds(r.0.states) ==> NewOrAbove(st, m, r.1, x)
  {
    var s, c := st.stack, st.counter;
    var m := |s| - 2;
    var r := UnionNfa(s[m], s[m + 1], c);
    forall x | x in StateIds(r.0.states) ensures NewOrAbove(st, m, r.1, x) {
      if x == Fresh(c) {
        assert st.counter <= c < r.1 && x == Fresh(c);
      } else if x == Fresh(c + 1) {
        assert st.counter <= c + 1 < r.1 && x == Fresh(c + 1);
      } else if x in StateIds(s[m].states) {
        assert x in StateIds(st.stack[m].states);
      } else {
        assert x in StateIds(st.stack[m + 1].states);
      }
    }
  }

  lemma PushConcatOk(st: Frags)
    requires StackOk(st) && |st.stack| >= 2
    ensures StackOk(PushToken(st, '.').value)
  {
    var s, c := st.stack, st.counter;
    var m := |s| - 2;
    ConcatWellBuilt(s[m], s[m + 1], c);
    var n := ConcatNfa(s[m], s[m + 1]);
    forall x | x in StateIds(n.states) ensures NewOrAbove(st, m, c, x) {
      if x in StateIds(s[m].states) {
        assert x in StateIds(st.stack[m].states);
      } else {
        assert x in StateIds(st.stack[m + 1].states);
      }
    }
    StackRest(st, m, n, c);
  }

  lemma PushBasicOk(st: Frags, token: char)
    requires StackOk(st) && token != '*' && token != '|' && token != '.'
    ensures StackOk(PushToken(st, token).value)
  {
    var c := st.counter;
    assert '|' !in [token];
    BasicWellBuilt([token], c);
    var (n, c') := BasicNfa([token], c);
    forall x | x in StateIds(n.states) ensures NewOrAbove(st, |st.stack|, c', x) {
      if x == Fresh(c) {
        assert st.counter <= c < c' && x == Fresh(c);
      } else {
        assert st.counter <= c + 1 < c' && x == Fresh(c + 1);
      }
    }
    StackRest(st, |st.stack|, n, c');
  }

  /** `x` was handed out between the counter and `c'`, or is an id of a
      fragment above `m`. */
  ghost predicate NewOrAbove(st: Frags, m: nat, c': nat, x: Id)
  {
    (exists k: nat :: st.counter <= k < c' && x == Fresh(k))
    || (exists i :: m <= i < |st.stack| && x in StateIds(st.stack[i].states))
  }

  /** Replacing the fragments above `m` by `n`, whose ids are new or taken
      from the replaced fragments, keeps the stack sound. */
  lemma StackRest(st: Frags, m: nat, n: Nfa, c': nat)
    requires StackOk(st) && m <= |st.stack| && st.counter <= c'
    requires WellBuilt(n, c')
    requires forall x :: x in StateIds(n.states) ==> NewOrAbove(st, m, c', x)
    ensures StackOk(Frags(st.stack[..m] + [n], c'))
  {
    var s := st.stack[..m] + [n];
    forall i | 0 <= i < |s| ensures WellBuilt(s[i], c') {
      if i < m {
        assert s[i] == st.stack[i];
        FreshBelowMono(StateIds(st.stack[i].states), st.counter, c');
      }
    }
    forall i, j | 0 <= i < j < |s| ensures StateIds(s[i].states) !! StateIds(s[j].states) {
      assert s[i] == st.stack[i];
      if j == m {
        forall x | x in StateIds(s[i].states) ensures x !in StateIds(n.states) {
          if x in StateIds(n.states) && exists k: nat :: st.counter <= k < c' && x == Fresh(k) {
            var k: nat :| st.counter <= k < c' && x == Fresh(k);
            NotFreshBelow(StateIds(st.stack[i].states), st.counter, k);
          }
        }
      } else {
        assert s[j] == st.stack[j];
      }
    }
  }

  /** Every stack the evaluation reaches is sound, so a successful parse
      yields one fragment with one initial state, one final state and
      pairwise distinct ids, all handed out by the counter. */
  lemma {:induction false} AssembleOk(postfix: string, c0: nat)
    ensures Assemble(postfix, c0).Ok? ==> StackOk(Assemble(postfix, c0).value)
                                          && Assemble(postfix, c0).value.counter >= c0
    decreases |postfix|
  {
    if |postfix| > 0 {
      var p := postfix[..|postfix| - 1];
      AssembleOk(p, c0);
      if Assemble(p, c0).Ok? && Assemble(postfix, c0).Ok? {
        PushTokenOk(Assemble(p, c0).value, postfix[|postfix| - 1]);
      }
    }
  }

  lemma ParseWellBuilt(regex: string, c0: nat)
    ensures ParseRegex(regex, c0).Ok? ==> WellBuilt(ParseRegex(regex, c0).value.0, ParseRegex(regex, c0).value.1)
                                          && ParseRegex(regex, c0).value.1 >= c0
  {
    AssembleOk(RegexParser.Postfix(RegexConcat.ExplicitConcat(regex)), c0);
  }

  /** Once a token has thrown, the evaluation stops with that error. */
  lemma {:induction false} AssembleErrSticks(postfix: string, i: nat, c0: nat)
    requires i <= |postfix| && Assemble(postfix[..i], c0).Err?
    ensures Assemble(postfix, c0) == Assemble(postfix[..i], c0)
    decreases |postfix| - i
  {
    if i < |postfix| {
      assert postfix[..i + 1][..i] == postfix[..i];
      AssembleErrSticks(postfix, i + 1, c0);
    } else {
      assert postfix[..i] == postfix;
    }
  }

  /** `parseRegexToNFA`: explicit concatenation, postfix conversion, then
      one pass over the postfix with a stack of fragments. */
  method ParseRegexToNfa(regex: string, counter0: nat) returns (r: Result<(Nfa, nat), string>)
    ensures r == ParseRegex(regex, counter0)
  {
    var concatExplicit := RegexConcat.MakeExplicitConcatenation(regex);
    var postfix := RegexParser.InfixToPostfix(concatExplicit);
    var stack: seq<Nfa> := [];
    var counter := counter0;
    for i := 0 to |postfix|
      invariant Assemble(postfix[..i], counter0) == Ok(Frags(stack, counter))
    {
      var token := postfix[i];
      AssembleStep(postfix, i, counter0, Frags(stack, counter));
      if token == '*' {
        if |stack| < 1 {
          AssembleErrSticks(postfix, i + 1, counter0);
          return Err(StarError);
        }
        var operand := stack[|stack| - 1];
        stack := stack[..|stack| - 1];
        var (n, c) := StarNfa(operand, counter);
        stack, counter := stack + [n], c;
      } else if token == '|' {
        if |stack| < 2 {
          AssembleErrSticks(postfix, i + 1, counter0);
          return Err(UnionError);
        }
        var right := stack[|stack| - 1];
        var left := stack[|stack| - 2];
        stack := stack[..|stack| - 2];
        var (n, c) := UnionNfa(left, right, counter);
        stack, counter := stack + [n], c;
      } else if token == '.' {
        if |stack| < 2 {
          AssembleErrSticks(postfix, i + 1, counter0);
          return Err(ConcatError);
        }
        var right := stack[|stack| - 1];
        var left := stack[|stack| - 2];
        stack := stack[..|stack| - 2];
        stack := stack + [ConcatNfa(left, right)];
      } else {
        var (n, c) := BasicNfa([token], counter);
        stack, counter := stack + [n], c;
      }
    }
    assert postfix[..|postfix|] == postfix;
    if |stack| != 1 {
      return Err(ParseError);
    }
    return Ok((stack[0], counter));
  }
}

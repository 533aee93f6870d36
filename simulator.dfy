/** The simulation of app/components/NFASimulator.tsx, without its React
    state: the worklist ε-closure, one simulation step, and the loop of
    `runSimulation` that records the live set and the transitions taken
    after every symbol, halts on an empty live set, and decides the
    verdict on the last live set. */
module Simulator {
  import opened Wrappers
  import opened Automaton
  import opened Closures
  import opened Language

  const NoNfaError: string := "Please load an NFA first"

  /** The input as the simulator reads it: exactly `"ε"` stands for the
      empty input. */
  function EffectiveInput(input: string): string
  {
    if input == "ε" then "" else input
  }

  /** Each character of the input is read as a one-character symbol. */
  function Symbols(s: string): (w: seq<Symbol>)
    ensures |w| == |s|
    ensures forall k :: 0 <= k < |s| ==> w[k] == [s[k]]
  {
    seq(|s|, k requires 0 <= k < |s| => [s[k]])
  }

  /** What `runSimulation` computes: the last live set, the live set after
      each step (`statesSeq`), the transitions taken at each step
      (`transitionsSeq`) and the verdict. */
  datatype Trace = Trace(states: set<Id>, statesSeq: seq<set<Id>>,
                         transitionsSeq: seq<seq<Transition>>, accepted: bool)

  /** `taken` lists exactly the `symbol`-transitions leaving the closure of
      `before`. */
  ghost predicate StepRecorded(ts: seq<Transition>, before: set<Id>, symbol: Symbol, taken: seq<Transition>)
  {
    forall t :: t in taken <==> t in ts && t.from in Closure(ts, before) && t.symbol == symbol
  }

  /** The trace of reading `w`: entry `k` is the live set after `k`
      symbols; the first step that empties the live set is the last one
      recorded, with no transitions; every other step lists the
      transitions it took; the verdict looks at the last live set. */
  ghost predicate TraceOf(nfa: Nfa, w: seq<Symbol>, tr: Trace)
  {
    var ts, m := nfa.transitions, |tr.statesSeq|;
    m == |tr.transitionsSeq| && 1 <= m <= |w| + 1
    && tr.transitionsSeq[0] == []
    && (forall k :: 0 <= k < m ==> tr.statesSeq[k] == Run(ts, Start(nfa), w[..k]))
    && (forall k :: 0 < k < m - 1 ==> tr.statesSeq[k] != {})
    && (m < |w| + 1 ==> tr.statesSeq[m - 1] == {})
    && (forall k :: 0 < k < m ==>
          (tr.statesSeq[k] == {} ==> tr.transitionsSeq[k] == [])
          && (tr.statesSeq[k] != {} ==> StepRecorded(ts, tr.statesSeq[k - 1], w[k - 1], tr.transitionsSeq[k])))
    && tr.states == tr.statesSeq[m - 1]
    && tr.accepted == HasFinal(nfa.states, tr.states)
  }

  /** The verdict of a trace is the language verdict: a halted run rejects,
      and a run that read every symbol accepts exactly when its live set
      holds a final state. */
  lemma TraceAccepts(nfa: Nfa, w: seq<Symbol>, tr: Trace)
    requires TraceOf(nfa, w, tr)
    ensures tr.states == Run(nfa.transitions, Start(nfa), w)
    ensures tr.accepted <==> Accepts(nfa, w)
  {
    var m := |tr.statesSeq|;
    LastLive(nfa, w, m - 1, tr.states);
  }

  /** The live set after `i` symbols, empty or taken after the whole word,
      is the live set after the whole word. */
  lemma LastLive(nfa: Nfa, w: seq<Symbol>, i: nat, X: set<Id>)
    requires i <= |w| && X == Run(nfa.transitions, Start(nfa), w[..i])
    requires i < |w| ==> X == {}
    ensures X == Run(nfa.transitions, Start(nfa), w)
  {
    if i < |w| {
      RunHalts(nfa, w, i);
    } else {
      assert w[..i] == w;
    }
  }

  /** An empty input, or exactly `"ε"`, records only the initial closure
      and is accepted exactly when that closure holds a final state. */
  lemma EmptyInputTrace(nfa: Nfa, input: string, tr: Trace)
    requires input == "" || input == "ε"
    requires TraceOf(nfa, Symbols(EffectiveInput(input)), tr)
    ensures tr.statesSeq == [Closure(nfa.transitions, {InitialIdOrEmpty(nfa.states)})]
    ensures tr.transitionsSeq == [[]]
    ensures tr.accepted <==> HasFinal(nfa.states, Closure(nfa.transitions, {InitialIdOrEmpty(nfa.states)}))
  {
    var w := Symbols(EffectiveInput(input));
    assert w[..0] == [];
  }

  /** The symbol `ε` in the middle of an input is read like any other
      symbol: it follows ε-labelled edges out of the live set, and can
      never reach beyond its closure. */
  lemma EpsilonSymbolStep(ts: seq<Transition>, S: set<Id>)
    ensures Step(ts, S, Epsilon) <= Closure(ts, S)
  {
    var C := Closure(ts, S);
    assert Move(ts, C, Epsilon) <= C;
    ClosureMonotonic(ts, Move(ts, C, Epsilon), C);
    ClosureIdempotent(ts, S);
  }

  /** A state that is initial and final with no edges accepts the empty
      word but rejects the one-symbol word `[ε]`, which is what remains to
      be read when `ε` occurs in an input after other symbols: reading `ε`
      from a state with no ε-edge empties the live set. */
  lemma EpsilonSymbolRejects()
    ensures var nfa := Nfa([State("q0", true, true, "q0")], [], []);
            Accepts(nfa, []) && !Accepts(nfa, [Epsilon])
  {
    var nfa := Nfa([State("q0", true, true, "q0")], [], []);
    ClosureOfSink([], "q0");
    assert Start(nfa) == {"q0"};
    assert IsFinalId(nfa.states, "q0");
    assert Move([], {"q0"}, Epsilon) == {};
    assert Closure([], {}) == {};
    RunLast([], Start(nfa), [Epsilon]);
    assert [Epsilon][..0] == [];
  }

  /** `computeEpsilonClosure`: the worklist closure over the loaded
      automaton's transitions; with no automaton loaded no edge is
      followed. */
  method ComputeEpsilonClosure(nfa: Option<Nfa>, states: set<Id>) returns (closure: set<Id>)
    ensures nfa.None? ==> closure == states
    ensures nfa.Some? ==> closure == Closure(nfa.value.transitions, states)
  {
    if nfa.None? {
      closure := EpsilonClosure([], states);
      ClosureNoEdges(states);
    } else {
      closure := EpsilonClosure(nfa.value.transitions, states);
    }
  }

  lemma ClosureNoEdges(S: set<Id>)
    ensures Closure([], S) == S
  {
    assert Post([], S, Epsilon) == {};
  }

  /** `simulateStep`: close, move on `symbol`, close again; the empty set
      when no automaton is loaded. */
  method SimulateStep(nfa: Option<Nfa>, currentStates: set<Id>, symbol: Symbol) returns (next: set<Id>)
    ensures nfa.None? ==> next == {}
    ensures nfa.Some? ==> next == Step(nfa.value.transitions, currentStates, symbol)
  {
    if nfa.None? {
      return {};
    }
    var closure := ComputeEpsilonClosure(nfa, currentStates);
    var nextStates := MoveStates(nfa.value.transitions, closure, symbol);
    next := ComputeEpsilonClosure(nfa, nextStates);
  }

  /** The transitions taken on `symbol`: for each state of the closure, in
      some order, every `symbol`-transition leaving it, in list order. */
  method TakenTransitions(ts: seq<Transition>, closure: set<Id>, symbol: Symbol) returns (taken: seq<Transition>)
    ensures forall t :: t in taken <==> t in ts && t.from in closure && t.symbol == symbol
  {
    var order := ToList(closure);
    taken := [];
    for k := 0 to |order|
      invariant forall t :: t in taken <==> t in ts && t.from in order[..k] && t.symbol == symbol
    {
      var state := order[k];
      ghost var before := taken;
      for j := 0 to |ts|
        invariant forall t :: t in taken <==> t in before || (t in ts[..j] && t.from == state && t.symbol == symbol)
      {
        assert ts[..j + 1] == ts[..j] + [ts[j]];
        if ts[j].from == state && ts[j].symbol == symbol {
          taken := taken + [ts[j]];
        }
      }
      assert ts[..|ts|] == ts;
      assert order[..k + 1] == order[..k] + [state];
    }
    assert order[..|order|] == order;
  }

  /** `runSimulation`: without an automaton it reports the error;
      otherwise it reads the effective input symbol by symbol from the
      closure of the initial state, recording every step, and stops at the
      first step whose live set is empty. */
  method RunSimulation(nfa: Option<Nfa>, input: string) returns (r: Result<Trace, string>)
    ensures nfa.None? ==> r == Err(NoNfaError)
    ensures nfa.Some? ==> r.Ok? && TraceOf(nfa.value, Symbols(EffectiveInput(input)), r.value)
  {
    if nfa.None? {
      return Err(NoNfaError);
    }
    var n := nfa.value;
    var effectiveInput := if input == "ε" then "" else input;
    ghost var w := Symbols(effectiveInput);
    var states := ComputeEpsilonClosure(nfa, {InitialIdOrEmpty(n.states)});
    RecordedStart(n, w, states);
    if effectiveInput == "" {
      var isAccepted := HasFinal(n.states, states);
      FinishFull(n, w, [states], [[]]);
      return Ok(Trace(states, [states], [[]], isAccepted));
    }
    var statesSeq: seq<set<Id>> := [states];
    var transitionsSeq: seq<seq<Transition>> := [[]];
    var i := 0;
    while i < |effectiveInput|
      invariant 0 <= i <= |effectiveInput|
      invariant Recorded(n, w, statesSeq, transitionsSeq, i) && states == statesSeq[i]
    {
      var symbol := [effectiveInput[i]];
      var closure := ComputeEpsilonClosure(nfa, states);
      var taken := TakenTransitions(n.transitions, closure, symbol);
      var nextStates := SimulateStep(nfa, states, symbol);
      if nextStates == {} {
        FinishHalted(n, w, statesSeq, transitionsSeq, i);
        states := nextStates;
        statesSeq := statesSeq + [{}];
        transitionsSeq := transitionsSeq + [[]];
        break;
      }
      RecordNext(n, w, statesSeq, transitionsSeq, i, nextStates, taken);
      states := nextStates;
      statesSeq := statesSeq + [states];
      transitionsSeq := transitionsSeq + [taken];
      i := i + 1;
    }
    if i == |effectiveInput| {
      FinishFull(n, w, statesSeq, transitionsSeq);
    }
    var isAccepted := HasFinal(n.states, states);
    r := Ok(Trace(states, statesSeq, transitionsSeq, isAccepted));
  }

  /** The loop invariant of `RunSimulation` after `i` symbols. */
  ghost predicate Recorded(nfa: Nfa, w: seq<Symbol>, statesSeq: seq<set<Id>>,
                           transitionsSeq: seq<seq<Transition>>, i: nat)
  {
    var ts := nfa.transitions;
    i <= |w| && |statesSeq| == |transitionsSeq| == i + 1 && transitionsSeq[0] == []
    && (forall k :: 0 <= k <= i ==> statesSeq[k] == Run(ts, Start(nfa), w[..k]))
    && (forall k :: 0 < k <= i ==> statesSeq[k] != {})
    && (forall k :: 0 < k <= i ==> StepRecorded(ts, statesSeq[k - 1], w[k - 1], transitionsSeq[k]))
  }

  lemma RecordedStart(nfa: Nfa, w: seq<Symbol>, states: set<Id>)
    requires states == Start(nfa)
    ensures Recorded(nfa, w, [states], [[]], 0)
  {
    assert w[..0] == [];
  }

  lemma RecordNext(nfa: Nfa, w: seq<Symbol>, statesSeq: seq<set<Id>>,
                   transitionsSeq: seq<seq<Transition>>, i: nat, next: set<Id>, taken: seq<Transition>)
    requires Recorded(nfa, w, statesSeq, transitionsSeq, i) && i < |w|
    requires next == Step(nfa.transitions, statesSeq[i], w[i]) && next != {}
    requires StepRecorded(nfa.transitions, statesSeq[i], w[i], taken)
    ensures Recorded(nfa, w, statesSeq + [next], transitionsSeq + [taken], i + 1)
  {
    var ts := nfa.transitions;
    var ss, tq := statesSeq + [next], transitionsSeq + [taken];
    RunNext(ts, Start(nfa), w, i, statesSeq[i], next);
    forall k | 0 <= k <= i + 1 ensures ss[k] == Run(ts, Start(nfa), w[..k]) {
      if k <= i { assert ss[k] == statesSeq[k]; }
    }
    forall k | 0 < k <= i + 1 ensures ss[k] != {} {
      if k <= i { assert ss[k] == statesSeq[k]; }
    }
    forall k | 0 < k <= i + 1 ensures StepRecorded(ts, ss[k - 1], w[k - 1], tq[k]) {
      if k <= i { assert ss[k - 1] == statesSeq[k - 1] && tq[k] == transitionsSeq[k]; }
    }
  }

  lemma RunNext(ts: seq<Transition>, S: set<Id>, w: seq<Symbol>, i: nat, X: set<Id>, Y: set<Id>)
    requires i < |w| && X == Run(ts, S, w[..i]) && Y == Step(ts, X, w[i])
    ensures Y == Run(ts, S, w[..i + 1])
  {
    RunPrefixStep(ts, S, w, i);
  }

  lemma FinishHalted(nfa: Nfa, w: seq<Symbol>, statesSeq: seq<set<Id>>,
                     transitionsSeq: seq<seq<Transition>>, i: nat)
    requires Recorded(nfa, w, statesSeq, transitionsSeq, i) && i < |w|
    requires Step(nfa.transitions, statesSeq[i], w[i]) == {}
    ensures TraceOf(nfa, w, Trace({}, statesSeq + [{}], transitionsSeq + [[]], HasFinal(nfa.states, {})))
  {
    var ts := nfa.transitions;
    var ss, tq := statesSeq + [{}], transitionsSeq + [[]];
    RunNext(ts, Start(nfa), w, i, statesSeq[i], {});
    forall k | 0 <= k <= i + 1 ensures ss[k] == Run(ts, Start(nfa), w[..k]) {
      if k <= i { assert ss[k] == statesSeq[k]; }
    }
    forall k | 0 < k < i + 1 ensures ss[k] != {} {
      assert ss[k] == statesSeq[k];
    }
    forall k | 0 < k <= i + 1
      ensures (ss[k] == {} ==> tq[k] == [])
              && (ss[k] != {} ==> StepRecorded(ts, ss[k - 1], w[k - 1], tq[k]))
    {
      if k <= i { assert ss[k - 1] == statesSeq[k - 1] && ss[k] == statesSeq[k] && tq[k] == transitionsSeq[k]; }
    }
  }

  lemma FinishFull(nfa: Nfa, w: seq<Symbol>, statesSeq: seq<set<Id>>, transitionsSeq: seq<seq<Transition>>)
    requires Recorded(nfa, w, statesSeq, transitionsSeq, |w|)
    ensures TraceOf(nfa, w, Trace(statesSeq[|w|], statesSeq, transitionsSeq, HasFinal(nfa.states, statesSeq[|w|])))
  {
  }

  lemma RunPrefixStep(ts: seq<Transition>, S: set<Id>, w: seq<Symbol>, i: nat)
    requires i < |w|
    ensures Run(ts, S, w[..i + 1]) == Step(ts, Run(ts, S, w[..i]), w[i])
  {
    RunLast(ts, S, w[..i + 1]);
    assert w[..i + 1][..i] == w[..i];
  }
}

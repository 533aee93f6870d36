/** `nfaToDot` of app/components/NFADiagram.tsx: the Graphviz DOT text of
    an NFA, with the states and transitions of the current simulation step
    highlighted. */
module Diagram {
  import opened Wrappers
  import opened Strings
  import opened Automaton

  /** The lines before the per-state and per-transition lines. */
  const HeaderLines: seq<string> := [
    "digraph NFA {",
    "  rankdir=LR;",
    "  node [" + "shape=circle, " + "style=filled, " + "fillcolor=" + "\"#ffffcc\", " + "fontname=\"Arial\", "
    + "fontsize=18];"
  ]

  const FakeInitNode: string := "  fake_init [" + "shape=point, " + "width=0.1, " + "label=\"\", " + "color=gray];"

  const ActiveFill: string := "#3b82f6"
  const PlainFill: string := "#ffffcc"
  const ActiveEdgeColor: string := "#2563eb"
  const PlainEdgeColor: string := "#333"

  function FakeInitEdge(id: Id): string
  {
    "  fake_init -> " + id + " [color=gray, " + "penwidth=2];"
  }

  /** Every line of `xs` followed by a newline. */
  function Terminated(xs: seq<string>): string
  {
    if |xs| == 0 then "" else xs[0] + "\n" + Terminated(xs[1..])
  }

  lemma {:induction false} TerminatedSnoc(xs: seq<string>, line: string)
    ensures Terminated(xs + [line]) == Terminated(xs) + line + "\n"
  {
    if |xs| == 0 {
      assert ([line])[1..] == [];
    } else {
      assert (xs + [line])[1..] == xs[1..] + [line];
      TerminatedSnoc(xs[1..], line);
    }
  }

  /** Terminating every line and adding a last one is joining all of them
      with newlines. */
  lemma {:induction false} TerminatedJoin(xs: seq<string>, last: string)
    ensures Terminated(xs) + last == Join(xs + [last], '\n')
  {
    if |xs| == 0 {
      assert xs + [last] == [last];
    } else {
      assert (xs + [last])[1..] == xs[1..] + [last];
      TerminatedJoin(xs[1..], last);
    }
  }

  /** The `fake_init` node and its edge exactly when some state is
      initial; the edge points at the first initial state. */
  function InitLines(states: seq<State>): (r: seq<string>)
    ensures |r| == 0 <==> forall k :: 0 <= k < |states| ==> !states[k].isInitial
    ensures |r| == 0 || |r| == 2
    ensures |r| == 2 ==> r[0] == FakeInitNode
                         && exists k :: 0 <= k < |states| && states[k].isInitial
                                        && (forall j :: 0 <= j < k ==> !states[j].isInitial)
                                        && r[1] == FakeInitEdge(states[k].id)
  {
    FindInitialFirst(states);
    match FindInitial(states)
    case None => []
    case Some(initial) => [FakeInitNode, FakeInitEdge(initial.id)]
  }

  datatype NodeStyle = NodeStyle(peripheries: nat, color: string, fillcolor: string)

  /** The style of a state's node: an active state is filled blue
      whatever its flags; an inactive final state gets a double circle. */
  function NodeStyleOf(state: State, activeStates: seq<Id>): (r: NodeStyle)
    ensures r.fillcolor == ActiveFill <==> state.id in activeStates
    ensures r.fillcolor == ActiveFill || r.fillcolor == PlainFill
    ensures r.peripheries == 2 <==> state.isFinal && state.id !in activeStates
    ensures r.peripheries == 1 || r.peripheries == 2
  {
    if state.id in activeStates then NodeStyle(1, "#1d4ed8", ActiveFill)
    else if state.isFinal && state.isInitial then NodeStyle(2, "#0ea5e9", PlainFill)
    else if state.isFinal then NodeStyle(2, "#22c55e", PlainFill)
    else if state.isInitial then NodeStyle(1, "#2563eb", PlainFill)
    else NodeStyle(1, "#888", PlainFill)
  }

  function NodeText(id: Id, style: NodeStyle): string
  {
    "  " + id + " [label=\"" + id + "\", " + "shape=circle, " + "peripheries=" + NatToString(style.peripheries)
    + ", " + "color=\"" + style.color + "\", " + "fillcolor=\"" + style.fillcolor + "\"];"
  }

  function NodeLine(state: State, activeStates: seq<Id>): string
  {
    NodeText(state.id, NodeStyleOf(state, activeStates))
  }

  /** The line of a transition, highlighted or not. */
  function EdgeText(t: Transition, isActive: bool): string
  {
    var color := if isActive then ActiveEdgeColor else PlainEdgeColor;
    "  " + t.from + " -> " + t.to + " [label=\"" + t.symbol + "\", " + "fontname=\"Arial\", " + "fontsize=16, "
    + "color=\"" + color + "\", " + "fontcolor=\"" + color + "\", " + "penwidth=" + (if isActive then "3.5" else "2.2")
    + "];"
  }

  /** A transition is highlighted when an active transition has the same
      source, target and symbol. */
  function EdgeLine(t: Transition, activeTransitions: seq<Transition>): string
  {
    EdgeText(t, exists at :: at in activeTransitions && at.from == t.from && at.to == t.to && at.symbol == t.symbol)
  }

  /** Highlighting shows: the highlighted line of a transition is not its
      plain line. */
  lemma HighlightVisible(t: Transition)
    ensures |EdgeText(t, true)| == |EdgeText(t, false)| + 6
    ensures EdgeText(t, true) != EdgeText(t, false)
  {
  }

  /** An edge line is highlighted exactly when the transition itself is
      among the active ones. */
  lemma EdgeHighlighted(t: Transition, activeTransitions: seq<Transition>)
    ensures EdgeLine(t, activeTransitions) == EdgeText(t, true) <==> t in activeTransitions
  {
    HighlightVisible(t);
    if t in activeTransitions {
      assert exists at :: at in activeTransitions && at.from == t.from && at.to == t.to && at.symbol == t.symbol;
    }
  }

  function NodeLines(states: seq<State>, activeStates: seq<Id>): (r: seq<string>)
    ensures |r| == |states| && forall k :: 0 <= k < |states| ==> r[k] == NodeLine(states[k], activeStates)
  {
    seq(|states|, k requires 0 <= k < |states| => NodeLine(states[k], activeStates))
  }

  function EdgeLines(ts: seq<Transition>, activeTransitions: seq<Transition>): (r: seq<string>)
    ensures |r| == |ts| && forall k :: 0 <= k < |ts| ==> r[k] == EdgeLine(ts[k], activeTransitions)
  {
    seq(|ts|, k requires 0 <= k < |ts| => EdgeLine(ts[k], activeTransitions))
  }

  /** The lines of the DOT text before its closing brace. */
  function Lines(nfa: Nfa, activeStates: seq<Id>, activeTransitions: seq<Transition>): seq<string>
  {
    HeaderLines + InitLines(nfa.states) + NodeLines(nfa.states, activeStates)
    + EdgeLines(nfa.transitions, activeTransitions)
  }

  /** The DOT text: every line newline-terminated, then `}`. */
  function DotText(nfa: Nfa, activeStates: seq<Id>, activeTransitions: seq<Transition>): string
  {
    Terminated(Lines(nfa, activeStates, activeTransitions)) + "}"
  }

  /** The lines are the header, the initial-state marker, one line per
      state in order and one line per transition in order. */
  lemma LinesLayout(nfa: Nfa, activeStates: seq<Id>, activeTransitions: seq<Transition>)
    ensures var r := Lines(nfa, activeStates, activeTransitions);
            var h := |HeaderLines| + |InitLines(nfa.states)|;
            |r| == h + |nfa.states| + |nfa.transitions|
            && r[..|HeaderLines|] == HeaderLines
            && (forall k :: 0 <= k < |nfa.states| ==> r[h + k] == NodeLine(nfa.states[k], activeStates))
            && (forall k :: 0 <= k < |nfa.transitions| ==>
                  r[h + |nfa.states| + k] == EdgeLine(nfa.transitions[k], activeTransitions))
  {
    var head := HeaderLines + InitLines(nfa.states);
    var nodes := NodeLines(nfa.states, activeStates);
    var edges := EdgeLines(nfa.transitions, activeTransitions);
    ThreeParts(head, nodes, edges);
    assert head[..|HeaderLines|] == HeaderLines;
  }

  /** Where the elements of each part of `a + b + c` sit. */
  lemma ThreeParts(a: seq<string>, b: seq<string>, c: seq<string>)
    ensures |a + b + c| == |a| + |b| + |c|
    ensures (a + b + c)[..|a|] == a
    ensures forall k :: 0 <= k < |b| ==> (a + b + c)[|a| + k] == b[k]
    ensures forall k :: 0 <= k < |c| ==> (a + b + c)[|a| + |b| + k] == c[k]
  {
  }

  /** The text opens the graph on its first line and closes it at its
      last character. */
  lemma DotFrame(nfa: Nfa, activeStates: seq<Id>, activeTransitions: seq<Transition>)
    ensures var r := DotText(nfa, activeStates, activeTransitions);
            |r| > 14 && r[..14] == "digraph NFA {\n" && r[|r| - 1] == '}'
  {
    var lines := Lines(nfa, activeStates, activeTransitions);
    assert lines[0] == HeaderLines[0];
    FramedText(lines);
  }

  /** Lines that open the graph give a text that starts with the opening
      line and ends with the closing brace. */
  lemma FramedText(lines: seq<string>)
    requires |lines| > 0 && lines[0] == "digraph NFA {"
    ensures var r := Terminated(lines) + "}";
            |r| > 14 && r[..14] == "digraph NFA {\n" && r[|r| - 1] == '}'
  {
    assert Terminated(lines) == "digraph NFA {\n" + Terminated(lines[1..]);
  }

  /** No id or symbol of the NFA holds a line break. */
  predicate OneLineNames(nfa: Nfa)
  {
    (forall s :: s in nfa.states ==> '\n' !in s.id)
    && (forall t :: t in nfa.transitions ==> '\n' !in t.from && '\n' !in t.to && '\n' !in t.symbol)
  }

  /** No line holds a line break. */
  predicate NoBreaks(lines: seq<string>)
  {
    forall line :: line in lines ==> '\n' !in line
  }

  /** When no name holds a line break, splitting the DOT text at line
      breaks gives back its lines and the closing brace. */
  lemma DotSplitsIntoLines(nfa: Nfa, activeStates: seq<Id>, activeTransitions: seq<Transition>)
    requires OneLineNames(nfa)
    ensures Split(DotText(nfa, activeStates, activeTransitions), '\n')
            == Lines(nfa, activeStates, activeTransitions) + ["}"]
  {
    var lines := Lines(nfa, activeStates, activeTransitions);
    TerminatedJoin(lines, "}");
    HeaderNoBreaks();
    InitNoBreaks(nfa.states);
    NodesNoBreaks(nfa.states, activeStates);
    EdgesNoBreaks(nfa.transitions, activeTransitions);
    assert '\n' !in "}";
    assert NoBreaks(lines + ["}"]);
    SplitJoin(lines + ["}"], '\n');
  }

  lemma HeaderNoBreaks()
    ensures NoBreaks(HeaderLines)
  {
    assert '\n' !in HeaderLines[0] && '\n' !in HeaderLines[1];
    assert '\n' !in HeaderLines[2];
  }

  lemma InitNoBreaks(states: seq<State>)
    requires forall s :: s in states ==> '\n' !in s.id
    ensures NoBreaks(InitLines(states))
  {
    var init := InitLines(states);
    if |init| == 2 {
      var j :| 0 <= j < |states| && states[j].isInitial
               && (forall i :: 0 <= i < j ==> !states[i].isInitial)
               && init[1] == FakeInitEdge(states[j].id);
      assert states[j] in states;
      InitTextNoBreaks(states[j].id);
    }
  }

  lemma InitTextNoBreaks(id: Id)
    requires '\n' !in id
    ensures '\n' !in FakeInitNode && '\n' !in FakeInitEdge(id)
  {
  }

  lemma NodeTextNoBreaks(id: Id, style: NodeStyle)
    requires '\n' !in id && '\n' !in style.color && '\n' !in style.fillcolor
    ensures '\n' !in NodeText(id, style)
  {
    var p := NatToString(style.peripheries);
    assert '\n' !in p;
  }

  lemma NodeLineNoBreaks(state: State, activeStates: seq<Id>)
    requires '\n' !in state.id
    ensures '\n' !in NodeLine(state, activeStates)
  {
    var style := NodeStyleOf(state, activeStates);
    assert '\n' !in style.color && '\n' !in style.fillcolor;
    NodeTextNoBreaks(state.id, style);
  }

  lemma EdgeTextNoBreaks(t: Transition, isActive: bool)
    requires '\n' !in t.from && '\n' !in t.to && '\n' !in t.symbol
    ensures '\n' !in EdgeText(t, isActive)
  {
  }

  lemma NodesNoBreaks(states: seq<State>, activeStates: seq<Id>)
    requires forall s :: s in states ==> '\n' !in s.id
    ensures NoBreaks(NodeLines(states, activeStates))
  {
    var lines := NodeLines(states, activeStates);
    forall line | line in lines ensures '\n' !in line {
      var k :| 0 <= k < |lines| && lines[k] == line;
      assert states[k] in states;
      NodeLineNoBreaks(states[k], activeStates);
    }
  }

  lemma EdgesNoBreaks(ts: seq<Transition>, activeTransitions: seq<Transition>)
    requires forall t :: t in ts ==> '\n' !in t.from && '\n' !in t.to && '\n' !in t.symbol
    ensures NoBreaks(EdgeLines(ts, activeTransitions))
  {
    var lines := EdgeLines(ts, activeTransitions);
    forall line | line in lines ensures '\n' !in line {
      var k :| 0 <= k < |lines| && lines[k] == line;
      assert ts[k] in ts;
      EdgeTextNoBreaks(ts[k], true);
      EdgeTextNoBreaks(ts[k], false);
    }
  }

  lemma NodesDoneStep(lines: seq<string>, states: seq<State>, i: nat, activeStates: seq<Id>, done: seq<string>)
    requires i < |states| && done == lines + NodeLines(states[..i], activeStates)
    ensures done + [NodeLine(states[i], activeStates)] == lines + NodeLines(states[..i + 1], activeStates)
  {
    assert NodeLines(states[..i + 1], activeStates)
           == NodeLines(states[..i], activeStates) + [NodeLine(states[i], activeStates)];
  }

  lemma EdgesDoneStep(lines: seq<string>, ts: seq<Transition>, i: nat, activeTransitions: seq<Transition>,
                      done: seq<string>)
    requires i < |ts| && done == lines + EdgeLines(ts[..i], activeTransitions)
    ensures done + [EdgeLine(ts[i], activeTransitions)] == lines + EdgeLines(ts[..i + 1], activeTransitions)
  {
    assert EdgeLines(ts[..i + 1], activeTransitions)
           == EdgeLines(ts[..i], activeTransitions) + [EdgeLine(ts[i], activeTransitions)];
  }

  /** `nfaToDot`: the header, the initial-state marker, then the state
      and transition loops, then the closing brace. */
  method NfaToDot(nfa: Nfa, activeStates: seq<Id>, activeTransitions: seq<Transition>) returns (dot: string)
    ensures dot == DotText(nfa, activeStates, activeTransitions)
  {
    dot := AppendLine("", [], HeaderLines[0]);
    dot := AppendLine(dot, [HeaderLines[0]], HeaderLines[1]);
    dot := AppendLine(dot, [HeaderLines[0], HeaderLines[1]], HeaderLines[2]);
    ghost var lines := HeaderLines;
    var initial := FindInitial(nfa.states);
    if initial.Some? {
      dot := AppendLine(dot, lines, FakeInitNode);
      dot := AppendLine(dot, lines + [FakeInitNode], FakeInitEdge(initial.value.id));
      lines := lines + [FakeInitNode] + [FakeInitEdge(initial.value.id)];
    }
    assert lines == HeaderLines + InitLines(nfa.states);
    dot := AppendStates(dot, lines, nfa.states, activeStates);
    lines := lines + NodeLines(nfa.states, activeStates);
    dot := AppendTransitions(dot, lines, nfa.transitions, activeTransitions);
    dot := dot + "}";
  }

  /** `dot += line + '\n'`. */
  method AppendLine(dot: string, ghost lines: seq<string>, line: string) returns (out: string)
    requires dot == Terminated(lines)
    ensures out == Terminated(lines + [line])
  {
    out := dot + line + "\n";
    TerminatedSnoc(lines, line);
  }

  /** The loop over the states of `nfaToDot`: one node line per state, in
      order, each styled as `NodeStyleOf` says. */
  method AppendStates(dot: string, ghost lines: seq<string>, states: seq<State>, activeStates: seq<Id>)
    returns (out: string)
    requires dot == Terminated(lines)
    ensures out == Terminated(lines + NodeLines(states, activeStates))
  {
    out := dot;
    ghost var done := lines;
    assert states[..0] == [];
    assert done == lines + NodeLines(states[..0], activeStates);
    for i := 0 to |states|
      invariant out == Terminated(done)
      invariant done == lines + NodeLines(states[..i], activeStates)
    {
      var style := StateStyle(states[i], activeStates);
      var line := NodeText(states[i].id, style);
      assert line == NodeLine(states[i], activeStates);
      NodesDoneStep(lines, states, i, activeStates, done);
      out := AppendLine(out, done, line);
      done := done + [line];
    }
    assert states[..|states|] == states;
  }

  /** The if-chain in the loop over the states of `nfaToDot`. */
  method StateStyle(state: State, activeStates: seq<Id>) returns (style: NodeStyle)
    ensures style == NodeStyleOf(state, activeStates)
  {
    var peripheries := 1;
    var color := "#888";
    var fillcolor := PlainFill;
    if state.id in activeStates {
      fillcolor := ActiveFill;
      color := "#1d4ed8";
    } else if state.isFinal && state.isInitial {
      color := "#0ea5e9";
      peripheries := 2;
    } else if state.isFinal {
      color := "#22c55e";
      peripheries := 2;
    } else if state.isInitial {
      color := "#2563eb";
    }
    style := NodeStyle(peripheries, color, fillcolor);
  }

  /** The loop over the transitions of `nfaToDot`: one edge line per
      transition, in order, highlighted when it matches an active one. */
  method AppendTransitions(dot: string, ghost lines: seq<string>, ts: seq<Transition>, activeTransitions: seq<Transition>)
    returns (out: string)
    requires dot == Terminated(lines)
    ensures out == Terminated(lines + EdgeLines(ts, activeTransitions))
  {
    out := dot;
    ghost var done := lines;
    assert ts[..0] == [];
    assert done == lines + EdgeLines(ts[..0], activeTransitions);
    for i := 0 to |ts|
      invariant out == Terminated(done)
      invariant done == lines + EdgeLines(ts[..i], activeTransitions)
    {
      var t := ts[i];
      var isActive := exists at :: at in activeTransitions && at.from == t.from && at.to == t.to && at.symbol == t.symbol;
      var line := EdgeText(t, isActive);
      EdgesDoneStep(lines, ts, i, activeTransitions, done);
      out := AppendLine(out, done, line);
      done := done + [line];
    }
    assert ts[..|ts|] == ts;
  }
}

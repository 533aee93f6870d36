/** `convertRegexToNFA` of app/components/RegexToNFA.tsx: reject the empty
    pattern, reset the id counter, run Thompson's construction and remove
    the ε-transitions. The component's `nfa` and `error` state become the
    fields of `RegexConverter`. */
module Convert {
  import opened Wrappers
  import opened Automaton
  import opened Language
  import opened Thompson
  import opened EpsilonRemoval

  const EmptyRegexError: string := "Please enter a regular expression"

  /** The ε-free automaton of a parsed pattern accepts the same words as
      the automaton Thompson's construction built for it. */
  lemma RegexNfaLanguage(regex: string, c0: nat, r: Nfa, w: seq<Symbol>)
    requires ParseRegex(regex, c0).Ok?
    requires IsEpsilonFree(r, ParseRegex(regex, c0).value.0)
    requires forall k :: 0 <= k < |w| ==> w[k] != Epsilon
    ensures Accepts(r, w) <==> Accepts(ParseRegex(regex, c0).value.0, w)
  {
    ParseWellBuilt(regex, c0);
    EpsilonFreeAccepts(r, ParseRegex(regex, c0).value.0, w);
  }

  /** The converted automaton keeps the single initial state and the
      distinct ids of the parsed one. */
  lemma RegexNfaShape(regex: string, c0: nat, r: Nfa)
    requires ParseRegex(regex, c0).Ok?
    requires IsEpsilonFree(r, ParseRegex(regex, c0).value.0)
    ensures NumInitial(r.states) == 1 && DistinctIds(r.states)
  {
    var n := ParseRegex(regex, c0).value.0;
    ParseWellBuilt(regex, c0);
    EpsilonFreeShape(r, n);
    SameFlagsInitial(r.states, n.states);
    forall i, j | 0 <= i < j < |r.states| ensures r.states[i].id != r.states[j].id {
      assert Ids(r.states)[i] == Ids(n.states)[i] && Ids(r.states)[j] == Ids(n.states)[j];
    }
  }

  lemma {:induction false} SameFlagsInitial(a: seq<State>, b: seq<State>)
    requires |a| == |b|
    requires forall i :: 0 <= i < |a| ==> a[i].isInitial == b[i].isInitial
    ensures NumInitial(a) == NumInitial(b)
    decreases |a|
  {
    if |a| > 0 {
      SameFlagsInitial(a[1..], b[1..]);
    }
  }

  class RegexConverter {
    var nfa: Option<Nfa>
    var error: string

    constructor()
      ensures nfa == None && error == ""
    {
      nfa := None;
      error := "";
    }

    /** An empty pattern sets the error and keeps the automaton; otherwise
        the counter restarts at 0, so the result depends on the pattern
        alone. A parse error is shown and keeps the automaton; success
        shows the ε-free automaton and clears the error. */
    method ConvertRegexToNfa(regex: string)
      modifies this
      ensures regex == [] ==> nfa == old(nfa) && error == EmptyRegexError
      ensures regex != [] && ParseRegex(regex, 0).Err?
              ==> nfa == old(nfa) && error == ParseRegex(regex, 0).error
      ensures regex != [] && ParseRegex(regex, 0).Ok?
              ==> error == "" && nfa.Some? && IsEpsilonFree(nfa.value, ParseRegex(regex, 0).value.0)
    {
      if regex == [] {
        error := EmptyRegexError;
        return;
      }
      var parsed := ParseRegexToNfa(regex, 0);
      if parsed.Err? {
        error := parsed.error;
        return;
      }
      var (n, _) := parsed.value;
      ParseWellBuilt(regex, 0);
      var noEpsilon := RemoveEpsilonTransitions(n);
      nfa := Some(noEpsilon);
      error := "";
    }
  }
}

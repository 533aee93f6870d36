/** The regex tester of app/components/RegexTester.tsx: the pattern
    validator (parenthesis balance and a character whitelist), the
    alphabet assembled from the selected character groups, and the list of
    named patterns with add, edit and delete. */
module RegexTester {
  import opened Wrappers

  datatype RegexPattern = RegexPattern(name: string, pattern: string)

  /** The four check boxes of the alphabet panel. */
  datatype CharGroups = CharGroups(lowercase: bool, uppercase: bool, digits: bool, ascii: bool)

  const DefaultGroups: CharGroups := CharGroups(true, true, true, false)
  const MissingFieldsError: string := "Please provide both name and pattern"
  const InvalidPatternError: string := "Invalid regex pattern. Check parentheses and characters."

  // ---------------------------------------------------------------------
  // Validation

  /** How a character moves the parenthesis depth. */
  function DepthStep(c: char): int
  {
    if c == '(' then 1 else if c == ')' then -1 else 0
  }

  /** The depth after reading `s`: opening minus closing parentheses. */
  function Depth(s: string): int
  {
    if |s| == 0 then 0 else Depth(s[..|s| - 1]) + DepthStep(s[|s| - 1])
  }

  /** No prefix closes more parentheses than it opens, and the whole
      string closes all it opens. */
  predicate Balanced(s: string)
  {
    (forall k :: 0 <= k <= |s| ==> Depth(s[..k]) >= 0) && Depth(s) == 0
  }

  /** The whitelist: a symbol of the alphabet or one of `|`, `*`, `(`, `)`. */
  predicate Whitelisted(alphabet: seq<string>, c: char)
  {
    [c] in alphabet || Special(c)
  }

  /** What `validateRegex` accepts. */
  predicate WellFormedPattern(pattern: string, alphabet: seq<string>)
  {
    Balanced(pattern) && forall i :: 0 <= i < |pattern| ==> Whitelisted(alphabet, pattern[i])
  }

  /** `validateRegex`: one pass with a depth counter that fails as soon as
      it drops below zero or ends above it, then one pass over the
      whitelist. */
  method ValidateRegex(pattern: string, alphabet: seq<string>) returns (ok: bool)
    ensures ok <==> WellFormedPattern(pattern, alphabet)
    ensures (exists k :: 0 <= k <= |pattern| && Depth(pattern[..k]) < 0) ==> !ok
    ensures Depth(pattern) != 0 ==> !ok
  {
    var stack := 0;
    var i := 0;
    while i < |pattern|
      invariant 0 <= i <= |pattern|
      invariant stack == Depth(pattern[..i])
      invariant forall k :: 0 <= k <= i ==> Depth(pattern[..k]) >= 0
    {
      assert pattern[..i + 1][..i] == pattern[..i];
      stack := stack + DepthStep(pattern[i]);
      i := i + 1;
      if stack < 0 {
        return false;
      }
    }
    assert pattern[..|pattern|] == pattern;
    if stack != 0 {
      return false;
    }
    i := 0;
    while i < |pattern|
      invariant 0 <= i <= |pattern|
      invariant forall k :: 0 <= k < i ==> Whitelisted(alphabet, pattern[k])
    {
      if !Whitelisted(alphabet, pattern[i]) {
        return false;
      }
      i := i + 1;
    }
    return true;
  }

  lemma {:induction false} DepthAppend(a: string, b: string)
    ensures Depth(a + b) == Depth(a) + Depth(b)
  {
    if |b| > 0 {
      assert (a + b)[..|a + b| - 1] == a + b[..|b| - 1];
      DepthAppend(a, b[..|b| - 1]);
    } else {
      assert a + b == a;
    }
  }

  /** Two balanced patterns side by side are balanced. */
  lemma BalancedConcat(a: string, b: string)
    requires Balanced(a) && Balanced(b)
    ensures Balanced(a + b)
  {
    forall k | 0 <= k <= |a + b| ensures Depth((a + b)[..k]) >= 0 {
      if k <= |a| {
        assert (a + b)[..k] == a[..k];
      } else {
        assert (a + b)[..k] == a + b[..k - |a|];
        DepthAppend(a, b[..k - |a|]);
      }
    }
    assert (a + b)[..|a + b|] == a + b;
    DepthAppend(a, b);
  }

  /** A balanced pattern in parentheses is balanced. */
  lemma BalancedGroup(s: string)
    requires Balanced(s)
    ensures Balanced("(" + s + ")")
  {
    var g := "(" + s + ")";
    forall k | 0 <= k <= |g| ensures Depth(g[..k]) >= 0 {
      if k == 0 {
      } else if k <= |s| + 1 {
        assert g[..k] == "(" + s[..k - 1];
        DepthAppend("(", s[..k - 1]);
        assert Depth("(") == 1 by { assert "("[..0] == ""; }
      } else {
        assert g[..k] == g;
        DepthAppend("(" + s, ")");
        DepthAppend("(", s);
        assert Depth("(") == 1 by { assert "("[..0] == ""; }
        assert Depth(")") == -1 by { assert ")"[..0] == ""; }
      }
    }
    assert g[..|g|] == g;
    DepthAppend("(" + s, ")");
    DepthAppend("(", s);
    assert Depth("(") == 1 by { assert "("[..0] == ""; }
    assert Depth(")") == -1 by { assert ")"[..0] == ""; }
  }

  /** A stray closing parenthesis cannot be repaired by what follows. */
  lemma ClosingFirstUnbalanced(s: string)
    ensures !Balanced(")" + s)
  {
    assert (")" + s)[..1] == ")";
    assert ")"[..0] == "";
  }

  // ---------------------------------------------------------------------
  // Alphabet

  /** `n` consecutive characters from `lo`. */
  function CharRange(lo: char, n: nat): (r: string)
    requires lo as int + n <= 0xD800
    ensures |r| == n
    ensures forall c :: c in r <==> lo <= c && (c as int) < lo as int + n
  {
    var r := seq(n, i requires 0 <= i < n => (lo as int + i) as char);
    assert forall c :: lo <= c && (c as int) < lo as int + n ==> c in r by {
      forall c | lo <= c && (c as int) < lo as int + n ensures c in r {
        assert r[c as int - lo as int] == c;
      }
    }
    r
  }

  /** The letters and digits the groups offer. */
  const Lowercase: string := "abcdefghijklmnopqrstuvwxyz"
  const Uppercase: string := "ABCDEFGHIJKLMNOPQRSTUVWXYZ"
  const Digits: string := "0123456789"

  /** Each character as a one-character symbol. */
  function Singletons(s: string): seq<string>
  {
    seq(|s|, i requires 0 <= i < |s| => [s[i]])
  }

  lemma SingletonsMembers(s: string, x: string)
    ensures x in Singletons(s) <==> |x| == 1 && x[0] in s
  {
    if |x| == 1 && x[0] in s {
      var i :| 0 <= i < |s| && s[i] == x[0];
      assert Singletons(s)[i] == x;
    }
  }

  lemma LettersAndDigits()
    ensures CharRange('a', 26) == Lowercase
    ensures CharRange('A', 26) == Uppercase
    ensures CharRange('0', 10) == Digits
  {
  }

  /** The characters the ASCII group leaves out. */
  predicate Special(c: char)
  {
    c == '|' || c == '*' || c == '(' || c == ')'
  }

  /** The ASCII group over the codes `lo .. hi-1`, specials left out, in
      code order. */
  function AsciiRange(lo: nat, hi: nat): seq<string>
    requires hi <= 0xD800
    decreases hi
  {
    if hi <= lo then []
    else AsciiRange(lo, hi - 1) + (if Special((hi - 1) as char) then [] else [[(hi - 1) as char]])
  }

  lemma {:induction false} AsciiRangeMembers(lo: nat, hi: nat, x: string)
    requires hi <= 0xD800
    ensures x in AsciiRange(lo, hi) <==> |x| == 1 && lo <= x[0] as int < hi && !Special(x[0])
    decreases hi
  {
    if hi > lo {
      AsciiRangeMembers(lo, hi - 1, x);
      var c := (hi - 1) as char;
      assert c as int == hi - 1;
      assert x == [c] <==> |x| == 1 && x[0] as int == hi - 1;
    }
  }

  /** `updateAlphabet`'s result: the enabled groups in the order lowercase,
      uppercase, digits, printable ASCII (codes 32 to 126) without the
      specials. */
  function AlphabetOf(groups: CharGroups): seq<string>
  {
    (if groups.lowercase then Singletons(Lowercase) else [])
    + (if groups.uppercase then Singletons(Uppercase) else [])
    + (if groups.digits then Singletons(Digits) else [])
    + (if groups.ascii then AsciiRange(32, 127) else [])
  }

  /** The body of `updateAlphabet`: the enabled groups, in the order
      lowercase, uppercase, digits, printable ASCII. */
  method BuildAlphabet(selectedChars: CharGroups) returns (newAlphabet: seq<string>)
    ensures newAlphabet == AlphabetOf(selectedChars)
  {
    newAlphabet := [];
    if selectedChars.lowercase {
      newAlphabet := newAlphabet + Singletons(Lowercase);
    }
    if selectedChars.uppercase {
      newAlphabet := newAlphabet + Singletons(Uppercase);
    }
    if selectedChars.digits {
      newAlphabet := newAlphabet + Singletons(Digits);
    }
    ghost var groups := newAlphabet;
    assert groups == (if selectedChars.lowercase then Singletons(Lowercase) else [])
                     + (if selectedChars.uppercase then Singletons(Uppercase) else [])
                     + (if selectedChars.digits then Singletons(Digits) else []);
    if selectedChars.ascii {
      newAlphabet := AppendAscii(newAlphabet);
    }
  }

  /** The loop over the printable ASCII codes of `updateAlphabet`: every
      one that is not an operator, in code order. */
  method AppendAscii(acc: seq<string>) returns (out: seq<string>)
    ensures out == acc + AsciiRange(32, 127)
  {
    out := acc;
    assert AsciiRange(32, 32) == [];
    for i := 32 to 127
      invariant out == acc + AsciiRange(32, i)
    {
      var c := i as char;
      if !Special(c) {
        out := out + [[c]];
      }
    }
  }

  /** The symbols of the assembled alphabet are exactly the single
      characters of the enabled groups. */
  lemma AlphabetMembers(groups: CharGroups, x: string)
    ensures x in AlphabetOf(groups) <==>
              |x| == 1
              && ((groups.lowercase && 'a' <= x[0] <= 'z')
                  || (groups.uppercase && 'A' <= x[0] <= 'Z')
                  || (groups.digits && '0' <= x[0] <= '9')
                  || (groups.ascii && 32 <= x[0] as int <= 126 && !Special(x[0])))
  {
    LettersAndDigits();
    SingletonsMembers(CharRange('a', 26), x);
    SingletonsMembers(CharRange('A', 26), x);
    SingletonsMembers(CharRange('0', 10), x);
    AsciiRangeMembers(32, 127, x);
  }

  /** No group puts an operator or a parenthesis into the alphabet. */
  lemma AlphabetHasNoOperators(groups: CharGroups)
    ensures forall x :: x in AlphabetOf(groups) ==> |x| == 1 && !Special(x[0])
  {
    forall x | x in AlphabetOf(groups) ensures |x| == 1 && !Special(x[0]) {
      AlphabetMembers(groups, x);
    }
  }

  /** With the default groups a pattern of letters, digits and operators
      passes the whitelist. */
  lemma DefaultWhitelist(c: char)
    requires 'a' <= c <= 'z' || 'A' <= c <= 'Z' || '0' <= c <= '9'
    ensures Whitelisted(AlphabetOf(DefaultGroups), c)
  {
    AlphabetMembers(DefaultGroups, [c]);
  }


  // ---------------------------------------------------------------------
  // The pattern list

  /** One slot of the component's pattern array: an entry, or a hole.
      Writing past the end of a JavaScript array leaves holes below the
      written index; `filter` and `map` skip them. */
  type Slot = Option<RegexPattern>

  /** A pattern array without holes. */
  predicate Dense(slots: seq<Slot>)
  {
    forall k :: 0 <= k < |slots| ==> slots[k].Some?
  }

  /** `n` holes. */
  function Holes(n: nat): (r: seq<Slot>)
    ensures |r| == n && forall k :: 0 <= k < n ==> r[k].None?
  {
    seq(n, _ => None)
  }

  /** The entries of `slots`, in order, without the holes. */
  function Compact(slots: seq<Slot>): (r: seq<Slot>)
    ensures Dense(r) && |r| <= |slots|
    ensures Dense(slots) ==> r == slots
    ensures forall x :: x in r <==> x in slots && x.Some?
  {
    if |slots| == 0 then []
    else
      var init := slots[..|slots| - 1];
      assert slots == init + [slots[|slots| - 1]];
      Compact(init) + (if slots[|slots| - 1].Some? then [slots[|slots| - 1]] else [])
  }

  /** The slots other than the one at `index`, holes included, in order. */
  function Kept(patterns: seq<Slot>, index: nat): (r: seq<Slot>)
    ensures index < |patterns| ==> |r| == |patterns| - 1
    ensures index >= |patterns| ==> r == patterns
    ensures forall k :: 0 <= k < index && k < |r| ==> r[k] == patterns[k]
    ensures forall k :: index <= k < |r| ==> r[k] == patterns[k + 1]
  {
    if index < |patterns| then patterns[..index] + patterns[index + 1..] else patterns
  }

  /** `patterns.filter((_, i) => i !== index)`: the entry at `index` goes,
      and so does every hole. On an array without holes the entries after
      `index` move down by one. */
  function RemoveAt(patterns: seq<Slot>, index: nat): (r: seq<Slot>)
    ensures Dense(r)
    ensures Dense(patterns) && index < |patterns| ==> |r| == |patterns| - 1
    ensures Dense(patterns) && index >= |patterns| ==> r == patterns
    ensures Dense(patterns) ==> forall k :: 0 <= k < index && k < |r| ==> r[k] == patterns[k]
    ensures Dense(patterns) ==> forall k :: index <= k < |r| ==> r[k] == patterns[k + 1]
  {
    var kept := Kept(patterns, index);
    assert Dense(patterns) ==> Dense(kept);
    Compact(kept)
  }

  /** What `filter` keeps, holes or not: exactly the entries at positions
      other than `index`. */
  lemma RemoveAtMembers(patterns: seq<Slot>, index: nat, x: Slot)
    ensures x in RemoveAt(patterns, index) <==> x.Some? && exists j :: 0 <= j < |patterns| && j != index && patterns[j] == x
  {
    var kept := Kept(patterns, index);
    if x in kept {
      var i :| 0 <= i < |kept| && kept[i] == x;
      if index < |patterns| && i >= index {
        assert patterns[i + 1] == x;
      } else {
        assert patterns[i] == x;
      }
    }
    if exists j :: 0 <= j < |patterns| && j != index && patterns[j] == x {
      var j :| 0 <= j < |patterns| && j != index && patterns[j] == x;
      if index < |patterns| && j > index {
        assert kept[j - 1] == x;
      } else {
        assert kept[j] == x;
      }
    }
  }

  /** `handleAddPattern`'s store. In edit mode the entry is written at the
      edit index: inside the array it replaces that entry, past the end the
      array grows to reach the index and the slots in between are holes.
      Otherwise the entry is appended. */
  function Submitted(patterns: seq<Slot>, editingIndex: Option<nat>, entry: RegexPattern): (r: seq<Slot>)
    ensures editingIndex.None? ==>
              |r| == |patterns| + 1 && r[..|patterns|] == patterns && r[|patterns|] == Some(entry)
    ensures editingIndex.Some? ==>
              var i := editingIndex.value;
              |r| == (if i < |patterns| then |patterns| else i + 1) && r[i] == Some(entry)
              && (forall k :: 0 <= k < |patterns| && k != i ==> r[k] == patterns[k])
              && (forall k :: |patterns| <= k < i ==> r[k].None?)
  {
    match editingIndex
    case None => patterns + [Some(entry)]
    case Some(i) =>
      if i < |patterns| then patterns[i := Some(entry)]
      else patterns + Holes(i - |patterns|) + [Some(entry)]
  }

  /** Deleting the first entry of an array without holes leaves its tail. */
  lemma RemoveFirst(patterns: seq<Slot>)
    requires Dense(patterns) && |patterns| > 0
    ensures RemoveAt(patterns, 0) == patterns[1..]
  {
    var r := RemoveAt(patterns, 0);
    assert |r| == |patterns[1..]|;
    forall k | 0 <= k < |r| ensures r[k] == patterns[1..][k] {
    }
  }

  /** Start editing the first of two patterns, delete it, submit: the
      second pattern, never edited, is overwritten and lost. */
  lemma DeleteWhileEditingLosesNeighbour(a: RegexPattern, b: RegexPattern, x: RegexPattern)
    requires b != x
    ensures var rest := RemoveAt([Some(a), Some(b)], 0);
            rest == [Some(b)]
            && Submitted(rest, Some(0), x) == [Some(x)]
            && Some(b) !in Submitted(rest, Some(0), x)
  {
    var patterns := [Some(a), Some(b)];
    RemoveFirst(patterns);
    assert patterns[1..] == [Some(b)];
  }

  /** Start editing the third of three patterns, delete the first one
      twice, submit: the write lands past the end of the one remaining
      entry, and a hole is left between them. */
  lemma SubmitPastEndLeavesHole(a: RegexPattern, b: RegexPattern, c: RegexPattern, x: RegexPattern)
    ensures var once := RemoveAt([Some(a), Some(b), Some(c)], 0);
            var twice := RemoveAt(once, 0);
            once == [Some(b), Some(c)] && twice == [Some(c)]
            && Submitted(twice, Some(2), x) == [Some(c), None, Some(x)]
  {
    var patterns := [Some(a), Some(b), Some(c)];
    RemoveFirst(patterns);
    var once := patterns[1..];
    assert once == [Some(b), Some(c)];
    RemoveFirst(once);
    assert once[1..] == [Some(c)];
    SubmitPastEnd(c, x);
  }

  /** Writing at index 2 of a one-entry array leaves a hole at index 1. */
  lemma SubmitPastEnd(c: RegexPattern, x: RegexPattern)
    ensures Submitted([Some(c)], Some(2), x) == [Some(c), None, Some(x)]
  {
    var r := Submitted([Some(c)], Some(2), x);
    assert |r| == 3 && r[0] == Some(c) && r[1] == None && r[2] == Some(x);
  }

  /** The edit index after deleting `index`: cleared when the entry being
      edited goes, moved down when an earlier entry goes. */
  function AdjustedEdit(editingIndex: Option<nat>, index: nat): (r: Option<nat>)
    ensures editingIndex.None? ==> r.None?
    ensures editingIndex.Some? && editingIndex.value == index ==> r.None?
    ensures editingIndex.Some? && editingIndex.value < index ==> r == editingIndex
    ensures editingIndex.Some? && editingIndex.value > index ==> r == Some(editingIndex.value - 1)
  {
    match editingIndex
    case None => None
    case Some(e) => if e == index then None else if e < index then Some(e) else Some(e - 1)
  }

  /** With the adjusted index a delete keeps the edit on the same entry,
      inside the shorter array, or ends it when that entry is the one
      deleted. */
  lemma AdjustedEditKeepsTarget(patterns: seq<Slot>, editingIndex: Option<nat>, index: nat)
    requires Dense(patterns)
    requires editingIndex.Some? ==> editingIndex.value < |patterns|
    requires index < |patterns|
    ensures var r := AdjustedEdit(editingIndex, index);
            (r.None? <==> editingIndex.None? || editingIndex.value == index)
            && (r.Some? ==> r.value < |RemoveAt(patterns, index)|
                            && RemoveAt(patterns, index)[r.value] == patterns[editingIndex.value])
  {
  }

  /** With the adjusted index, a submit after deleting another entry
      replaces the entry that was being edited, keeps every other
      surviving one, and leaves no hole. */
  lemma DeleteThenSubmit(patterns: seq<Slot>, editingIndex: nat, index: nat, x: RegexPattern)
    requires Dense(patterns)
    requires editingIndex < |patterns| && index < |patterns| && editingIndex != index
    ensures var rest := RemoveAt(patterns, index);
            var e := AdjustedEdit(Some(editingIndex), index);
            e.Some? && e.value < |rest|
            && Submitted(rest, e, x) == RemoveAt(patterns[editingIndex := Some(x)], index)
            && Dense(Submitted(rest, e, x))
  {
    var rest := RemoveAt(patterns, index);
    var e := AdjustedEdit(Some(editingIndex), index);
    var lhs := Submitted(rest, e, x);
    var updated := patterns[editingIndex := Some(x)];
    assert Dense(updated);
    var rhs := RemoveAt(updated, index);
    assert |lhs| == |rhs|;
    forall k | 0 <= k < |lhs| ensures lhs[k] == rhs[k] {
    }
  }

  /** The tester's fields: the pattern array, the two input boxes, the
      message line, the selected groups with their alphabet, and the index
      of the entry being edited. */
  class PatternList {
    var patterns: seq<Slot>
    var newPattern: string
    var newName: string
    var error: string
    var alphabet: seq<string>
    var selectedChars: CharGroups
    var editingIndex: Option<nat>

    /** The fields as the component starts, before its mount effect has
        assembled the alphabet. */
    constructor()
      ensures patterns == [] && newPattern == "" && newName == "" && error == ""
      ensures alphabet == [] && selectedChars == DefaultGroups && editingIndex == None
    {
      patterns, newPattern, newName, error := [], "", "", "";
      alphabet, selectedChars, editingIndex := [], DefaultGroups, None;
    }

    /** `updateAlphabet`. */
    method UpdateAlphabet()
      modifies this
      ensures alphabet == AlphabetOf(selectedChars)
      ensures selectedChars == old(selectedChars) && patterns == old(patterns) && editingIndex == old(editingIndex)
      ensures newPattern == old(newPattern) && newName == old(newName) && error == old(error)
    {
      alphabet := BuildAlphabet(selectedChars);
    }

    /** `handleAddPattern`: refuse an empty field or an ill-formed pattern
        with a message and no other change; otherwise store the entry,
        leave edit mode and clear the form. */
    method AddPattern()
      modifies this
      ensures old(newPattern) == "" || old(newName) == "" ==>
                error == MissingFieldsError && patterns == old(patterns) && editingIndex == old(editingIndex)
                && newPattern == old(newPattern) && newName == old(newName)
      ensures old(newPattern) != "" && old(newName) != "" && !WellFormedPattern(old(newPattern), alphabet) ==>
                error == InvalidPatternError && patterns == old(patterns) && editingIndex == old(editingIndex)
                && newPattern == old(newPattern) && newName == old(newName)
      ensures old(newPattern) != "" && old(newName) != "" && WellFormedPattern(old(newPattern), alphabet) ==>
                patterns == Submitted(old(patterns), old(editingIndex), RegexPattern(old(newName), old(newPattern)))
                && editingIndex == None && newPattern == "" && newName == "" && error == ""
      ensures alphabet == old(alphabet) && selectedChars == old(selectedChars)
    {
      if newPattern == "" || newName == "" {
        error := MissingFieldsError;
        return;
      }
      var ok := ValidateRegex(newPattern, alphabet);
      if !ok {
        error := InvalidPatternError;
        return;
      }
      patterns := Submitted(patterns, editingIndex, RegexPattern(newName, newPattern));
      editingIndex := None;
      newPattern, newName, error := "", "", "";
    }

    /** `handleEdit`: load the entry into the form and enter edit mode. The
        component calls it only from the button beside a listed entry. */
    method Edit(index: nat)
      requires index < |patterns| && patterns[index].Some?
      modifies this
      ensures newName == old(patterns)[index].value.name && newPattern == old(patterns)[index].value.pattern
      ensures editingIndex == Some(index)
      ensures patterns == old(patterns) && error == old(error)
      ensures alphabet == old(alphabet) && selectedChars == old(selectedChars)
    {
      newName := patterns[index].value.name;
      newPattern := patterns[index].value.pattern;
      editingIndex := Some(index);
    }

    /** `handleDelete`: the array is filtered, and the edit index stays as
        it was, whichever entry it pointed at. */
    method Delete(index: nat)
      modifies this
      ensures patterns == RemoveAt(old(patterns), index)
      ensures editingIndex == old(editingIndex)
      ensures newPattern == old(newPattern) && newName == old(newName) && error == old(error)
      ensures alphabet == old(alphabet) && selectedChars == old(selectedChars)
    {
      patterns := RemoveAt(patterns, index);
    }
  }
}

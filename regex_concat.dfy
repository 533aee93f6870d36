/** The first pass of the regex front end of app/components/RegexToNFA.tsx:
    explicit concatenation insertion (`makeExplicitConcatenation`). */
module RegexConcat {

  // ---------------------------------------------------------------------
  // Explicit concatenation
  // ---------------------------------------------------------------------

  /** A `.` goes between `current` and `next` unless `current` opens a group
      or is a union, or `next` closes a group, is a union or is a star. */
  predicate NeedsDot(current: char, next: char)
  {
    current != '(' && current != '|' && next != ')' && next != '|' && next != '*'
  }

  /** The input with `.` inserted between each adjacent pair that
      `NeedsDot`; defined by the last pair, the order the loop appends in. */
  function ExplicitConcat(s: string): (r: string)
    ensures |r| >= |s|
    ensures |s| > 0 ==> |r| > 0 && r[0] == s[0] && r[|r| - 1] == s[|s| - 1]
    decreases |s|
  {
    if |s| <= 1 then s
    else
      ExplicitConcat(s[..|s| - 1])
      + (if NeedsDot(s[|s| - 2], s[|s| - 1]) then "." else "")
      + [s[|s| - 1]]
  }

  /** Deletes the dots `ExplicitConcat` inserts: a `.` that sits between two
      characters `NeedsDot` separates. */
  function RemoveInsertedDots(r: string): (s: string)
    decreases |r|
  {
    if |r| <= 1 then r
    else if |r| >= 3 && r[|r| - 2] == '.' && NeedsDot(r[|r| - 3], r[|r| - 1]) then
      RemoveInsertedDots(r[..|r| - 2]) + [r[|r| - 1]]
    else
      RemoveInsertedDots(r[..|r| - 1]) + [r[|r| - 1]]
  }

  /** Deleting the inserted dots gives back the input, literal dots
      included. */
  lemma {:induction false} RemoveInsertedDotsInverse(s: string)
    ensures RemoveInsertedDots(ExplicitConcat(s)) == s
    decreases |s|
  {
    if |s| >= 2 {
      var p := s[..|s| - 1];
      RemoveInsertedDotsInverse(p);
      InverseStep(s, ExplicitConcat(p), ExplicitConcat(s));
    }
  }

  /** The induction step: one more character at the end, with both
      explicit forms named, split on whether a `.` goes before it. */
  lemma InverseStep(s: string, ep: string, es: string)
    requires |s| >= 2
    requires ep == ExplicitConcat(s[..|s| - 1]) && RemoveInsertedDots(ep) == s[..|s| - 1]
    requires es == ExplicitConcat(s)
    ensures RemoveInsertedDots(es) == s
  {
    UnfoldExplicitConcat(s);
    SnocLast(s);
    if NeedsDot(s[|s| - 2], s[|s| - 1]) {
      InverseStepDot(s[..|s| - 1], s[|s| - 1], ep, es);
    } else {
      InverseStepNoDot(s[..|s| - 1], s[|s| - 1], ep, es);
    }
  }

  lemma SnocLast(s: string)
    requires |s| >= 1
    ensures s[..|s| - 1] + [s[|s| - 1]] == s
  {
  }

  lemma InverseStepDot(p: string, b: char, ep: string, es: string)
    requires |ep| >= 1 && NeedsDot(ep[|ep| - 1], b)
    requires RemoveInsertedDots(ep) == p && es == ep + ['.', b]
    ensures RemoveInsertedDots(es) == p + [b]
  {
    assert es[..|es| - 2] == ep;
    assert es[|es| - 3] == ep[|ep| - 1] && es[|es| - 2] == '.' && es[|es| - 1] == b;
    DropDot(es);
  }

  lemma InverseStepNoDot(p: string, b: char, ep: string, es: string)
    requires |ep| >= 1 && !NeedsDot(ep[|ep| - 1], b)
    requires RemoveInsertedDots(ep) == p && es == ep + [b]
    ensures RemoveInsertedDots(es) == p + [b]
  {
    assert es[..|es| - 1] == ep;
    assert es[|es| - 2] == ep[|ep| - 1] && es[|es| - 1] == b;
    KeepLast(es);
  }

  lemma UnfoldExplicitConcat(s: string)
    requires |s| >= 2
    ensures NeedsDot(s[|s| - 2], s[|s| - 1]) ==>
              ExplicitConcat(s) == ExplicitConcat(s[..|s| - 1]) + ['.', s[|s| - 1]]
    ensures !NeedsDot(s[|s| - 2], s[|s| - 1]) ==>
              ExplicitConcat(s) == ExplicitConcat(s[..|s| - 1]) + [s[|s| - 1]]
  {
    var prev := ExplicitConcat(s[..|s| - 1]);
    if NeedsDot(s[|s| - 2], s[|s| - 1]) {
      assert prev + "." + [s[|s| - 1]] == prev + ['.', s[|s| - 1]];
    } else {
      assert prev + "" + [s[|s| - 1]] == prev + [s[|s| - 1]];
    }
  }

  /** A dot between two characters that need one is dropped. */
  lemma DropDot(r: string)
    requires |r| >= 3 && r[|r| - 2] == '.' && NeedsDot(r[|r| - 3], r[|r| - 1])
    ensures RemoveInsertedDots(r) == RemoveInsertedDots(r[..|r| - 2]) + [r[|r| - 1]]
  {
  }

  /** A last character that needs no dot before it is kept after the rest;
      a `.` before it then is a literal. */
  lemma KeepLast(r: string)
    requires |r| >= 2 && !NeedsDot(r[|r| - 2], r[|r| - 1])
    ensures RemoveInsertedDots(r) == RemoveInsertedDots(r[..|r| - 1]) + [r[|r| - 1]]
  {
    if r[|r| - 2] == '.' {
      assert !NeedsDot('.', r[|r| - 1]);
    }
  }

  /** Two inputs with the same explicit form are equal. */
  lemma ExplicitConcatInjective(s: string, t: string)
    requires ExplicitConcat(s) == ExplicitConcat(t)
    ensures s == t
  {
    RemoveInsertedDotsInverse(s);
    RemoveInsertedDotsInverse(t);
  }

  /** `makeExplicitConcatenation`: append each character, then a `.` when
      the next one needs it. */
  method MakeExplicitConcatenation(regex: string) returns (result: string)
    ensures result == ExplicitConcat(regex)
  {
    result := "";
    for i := 0 to |regex|
      invariant result == ExplicitConcat(regex[..i])
                          + (if 0 < i < |regex| && NeedsDot(regex[i - 1], regex[i]) then "." else "")
    {
      var current := regex[i];
      assert regex[..i + 1][..i] == regex[..i];
      result := result + [current];
      if i < |regex| - 1 {
        var next := regex[i + 1];
        if NeedsDot(current, next) {
          result := result + ".";
        }
      }
    }
    assert regex[..|regex|] == regex;
  }
}

/** The second pass of the regex front end of app/components/RegexToNFA.tsx:
    the shunting-yard conversion to postfix (`infixToPostfix`). */
module RegexParser {

  // ---------------------------------------------------------------------
  // Infix to postfix
  // ---------------------------------------------------------------------

  predicate IsOperator(c: char)
  {
    c == '|' || c == '.' || c == '*'
  }

  /** The precedence table: union 1, concatenation 2, star 3. */
  function Precedence(op: char): nat
  {
    if op == '|' then 1 else if op == '.' then 2 else if op == '*' then 3 else 0
  }

  /** What the operator stack may hold: operators and open parentheses. */
  predicate IsStackChar(c: char)
  {
    c == '(' || IsOperator(c)
  }

  /** The state of the conversion: the output so far and the operator stack,
      top last. */
  datatype Shunting = Shunting(output: string, operators: seq<char>)

  /** On `)`: pop and emit up to the nearest `(` (not included). */
  function PopToParen(st: Shunting): (r: Shunting)
    decreases |st.operators|
  {
    var ops := st.operators;
    if |ops| > 0 && ops[|ops| - 1] != '(' then
      PopToParen(Shunting(st.output + [ops[|ops| - 1]], ops[..|ops| - 1]))
    else st
  }

  /** Before pushing `token`: pop and emit every operator above the nearest
      `(` whose precedence is at least that of `token`. */
  function PopHigher(st: Shunting, token: char): (r: Shunting)
    decreases |st.operators|
  {
    var ops := st.operators;
    if |ops| > 0 && ops[|ops| - 1] != '(' && Precedence(ops[|ops| - 1]) >= Precedence(token) then
      PopHigher(Shunting(st.output + [ops[|ops| - 1]], ops[..|ops| - 1]), token)
    else st
  }

  /** One token of the conversion. An unmatched `)` pops an empty stack,
      which changes nothing. */
  function ShuntToken(st: Shunting, token: char): Shunting
  {
    if token == '(' then Shunting(st.output, st.operators + ['('])
    else if token == ')' then
      var p := PopToParen(st);
      Shunting(p.output, if |p.operators| > 0 then p.operators[..|p.operators| - 1] else [])
    else if IsOperator(token) then
      var p := PopHigher(st, token);
      Shunting(p.output, p.operators + [token])
    else Shunting(st.output + [token], st.operators)
  }

  /** The state after the tokens of `infix`. */
  function Shunt(infix: string): Shunting
    decreases |infix|
  {
    if |infix| == 0 then Shunting("", [])
    else ShuntToken(Shunt(infix[..|infix| - 1]), infix[|infix| - 1])
  }

  /** The remaining operators popped top first, as the final loop emits
      them. */
  function Reverse(s: seq<char>): (r: seq<char>)
    ensures |r| == |s|
    ensures forall k :: 0 <= k < |s| ==> r[k] == s[|s| - 1 - k]
  {
    if |s| == 0 then [] else [s[|s| - 1]] + Reverse(s[..|s| - 1])
  }

  /** The postfix form of `infix`, flushing the stack at the end. An
      unmatched `(` is flushed into the output with the operators. */
  function Postfix(infix: string): string
  {
    var st := Shunt(infix);
    st.output + Reverse(st.operators)
  }

  /** `infixToPostfix`, with its operator stack and inner pop loops. */
  method InfixToPostfix(infix: string) returns (output: string)
    ensures output == Postfix(infix)
  {
    output := "";
    var operators: seq<char> := [];
    for i := 0 to |infix|
      invariant Shunting(output, operators) == Shunt(infix[..i])
    {
      var token := infix[i];
      assert infix[..i + 1][..i] == infix[..i];
      if token == '(' {
        operators := operators + [token];
      } else if token == ')' {
        while |operators| > 0 && operators[|operators| - 1] != '('
          invariant PopToParen(Shunting(output, operators)) == PopToParen(Shunt(infix[..i]))
          decreases |operators|
        {
          output := output + [operators[|operators| - 1]];
          operators := operators[..|operators| - 1];
        }
        if |operators| > 0 {
          operators := operators[..|operators| - 1];
        }
      } else if IsOperator(token) {
        while |operators| > 0 && operators[|operators| - 1] != '('
              && Precedence(operators[|operators| - 1]) >= Precedence(token)
          invariant PopHigher(Shunting(output, operators), token) == PopHigher(Shunt(infix[..i]), token)
          decreases |operators|
        {
          output := output + [operators[|operators| - 1]];
          operators := operators[..|operators| - 1];
        }
        operators := operators + [token];
      } else {
        output := output + [token];
      }
    }
    assert infix[..|infix|] == infix;
    while |operators| > 0
      invariant output + Reverse(operators) == Postfix(infix)
      decreases |operators|
    {
      output := output + [operators[|operators| - 1]];
      operators := operators[..|operators| - 1];
    }
  }

  // ---------------------------------------------------------------------
  // Properties of the conversion
  // ---------------------------------------------------------------------

  /** The operand characters of a string, in order. */
  function Operands(s: string): (r: string)
    ensures forall c :: c in r ==> c in s && !IsStackChar(c) && c != ')'
  {
    if |s| == 0 then ""
    else Operands(s[..|s| - 1]) + (if IsStackChar(s[|s| - 1]) || s[|s| - 1] == ')' then "" else [s[|s| - 1]])
  }

  lemma {:induction false} OperandsAppend(s: string, t: string)
    ensures Operands(s + t) == Operands(s) + Operands(t)
    decreases |t|
  {
    if |t| > 0 {
      OperandsAppend(s, t[..|t| - 1]);
      assert (s + t)[..|s + t| - 1] == s + t[..|t| - 1];
    } else {
      assert s + t == s;
    }
  }

  lemma {:induction false} OperandsOfStackChars(s: string)
    requires forall c :: c in s ==> IsStackChar(c)
    ensures Operands(s) == ""
    decreases |s|
  {
    if |s| > 0 {
      assert s[|s| - 1] in s;
      OperandsOfStackChars(s[..|s| - 1]);
    }
  }

  lemma ReverseSuffixStep(ops: seq<char>, n: nat)
    requires n < |ops|
    ensures Reverse(ops[n..]) == [ops[|ops| - 1]] + Reverse(ops[..|ops| - 1][n..])
  {
    assert ops[n..][..|ops| - n - 1] == ops[..|ops| - 1][n..];
  }

  /** `PopToParen` moves the top of the stack down to the nearest `(`,
      reversed, to the output. */
  lemma {:induction false} PopToParenShape(st: Shunting)
    ensures var r := PopToParen(st);
            |r.operators| <= |st.operators| && r.operators == st.operators[..|r.operators|]
            && r.output == st.output + Reverse(st.operators[|r.operators|..])
            && (|r.operators| > 0 ==> r.operators[|r.operators| - 1] == '(')
            && (forall k :: |r.operators| <= k < |st.operators| ==> st.operators[k] != '(')
    decreases |st.operators|
  {
    var ops := st.operators;
    if |ops| > 0 && ops[|ops| - 1] != '(' {
      var next := Shunting(st.output + [ops[|ops| - 1]], ops[..|ops| - 1]);
      PopToParenShape(next);
      var r := PopToParen(next);
      var n := |r.operators|;
      ReverseSuffixStep(ops, n);
      forall k | n <= k < |ops| ensures ops[k] != '(' {
        if k < |ops| - 1 { assert ops[k] == ops[..|ops| - 1][k]; }
      }
    } else {
      assert st.operators[|st.operators|..] == [];
    }
  }

  /** `PopHigher` moves the top of the stack down to the nearest `(` or
      weaker operator, reversed, to the output. */
  lemma {:induction false} PopHigherShape(st: Shunting, token: char)
    ensures var r := PopHigher(st, token);
            |r.operators| <= |st.operators| && r.operators == st.operators[..|r.operators|]
            && r.output == st.output + Reverse(st.operators[|r.operators|..])
            && (|r.operators| == 0 || r.operators[|r.operators| - 1] == '('
                || Precedence(r.operators[|r.operators| - 1]) < Precedence(token))
    decreases |st.operators|
  {
    var ops := st.operators;
    if |ops| > 0 && ops[|ops| - 1] != '(' && Precedence(ops[|ops| - 1]) >= Precedence(token) {
      var next := Shunting(st.output + [ops[|ops| - 1]], ops[..|ops| - 1]);
      PopHigherShape(next, token);
      var r := PopHigher(next, token);
      var n := |r.operators|;
      ReverseSuffixStep(ops, n);
    } else {
      assert st.operators[|st.operators|..] == [];
    }
  }

  /** `PopHigher` never pops a `(`. */
  lemma {:induction false} PopHigherStopsAtParen(st: Shunting, token: char)
    ensures |PopHigher(st, token).operators| <= |st.operators|
    ensures forall k :: |PopHigher(st, token).operators| <= k < |st.operators| ==> st.operators[k] != '('
    decreases |st.operators|
  {
    var ops := st.operators;
    if |ops| > 0 && ops[|ops| - 1] != '(' && Precedence(ops[|ops| - 1]) >= Precedence(token) {
      var next := Shunting(st.output + [ops[|ops| - 1]], ops[..|ops| - 1]);
      PopHigherStopsAtParen(next, token);
      var n := |PopHigher(next, token).operators|;
      assert PopHigher(st, token) == PopHigher(next, token);
      forall k | n <= k < |ops| ensures ops[k] != '(' {
        if k < |ops| - 1 { assert ops[k] == ops[..|ops| - 1][k]; }
      }
    }
  }

  /** The stack holds only operators and `(`, and the output holds the
      operands of the input so far, in order. */
  lemma {:induction false} ShuntOperands(infix: string)
    ensures forall c :: c in Shunt(infix).operators ==> IsStackChar(c)
    ensures Operands(Shunt(infix).output) == Operands(infix)
    decreases |infix|
  {
    if |infix| > 0 {
      var p := infix[..|infix| - 1];
      var token := infix[|infix| - 1];
      ShuntOperands(p);
      OperandsAppend(p, [token]);
      assert p + [token] == infix;
      ShuntTokenOperands(Shunt(p), token);
    }
  }

  /** One token: the stack keeps holding only stack characters, and the
      output grows by the token's operand characters. */
  lemma ShuntTokenOperands(st: Shunting, token: char)
    requires forall c :: c in st.operators ==> IsStackChar(c)
    ensures forall c :: c in ShuntToken(st, token).operators ==> IsStackChar(c)
    ensures Operands(ShuntToken(st, token).output) == Operands(st.output) + Operands([token])
  {
    assert [token][..0] == "";
    if token == '(' {
    } else if token == ')' {
      PopToParenShape(st);
      PoppedOperands(st, |PopToParen(st).operators|);
    } else if IsOperator(token) {
      PopHigherShape(st, token);
      PoppedOperands(st, |PopHigher(st, token).operators|);
    } else {
      OperandsAppend(st.output, [token]);
    }
  }

  /** Popping the stack above `n` to the output adds no operand. */
  lemma PoppedOperands(st: Shunting, n: nat)
    requires n <= |st.operators|
    requires forall c :: c in st.operators ==> IsStackChar(c)
    ensures Operands(st.output + Reverse(st.operators[n..])) == Operands(st.output)
    ensures forall c :: c in st.operators[..n] ==> IsStackChar(c)
  {
    var popped := Reverse(st.operators[n..]);
    assert forall c :: c in popped ==> c in st.operators;
    OperandsOfStackChars(popped);
    OperandsAppend(st.output, popped);
    assert forall c :: c in st.operators[..n] ==> c in st.operators;
  }

  /** The conversion keeps the operand characters and their order. */
  lemma PostfixKeepsOperands(infix: string)
    ensures Operands(Postfix(infix)) == Operands(infix)
  {
    var st := Shunt(infix);
    ShuntOperands(infix);
    OperandsAppend(st.output, Reverse(st.operators));
    assert forall c :: c in Reverse(st.operators) ==> c in st.operators;
    OperandsOfStackChars(Reverse(st.operators));
  }

  /** Number of occurrences of `c` in `s`. */
  function Count(s: seq<char>, c: char): nat
  {
    if |s| == 0 then 0 else Count(s[..|s| - 1], c) + (if s[|s| - 1] == c then 1 else 0)
  }

  /** Opening minus closing parentheses. */
  function Depth(s: string): int
  {
    Count(s, '(') as int - Count(s, ')') as int
  }

  /** The parenthesis depth never drops below zero and ends at zero. */
  predicate Balanced(s: string)
  {
    (forall i :: 0 <= i <= |s| ==> Depth(s[..i]) >= 0) && Depth(s) == 0
  }

  lemma {:induction false} CountAppend(s: seq<char>, t: seq<char>, c: char)
    ensures Count(s + t, c) == Count(s, c) + Count(t, c)
    decreases |t|
  {
    if |t| > 0 {
      CountAppend(s, t[..|t| - 1], c);
      assert (s + t)[..|s + t| - 1] == s + t[..|t| - 1];
    } else {
      assert s + t == s;
    }
  }

  lemma {:induction false} CountZero(s: seq<char>, c: char)
    ensures Count(s, c) == 0 <==> c !in s
    decreases |s|
  {
    if |s| > 0 {
      CountZero(s[..|s| - 1], c);
      assert s == s[..|s| - 1] + [s[|s| - 1]];
    }
  }

  /** While the depth has never been negative, the stack holds one `(` per
      open group and the output holds no parenthesis at all. */
  lemma {:induction false} ShuntParens(infix: string)
    requires forall i :: 0 <= i <= |infix| ==> Depth(infix[..i]) >= 0
    ensures Count(Shunt(infix).operators, '(') == Depth(infix)
    ensures '(' !in Shunt(infix).output && ')' !in Shunt(infix).output
    decreases |infix|
  {
    if |infix| > 0 {
      var p := infix[..|infix| - 1];
      var token := infix[|infix| - 1];
      assert forall i :: 0 <= i <= |p| ==> p[..i] == infix[..i];
      ShuntParens(p);
      ShuntOperands(p);
      assert infix[..|infix|] == infix;
      assert p + [token] == infix;
      CountAppend(p, [token], '(');
      CountAppend(p, [token], ')');
      assert [token][..0] == [];
      ShuntTokenParens(Shunt(p), token, Depth(p));
    }
  }

  /** One token moves the count of `(` on the stack with the depth and
      never puts a parenthesis in the output. */
  lemma ShuntTokenParens(st: Shunting, token: char, d: int)
    requires forall c :: c in st.operators ==> IsStackChar(c)
    requires Count(st.operators, '(') == d
    requires token == ')' ==> d >= 1
    requires '(' !in st.output && ')' !in st.output
    ensures Count(ShuntToken(st, token).operators, '(')
            == d + (if token == '(' then 1 else if token == ')' then -1 else 0)
    ensures '(' !in ShuntToken(st, token).output && ')' !in ShuntToken(st, token).output
  {
    if token == '(' {
      CountAppend(st.operators, ['('], '(');
      assert ['('][..0] == [];
    } else if token == ')' {
      PopToParenShape(st);
      var r := PopToParen(st);
      var n := |r.operators|;
      ClosePop(st, n, d);
      assert ShuntToken(st, token).operators == r.operators[..n - 1] == st.operators[..n - 1];
    } else if IsOperator(token) {
      PopHigherShape(st, token);
      PopHigherStopsAtParen(st, token);
      var r := PopHigher(st, token);
      var n := |r.operators|;
      SuffixWithoutOpen(st.operators, n);
      CountAppend(r.operators, [token], '(');
      assert [token][..0] == [];
      PoppedHasNoParens(st.operators, n);
    }
  }

  /** On `)` with an open group: the `(` reached is the last one popped. */
  lemma ClosePop(st: Shunting, n: nat, d: int)
    requires forall c :: c in st.operators ==> IsStackChar(c)
    requires Count(st.operators, '(') == d >= 1
    requires n <= |st.operators|
    requires forall k :: n <= k < |st.operators| ==> st.operators[k] != '('
    requires n > 0 ==> st.operators[n - 1] == '('
    ensures n > 0 && Count(st.operators[..n - 1], '(') == d - 1
    ensures '(' !in Reverse(st.operators[n..]) && ')' !in Reverse(st.operators[n..])
  {
    var ops := st.operators;
    SuffixWithoutOpen(ops, n);
    CountZero(ops[..n], '(');
    assert ops[..n] == ops[..n - 1] + ['('];
    CountAppend(ops[..n - 1], ['('], '(');
    assert ['('][..0] == [];
    PoppedHasNoParens(ops, n);
  }

  /** What is popped above the nearest `(` holds no parenthesis. */
  lemma PoppedHasNoParens(ops: seq<char>, n: nat)
    requires n <= |ops|
    requires forall c :: c in ops ==> IsStackChar(c)
    requires forall k :: n <= k < |ops| ==> ops[k] != '('
    ensures '(' !in Reverse(ops[n..]) && ')' !in Reverse(ops[n..])
  {
    forall k | 0 <= k < |ops| - n ensures Reverse(ops[n..])[k] != '(' && Reverse(ops[n..])[k] != ')' {
      var i := |ops| - 1 - k;
      assert Reverse(ops[n..])[k] == ops[i];
      assert ops[i] in ops;
    }
  }

  /** A stack whose part above `n` holds no `(` and no `)` has all its
      `(` below `n`. */
  lemma SuffixWithoutOpen(ops: seq<char>, n: nat)
    requires n <= |ops|
    requires forall k :: n <= k < |ops| ==> ops[k] != '('
    ensures Count(ops, '(') == Count(ops[..n], '(')
  {
    assert ops == ops[..n] + ops[n..];
    CountAppend(ops[..n], ops[n..], '(');
    CountZero(ops[n..], '(');
  }

  /** For balanced input the postfix form holds no parenthesis. */
  lemma BalancedPostfixHasNoParens(infix: string)
    requires Balanced(infix)
    ensures '(' !in Postfix(infix) && ')' !in Postfix(infix)
  {
    var st := Shunt(infix);
    ShuntParens(infix);
    ShuntOperands(infix);
    CountZero(st.operators, '(');
    assert forall c :: c in Reverse(st.operators) ==> c in st.operators;
  }

  /** Between parentheses the operator stack strictly increases in
      precedence from bottom to top: an operator is never pushed onto one of
      equal or higher precedence, which makes every operator
      left-associative. */
  predicate IncreasingRuns(ops: seq<char>)
  {
    forall k :: 0 < k < |ops| && ops[k - 1] != '(' && ops[k] != '('
                ==> Precedence(ops[k - 1]) < Precedence(ops[k])
  }

  lemma {:induction false} ShuntIncreasing(infix: string)
    ensures IncreasingRuns(Shunt(infix).operators)
    decreases |infix|
  {
    if |infix| > 0 {
      var p := infix[..|infix| - 1];
      ShuntIncreasing(p);
      TokenIncreasing(Shunt(p), infix[|infix| - 1]);
    }
  }

  /** One token keeps the runs of the operator stack increasing. */
  lemma TokenIncreasing(st: Shunting, token: char)
    requires IncreasingRuns(st.operators)
    ensures IncreasingRuns(ShuntToken(st, token).operators)
  {
    if token == ')' {
      PopToParenShape(st);
    } else if IsOperator(token) {
      PopHigherShape(st, token);
    }
  }

  /** An unmatched `(` is flushed into the postfix output like an operator;
      an unmatched `)` is dropped. */
  lemma UnmatchedParens()
    ensures Postfix("(a") == "a("
    ensures Postfix("a)") == "a"
  {
    assert "(a"[..1] == "(";
    assert "("[..0] == "";
    assert Shunt("(a") == Shunting("a", ['(']);
    assert "a)"[..1] == "a";
    assert "a"[..0] == "";
    assert Shunt("a)") == Shunting("a", []);
  }
}

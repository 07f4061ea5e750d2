/** The prefix-notation evaluator of `expr` elements (evaluate_expression in
    main.py): strip `|` from both ends, split on whitespace, look every
    operand up in the constants map, turn digit strings into integers and
    dispatch on the operator token.

    Python is dynamically typed: an operand that is neither bound nor a digit
    string stays a `str`, and what happens to it is whatever Python's
    operators do with a `str`. Here that is explicit: an operand is either
    an integer or an unresolved token, and the result is either an integer
    or a string, the latter only where Python produces one (`*` repeats a
    string, `max` compares strings). */
module Evaluator {
  import opened Outcomes
  import opened Lexical

  /** An operand after constant lookup and digit conversion. */
  datatype Operand = Int(n: int) | Unresolved(token: string)

  /** A Python int, or a str where Python's operators yield one. */
  datatype Value = Num(n: int) | Text(s: string)

  const Operators: set<string> := {"+", "-", "*", "/", "mod", "max"}

  predicate IsBar(c: char) { c == '|' }

  /** expr.strip("|").split() */
  function Tokens(expr: string): seq<string>
  {
    Split(Strip(expr, IsBar))
  }

  /** constants.get(op, op), then int(op) if it is a digit string. */
  function Resolve(token: string, constants: map<string, int>): Operand
  {
    if token in constants then Int(constants[token])
    else if IsNumber(token) then Int(DigitsValue(token))
    else Unresolved(token)
  }

  /** The operands of an expression of at least three tokens, resolved. */
  function Operands(expr: string, constants: map<string, int>): seq<Operand>
    requires |Tokens(expr)| >= 3
  {
    var ts := Tokens(expr)[1..];
    seq(|ts|, i requires 0 <= i < |ts| => Resolve(ts[i], constants))
  }

  predicate AllInts(xs: seq<Operand>) { forall i :: 0 <= i < |xs| ==> xs[i].Int? }

  predicate AllUnresolved(xs: seq<Operand>) { forall i :: 0 <= i < |xs| ==> xs[i].Unresolved? }

  function IntsOf(xs: seq<Operand>): seq<int>
    requires AllInts(xs)
  {
    seq(|xs|, i requires 0 <= i < |xs| => xs[i].n)
  }

  function TokensOf(xs: seq<Operand>): seq<string>
    requires AllUnresolved(xs)
  {
    seq(|xs|, i requires 0 <= i < |xs| => xs[i].token)
  }

  /** Python's sum(): 0 + x0 + x1 + ... from left to right. */
  function Sum(xs: seq<int>): int
  {
    if xs == [] then 0 else Sum(xs[..|xs| - 1]) + xs[|xs| - 1]
  }

  /** Summing a concatenation sums the parts, so the grouping of the
      left-to-right fold does not matter. */
  lemma {:induction false} SumAppend(xs: seq<int>, ys: seq<int>)
    ensures Sum(xs + ys) == Sum(xs) + Sum(ys)
    decreases |ys|
  {
    if ys == [] {
      assert xs + ys == xs;
    } else {
      var init := ys[..|ys| - 1];
      assert (xs + ys)[..|xs + ys| - 1] == xs + init;
      SumAppend(xs, init);
    }
  }

  /** Python's max() over integers: the first operand, replaced by every
      later one that is strictly greater. */
  function MaxInt(xs: seq<int>): int
    requires |xs| > 0
  {
    if |xs| == 1 then xs[0]
    else
      var best := MaxInt(xs[..|xs| - 1]);
      if xs[|xs| - 1] > best then xs[|xs| - 1] else best
  }

  /** The maximum is one of the integers and no smaller than any of them. */
  lemma {:induction false} MaxIntIsMaximum(xs: seq<int>)
    requires |xs| > 0
    ensures MaxInt(xs) in xs
    ensures forall i :: 0 <= i < |xs| ==> xs[i] <= MaxInt(xs)
  {
    if |xs| > 1 {
      var init := xs[..|xs| - 1];
      MaxIntIsMaximum(init);
      assert forall i :: 0 <= i < |init| ==> init[i] == xs[i];
    }
  }

  /** Python's `<` on str: lexicographic by code point, a proper prefix
      being smaller. */
  predicate LexLess(a: string, b: string)
  {
    if a == [] then b != []
    else if b == [] then false
    else if a[0] != b[0] then a[0] < b[0]
    else LexLess(a[1..], b[1..])
  }

  lemma {:induction false} LexLessIrreflexive(a: string)
    ensures !LexLess(a, a)
  {
    if a != [] {
      LexLessIrreflexive(a[1..]);
    }
  }

  lemma {:induction false} LexLessTransitive(a: string, b: string, c: string)
    requires LexLess(a, b) && LexLess(b, c)
    ensures LexLess(a, c)
  {
    if a != [] && b != [] && c != [] && a[0] == b[0] && b[0] == c[0] {
      LexLessTransitive(a[1..], b[1..], c[1..]);
    }
  }

  lemma {:induction false} LexLessTotal(a: string, b: string)
    requires a != b
    ensures LexLess(a, b) || LexLess(b, a)
  {
    if a != [] && b != [] && a[0] == b[0] {
      assert a == [a[0]] + a[1..] && b == [b[0]] + b[1..];
      LexLessTotal(a[1..], b[1..]);
    }
  }

  /** Python's max() over strings: the first token, replaced by every later
      one that is strictly greater. */
  function MaxText(ts: seq<string>): string
    requires |ts| > 0
  {
    if |ts| == 1 then ts[0]
    else
      var best := MaxText(ts[..|ts| - 1]);
      if LexLess(best, ts[|ts| - 1]) then ts[|ts| - 1] else best
  }

  /** The maximum is one of the tokens and no token is lexicographically
      greater. */
  lemma {:induction false} MaxTextIsMaximum(ts: seq<string>)
    requires |ts| > 0
    ensures MaxText(ts) in ts
    ensures forall i :: 0 <= i < |ts| ==> !LexLess(MaxText(ts), ts[i])
  {
    if |ts| == 1 {
      LexLessIrreflexive(ts[0]);
    } else {
      var init := ts[..|ts| - 1];
      MaxTextIsMaximum(init);
      var best := MaxText(init);
      var last := ts[|ts| - 1];
      assert forall i :: 0 <= i < |init| ==> init[i] == ts[i];
      if LexLess(best, last) {
        forall i | 0 <= i < |ts| ensures !LexLess(last, ts[i]) {
          if i == |ts| - 1 {
            LexLessIrreflexive(last);
          } else if LexLess(last, ts[i]) {
            LexLessTransitive(best, last, ts[i]);
          }
        }
      } else {
        forall i | 0 <= i < |ts| ensures !LexLess(best, ts[i]) {
          if i < |ts| - 1 {
            assert ts[i] == init[i];
          }
        }
      }
    }
  }

  /** Python's `n * s` and `s * n`: `s` written n times over, empty when
      n <= 0. */
  function Repeat(s: string, n: int): string
    decreases n
  {
    if n <= 0 then "" else s + Repeat(s, n - 1)
  }

  /** The repetition has n times the length of `s`, starts with `s` and
      repeats with period |s|. */
  lemma {:induction false} RepeatShape(s: string, n: int)
    ensures |Repeat(s, n)| == if n > 0 then n * |s| else 0
    ensures n > 0 ==> Repeat(s, n)[..|s|] == s
    ensures forall i :: |s| <= i < |Repeat(s, n)| ==> Repeat(s, n)[i] == Repeat(s, n)[i - |s|]
    decreases n
  {
    if n > 0 {
      var rest := Repeat(s, n - 1);
      RepeatShape(s, n - 1);
      assert n * |s| == |s| + (n - 1) * |s|;
      var r := s + rest;
      forall i | |s| <= i < |r| ensures r[i] == r[i - |s|] {
        if i - |s| >= |s| {
          assert r[i] == rest[i - |s|] == rest[i - 2 * |s|] == r[i - |s|];
        } else {
          assert rest[..|s|] == s;
        }
      }
    }
  }

  /** Python's `//`: the quotient rounded toward negative infinity. */
  function FloorDiv(a: int, b: int): int
    requires b != 0
  {
    if b > 0 then a / b else (-a) / (-b)
  }

  /** `//` rounds toward negative infinity, for either sign of the divisor. */
  lemma FloorDivRounds(a: int, b: int)
    requires b != 0
    ensures b > 0 ==> FloorDiv(a, b) * b <= a < FloorDiv(a, b) * b + b
    ensures b < 0 ==> FloorDiv(a, b) * b + b < a <= FloorDiv(a, b) * b
  {
  }

  /** Python's `%`: the remainder of `//`. */
  function FloorMod(a: int, b: int): int
    requires b != 0
  {
    a - FloorDiv(a, b) * b
  }

  /** `%` completes the division identity and takes the sign of the divisor. */
  lemma FloorModRemainder(a: int, b: int)
    requires b != 0
    ensures a == FloorDiv(a, b) * b + FloorMod(a, b)
    ensures b > 0 ==> 0 <= FloorMod(a, b) < b
    ensures b < 0 ==> b < FloorMod(a, b) <= 0
  {
    FloorDivRounds(a, b);
  }

  function Multiply(x: Operand, y: Operand): Result<Value>
  {
    match (x, y)
    case (Int(a), Int(b)) => Ok(Num(a * b))
    case (Int(a), Unresolved(s)) => Ok(Text(Repeat(s, a)))
    case (Unresolved(s), Int(b)) => Ok(Text(Repeat(s, b)))
    case (Unresolved(_), Unresolved(_)) => Err(TypeMismatch)
  }

  /** The if/elif dispatch on the operator token. */
  function Apply(op: string, xs: seq<Operand>): Result<Value>
    requires |xs| >= 2
  {
    if op == "+" then
      if AllInts(xs) then Ok(Num(Sum(IntsOf(xs)))) else Err(TypeMismatch)
    else if op == "-" then
      if xs[0].Int? && xs[1].Int? then Ok(Num(xs[0].n - xs[1].n)) else Err(TypeMismatch)
    else if op == "*" then
      Multiply(xs[0], xs[1])
    else if op == "/" then
      if !(xs[0].Int? && xs[1].Int?) then Err(TypeMismatch)
      else if xs[1].n == 0 then Err(ZeroDivision)
      else Ok(Num(FloorDiv(xs[0].n, xs[1].n)))
    else if op == "mod" then
      if !(xs[0].Int? && xs[1].Int?) then Err(TypeMismatch)
      else if xs[1].n == 0 then Err(ZeroDivision)
      else Ok(Num(FloorMod(xs[0].n, xs[1].n)))
    else if op == "max" then
      if AllInts(xs) then Ok(Num(MaxInt(IntsOf(xs))))
      else if AllUnresolved(xs) then Ok(Text(MaxText(TokensOf(xs))))
      else Err(TypeMismatch)
    else
      Err(UnknownOperator(op))
  }

  /** evaluate_expression(expr, constants). The constants map is an input
      value: evaluation cannot change it. */
  function Evaluate(expr: string, constants: map<string, int>): Result<Value>
  {
    var ts := Tokens(expr);
    if |ts| < 3 then Err(MalformedExpression) else Apply(ts[0], Operands(expr, constants))
  }

  // ---------------------------------------------------------------------
  // A worked example: `|+ a 10|` with a bound to 5

  /** The bars are stripped from both ends. */
  lemma StripAddition()
    ensures Strip("|+ a 10|", IsBar) == "+ a 10"
  {
    var e := "|+ a 10|";
    assert e[1..] == "+ a 10|";
    assert TrimLeft(e, IsBar) == "+ a 10|";
    assert "+ a 10|"[..6] == "+ a 10";
  }

  /** The last two tokens. */
  lemma SplitAdditionOperands()
    ensures Split(" a 10") == ["a", "10"]
  {
    assert "10" == "10" + "";
    SplitTakesWord("10", "");
    assert " 10" == [' '] + "10";
    SplitSkipsSpace(' ', "10");
    assert "a 10" == "a" + " 10";
    SplitTakesWord("a", " 10");
    assert " a 10" == [' '] + "a 10";
    SplitSkipsSpace(' ', "a 10");
  }

  /** The rest is split at the spaces. */
  lemma SplitAddition()
    ensures Split("+ a 10") == ["+", "a", "10"]
  {
    SplitAdditionOperands();
    assert "+ a 10" == "+" + " a 10";
    SplitTakesWord("+", " a 10");
  }

  /** The bars are stripped and the rest is split at the spaces. */
  lemma TokensOfAddition()
    ensures Tokens("|+ a 10|") == ["+", "a", "10"]
  {
    StripAddition();
    SplitAddition();
  }

  /** The bound name resolves to its value, the digit string to its number,
      and `+` adds them. */
  lemma EvaluateAddition()
    ensures Evaluate("|+ a 10|", map["a" := 5]) == Ok(Num(15))
  {
    var m := map["a" := 5];
    TokensOfAddition();
    assert "10"[..1] == "1";
    assert DigitsValue("10") == 10;
    var xs := Operands("|+ a 10|", m);
    assert xs == [Int(5), Int(10)];
    assert IntsOf(xs) == [5, 10];
    assert Sum([5, 10]) == Sum([5]) + 10;
  }

  // ---------------------------------------------------------------------
  // Properties of the evaluator

  /** How the dispatch can end: an unknown operator exactly when the
      operator is not one of the six; division by zero exactly when `/` or
      `mod` gets an integer and a zero divisor; a string only from `*` or
      `max`; never a malformed expression, which is decided before. */
  lemma ApplyOutcomes(op: string, xs: seq<Operand>)
    requires |xs| >= 2
    ensures Apply(op, xs) == Err(UnknownOperator(op)) <==> op !in Operators
    ensures Apply(op, xs) == Err(ZeroDivision) <==> (op == "/" || op == "mod") && xs[0].Int? && xs[1] == Int(0)
    ensures Apply(op, xs).Ok? && Apply(op, xs).value.Text? ==> op == "*" || op == "max"
    ensures Apply(op, xs) != Err(MalformedExpression)
  {
  }

  /** Fewer than three tokens, and only that, is a malformed expression. */
  lemma ShortExpressionRejected(expr: string, constants: map<string, int>)
    ensures Evaluate(expr, constants) == Err(MalformedExpression) <==> |Tokens(expr)| < 3
  {
    if |Tokens(expr)| >= 3 {
      ApplyOutcomes(Tokens(expr)[0], Operands(expr, constants));
    }
  }

  /** An operator outside the supported six, and only that, is an unknown
      operator. */
  lemma UnknownOperatorRejected(expr: string, constants: map<string, int>)
    requires |Tokens(expr)| >= 3
    ensures Evaluate(expr, constants) == Err(UnknownOperator(Tokens(expr)[0]))
            <==> Tokens(expr)[0] !in Operators
  {
    ApplyOutcomes(Tokens(expr)[0], Operands(expr, constants));
  }

  /** Each operand is its binding if it has one; failing that, a digit
      string is its decimal value; anything else stays unresolved. */
  lemma OperandResolution(expr: string, constants: map<string, int>, i: nat)
    requires |Tokens(expr)| >= 3 && 1 <= i < |Tokens(expr)|
    ensures var t, x := Tokens(expr)[i], Operands(expr, constants)[i - 1];
            && (t in constants ==> x == Int(constants[t]))
            && (t !in constants && IsNumber(t) ==> x == Int(DigitsValue(t)))
            && (t !in constants && !IsNumber(t) ==> x == Unresolved(t))
  {
  }

  /** `+` is the sum of all operands, whatever their number; an unresolved
      operand anywhere makes it a type error. */
  lemma AddIsSum(xs: seq<Operand>)
    requires |xs| >= 2
    ensures AllInts(xs) ==> Apply("+", xs) == Ok(Num(Sum(IntsOf(xs))))
    ensures !AllInts(xs) ==> Apply("+", xs) == Err(TypeMismatch)
    ensures AllInts(xs) ==> forall k :: 0 <= k <= |xs| ==>
              Sum(IntsOf(xs)) == Sum(IntsOf(xs[..k])) + Sum(IntsOf(xs[k..]))
  {
    if AllInts(xs) {
      forall k | 0 <= k <= |xs|
        ensures Sum(IntsOf(xs)) == Sum(IntsOf(xs[..k])) + Sum(IntsOf(xs[k..]))
      {
        assert IntsOf(xs) == IntsOf(xs[..k]) + IntsOf(xs[k..]);
        SumAppend(IntsOf(xs[..k]), IntsOf(xs[k..]));
      }
    }
  }

  /** `max` of integers is an operand no operand exceeds; of unresolved
      tokens it is a token no token follows lexicographically; a mixture is
      a type error (Python cannot compare int and str). */
  lemma MaxIsLargest(xs: seq<Operand>)
    requires |xs| >= 2
    ensures Apply("max", xs).Ok? <==> AllInts(xs) || AllUnresolved(xs)
    ensures Apply("max", xs).Ok? && Apply("max", xs).value.Num? ==>
              var m := Apply("max", xs).value.n;
              (exists i :: 0 <= i < |xs| && xs[i] == Int(m)) &&
              forall i :: 0 <= i < |xs| ==> xs[i].Int? && xs[i].n <= m
    ensures Apply("max", xs).Ok? && Apply("max", xs).value.Text? ==>
              var t := Apply("max", xs).value.s;
              (exists i :: 0 <= i < |xs| && xs[i] == Unresolved(t)) &&
              forall i :: 0 <= i < |xs| ==> xs[i].Unresolved? && !LexLess(t, xs[i].token)
  {
    if AllInts(xs) {
      var ns := IntsOf(xs);
      assert |ns| == |xs| && forall i :: 0 <= i < |xs| ==> ns[i] == xs[i].n;
      MaxIntIsMaximum(ns);
      var m := MaxInt(ns);
      var k :| 0 <= k < |ns| && ns[k] == m;
      assert xs[k] == Int(m);
    } else if AllUnresolved(xs) {
      var ts := TokensOf(xs);
      assert |ts| == |xs| && forall i :: 0 <= i < |xs| ==> ts[i] == xs[i].token;
      MaxTextIsMaximum(ts);
      var t := MaxText(ts);
      var k :| 0 <= k < |ts| && ts[k] == t;
      assert xs[k] == Unresolved(t);
    }
  }

  /** `-`, `*`, `/` and `mod` read the first two operands and ignore the rest. */
  lemma BinaryIgnoresExtraOperands(op: string, xs: seq<Operand>)
    requires |xs| >= 2 && op in {"-", "*", "/", "mod"}
    ensures Apply(op, xs) == Apply(op, xs[..2])
  {
  }

  /** `-` and `*` on two integers are their difference, first minus second,
      and their product. */
  lemma SubtractMultiplyIntegers(a: int, b: int, rest: seq<Operand>)
    ensures Apply("-", [Int(a), Int(b)] + rest) == Ok(Num(a - b))
    ensures Apply("*", [Int(a), Int(b)] + rest) == Ok(Num(a * b))
  {
  }

  /** `/` and `mod` on integers: a zero divisor is an error; otherwise the
      quotient and remainder satisfy a == (a / b) * b + (a mod b), with the
      remainder carrying the divisor's sign. */
  lemma DivModIdentity(a: int, b: int, rest: seq<Operand>)
    ensures b == 0 ==> Apply("/", [Int(a), Int(b)] + rest) == Err(ZeroDivision)
    ensures b == 0 ==> Apply("mod", [Int(a), Int(b)] + rest) == Err(ZeroDivision)
    ensures b != 0 ==> Apply("/", [Int(a), Int(b)] + rest).Ok? && Apply("mod", [Int(a), Int(b)] + rest).Ok?
    ensures b != 0 ==>
              var q, m := Apply("/", [Int(a), Int(b)] + rest).value, Apply("mod", [Int(a), Int(b)] + rest).value;
              q.Num? && m.Num? && a == q.n * b + m.n &&
              (b > 0 ==> 0 <= m.n < b) && (b < 0 ==> b < m.n <= 0)
  {
    if b != 0 {
      FloorModRemainder(a, b);
    }
  }

  /** An unresolved operand that `+`, `-`, `/` or `mod` reads is a type
      error; the operator never silently treats it as a number. */
  lemma UnresolvedOperandFails(op: string, xs: seq<Operand>, i: nat)
    requires |xs| >= 2 && op in {"+", "-", "/", "mod"}
    requires i < |xs| && xs[i].Unresolved?
    requires op != "+" ==> i < 2
    ensures Apply(op, xs) == Err(TypeMismatch)
  {
  }

  /** `*` with one integer n and one unresolved token s is Python's string
      repetition: s written n times over, not a type error. Two unresolved
      operands are a type error. */
  lemma MultiplyRepeatsToken(n: int, s: string, t: string, rest: seq<Operand>)
    ensures Apply("*", [Int(n), Unresolved(s)] + rest) == Apply("*", [Unresolved(s), Int(n)] + rest)
    ensures var r := Apply("*", [Int(n), Unresolved(s)] + rest);
            r.Ok? && r.value.Text? && |r.value.s| == (if n > 0 then n * |s| else 0) &&
            (n > 0 ==> r.value.s[..|s|] == s) &&
            forall k :: |s| <= k < |r.value.s| ==> r.value.s[k] == r.value.s[k - |s|]
    ensures Apply("*", [Unresolved(s), Unresolved(t)] + rest) == Err(TypeMismatch)
  {
    RepeatShape(s, n);
  }

  /** Evaluation reads only the bindings of the tokens it uses: two maps
      that agree on every operand token give the same result. */
  lemma {:induction false} EvaluateReadsOnlyItsOperands(expr: string, c1: map<string, int>, c2: map<string, int>)
    requires forall t :: t in Tokens(expr) ==> (t in c1 <==> t in c2) && (t in c1 ==> c1[t] == c2[t])
    ensures Evaluate(expr, c1) == Evaluate(expr, c2)
  {
    var ts := Tokens(expr);
    if |ts| >= 3 {
      forall i | 0 <= i < |ts| - 1
        ensures Operands(expr, c1)[i] == Operands(expr, c2)[i]
      {
        OperandAt(expr, c1, i);
        OperandAt(expr, c2, i);
        assert ts[i + 1] in ts;
        ResolveAgrees(ts[i + 1], c1, c2);
      }
      assert Operands(expr, c1) == Operands(expr, c2);
    }
  }

  lemma OperandAt(expr: string, constants: map<string, int>, i: nat)
    requires |Tokens(expr)| >= 3 && i < |Tokens(expr)| - 1
    ensures |Operands(expr, constants)| == |Tokens(expr)| - 1
    ensures Operands(expr, constants)[i] == Resolve(Tokens(expr)[i + 1], constants)
  {
  }

  lemma ResolveAgrees(t: string, c1: map<string, int>, c2: map<string, int>)
    requires (t in c1 <==> t in c2) && (t in c1 ==> c1[t] == c2[t])
    ensures Resolve(t, c1) == Resolve(t, c2)
  {
  }
}

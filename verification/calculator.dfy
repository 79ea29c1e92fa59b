/** The integer expression calculator (`calculator.c`, and its renamed copy `calc.c`):
    white space is removed from the line, the rest is validated as digits and the four
    operators, split into numbers and operators, and evaluated in two passes over the
    operator list — first every `*` and `/` from left to right, folded into its left
    operand, then every `+` and `-` from left to right. */
module Calculator {
  import opened CType

  // ---------------------------------------------------------------------------
  // removeSpaces

  /** The string without its white space, the other characters in their order. */
  function Stripped(s: string): (t: string)
    ensures |t| <= |s|
    ensures forall k :: 0 <= k < |t| ==> !IsSpace(t[k])
  {
    if s == [] then []
    else if IsSpace(s[|s| - 1]) then Stripped(s[..|s| - 1])
    else Stripped(s[..|s| - 1]) + [s[|s| - 1]]
  }

  /** Stripping works piece by piece, so the characters that stay keep their order. */
  lemma {:induction false} StrippedAppend(a: string, b: string)
    ensures Stripped(a + b) == Stripped(a) + Stripped(b)
    decreases |b|
  {
    if b == [] {
      assert a + b == a;
    } else {
      var b' := b[..|b| - 1];
      assert (a + b)[..|a + b| - 1] == a + b';
      StrippedAppend(a, b');
    }
  }

  /** A string without white space is left as it is. */
  lemma {:induction false} StrippedNoSpace(s: string)
    requires forall k :: 0 <= k < |s| ==> !IsSpace(s[k])
    ensures Stripped(s) == s
  {
    if s != [] {
      StrippedNoSpace(s[..|s| - 1]);
      assert s[..|s| - 1] + [s[|s| - 1]] == s;
    }
  }

  /** Stripping twice is stripping once. */
  lemma StrippedIdempotent(s: string)
    ensures Stripped(Stripped(s)) == Stripped(s)
  {
    StrippedNoSpace(Stripped(s));
  }

  /** `removeSpaces(exp)`: copies every character that is not white space down to the
      write position j, in place. */
  method RemoveSpaces(s: string) returns (t: string)
    ensures t == Stripped(s)
  {
    t := [];
    var i := 0;
    while i < |s|
      invariant 0 <= i <= |s|
      invariant t == Stripped(s[..i])
    {
      assert s[..i + 1][..i] == s[..i];
      if !IsSpace(s[i]) {
        t := t + [s[i]];
      }
      i := i + 1;
    }
    assert s[..|s|] == s;
  }

  // ---------------------------------------------------------------------------
  // isOperator and checkValidation

  /** `isOperator` */
  predicate IsOperator(c: char) {
    c == '+' || c == '-' || c == '*' || c == '/'
  }

  predicate IsMultiplicative(c: char) {
    c == '*' || c == '/'
  }

  /** What `checkValidation` (`isValidExpression` in `calc.c`) accepts: a non-empty string
      of digits and operators that starts and ends with a digit and never has two
      operators side by side. */
  predicate ValidExpression(s: string) {
    && s != []
    && IsDigit(s[0]) && IsDigit(s[|s| - 1])
    && (forall k :: 0 <= k < |s| ==> IsDigit(s[k]) || IsOperator(s[k]))
    && (forall k :: 0 <= k < |s| - 1 ==> !(IsOperator(s[k]) && IsOperator(s[k + 1])))
  }

  /** `checkValidation(exp)`: the empty string and a non-digit at either end are refused at
      once; then each position is checked for a foreign character and for an operator
      followed by another. */
  method CheckValidation(s: string) returns (ok: bool)
    ensures ok <==> ValidExpression(s)
  {
    if |s| == 0 {
      return false;
    }
    if !IsDigit(s[0]) || !IsDigit(s[|s| - 1]) {
      return false;
    }
    var i := 0;
    while i < |s|
      invariant 0 <= i <= |s|
      invariant forall k :: 0 <= k < i ==> IsDigit(s[k]) || IsOperator(s[k])
      invariant forall k :: 0 <= k < i && k < |s| - 1 ==> !(IsOperator(s[k]) && IsOperator(s[k + 1]))
    {
      if !IsDigit(s[i]) && !IsOperator(s[i]) {
        return false;
      }
      if IsOperator(s[i]) && i + 1 < |s| && IsOperator(s[i + 1]) {
        return false;
      }
      i := i + 1;
    }
    return true;
  }

  // ---------------------------------------------------------------------------
  // operations

  function Abs(x: int): nat {
    if x < 0 then -x else x
  }

  /** C's `/` on `int`: the quotient truncated toward zero, so the remainder takes the
      sign of the dividend. */
  function CDiv(a: int, b: int): int
    requires b != 0
  {
    var m := Abs(a) / Abs(b);
    if (a < 0) == (b < 0) then m else -m
  }

  /** The remainder left by C's division is smaller than the divisor and has the sign of
      the dividend; on non-negative operands it is Dafny's division. */
  lemma CDivTruncates(a: int, b: int)
    requires b != 0
    ensures Abs(a - CDiv(a, b) * b) < Abs(b)
    ensures a - CDiv(a, b) * b == 0 || (a - CDiv(a, b) * b < 0 <==> a < 0)
    ensures a >= 0 && b > 0 ==> CDiv(a, b) == a / b
  {
    var m := Abs(a) / Abs(b);
    CDivRemainder(a, b, m, CDiv(a, b));
  }

  lemma CDivRemainder(a: int, b: int, m: int, q: int)
    requires b != 0 && m == Abs(a) / Abs(b)
    requires q == if (a < 0) == (b < 0) then m else -m
    ensures a - q * b == if a < 0 then -(Abs(a) - m * Abs(b)) else Abs(a) - m * Abs(b)
  {
    if b < 0 {
      assert m * b == -(m * Abs(b));
      assert (-m) * b == m * Abs(b);
    } else {
      assert (-m) * b == -(m * Abs(b));
    }
  }

  /** `operations(num1, num2, opr, &zeroDivError)`: the value, and whether the error flag
      is raised. A zero divisor raises it and gives 0; a character that is not an
      operator gives 0. */
  function Op(a: int, b: int, op: char): (r: (int, bool))
    ensures r.1 <==> op == '/' && b == 0
    ensures r.1 ==> r.0 == 0
    ensures !IsOperator(op) ==> r.0 == 0
  {
    match op
    case '+' => (a + b, false)
    case '-' => (a - b, false)
    case '*' => (a * b, false)
    case '/' => if b == 0 then (0, true) else (CDiv(a, b), false)
    case _ => (0, false)
  }

  // ---------------------------------------------------------------------------
  // Tokenising

  predicate ExpressionChars(s: string) {
    forall k :: 0 <= k < |s| ==> IsDigit(s[k]) || IsOperator(s[k])
  }

  /** The end of the run of digits at the front of s. */
  function DigitRun(s: string): (j: nat)
    ensures j <= |s| && AllDigits(s[..j])
    ensures j < |s| ==> !IsDigit(s[j])
  {
    if s != [] && IsDigit(s[0]) then
      var j := 1 + DigitRun(s[1..]);
      assert s[..j] == [s[0]] + s[1..][..j - 1];
      j
    else 0
  }

  /** The tokenising loop of `main` (lines 78-90): each round reads the run of digits at
      the read position as a number (0 for an empty run) and then takes one operator if
      there is one. It runs only on digits and operators. */
  function Tokenize(s: string): (r: (seq<int>, seq<char>))
    requires ExpressionChars(s)
    ensures s == [] ==> r == ([], [])
    ensures s != [] && IsDigit(s[|s| - 1]) ==> |r.0| == |r.1| + 1
    ensures s != [] && !IsDigit(s[|s| - 1]) ==> |r.0| == |r.1|
    ensures forall k :: 0 <= k < |r.1| ==> IsOperator(r.1[k])
  {
    if s == [] then ([], [])
    else
      var j := DigitRun(s);
      var num := DecimalValue(s[..j]);
      if j < |s| then
        var rest := Tokenize(s[j + 1..]);
        assert s[j + 1..] != [] ==> s[j + 1..][|s[j + 1..]| - 1] == s[|s| - 1];
        ([num] + rest.0, [s[j]] + rest.1)
      else ([num], [])
  }

  /** Digit runs joined by operators: the shape of a valid expression. */
  function Join(runs: seq<string>, ops: seq<char>): string
    requires |runs| == |ops| + 1
    decreases |ops|
  {
    if ops == [] then runs[0] else runs[0] + [ops[0]] + Join(runs[1..], ops[1..])
  }

  predicate WellFormedRuns(runs: seq<string>, ops: seq<char>) {
    && |runs| == |ops| + 1
    && (forall k :: 0 <= k < |runs| ==> runs[k] != [] && AllDigits(runs[k]))
    && (forall k :: 0 <= k < |ops| ==> IsOperator(ops[k]))
  }

  function Values(runs: seq<string>): (v: seq<int>)
    requires forall k :: 0 <= k < |runs| ==> AllDigits(runs[k])
    ensures |v| == |runs| && forall k :: 0 <= k < |runs| ==> v[k] == DecimalValue(runs[k])
  {
    seq(|runs|, k requires 0 <= k < |runs| => DecimalValue(runs[k]))
  }

  /** Joining non-empty digit runs with operators gives a valid expression. */
  lemma {:induction false} JoinValid(runs: seq<string>, ops: seq<char>)
    requires WellFormedRuns(runs, ops)
    ensures ValidExpression(Join(runs, ops))
    ensures Join(runs, ops)[0] == runs[0][0]
    decreases |ops|
  {
    var s := Join(runs, ops);
    if ops != [] {
      var tail := Join(runs[1..], ops[1..]);
      JoinValid(runs[1..], ops[1..]);
      var n := |runs[0]|;
      assert s == runs[0] + [ops[0]] + tail;
      assert s[n] == ops[0] && s[n + 1] == tail[0] == runs[1][0];
      forall k | 0 <= k < |s|
        ensures IsDigit(s[k]) || IsOperator(s[k])
      {
        if k < n {
          assert s[k] == runs[0][k];
        } else if k > n {
          assert s[k] == tail[k - n - 1];
        }
      }
      forall k | 0 <= k < |s| - 1
        ensures !(IsOperator(s[k]) && IsOperator(s[k + 1]))
      {
        if k < n {
          assert s[k] == runs[0][k];
        } else if k > n {
          assert s[k] == tail[k - n - 1] && s[k + 1] == tail[k - n];
        }
      }
      assert s[|s| - 1] == tail[|tail| - 1];
    }
  }

  /** Tokenising undoes the joining: the numbers are the values of the runs and the
      operators come back in order. */
  lemma {:induction false} TokenizeJoin(runs: seq<string>, ops: seq<char>)
    requires WellFormedRuns(runs, ops)
    ensures ValidExpression(Join(runs, ops))
    ensures Tokenize(Join(runs, ops)) == (Values(runs), ops)
    decreases |ops|
  {
    JoinValid(runs, ops);
    if ops == [] {
      FullRun(runs[0]);
      assert runs[0][..|runs[0]|] == runs[0];
      assert Values(runs) == [DecimalValue(runs[0])];
    } else {
      TokenizeJoin(runs[1..], ops[1..]);
      TokenizeStep(runs, ops);
    }
  }

  /** One round of the tokenising loop on joined runs: the first run, then the first
      operator, then the rest. */
  lemma TokenizeStep(runs: seq<string>, ops: seq<char>)
    requires WellFormedRuns(runs, ops) && ops != []
    requires ExpressionChars(Join(runs, ops)) && ExpressionChars(Join(runs[1..], ops[1..]))
    requires Tokenize(Join(runs[1..], ops[1..])) == (Values(runs[1..]), ops[1..])
    ensures Tokenize(Join(runs, ops)) == (Values(runs), ops)
  {
    var s := Join(runs, ops);
    var t := Join(runs[1..], ops[1..]);
    var n := |runs[0]|;
    assert n < |s| && DigitRun(s) == n && s[..n] == runs[0] && s[n] == ops[0] && s[n + 1..] == t by {
      JoinParts(runs, ops);
      assert AllDigits(s[..n]);
      RunUpTo(s, n);
    }
    assert Tokenize(s) == ([DecimalValue(runs[0])] + Tokenize(t).0, [ops[0]] + Tokenize(t).1) by {
      TokenizeUnfold(s, n);
    }
    assert Tokenize(s).0 == Values(runs) by {
      ValuesCons(runs);
    }
    HeadTail(ops);
  }

  lemma ValuesCons(runs: seq<string>)
    requires runs != [] && forall k :: 0 <= k < |runs| ==> AllDigits(runs[k])
    ensures Values(runs) == [DecimalValue(runs[0])] + Values(runs[1..])
  {
  }

  lemma JoinParts(runs: seq<string>, ops: seq<char>)
    requires |runs| == |ops| + 1 && ops != []
    ensures |runs[0]| < |Join(runs, ops)|
    ensures Join(runs, ops)[..|runs[0]|] == runs[0]
    ensures Join(runs, ops)[|runs[0]|] == ops[0]
    ensures Join(runs, ops)[|runs[0]| + 1..] == Join(runs[1..], ops[1..])
  {
    var s := Join(runs, ops);
    assert s == runs[0] + [ops[0]] + Join(runs[1..], ops[1..]);
  }

  lemma TokenizeUnfold(s: string, n: nat)
    requires ExpressionChars(s) && n < |s| && DigitRun(s) == n
    ensures ExpressionChars(s[n + 1..])
    ensures Tokenize(s) == ([DecimalValue(s[..n])] + Tokenize(s[n + 1..]).0, [s[n]] + Tokenize(s[n + 1..]).1)
  {
    var t := s[n + 1..];
    forall k | 0 <= k < |t|
      ensures IsDigit(t[k]) || IsOperator(t[k])
    {
      assert t[k] == s[n + 1 + k];
    }
    assert s != [];
  }

  lemma FullRun(s: string)
    requires AllDigits(s)
    ensures DigitRun(s) == |s|
  {
  }

  lemma RunUpTo(s: string, n: nat)
    requires n < |s| && AllDigits(s[..n]) && !IsDigit(s[n])
    ensures DigitRun(s) == n
  {
  }

  // ---------------------------------------------------------------------------
  // The reference: evaluation by precedence

  /** The expression read as a sum of products, from the left: a running term starts at
      the first number, a `*` or `/` folds the next number into it, and any other
      operator closes it and starts the next term. The result lists the terms and the
      operators between them. */
  function Terms(nums: seq<int>, ops: seq<char>): (r: (seq<int>, seq<char>))
    requires |nums| == |ops| + 1
    ensures |r.0| == |r.1| + 1
  {
    TermsFrom(nums[0], nums[1..], ops)
  }

  /** The terms of `term ops[0] nums[0] ops[1] nums[1] ...` with `term` the running term. */
  function TermsFrom(term: int, nums: seq<int>, ops: seq<char>): (r: (seq<int>, seq<char>))
    requires |nums| == |ops|
    ensures |r.0| == |r.1| + 1
    decreases |ops|
  {
    if ops == [] then ([term], [])
    else if IsMultiplicative(ops[0]) then TermsFrom(Op(term, nums[0], ops[0]).0, nums[1..], ops[1..])
    else
      var r := TermsFrom(nums[0], nums[1..], ops[1..]);
      ([term] + r.0, [ops[0]] + r.1)
  }

  /** The terms summed from left to right. */
  function SumFold(vals: seq<int>, ops: seq<char>): int
    requires |vals| == |ops| + 1
    decreases |ops|
  {
    if ops == [] then vals[0]
    else
      var n := |ops|;
      Op(SumFold(vals[..n], ops[..n - 1]), vals[n], ops[n - 1]).0
  }

  /** Precedence evaluation with left associativity: products before sums. */
  function PrecedenceValue(nums: seq<int>, ops: seq<char>): int
    requires |nums| == |ops| + 1
  {
    var (vals, adds) := Terms(nums, ops);
    SumFold(vals, adds)
  }

  /** Some `/` has a zero right operand. */
  predicate DivisionByZero(nums: seq<int>, ops: seq<char>)
    requires |nums| == |ops| + 1
  {
    exists k :: 0 <= k < |ops| && ops[k] == '/' && nums[k + 1] == 0
  }

  /** In the text, the error comes from a `/` followed by a run of zeros only ("/0",
      "/00", ...). */
  lemma ZeroDivisorText(runs: seq<string>, ops: seq<char>)
    requires WellFormedRuns(runs, ops)
    ensures DivisionByZero(Values(runs), ops) <==>
      exists k :: 0 <= k < |ops| && ops[k] == '/' && ZerosOnly(runs[k + 1])
  {
    var nums := Values(runs);
    if DivisionByZero(nums, ops) {
      var k :| 0 <= k < |ops| && ops[k] == '/' && nums[k + 1] == 0;
      DecimalValuePositive(runs[k + 1]);
    }
    if exists k :: 0 <= k < |ops| && ops[k] == '/' && ZerosOnly(runs[k + 1]) {
      var k :| 0 <= k < |ops| && ops[k] == '/' && ZerosOnly(runs[k + 1]);
      DecimalValuePositive(runs[k + 1]);
      assert nums[k + 1] == 0;
    }
  }

  predicate ZerosOnly(s: string) {
    forall j :: 0 <= j < |s| ==> s[j] == '0'
  }

  /** A valid expression past its first digit run: the run is not empty, an operator
      follows it unless it is the whole expression, and what follows that operator is a
      valid expression again. */
  lemma SplitStep(s: string)
    requires ValidExpression(s)
    ensures 1 <= DigitRun(s)
    ensures DigitRun(s) < |s| ==>
      DigitRun(s) + 1 < |s| && IsOperator(s[DigitRun(s)]) && ValidExpression(s[DigitRun(s) + 1..])
  {
    var j := DigitRun(s);
    if j < |s| {
      assert IsOperator(s[j]);
      assert s[|s| - 1] != s[j] || j == |s| - 1;
      assert j < |s| - 1;
      var t := s[j + 1..];
      assert t[0] == s[j + 1];
      assert IsDigit(t[0]);
      assert t[|t| - 1] == s[|s| - 1];
      forall k | 0 <= k < |t|
        ensures IsDigit(t[k]) || IsOperator(t[k])
      {
        assert t[k] == s[j + 1 + k];
      }
      forall k | 0 <= k < |t| - 1
        ensures !(IsOperator(t[k]) && IsOperator(t[k + 1]))
      {
        assert t[k] == s[j + 1 + k] && t[k + 1] == s[j + 2 + k];
      }
      assert ValidExpression(t);
    }
  }

  /** A valid expression cut into its maximal digit runs and the operators between
      them. */
  function Split(s: string): (r: (seq<string>, seq<char>))
    requires ValidExpression(s)
    ensures |r.0| == |r.1| + 1
    decreases |s|
  {
    SplitStep(s);
    var j := DigitRun(s);
    if j == |s| then ([s], [])
    else
      var rest := Split(s[j + 1..]);
      ([s[..j]] + rest.0, [s[j]] + rest.1)
  }

  /** Every valid expression is a join of digit runs: cutting it with `Split` and joining
      the pieces again gives it back. Together with `JoinValid` this makes the joins of
      non-empty digit runs by operators exactly the valid expressions. */
  lemma ValidIsJoin(s: string)
    requires ValidExpression(s)
    ensures WellFormedRuns(Split(s).0, Split(s).1)
    ensures Join(Split(s).0, Split(s).1) == s
  {
    SplitWellFormed(s);
    SplitJoins(s);
  }

  /** The pieces `Split` cuts are non-empty digit runs and operators. */
  lemma {:induction false} SplitWellFormed(s: string)
    requires ValidExpression(s)
    ensures WellFormedRuns(Split(s).0, Split(s).1)
    decreases |s|
  {
    SplitStep(s);
    var j := DigitRun(s);
    var (runs, ops) := Split(s);
    if j == |s| {
      assert runs == [s] && ops == [];
    } else {
      var t := s[j + 1..];
      SplitWellFormed(t);
      var (runs', ops') := Split(t);
      assert runs == [s[..j]] + runs' && ops == [s[j]] + ops';
      forall k | 0 <= k < |runs|
        ensures runs[k] != [] && AllDigits(runs[k])
      {
        if k > 0 {
          assert runs[k] == runs'[k - 1];
        }
      }
      forall k | 0 <= k < |ops|
        ensures IsOperator(ops[k])
      {
        if k > 0 {
          assert ops[k] == ops'[k - 1];
        }
      }
    }
  }

  /** Joining the pieces `Split` cuts gives the expression back. */
  lemma {:induction false} SplitJoins(s: string)
    requires ValidExpression(s)
    ensures Join(Split(s).0, Split(s).1) == s
    decreases |s|
  {
    SplitStep(s);
    var j := DigitRun(s);
    var (runs, ops) := Split(s);
    if j == |s| {
      assert s[..j] == s;
    } else {
      var t := s[j + 1..];
      SplitJoins(t);
      var rest := Split(t);
      assert runs == [s[..j]] + rest.0 && ops == [s[j]] + rest.1;
      ConsParts(s[..j], rest.0);
      ConsParts(s[j], rest.1);
      assert Join(runs, ops) == s[..j] + [s[j]] + t;
      AroundElement(s, j);
    }
  }

  /** Tokenising any valid expression gives the decimal value of each maximal digit run
      and the operators between them, in order; its division error arises exactly from a
      `/` followed by a run of zeros only. */
  lemma TokenizeValid(s: string)
    requires ValidExpression(s)
    ensures var (runs, ops) := Split(s);
      && WellFormedRuns(runs, ops)
      && Tokenize(s) == (Values(runs), ops)
      && (DivisionByZero(Values(runs), ops) <==>
           exists k :: 0 <= k < |ops| && ops[k] == '/' && ZerosOnly(runs[k + 1]))
  {
    var (runs, ops) := Split(s);
    ValidIsJoin(s);
    TokenizeJoin(runs, ops);
    ZeroDivisorText(runs, ops);
  }

  /** Products bind tighter than sums, on either side: a+b*c is a+(b*c) and a*b+c is
      (a*b)+c, whatever the operands. */
  lemma ProductsFirst(a: int, b: int, c: int)
    ensures PrecedenceValue([a, b, c], "+*") == a + b * c
    ensures PrecedenceValue([a, b, c], "*+") == a * b + c
  {
    assert [a, b, c][1..] == [b, c] && [b, c][1..] == [c] && [c][1..] == [];
    assert "+*"[1..] == "*" && "*+"[1..] == "+" && "*"[1..] == [] && "+"[1..] == [];
    assert TermsFrom(b * c, [], []) == ([b * c], []);
    assert TermsFrom(b, [c], "*") == ([b * c], []);
    assert ['+'] + [] == "+" && [a] + [b * c] == [a, b * c];
    assert TermsFrom(a, [b, c], "+*") == ([a, b * c], "+");
    assert Terms([a, b, c], "+*") == ([a, b * c], "+");
    assert [a, b * c][..1] == [a] && "+"[..0] == [];
    assert TermsFrom(c, [], []) == ([c], []);
    assert ['+'] + [] == "+" && [a * b] + [c] == [a * b, c];
    assert TermsFrom(a * b, [c], "+") == ([a * b, c], "+");
    assert Terms([a, b, c], "*+") == ([a * b, c], "+");
    assert [a * b, c][..1] == [a * b];
  }

  /** Both levels associate to the left: a/b*c is (a/b)*c with C's truncating division,
      and a-b-c is (a-b)-c, whatever the operands. */
  lemma LeftToRight(a: int, b: int, c: int)
    requires b != 0
    ensures PrecedenceValue([a, b, c], "/*") == CDiv(a, b) * c
    ensures PrecedenceValue([a, b, c], "--") == a - b - c
  {
    assert [a, b, c][1..] == [b, c] && [b, c][1..] == [c] && [c][1..] == [];
    assert "/*"[1..] == "*" && "--"[1..] == "-" && "*"[1..] == [] && "-"[1..] == [];
    assert TermsFrom(CDiv(a, b), [c], "*") == ([CDiv(a, b) * c], []);
    assert Terms([a, b, c], "/*") == ([CDiv(a, b) * c], []);
    assert TermsFrom(c, [], []) == ([c], []);
    assert ['-'] + [] == "-" && [b] + [c] == [b, c];
    assert TermsFrom(b, [c], "-") == ([b, c], "-");
    assert ['-'] + "-" == "--" && [a] + [b, c] == [a, b, c];
    assert Terms([a, b, c], "--") == ([a, b, c], "--");
    assert [a, b, c][..2] == [a, b] && "--"[..1] == "-" && [a, b][..1] == [a] && "-"[..0] == [];
  }

  // ---------------------------------------------------------------------------
  // The first pass

  /** Folding the operator at position i: its left operand becomes the result, and its
      right operand and the operator leave the arrays. */
  function FoldNums(nums: seq<int>, ops: seq<char>, i: nat): (r: seq<int>)
    requires |nums| == |ops| + 1 && i < |ops|
    ensures |r| == |nums| - 1
  {
    nums[..i] + [Op(nums[i], nums[i + 1], ops[i]).0] + nums[i + 2..]
  }

  function FoldOps(ops: seq<char>, i: nat): (r: seq<char>)
    requires i < |ops|
    ensures |r| == |ops| - 1
  {
    ops[..i] + ops[i + 1..]
  }

  /** Folding the operator at i loses the right operand of that operator only; the
      operator before it, if any, is not a `/`. */
  lemma FoldDivisionByZero(nums: seq<int>, ops: seq<char>, i: nat)
    requires |nums| == |ops| + 1 && i < |ops|
    requires i > 0 ==> ops[i - 1] != '/'
    ensures DivisionByZero(nums, ops) <==>
      (DivisionByZero(FoldNums(nums, ops, i), FoldOps(ops, i)) || (ops[i] == '/' && nums[i + 1] == 0))
  {
    var nums' := FoldNums(nums, ops, i);
    var ops' := FoldOps(ops, i);
    if DivisionByZero(nums, ops) && !(ops[i] == '/' && nums[i + 1] == 0) {
      var k :| 0 <= k < |ops| && ops[k] == '/' && nums[k + 1] == 0;
      if k < i {
        assert k + 1 < i;
        assert ops'[k] == ops[k] && nums'[k + 1] == nums[k + 1];
      } else {
        assert ops'[k - 1] == ops[k] && nums'[k] == nums[k + 1];
      }
    }
    if DivisionByZero(nums', ops') {
      var k :| 0 <= k < |ops'| && ops'[k] == '/' && nums'[k + 1] == 0;
      if k < i {
        assert k + 1 < i;
        assert ops[k] == ops'[k] && nums[k + 1] == nums'[k + 1];
      } else {
        assert ops[k + 1] == ops'[k] && nums[k + 2] == nums'[k + 1];
      }
    }
  }

  /** The first loop of `main` (lines 93-111): scanning the operators from the left, each
      `*` or `/` is applied to its two operands, the result replaces the left operand, and
      the right operand and the operator are shifted out; the scan then looks at the same
      position again. What remains is the list of terms and the `+` and `-` between them,
      and the error flag is raised exactly when some `/` has a zero right operand. */
  method FirstPass(nums0: seq<int>, ops0: seq<char>) returns (nums: seq<int>, ops: seq<char>, err: bool)
    requires |nums0| == |ops0| + 1
    ensures (nums, ops) == Terms(nums0, ops0)
    ensures forall k :: 0 <= k < |ops| ==> !IsMultiplicative(ops[k])
    ensures err <==> DivisionByZero(nums0, ops0)
  {
    nums, ops, err := nums0, ops0, false;
    var i := 0;
    GlueStart(nums, ops);
    while i < |ops|
      invariant |nums| == |ops| + 1 && 0 <= i <= |ops|
      invariant forall k :: 0 <= k < i ==> !IsMultiplicative(ops[k])
      invariant Glue(nums, ops, i) == Terms(nums0, ops0)
      invariant (err || DivisionByZero(nums, ops)) <==> DivisionByZero(nums0, ops0)
      decreases |ops| - i
    {
      if ops[i] == '*' || ops[i] == '/' {
        var (v, e) := Op(nums[i], nums[i + 1], ops[i]);
        FoldDivisionByZero(nums, ops, i);
        FoldStep(nums, ops, i);
        nums := FoldNums(nums, ops, i);
        ops := FoldOps(ops, i);
        err := err || e;
      } else {
        PassStep(nums, ops, i);
        i := i + 1;
      }
    }
    GlueEnd(nums, ops);
  }

  /** The state of the first pass at position i read as terms: the numbers and operators
      before i as they are, then the terms of the rest with `nums[i]` as running term. */
  function Glue(nums: seq<int>, ops: seq<char>, i: nat): (seq<int>, seq<char>)
    requires |nums| == |ops| + 1 && i <= |ops|
  {
    var t := TermsFrom(nums[i], nums[i + 1..], ops[i..]);
    (nums[..i] + t.0, ops[..i] + t.1)
  }

  lemma GlueStart(nums: seq<int>, ops: seq<char>)
    requires |nums| == |ops| + 1
    ensures Glue(nums, ops, 0) == Terms(nums, ops)
  {
    assert ops[0..] == ops && nums[0 + 1..] == nums[1..];
    var t := TermsFrom(nums[0], nums[1..], ops);
    assert nums[..0] + t.0 == t.0 && ops[..0] + t.1 == t.1;
  }

  lemma GlueEnd(nums: seq<int>, ops: seq<char>)
    requires |nums| == |ops| + 1
    ensures Glue(nums, ops, |ops|) == (nums, ops)
  {
    var i := |ops|;
    assert ops[i..] == [] && nums[i + 1..] == [];
    assert TermsFrom(nums[i], nums[i + 1..], ops[i..]) == ([nums[i]], []);
    assert nums[..i] + [nums[i]] == nums && ops[..i] + [] == ops;
  }

  /** Folding at i leaves the state read as terms alone. */
  lemma FoldStep(nums: seq<int>, ops: seq<char>, i: nat)
    requires |nums| == |ops| + 1 && i < |ops| && IsMultiplicative(ops[i])
    ensures Glue(FoldNums(nums, ops, i), FoldOps(ops, i), i) == Glue(nums, ops, i)
  {
    var nums', ops' := FoldNums(nums, ops, i), FoldOps(ops, i);
    assert nums'[..i] == nums[..i] && ops'[..i] == ops[..i];
    assert nums'[i + 1..] == nums[i + 1..][1..];
    assert ops'[i..] == ops[i..][1..];
  }

  /** Passing a `+` or `-` at i closes the running term at i. */
  lemma PassStep(nums: seq<int>, ops: seq<char>, i: nat)
    requires |nums| == |ops| + 1 && i < |ops| && !IsMultiplicative(ops[i])
    ensures Glue(nums, ops, i + 1) == Glue(nums, ops, i)
  {
    assert nums[i + 1..][1..] == nums[i + 2..] && nums[i + 1..][0] == nums[i + 1];
    assert ops[i..][1..] == ops[i + 1..] && ops[i..][0] == ops[i];
    var r := TermsFrom(nums[i + 1], nums[i + 2..], ops[i + 1..]);
    assert TermsFrom(nums[i], nums[i + 1..], ops[i..]) == ([nums[i]] + r.0, [ops[i]] + r.1);
    assert nums[..i + 1] + r.0 == nums[..i] + ([nums[i]] + r.0);
    assert ops[..i + 1] + r.1 == ops[..i] + ([ops[i]] + r.1);
  }

  /** The second loop of `main` (lines 112-115): the remaining operators applied from left
      to right to a running result that starts at the first number. */
  method SecondPass(nums: seq<int>, ops: seq<char>) returns (result: int)
    requires |nums| == |ops| + 1
    ensures result == SumFold(nums, ops)
  {
    result := nums[0];
    var i := 0;
    while i < |ops|
      invariant 0 <= i <= |ops|
      invariant result == SumFold(nums[..i + 1], ops[..i])
    {
      assert nums[..i + 2][..i + 1] == nums[..i + 1] && ops[..i + 1][..i] == ops[..i];
      result := Op(result, nums[i + 1], ops[i]).0;
      i := i + 1;
    }
    assert nums[..|ops| + 1] == nums && ops[..|ops|] == ops;
  }

  // ---------------------------------------------------------------------------
  // The whole program

  datatype Outcome = InvalidExpression | DivisionError | Printed(value: int)

  /** `main` after reading the line: "Error: Invalid Expression" for a line that is not a
      valid expression once its white space is gone, "Error: Division by Zero" when some
      `/` has a zero right operand, and otherwise the precedence value. */
  method Calculate(line: string) returns (r: Outcome)
    ensures r.InvalidExpression? <==> !ValidExpression(Stripped(line))
    ensures ValidExpression(Stripped(line)) ==>
      var (nums, ops) := Tokenize(Stripped(line));
      |nums| == |ops| + 1 &&
      (r.DivisionError? <==> DivisionByZero(nums, ops)) &&
      (r.Printed? ==> r.value == PrecedenceValue(nums, ops))
  {
    var s := RemoveSpaces(line);
    var ok := CheckValidation(s);
    if !ok {
      return InvalidExpression;
    }
    var (nums, ops) := Tokenize(s);
    var nums', ops', err := FirstPass(nums, ops);
    var result := SecondPass(nums', ops');
    if err {
      return DivisionError;
    }
    return Printed(result);
  }
}

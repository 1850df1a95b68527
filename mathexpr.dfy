/** The arithmetic challenge: mathExprPlus, mathExprMinus and mathExpr. */
module MathChallenge {
  import opened Wrappers
  import opened Oracle
  import opened Numerals

  /** What mathExpr returns: the expected answer and the equation shown. */
  datatype Challenge = Challenge(text: string, equation: string)

  /** An equation "a+b" or "a-b" read back into its parts. */
  datatype Equation = Equation(left: int, op: char, right: int)

  function Value(e: Equation): int
  {
    if e.op == '+' then e.left + e.right else e.left - e.right
  }

  /** The first index at or after i holding '+' or '-', or |e| if none does. */
  function OperatorIndex(e: string, i: nat): (k: nat)
    requires i <= |e|
    ensures i <= k <= |e|
    ensures k < |e| ==> e[k] == '+' || e[k] == '-'
    ensures forall j :: i <= j < k ==> e[j] != '+' && e[j] != '-'
    decreases |e| - i
  {
    if i == |e| || e[i] == '+' || e[i] == '-' then i else OperatorIndex(e, i + 1)
  }

  /** Splits an equation at its operator: the first '+' or '-' after the
      first character (the first may be the sign of a negative left operand),
      with a decimal integer on each side. */
  function ParseEquation(e: string): Option<Equation>
  {
    if |e| < 2 then None
    else
      var k := OperatorIndex(e, 1);
      if k == |e| then None
      else match (ParseInt(e[..k], 10), ParseInt(e[k + 1..], 10))
        case (Some(a), Some(b)) => Some(Equation(a, e[k], b))
        case _ => None
  }

  /** Apart from a leading '-', a decimal numeral holds digits only. */
  lemma DecimalHasNoOperator(n: int)
    ensures |ToString(n, 10)| >= 1
    ensures forall j :: 1 <= j < |ToString(n, 10)| ==> IsLowerDigit(ToString(n, 10)[j])
  {
    var s := ToString(n, 10);
    if n < 0 {
      forall j | 1 <= j < |s| ensures IsLowerDigit(s[j]) {
        assert s[j] == Digits(-n, 10)[j - 1];
      }
    }
  }

  /** An equation printed from two integers and an operator reads back as
      those integers and that operator, whatever their signs. */
  lemma EquationRoundTrip(a: int, op: char, b: int)
    requires op == '+' || op == '-'
    ensures ParseEquation(ToString(a, 10) + [op] + ToString(b, 10)) == Some(Equation(a, op, b))
    ensures CanonicalEquation(ToString(a, 10) + [op] + ToString(b, 10))
  {
    var l, r := ToString(a, 10), ToString(b, 10);
    var e := l + [op] + r;
    DecimalHasNoOperator(a);
    DecimalHasNoOperator(b);
    assert e[|l|] == op;
    forall j | 1 <= j < |l| ensures e[j] != '+' && e[j] != '-' {
      assert e[j] == l[j];
    }
    var k := OperatorIndex(e, 1);
    assert k == |l|;
    assert e[..k] == l;
    assert e[k + 1..] == r;
    ParseIntOfToString(a, 10);
    ParseIntOfToString(b, 10);
  }

  /** Both operands of the equation, on either side of its operator, are
      written as toString writes them. */
  predicate CanonicalEquation(e: string)
  {
    |e| >= 2 && OperatorIndex(e, 1) < |e| &&
    Canonical(e[..OperatorIndex(e, 1)], 10) && Canonical(e[OperatorIndex(e, 1) + 1..], 10)
  }

  /** The challenge poses e: its equation reads back as e and its answer
      text as the value of e, all three numbers written as toString writes
      them. */
  predicate Poses(c: Challenge, e: Equation)
  {
    ParseEquation(c.equation) == Some(e) && CanonicalEquation(c.equation) &&
    ParseInt(c.text, 10) == Some(Value(e)) && Canonical(c.text, 10)
  }

  lemma ParseEquationParts(s: string, e: Equation)
    requires ParseEquation(s) == Some(e)
    ensures |s| >= 2 && OperatorIndex(s, 1) < |s|
    ensures var k := OperatorIndex(s, 1);
      ParseInt(s[..k], 10) == Some(e.left) && s[k] == e.op && ParseInt(s[k + 1..], 10) == Some(e.right)
  {
  }

  /** An equation with canonical operands is the one toString prints. */
  lemma CanonicalEquationIsPrinted(s: string, e: Equation)
    requires ParseEquation(s) == Some(e) && CanonicalEquation(s)
    ensures s == ToString(e.left, 10) + [e.op] + ToString(e.right, 10)
  {
    ParseEquationParts(s, e);
    var i := OperatorIndex(s, 1);
    ToStringOfParseInt(s[..i], 10);
    ToStringOfParseInt(s[i + 1..], 10);
    assert s == s[..i] + [s[i]] + s[i + 1..];
  }

  /** An equation with canonical operands is fixed by what it reads back as. */
  lemma EquationUnique(s: string, t: string, e: Equation)
    requires ParseEquation(s) == Some(e) && CanonicalEquation(s)
    requires ParseEquation(t) == Some(e) && CanonicalEquation(t)
    ensures s == t
  {
    CanonicalEquationIsPrinted(s, e);
    CanonicalEquationIsPrinted(t, e);
  }

  /** At most one challenge poses a given equation: the text and the
      equation strings are fixed character for character. */
  lemma PosesUnique(c: Challenge, d: Challenge, e: Equation)
    requires Poses(c, e) && Poses(d, e)
    ensures c == d
  {
    CanonicalUnique(c.text, d.text, 10);
    EquationUnique(c.equation, d.equation, e);
  }

  /** mathExprPlus: the answer is the decimal sum, the equation "a+b". */
  function MathExprPlus(left: int, right: int): (c: Challenge)
    ensures Poses(c, Equation(left, '+', right))
  {
    var c := Challenge(ToString(left + right, 10), ToString(left, 10) + "+" + ToString(right, 10));
    ParseIntOfToString(left + right, 10);
    EquationRoundTrip(left, '+', right);
    assert ParseEquation(c.equation) == Some(Equation(left, '+', right));
    assert Value(Equation(left, '+', right)) == left + right;
    c
  }

  /** mathExprMinus: the answer is the signed decimal difference, possibly
      negative, the equation "a-b". */
  function MathExprMinus(left: int, right: int): (c: Challenge)
    ensures Poses(c, Equation(left, '-', right))
  {
    var c := Challenge(ToString(left - right, 10), ToString(left, 10) + "-" + ToString(right, 10));
    ParseIntOfToString(left - right, 10);
    EquationRoundTrip(left, '-', right);
    assert ParseEquation(c.equation) == Some(Equation(left, '-', right));
    assert Value(Equation(left, '-', right)) == left - right;
    c
  }

  /** The operator mathExpr uses: '+' when none is given (`operator || '+'`)
      or '+' is given, '-' when '-' is given, and otherwise the draw of
      randomInt(1, 3), odd meaning '+'. */
  function ChosenOperator(operator: string, opDraw: int): (op: char)
    ensures op == '+' || op == '-'
  {
    if operator == "" || operator == "+" then '+'
    else if operator == "-" then '-'
    else if opDraw % 2 == 1 then '+'
    else '-'
  }

  /** mathExpr(min, max, operator). The operands are the draws of
      randomInt(min, max + 1) after the defaults min || 1 and max || 9; an
      operator other than '+' or '-' is resolved by the draw of
      randomInt(1, 3), odd meaning '+'. The empty string stands for an
      unset operator, which `operator || '+'` makes '+'. */
  function MathExpr(min: int, max: int, operator: string, leftDraw: int, rightDraw: int, opDraw: int): (r: Result<Challenge>)
    requires OrDefault(min, 1) <= OrDefault(max, 9) ==>
      OrDefault(min, 1) <= leftDraw <= OrDefault(max, 9) && OrDefault(min, 1) <= rightDraw <= OrDefault(max, 9)
    requires 1 <= opDraw < 3
    ensures r.Err? <==> OrDefault(max, 9) < OrDefault(min, 1)
    ensures r.Err? ==> r.error == OutOfRange
    ensures r.Ok? ==>
      OrDefault(min, 1) <= leftDraw <= OrDefault(max, 9) && OrDefault(min, 1) <= rightDraw <= OrDefault(max, 9)
    ensures r.Ok? ==> Poses(r.value, Equation(leftDraw, ChosenOperator(operator, opDraw), rightDraw))
  {
    var lo := OrDefault(min, 1);
    var hi := OrDefault(max, 9) + 1;
    var left := RandomInt(lo, hi, leftDraw);
    var right := RandomInt(lo, hi, rightDraw);
    // The second draw has the range of the first, so it throws only when the first does.
    if left.Err? || right.Err? then Err(OutOfRange)
    else
      assert left.value == leftDraw && right.value == rightDraw;
      // Only an operator other than '+' and '-' consults the draw of randomInt(1, 3).
      var op := ChosenOperator(operator, RandomInt(1, 3, opDraw).value);
      if op == '+' then Ok(MathExprPlus(left.value, right.value))
      else Ok(MathExprMinus(left.value, right.value))
  }

  /** mathExpr(1, 9, '+') with the operands drawn as 3 and 5. */
  lemma MathExprThreePlusFive()
    ensures MathExpr(1, 9, "+", 3, 5, 1) == Ok(Challenge("8", "3+5"))
  {
    assert ToString(8, 10) == "8";
    assert ToString(3, 10) == "3";
    assert ToString(5, 10) == "5";
    assert "3" + "+" + "5" == "3+5";
    assert MathExprPlus(3, 5) == Challenge("8", "3+5");
  }
}

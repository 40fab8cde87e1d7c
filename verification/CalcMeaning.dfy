// What the characters of a line mean: the exact value of every kind of tree, said by the
// characters it prints and by arithmetic alone (kernel/src/calc.c:248-509).
module CalcMeaning {
  import opened Common
  import opened CalcArith
  import opened CalcSyntax
  import opened CalcValue
  import opened CalcVars
  import opened CalcRoundTrip
  import opened CalcEval
  import opened Calc

  /** The characters names and numbers are made of. */
  lemma Characters(c: char)
    ensures IsLetter(c) <==> c in "ABCDEFGHIJKLMNOPQRSTUVWXYZ"
    ensures IsDigit(c) <==> c in "0123456789"
  {
    var letters, digits := "ABCDEFGHIJKLMNOPQRSTUVWXYZ", "0123456789";
    assert forall k :: 0 <= k < 26 ==> letters[k] as int == 'A' as int + k;
    assert forall k :: 0 <= k < 10 ==> digits[k] as int == '0' as int + k;
    if IsLetter(c) { assert letters[c as int - 'A' as int] == c; }
    if IsDigit(c) { assert digits[c as int - '0' as int] == c; }
  }

  lemma {:induction false} SpacesAre(n: nat)
    ensures Spaces(n) == seq(n, _ => ' ')
  {
    if n > 0 { SpacesAre(n - 1); }
  }

  /** Digits count by tens from the right. */
  lemma {:induction false} DigitsMean(c: char, rest: string)
    requires IsDigit(c) && forall k :: 0 <= k < |rest| ==> IsDigit(rest[k])
    ensures forall k :: 0 <= k < |[c] + rest| ==> IsDigit(([c] + rest)[k])
    ensures DigitsValue([c] + rest) == (c as int - '0' as int) * Pow(10, |rest|) + DigitsValue(rest)
    decreases |rest|
  {
    var all := [c] + rest;
    if rest == [] {
      assert all[..|all| - 1] == [] && DigitsValue(all) == DigitsValue([]) * 10 + (c as int - '0' as int);
    } else {
      var front := rest[..|rest| - 1];
      DigitsMean(c, front);
      assert all[..|all| - 1] == [c] + front && all[|all| - 1] == rest[|rest| - 1];
      assert Pow(10, |rest|) == Pow(10, |front|) * 10;
      Tens(c as int - '0' as int, Pow(10, |front|));
    }
  }

  lemma Tens(d: int, p: int)
    ensures d * p * 10 == d * (p * 10)
  {
  }

  /** A sign before an operand: a minus negates it. */
  lemma SignMeans(minus: bool, gap: nat, arg: Unary, env: Env)
    requires UnaryOk(arg)
    ensures var u, v := Signed(minus, gap, arg), ExactUnary(arg, env);
            && PrintUnary(u) == [if minus then '-' else '+'] + Spaces(gap) + PrintUnary(arg)
            && ExactUnary(u, env) == if v.None? then None
                                     else Some(if PrintUnary(u)[0] == '-' then 0 - v.value else v.value)
  {
  }

  /** A power multiplies the base so many times, and none at all gives 1. */
  lemma PowerMeans(base: Primary, gap: nat, exponent: Unary, env: Env)
    requires PrimaryOk(base) && UnaryOk(exponent)
    ensures var u := Raised(base, gap, exponent);
            var b, n := ExactPrimary(base, env), ExactUnary(exponent, env);
            && PrintUnary(u) == PrintPrimary(base) + ['^'] + Spaces(gap) + PrintUnary(exponent)
            && (b.None? || n.None? ==> ExactUnary(u, env) == None)
            && (b.Some? && n.Some? && n.value < 0 ==> ExactUnary(u, env) == None)
            && (b.Some? && n.Some? && n.value >= 0 ==> ExactUnary(u, env) == Some(ProductOfAll(seq(n.value, _ => b.value))))
  {
    var b, n := ExactPrimary(base, env), ExactUnary(exponent, env);
    if b.Some? && n.Some? && n.value >= 0 { PowIsProduct(b.value, n.value); }
  }

  function ProductOfAll(s: seq<int>): int { if s == [] then 1 else s[0] * ProductOfAll(s[1..]) }

  lemma {:induction false} PowIsProduct(base: int, n: nat)
    ensures Pow(base, n) == ProductOfAll(seq(n, _ => base))
  {
    if n > 0 {
      PowIsProduct(base, n - 1);
      assert seq(n, _ => base)[1..] == seq(n - 1, _ => base);
    }
  }

  /** A star multiplies. */
  lemma TimesMeans(left: Term, gap: nat, right: Unary, env: Env)
    requires TermOk(left) && UnaryOk(right)
    ensures var l, r, v := ExactTerm(left, env), ExactUnary(right, env), ExactTerm(Product(left, true, gap, right), env);
            && PrintTerm(Product(left, true, gap, right)) == PrintTerm(left) + ['*'] + Spaces(gap) + PrintUnary(right)
            && v == if l.None? || r.None? then None else Some(l.value * r.value)
  {
  }

  /** A slash divides, and drops what is left over, which is smaller than the divisor and has
      the sign of the dividend; by zero there is no value. */
  lemma OverMeans(left: Term, gap: nat, right: Unary, env: Env)
    requires TermOk(left) && UnaryOk(right)
    ensures var l, r, v := ExactTerm(left, env), ExactUnary(right, env), ExactTerm(Product(left, false, gap, right), env);
            && PrintTerm(Product(left, false, gap, right)) == PrintTerm(left) + ['/'] + Spaces(gap) + PrintUnary(right)
            && (v.None? <==> l.None? || r.None? || r.value == 0)
            && (v.Some? ==> LeftOver(l.value, r.value, l.value - r.value * v.value))
  {
    var l, r := ExactTerm(left, env), ExactUnary(right, env);
    if l.Some? && r.Some? && r.value != 0 { QuotientTowardZero(l.value, r.value); }
  }

  predicate LeftOver(dividend: int, divisor: int, over: int) {
    (dividend >= 0 ==> over >= 0) && (dividend <= 0 ==> over <= 0) &&
    (if over >= 0 then over else -over) < (if divisor >= 0 then divisor else -divisor)
  }

  /** A plus adds and a minus takes away. */
  lemma SumMeans(left: Expr, gap: nat, right: Term, env: Env)
    requires ExprOk(left) && TermOk(right)
    ensures PrintExpr(Sum(left, true, gap, right)) == PrintExpr(left) + ['+'] + Spaces(gap) + PrintTerm(right)
    ensures PrintExpr(Sum(left, false, gap, right)) == PrintExpr(left) + ['-'] + Spaces(gap) + PrintTerm(right)
    ensures var l, r := ExactExpr(left, env), ExactTerm(right, env);
            var more, less := ExactExpr(Sum(left, true, gap, right), env), ExactExpr(Sum(left, false, gap, right), env);
            && (more.Some? <==> l.Some? && r.Some?) && (less.Some? <==> l.Some? && r.Some?)
            && (more.Some? ==> more.value - l.value == r.value && l.value - less.value == r.value)
  {
  }

  /** The comparison a symbol asks for: how far apart the two values are. */
  ghost predicate Compares(symbol: string, left: int, right: int) {
    && (symbol == "<" ==> right - left > 0)
    && (symbol == ">" ==> left - right > 0)
    && (symbol == "=" || symbol == "==" ==> left - right == 0)
  }

  /** A conditional is worth the THEN value or the ELSE value by what its symbol says of
      the two sides; all four must have a value. */
  lemma ConditionMeans(s: Statement, env: Env)
    requires StatementOk(s) && s.If?
    ensures Symbol(s.how) in {"<", ">", "=", "=="}
    ensures var l, r := ExactExpr(s.left, env), ExactExpr(s.right, env);
            var yes, no := ExactExpr(s.whenTrue, env), ExactExpr(s.whenFalse, env);
            ExactStatement(s, env) ==
            if l.None? || r.None? || yes.None? || no.None? then None
            else if Compares(Symbol(s.how), l.value, r.value) then yes else no
  {
  }

  /** The text of a conditional, its words and symbol in their places. */
  lemma ConditionPrints(s: Statement)
    requires s.If?
    ensures PrintStatement(s) ==
            "IF" + (Spaces(s.gapIf) + (PrintExpr(s.left) + (Symbol(s.how) + (Spaces(s.gapHow) + (PrintExpr(s.right) +
            ("THEN" + (Spaces(s.gapThen) + (PrintExpr(s.whenTrue) + ("ELSE" + (Spaces(s.gapElse) +
            PrintExpr(s.whenFalse)))))))))))
  {
  }

  /** The answer to the text of a conditional whose values all fit. */
  lemma ConditionAnswer(line: Line, env: Env, env': Env, table: bool, ok: bool, before: int, out: int)
    requires StatementOk(line.statement) && line.statement.If? && EnvOk(env) && StatementFits(line.statement, env)
    requires LineAnswer(Print(line), env, env', table, ok, before, out)
    ensures var s := line.statement;
            var l, r := ExactExpr(s.left, env), ExactExpr(s.right, env);
            var yes, no := ExactExpr(s.whenTrue, env), ExactExpr(s.whenFalse, env);
            && ok && env' == env && l.Some? && r.Some? && yes.Some? && no.Some?
            && out == if Compares(Symbol(s.how), l.value, r.value) then yes.value else no.value
  {
    PrintedAnswer(line, env, env', table, ok, before, out);
    ConditionMeans(line.statement, env);
  }
}

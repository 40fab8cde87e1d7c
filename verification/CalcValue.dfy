// What a line of the calculator is worth (kernel/src/calc.c:246-509).
module CalcValue {
  import opened Common
  import opened CalcArith
  import opened CalcSyntax

  type Env = map<string, int>

  ghost predicate EnvOk(env: Env) { forall n {:trigger env[n]} :: n in env ==> Fits(env[n]) }

  function DigitsValue(digits: string): nat
    requires forall k :: 0 <= k < |digits| ==> IsDigit(digits[k])
  {
    if digits == "" then 0
    else
      var last := digits[|digits| - 1];
      assert IsDigit(last);
      DigitsValue(digits[..|digits| - 1]) * 10 + (last as int - '0' as int)
  }

  // ----- in 64 bits, refusing what does not fit

  function PrimaryValue(p: Primary, env: Env): Option<int>
    requires PrimaryOk(p)
  {
    match p
    case Name(name, _) => if name in env then Some(env[name]) else None
    case Number(digits, _) => Checked(DigitsValue(digits))
  }

  function UnaryValue(u: Unary, env: Env): Option<int>
    requires UnaryOk(u)
  {
    match u
    case Signed(minus, _, arg) =>
      var v := UnaryValue(arg, env);
      if v.None? then None else if minus then Checked(-v.value) else v
    case Plain(p) => PrimaryValue(p, env)
    case Raised(base, _, exponent) =>
      var b, e := PrimaryValue(base, env), UnaryValue(exponent, env);
      if b.None? || e.None? || e.value < 0 then None else Checked(Pow(b.value, e.value))
  }

  function TermValue(t: Term, env: Env): Option<int>
    requires TermOk(t)
  {
    match t
    case One(u) => UnaryValue(u, env)
    case Product(left, times, _, right) =>
      var l, r := TermValue(left, env), UnaryValue(right, env);
      if l.None? || r.None? then None
      else if times then Checked(l.value * r.value)
      else if r.value == 0 then None
      else Checked(Quotient(l.value, r.value))
  }

  function ExprValue(e: Expr, env: Env): Option<int>
    requires ExprOk(e)
  {
    match e
    case Just(t) => TermValue(t, env)
    case Sum(left, plus, _, right) =>
      var l, r := ExprValue(left, env), TermValue(right, env);
      if l.None? || r.None? then None else Checked(if plus then l.value + r.value else l.value - r.value)
  }

  predicate Holds(how: Comparison, left: int, right: int) {
    match how
    case Equal => left == right
    case DoubleEqual => left == right
    case Less => left < right
    case Greater => left > right
  }

  function StatementValue(s: Statement, env: Env): Option<int>
    requires StatementOk(s)
  {
    match s
    case Assign(_, _, _, value) => ExprValue(value, env)
    case Value(value) => ExprValue(value, env)
    case If(_, left, how, _, right, _, whenTrue, _, whenFalse) =>
      var l, r := ExprValue(left, env), ExprValue(right, env);
      var yes, no := ExprValue(whenTrue, env), ExprValue(whenFalse, env);
      if l.None? || r.None? || yes.None? || no.None? then None
      else if Holds(how, l.value, r.value) then yes else no
  }

  // ----- over the integers

  /** The exact value, when it has one: every name known, no division by zero, no
      negative power. */
  function ExactPrimary(p: Primary, env: Env): Option<int>
    requires PrimaryOk(p)
  {
    match p
    case Name(name, _) => if name in env then Some(env[name]) else None
    case Number(digits, _) => Some(DigitsValue(digits))
  }

  function ExactUnary(u: Unary, env: Env): Option<int>
    requires UnaryOk(u)
  {
    match u
    case Signed(minus, _, arg) =>
      var v := ExactUnary(arg, env);
      if v.None? then None else Some(if minus then -v.value else v.value)
    case Plain(p) => ExactPrimary(p, env)
    case Raised(base, _, exponent) =>
      var b, e := ExactPrimary(base, env), ExactUnary(exponent, env);
      if b.None? || e.None? || e.value < 0 then None else Some(Pow(b.value, e.value))
  }

  function ExactTerm(t: Term, env: Env): Option<int>
    requires TermOk(t)
  {
    match t
    case One(u) => ExactUnary(u, env)
    case Product(left, times, _, right) =>
      var l, r := ExactTerm(left, env), ExactUnary(right, env);
      if l.None? || r.None? || (!times && r.value == 0) then None
      else Some(if times then l.value * r.value else Quotient(l.value, r.value))
  }

  function ExactExpr(e: Expr, env: Env): Option<int>
    requires ExprOk(e)
  {
    match e
    case Just(t) => ExactTerm(t, env)
    case Sum(left, plus, _, right) =>
      var l, r := ExactExpr(left, env), ExactTerm(right, env);
      if l.None? || r.None? then None else Some(if plus then l.value + r.value else l.value - r.value)
  }

  predicate Small(v: Option<int>) { v.Some? && Fits(v.value) }

  /** Every intermediate value fits. */
  predicate UnaryFits(u: Unary, env: Env)
    requires UnaryOk(u)
  {
    && Small(ExactUnary(u, env))
    && match u
       case Signed(_, _, arg) => UnaryFits(arg, env)
       case Plain(_) => true
       case Raised(base, _, exponent) => Small(ExactPrimary(base, env)) && UnaryFits(exponent, env)
  }

  predicate TermFits(t: Term, env: Env)
    requires TermOk(t)
  {
    && Small(ExactTerm(t, env))
    && match t
       case One(u) => UnaryFits(u, env)
       case Product(left, _, _, right) => TermFits(left, env) && UnaryFits(right, env)
  }

  predicate ExprFits(e: Expr, env: Env)
    requires ExprOk(e)
  {
    && Small(ExactExpr(e, env))
    && match e
       case Just(t) => TermFits(t, env)
       case Sum(left, _, _, right) => ExprFits(left, env) && TermFits(right, env)
  }

  /** The 64-bit value is the exact value, and there is one exactly when every
      intermediate value fits. */
  lemma {:induction false} UnaryExact(u: Unary, env: Env)
    requires UnaryOk(u) && EnvOk(env)
    ensures UnaryValue(u, env) == if UnaryFits(u, env) then ExactUnary(u, env) else None
    decreases u
  {
    match u
    case Signed(_, _, arg) => UnaryExact(arg, env);
    case Plain(p) =>
    case Raised(base, _, exponent) => UnaryExact(exponent, env);
  }

  lemma {:induction false} TermExact(t: Term, env: Env)
    requires TermOk(t) && EnvOk(env)
    ensures TermValue(t, env) == if TermFits(t, env) then ExactTerm(t, env) else None
    decreases t
  {
    match t
    case One(u) => UnaryExact(u, env);
    case Product(left, _, _, right) =>
      TermExact(left, env);
      UnaryExact(right, env);
  }

  lemma {:induction false} ExprExact(e: Expr, env: Env)
    requires ExprOk(e) && EnvOk(env)
    ensures ExprValue(e, env) == if ExprFits(e, env) then ExactExpr(e, env) else None
    decreases e
  {
    match e
    case Just(t) => TermExact(t, env);
    case Sum(left, _, _, right) =>
      ExprExact(left, env);
      TermExact(right, env);
  }

  /** The exact value of a line: both branches of a conditional must have one. */
  function ExactStatement(s: Statement, env: Env): Option<int>
    requires StatementOk(s)
  {
    match s
    case Assign(_, _, _, value) => ExactExpr(value, env)
    case Value(value) => ExactExpr(value, env)
    case If(_, left, how, _, right, _, whenTrue, _, whenFalse) =>
      var l, r := ExactExpr(left, env), ExactExpr(right, env);
      var yes, no := ExactExpr(whenTrue, env), ExactExpr(whenFalse, env);
      if l.None? || r.None? || yes.None? || no.None? then None
      else if Holds(how, l.value, r.value) then yes else no
  }

  predicate StatementFits(s: Statement, env: Env)
    requires StatementOk(s)
  {
    match s
    case Assign(_, _, _, value) => ExprFits(value, env)
    case Value(value) => ExprFits(value, env)
    case If(_, left, _, _, right, _, whenTrue, _, whenFalse) =>
      ExprFits(left, env) && ExprFits(right, env) && ExprFits(whenTrue, env) && ExprFits(whenFalse, env)
  }

  lemma StatementExact(s: Statement, env: Env)
    requires StatementOk(s) && EnvOk(env)
    ensures StatementValue(s, env) == if StatementFits(s, env) then ExactStatement(s, env) else None
    ensures StatementFits(s, env) ==> ExactStatement(s, env).Some?
  {
    match s
    case Assign(_, _, _, value) => ExprExact(value, env);
    case Value(value) => ExprExact(value, env);
    case If(_, left, _, _, right, _, whenTrue, _, whenFalse) =>
      ExprExact(left, env);
      ExprExact(right, env);
      ExprExact(whenTrue, env);
      ExprExact(whenFalse, env);
  }
}

// Working a line out as it is read, without building a tree, and the agreement
// with the value of the tree (kernel/src/calc.c:248-509).
module CalcEval {
  import opened Common
  import opened CalcArith
  import opened CalcSyntax
  import opened CalcValue
  import opened CalcRoundTrip

  /** What a parsing function leaves: nothing, or a value and the text after it. */
  datatype Outcome = Refused | Answer(value: int, rest: string)

  function Worth(v: Option<int>, rest: string): Outcome { if v.None? then Refused else Answer(v.value, rest) }

  /** The digits from here and the text right after them. */
  function EvalDigits(s: string): Outcome { Worth(Checked(DigitsValue(s[..DigitRun(s)])), s[DigitRun(s)..]) }

  function EvalNumber(s: string): Outcome {
    if s != "" && IsDigit(s[0]) then
      match EvalDigits(s)
      case Refused => Refused
      case Answer(v, rest) => Answer(v, Trim(rest))
    else Refused
  }

  function EvalPrimary(s: string, env: Env): (r: Outcome)
    ensures r.Answer? ==> |r.rest| < |s|
  {
    var n := ReadName(s);
    if n.Some? then
      if s[..n.value] in env then Answer(env[s[..n.value]], Trim(s[n.value..])) else Refused
    else EvalNumber(s)
  }

  function Negated(minus: bool, v: int): Option<int> { if minus then Checked(-v) else Some(v) }

  function PowerOf(base: int, exponent: int): Option<int> {
    if exponent < 0 then None else Checked(Pow(base, exponent))
  }

  function EvalUnary(s: string, env: Env): (r: Outcome)
    ensures r.Answer? ==> |r.rest| < |s|
    decreases |s|
  {
    if s != "" && IsSign(s[0]) then
      match EvalUnary(Trim(s[1..]), env)
      case Refused => Refused
      case Answer(v, rest) => Worth(Negated(s[0] == '-', v), rest)
    else
      match EvalPrimary(s, env)
      case Refused => Refused
      case Answer(base, rest) =>
        if rest != "" && rest[0] == '^' then
          match EvalUnary(Trim(rest[1..]), env)
          case Refused => Refused
          case Answer(exponent, after) => Worth(PowerOf(base, exponent), after)
        else Answer(base, rest)
  }

  function ProductOf(times: bool, left: int, right: int): Option<int> {
    if times then Checked(left * right) else if right == 0 then None else Checked(Quotient(left, right))
  }

  function EvalTermRest(left: int, s: string, env: Env): (r: Outcome)
    ensures r.Answer? ==> |r.rest| <= |s|
    decreases |s|
  {
    if s != "" && (s[0] == '*' || s[0] == '/') then
      match EvalUnary(Trim(s[1..]), env)
      case Refused => Refused
      case Answer(right, rest) =>
        var v := ProductOf(s[0] == '*', left, right);
        if v.None? then Refused else EvalTermRest(v.value, rest, env)
    else Answer(left, s)
  }

  function EvalTerm(s: string, env: Env): (r: Outcome)
    ensures r.Answer? ==> |r.rest| < |s|
  {
    match EvalUnary(s, env)
    case Refused => Refused
    case Answer(v, rest) => EvalTermRest(v, rest, env)
  }

  function SumOf(plus: bool, left: int, right: int): Option<int> {
    Checked(if plus then left + right else left - right)
  }

  function EvalExprRest(left: int, s: string, env: Env): (r: Outcome)
    ensures r.Answer? ==> |r.rest| <= |s|
    decreases |s|
  {
    if s != "" && IsSign(s[0]) then
      match EvalTerm(Trim(s[1..]), env)
      case Refused => Refused
      case Answer(right, rest) =>
        var v := SumOf(s[0] == '+', left, right);
        if v.None? then Refused else EvalExprRest(v.value, rest, env)
    else Answer(left, s)
  }

  function EvalExpr(s: string, env: Env): (r: Outcome)
    ensures r.Answer? ==> |r.rest| < |s|
  {
    match EvalTerm(s, env)
    case Refused => Refused
    case Answer(v, rest) => EvalExprRest(v, rest, env)
  }

  /** A line worked out: its value, what is left, and the name it assigns to. */
  datatype LineOutcome = NoLine | LineValue(value: int, rest: string, assign: string)

  datatype Choice = NoChoice | Choice(yes: int, no: int, rest: string)

  function EvalBranches(s: string, env: Env): Choice {
    if !WordNext(s, THEN_WORD) then NoChoice
    else
      match EvalExpr(Trim(s[|THEN_WORD|..]), env)
      case Refused => NoChoice
      case Answer(yes, after) =>
        if !WordNext(after, ELSE_WORD) then NoChoice
        else
          match EvalExpr(Trim(after[|ELSE_WORD|..]), env)
          case Refused => NoChoice
          case Answer(no, rest) => Choice(yes, no, rest)
  }

  datatype Test = NoTest | Test(holds: bool, rest: string)

  function EvalCondition(s: string, env: Env): Test {
    match EvalExpr(s, env)
    case Refused => NoTest
    case Answer(left, after) =>
      match ParseComparison(after)
      case None => NoTest
      case Some(how) =>
        match EvalExpr(Trim(how.rest), env)
        case Refused => NoTest
        case Answer(right, rest) => Test(Holds(how.tree, left, right), rest)
  }

  function EvalIf(s: string, env: Env): LineOutcome {
    match EvalCondition(Trim(s), env)
    case NoTest => NoLine
    case Test(holds, after) =>
      match EvalBranches(after, env)
      case NoChoice => NoLine
      case Choice(yes, no, rest) => LineValue(if holds then yes else no, rest, "")
  }

  function EvalStatement(s: string, env: Env): LineOutcome {
    if AssignNext(s) then
      var n := ReadName(s).value;
      match EvalExpr(Trim(Trim(s[n..])[1..]), env)
      case Refused => NoLine
      case Answer(v, rest) => LineValue(v, rest, s[..n])
    else if !WordNext(s, IF_WORD) then
      match EvalExpr(s, env)
      case Refused => NoLine
      case Answer(v, rest) => LineValue(v, rest, "")
    else EvalIf(s[|IF_WORD|..], env)
  }

  // ----- agreement with the tree

  lemma PrimaryAgrees(s: string, env: Env)
    ensures match ParsePrimary(s)
            case None => EvalPrimary(s, env) == Refused
            case Some(p) => PrimaryOk(p.tree) && EvalPrimary(s, env) == Worth(PrimaryValue(p.tree, env), p.rest)
  {
    if ParsePrimary(s).Some? { PrimaryRead(s); }
  }

  ghost predicate UnaryMatches(s: string, env: Env) {
    match ParseUnary(s)
    case None => EvalUnary(s, env) == Refused
    case Some(p) => UnaryOk(p.tree) && EvalUnary(s, env) == Worth(UnaryValue(p.tree, env), p.rest)
  }

  lemma SignedMatches(s: string, env: Env)
    requires s != "" && IsSign(s[0]) && UnaryMatches(Trim(s[1..]), env)
    ensures UnaryMatches(s, env)
  {
    var inner := Trim(s[1..]);
    if ParseUnary(inner).Some? {
      var p := ParseUnary(inner).value;
      assert ParseUnary(s) == Some(Parsed(Signed(s[0] == '-', Gap(s[1..]), p.tree), p.rest));
    }
  }

  lemma RaisedMatches(s: string, env: Env, b: Parsed<Primary>)
    requires !(s != "" && IsSign(s[0])) && ParsePrimary(s) == Some(b)
    requires b.rest != "" && b.rest[0] == '^' && UnaryMatches(Trim(b.rest[1..]), env)
    ensures UnaryMatches(s, env)
  {
    PrimaryAgrees(s, env);
    var inner := Trim(b.rest[1..]);
    if ParseUnary(inner).Some? {
      var e := ParseUnary(inner).value;
      assert ParseUnary(s) == Some(Parsed(Raised(b.tree, Gap(b.rest[1..]), e.tree), e.rest));
    }
  }

  lemma {:induction false} UnaryAgrees(s: string, env: Env)
    ensures UnaryMatches(s, env)
    decreases |s|
  {
    if s != "" && IsSign(s[0]) {
      UnaryAgrees(Trim(s[1..]), env);
      SignedMatches(s, env);
      return;
    }
    PrimaryAgrees(s, env);
    if ParsePrimary(s).Some? {
      var b := ParsePrimary(s).value;
      if b.rest != "" && b.rest[0] == '^' {
        UnaryAgrees(Trim(b.rest[1..]), env);
        RaisedMatches(s, env, b);
      }
    }
  }

  lemma {:induction false} TermRestAgrees(left: Term, s: string, env: Env)
    requires TermOk(left)
    ensures match TermRest(left, s)
            case None => TermValue(left, env).Some? ==> EvalTermRest(TermValue(left, env).value, s, env) == Refused
            case Some(p) =>
              && TermOk(p.tree)
              && Worth(TermValue(p.tree, env), p.rest) ==
                 if TermValue(left, env).None? then Refused else EvalTermRest(TermValue(left, env).value, s, env)
    decreases |s|
  {
    if s != "" && (s[0] == '*' || s[0] == '/') {
      UnaryAgrees(Trim(s[1..]), env);
      if ParseUnary(Trim(s[1..])).Some? {
        var p := ParseUnary(Trim(s[1..])).value;
        TermRestAgrees(Product(left, s[0] == '*', Gap(s[1..]), p.tree), p.rest, env);
      }
    }
  }

  lemma TermAgrees(s: string, env: Env)
    ensures match ParseTerm(s)
            case None => EvalTerm(s, env) == Refused
            case Some(p) => TermOk(p.tree) && EvalTerm(s, env) == Worth(TermValue(p.tree, env), p.rest)
  {
    UnaryAgrees(s, env);
    if ParseUnary(s).Some? {
      var p := ParseUnary(s).value;
      TermRestAgrees(One(p.tree), p.rest, env);
    }
  }

  ghost predicate RestOk(left: Expr, s: string) { ExprRest(left, s).Some? ==> ExprOk(ExprRest(left, s).value.tree) }

  /** What the trees the loop makes are worth. */
  ghost function RestWorth(left: Expr, s: string, env: Env): Outcome
    requires RestOk(left, s)
  {
    match ExprRest(left, s)
    case None => Refused
    case Some(p) => Worth(ExprValue(p.tree, env), p.rest)
  }

  /** What the loop works out. */
  ghost function Going(left: Option<int>, s: string, env: Env): Outcome {
    if left.None? then Refused else EvalExprRest(left.value, s, env)
  }

  lemma GoingStep(left: Option<int>, s: string, env: Env, right: Option<int>, rest: string)
    requires s != "" && IsSign(s[0]) && EvalTerm(Trim(s[1..]), env) == Worth(right, rest)
    ensures Going(left, s, env) ==
            Going(if left.None? || right.None? then None else SumOf(s[0] == '+', left.value, right.value), rest, env)
  {
  }

  lemma GoingStuck(left: Option<int>, s: string, env: Env)
    requires s != "" && IsSign(s[0]) && EvalTerm(Trim(s[1..]), env) == Refused
    ensures Going(left, s, env) == Refused
  {
  }

  lemma RestUnfolds(left: Expr, s: string)
    requires s != "" && IsSign(s[0])
    ensures match ParseTerm(Trim(s[1..]))
            case None => ExprRest(left, s) == None
            case Some(p) => ExprRest(left, s) == ExprRest(Sum(left, s[0] == '+', Gap(s[1..]), p.tree), p.rest)
  {
  }

  lemma SumWorth(left: Expr, plus: bool, gap: nat, right: Term, env: Env)
    requires ExprOk(left) && TermOk(right)
    ensures ExprValue(Sum(left, plus, gap, right), env) ==
            if ExprValue(left, env).None? || TermValue(right, env).None? then None
            else SumOf(plus, ExprValue(left, env).value, TermValue(right, env).value)
  {
  }

  lemma {:induction false} ExprRestAgrees(left: Expr, s: string, env: Env)
    requires ExprOk(left)
    ensures RestOk(left, s) && RestWorth(left, s, env) == Going(ExprValue(left, env), s, env)
    decreases |s|
  {
    if s != "" && IsSign(s[0]) {
      TermAgrees(Trim(s[1..]), env);
      RestUnfolds(left, s);
      match ParseTerm(Trim(s[1..]))
      case None => GoingStuck(ExprValue(left, env), s, env);
      case Some(p) =>
        var next := Sum(left, s[0] == '+', Gap(s[1..]), p.tree);
        ExprRestAgrees(next, p.rest, env);
        GoingStep(ExprValue(left, env), s, env, TermValue(p.tree, env), p.rest);
        SumWorth(left, s[0] == '+', Gap(s[1..]), p.tree, env);
    }
  }

  lemma ExprAgrees(s: string, env: Env)
    ensures match ParseExpr(s)
            case None => EvalExpr(s, env) == Refused
            case Some(p) => ExprOk(p.tree) && EvalExpr(s, env) == Worth(ExprValue(p.tree, env), p.rest)
  {
    TermAgrees(s, env);
    if ParseTerm(s).Some? {
      var p := ParseTerm(s).value;
      ExprRestAgrees(Just(p.tree), p.rest, env);
    }
  }

  function Assigned(s: Statement): string { if s.Assign? then s.name else "" }

  ghost function LineWorth(p: Parsed<Statement>, env: Env): LineOutcome
    requires StatementOk(p.tree)
  {
    var v := StatementValue(p.tree, env);
    if v.None? then NoLine else LineValue(v.value, p.rest, Assigned(p.tree))
  }

  ghost function BranchesWorth(p: Parsed<Branches>, env: Env): Choice
    requires ExprOk(p.tree.whenTrue) && ExprOk(p.tree.whenFalse)
  {
    var yes, no := ExprValue(p.tree.whenTrue, env), ExprValue(p.tree.whenFalse, env);
    if yes.None? || no.None? then NoChoice else Choice(yes.value, no.value, p.rest)
  }

  lemma BranchesAgree(s: string, env: Env)
    ensures match ParseBranches(s)
            case None => EvalBranches(s, env) == NoChoice
            case Some(p) =>
              && ExprOk(p.tree.whenTrue) && ExprOk(p.tree.whenFalse)
              && EvalBranches(s, env) == BranchesWorth(p, env)
  {
    if !WordNext(s, THEN_WORD) { return; }
    ExprAgrees(Trim(s[|THEN_WORD|..]), env);
    if ParseExpr(Trim(s[|THEN_WORD|..])).None? { return; }
    var yes := ParseExpr(Trim(s[|THEN_WORD|..])).value;
    if !WordNext(yes.rest, ELSE_WORD) { return; }
    ExprAgrees(Trim(yes.rest[|ELSE_WORD|..]), env);
  }

  ghost function ConditionWorth(p: Parsed<Condition>, env: Env): Test
    requires ExprOk(p.tree.left) && ExprOk(p.tree.right)
  {
    var l, r := ExprValue(p.tree.left, env), ExprValue(p.tree.right, env);
    if l.None? || r.None? then NoTest else Test(Holds(p.tree.how, l.value, r.value), p.rest)
  }

  lemma ConditionAgrees(s: string, env: Env)
    ensures match ParseCondition(s)
            case None => EvalCondition(Trim(s), env) == NoTest
            case Some(p) =>
              ExprOk(p.tree.left) && ExprOk(p.tree.right) && EvalCondition(Trim(s), env) == ConditionWorth(p, env)
  {
    ExprAgrees(Trim(s), env);
    if ParseExpr(Trim(s)).None? { return; }
    var left := ParseExpr(Trim(s)).value;
    if ParseComparison(left.rest).None? { return; }
    ExprAgrees(Trim(ParseComparison(left.rest).value.rest), env);
  }

  lemma IfAgrees(s: string, env: Env)
    requires ParseIf(s).Some? ==> StatementOk(ParseIf(s).value.tree)
    ensures EvalIf(s, env) == if ParseIf(s).None? then NoLine else LineWorth(ParseIf(s).value, env)
  {
    ConditionAgrees(s, env);
    match ParseCondition(s)
    case None =>
    case Some(c) =>
      BranchesAgree(c.rest, env);
      match ParseBranches(c.rest)
      case None =>
      case Some(b) => IfWorth(c, b, env);
  }

  lemma IfWorth(c: Parsed<Condition>, b: Parsed<Branches>, env: Env)
    requires StatementOk(IfOf(c.tree, b.tree))
    ensures LineWorth(Parsed(IfOf(c.tree, b.tree), b.rest), env) ==
            match ConditionWorth(c, env)
            case NoTest => NoLine
            case Test(holds, _) =>
              match BranchesWorth(b, env)
              case NoChoice => NoLine
              case Choice(yes, no, rest) => LineValue(if holds then yes else no, rest, "")
  {
  }

  lemma AssignAgrees(s: string, env: Env)
    requires AssignNext(s) && (ParseStatement(s).Some? ==> StatementOk(ParseStatement(s).value.tree))
    ensures EvalStatement(s, env) == if ParseStatement(s).None? then NoLine else LineWorth(ParseStatement(s).value, env)
  {
    ExprAgrees(Trim(Trim(s[ReadName(s).value..])[1..]), env);
  }

  lemma StatementAgrees(s: string, env: Env)
    ensures ParseStatement(s).Some? ==> StatementOk(ParseStatement(s).value.tree)
    ensures EvalStatement(s, env) == if ParseStatement(s).None? then NoLine else LineWorth(ParseStatement(s).value, env)
  {
    if ParseStatement(s).Some? { StatementRead(s); }
    if AssignNext(s) {
      AssignAgrees(s, env);
    } else if WordNext(s, IF_WORD) {
      IfAgrees(s[|IF_WORD|..], env);
    } else {
      ExprAgrees(s, env);
    }
  }

  // ----- what a parsing method must leave

  /** It leaves what the outcome says. */
  ghost predicate Gives(o: Outcome, ok: bool, v: int, after: string) {
    if o.Answer? then ok && v == o.value && Fits(v) && after == o.rest else !ok
  }

  datatype Rule = PrimaryRule | UnaryRule | TermRule | ExprRule

  ghost function Eval(rule: Rule, s: string, env: Env): Outcome {
    match rule
    case PrimaryRule => EvalPrimary(s, env)
    case UnaryRule => EvalUnary(s, env)
    case TermRule => EvalTerm(s, env)
    case ExprRule => EvalExpr(s, env)
  }

  ghost predicate Is(o: Outcome, rule: Rule, s: string, env: Env) { o == Eval(rule, s, env) }

  ghost predicate Yields(rule: Rule, s: string, env: Env, ok: bool, v: int, after: string) {
    forall o {:trigger Is(o, rule, s, env)} :: Is(o, rule, s, env) ==> Gives(o, ok, v, after)
  }

  lemma Opened(rule: Rule, s: string, env: Env, ok: bool, v: int, after: string)
    requires Yields(rule, s, env, ok, v, after)
    ensures Gives(Eval(rule, s, env), ok, v, after)
  {
    assert Is(Eval(rule, s, env), rule, s, env);
  }

  /** One checked operation on an answer. */
  ghost predicate Becomes(r: Option<int>, ok: bool, v: int) { if r.Some? then ok && v == r.value && Fits(v) else !ok }

  ghost predicate IsName(n: Option<nat>, s: string) { n == ReadName(s) }

  /** A name and the text after it; or none. */
  ghost predicate NameTaken(s: string, found: bool, name: string, after: string) {
    forall n: Option<nat> {:trigger IsName(n, s)} :: IsName(n, s) ==>
      if n.Some? then found && n.value <= |s| && name == s[..n.value] && after == Trim(s[n.value..]) else !found
  }

  lemma NameOpened(s: string, found: bool, name: string, after: string)
    requires NameTaken(s, found, name, after)
    ensures found <==> ReadName(s).Some?
    ensures found ==> name == s[..ReadName(s).value] && after == Trim(s[ReadName(s).value..])
  {
    assert IsName(ReadName(s), s);
  }

  ghost predicate IsRun(n: nat, s: string) { n == NameRun(s) }

  /** The characters of a name and the text right after them, unless there are
      too many. */
  ghost predicate CharsTaken(s: string, fits: bool, name: string, raw: string) {
    forall n: nat {:trigger IsRun(n, s)} :: IsRun(n, s) ==>
      (fits <==> n <= VARS_MAX_NAME) && (fits ==> n <= |s| && name == s[..n] && raw == s[n..])
  }

  lemma CharsAre(s: string, fits: bool, name: string, raw: string)
    requires (fits <==> NameRun(s) <= VARS_MAX_NAME) && (fits ==> name == s[..NameRun(s)] && raw == s[NameRun(s)..])
    ensures CharsTaken(s, fits, name, raw)
  {
  }

  /** The characters of a name, when they fit and are no keyword, are a name. */
  lemma NameIs(s: string, fits: bool, name: string, raw: string)
    requires s != "" && IsLetter(s[0]) && CharsTaken(s, fits, name, raw)
    ensures if !fits || IsKeyword(name) then NameTaken(s, false, "", s) else NameTaken(s, true, name, Trim(raw))
  {
    assert IsRun(NameRun(s), s);
  }

  lemma NoLetter(s: string)
    requires s == "" || !IsLetter(s[0])
    ensures NameTaken(s, false, "", s)
  {
  }

  lemma PrimaryNamed(s: string, env: Env, name: string, after: string, ok: bool, v: int)
    requires NameTaken(s, true, name, after)
    requires (ok <==> name in env) && (ok ==> v == env[name] && Fits(v))
    ensures Yields(PrimaryRule, s, env, ok, v, after)
  {
    NameOpened(s, true, name, after);
  }

  lemma NameNotTaken(s: string, name: string, after: string)
    requires NameTaken(s, false, name, after)
    ensures ReadName(s).None?
  {
    NameOpened(s, false, name, after);
  }

  ghost predicate IsAssign(b: bool, s: string) { b == AssignNext(s) }

  /** An assignment begun, and the text of its value; or none. */
  ghost predicate AssignTaken(s: string, found: bool, name: string, after: string) {
    forall b {:trigger IsAssign(b, s)} :: IsAssign(b, s) ==> if b then found && NameBegins(s, name, after) else !found
  }

  ghost predicate NameBegins(s: string, name: string, after: string) {
    && ReadName(s).Some? && name == s[..ReadName(s).value]
    && SingleEquals(Trim(s[ReadName(s).value..])) && after == Trim(Trim(s[ReadName(s).value..])[1..])
  }

  lemma AssignFound(s: string, name: string, rest: string, after: string)
    requires NameTaken(s, true, name, rest) && SingleEquals(rest) && after == Trim(rest[1..])
    ensures AssignTaken(s, true, name, after)
  {
    NameOpened(s, true, name, rest);
  }

  lemma AssignMissing(s: string, found: bool, name: string, rest: string)
    requires NameTaken(s, found, name, rest) && (found ==> !SingleEquals(rest))
    ensures forall n, after :: AssignTaken(s, false, n, after)
  {
    NameOpened(s, found, name, rest);
  }

  lemma AssignOpened(s: string, found: bool, name: string, after: string)
    requires AssignTaken(s, found, name, after)
    ensures if found then AssignNext(s) && NameBegins(s, name, after) else !AssignNext(s)
  {
    assert IsAssign(AssignNext(s), s);
  }

  ghost predicate IsDigits(o: Outcome, s: string) { o == EvalDigits(s) }

  ghost predicate YieldsDigits(s: string, ok: bool, v: int, after: string) {
    forall o {:trigger IsDigits(o, s)} :: IsDigits(o, s) ==> Gives(o, ok, v, after)
  }

  ghost predicate IsNumber(o: Outcome, s: string) { o == EvalNumber(s) }

  ghost predicate YieldsNumber(s: string, ok: bool, v: int, after: string) {
    forall o {:trigger IsNumber(o, s)} :: IsNumber(o, s) ==> Gives(o, ok, v, after)
  }

  lemma NumberCounted(s: string, ok: bool, v: int, after: string)
    requires s != "" && IsDigit(s[0]) && YieldsDigits(s, ok, v, after)
    ensures YieldsNumber(s, ok, v, Trim(after))
  {
    assert IsDigits(EvalDigits(s), s);
  }

  lemma NumberMissing(s: string)
    requires s == "" || !IsDigit(s[0])
    ensures forall v, after :: YieldsNumber(s, false, v, after)
  {
  }

  lemma PrimaryCounted(s: string, env: Env, ok: bool, v: int, after: string)
    requires ReadName(s).None? && YieldsNumber(s, ok, v, after)
    ensures Yields(PrimaryRule, s, env, ok, v, after)
  {
    assert IsNumber(EvalNumber(s), s);
  }

  lemma UnarySigned(s: string, env: Env, ok: bool, v: int, after: string, ok': bool, v': int)
    requires s != "" && IsSign(s[0]) && Yields(UnaryRule, Trim(s[1..]), env, ok, v, after)
    requires if ok then Becomes(Negated(s[0] == '-', v), ok', v') else !ok'
    ensures Yields(UnaryRule, s, env, ok', v', after)
  {
    Opened(UnaryRule, Trim(s[1..]), env, ok, v, after);
  }

  predicate SignNext(s: string) { s != "" && IsSign(s[0]) }

  lemma UnaryPlain(s: string, env: Env, ok: bool, v: int, after: string)
    requires !SignNext(s) && Yields(PrimaryRule, s, env, ok, v, after)
    requires ok ==> after == "" || after[0] != '^'
    ensures Yields(UnaryRule, s, env, ok, v, after)
  {
    Opened(PrimaryRule, s, env, ok, v, after);
  }

  lemma UnaryRaised(s: string, env: Env, base: int, rest: string, ok: bool, v: int, after: string, ok': bool, v': int)
    requires !SignNext(s) && Yields(PrimaryRule, s, env, true, base, rest) && rest != "" && rest[0] == '^'
    requires Yields(UnaryRule, Trim(rest[1..]), env, ok, v, after)
    requires if ok then Becomes(PowerOf(base, v), ok', v') else !ok'
    ensures Yields(UnaryRule, s, env, ok', v', after)
  {
    Opened(PrimaryRule, s, env, true, base, rest);
    Opened(UnaryRule, Trim(rest[1..]), env, ok, v, after);
  }

  // ----- the loops

  ghost predicate Failed(rule: Rule, s: string, env: Env) { Yields(rule, s, env, false, 0, "") }

  /** What the loop of a rule does from a value and the text after it. */
  ghost function Continued(rule: Rule, value: int, rest: string, env: Env): Outcome {
    match rule
    case TermRule => EvalTermRest(value, rest, env)
    case ExprRule => EvalExprRest(value, rest, env)
    case _ => Answer(value, rest)
  }

  /** The rule has come to this value, and goes on from here. */
  ghost predicate Leads(rule: Rule, s: string, env: Env, value: int, rest: string) {
    forall o {:trigger Is(o, rule, s, env)} :: Is(o, rule, s, env) ==> o == Continued(rule, value, rest, env)
  }

  /** Where a loop stands: at a value, or refused. */
  ghost predicate Looping(rule: Rule, s: string, env: Env, ok: bool, value: int, rest: string) {
    if ok then Leads(rule, s, env, value, rest) && Fits(value) else Failed(rule, s, env)
  }

  /** The rule each operand of a loop is read by. */
  function Operand(rule: Rule): Rule { if rule == ExprRule then TermRule else UnaryRule }

  predicate OperatorOf(rule: Rule, c: char) {
    match rule
    case TermRule => c == '*' || c == '/'
    case ExprRule => IsSign(c)
    case _ => false
  }

  function Applied(rule: Rule, c: char, left: int, right: int): Option<int> {
    if rule == ExprRule then SumOf(c == '+', left, right) else ProductOf(c == '*', left, right)
  }

  lemma LoopBegins(rule: Rule, s: string, env: Env, ok: bool, v: int, rest: string)
    requires rule in {TermRule, ExprRule} && Yields(Operand(rule), s, env, ok, v, rest)
    ensures Looping(rule, s, env, ok, v, rest)
  {
    Opened(Operand(rule), s, env, ok, v, rest);
  }

  lemma LoopStops(rule: Rule, s: string, env: Env, v: int, rest: string)
    requires rule in {TermRule, ExprRule} && Looping(rule, s, env, true, v, rest)
    requires rest == "" || !OperatorOf(rule, rest[0])
    ensures Yields(rule, s, env, true, v, rest)
  {
    StopsHere(rule, v, rest, env);
  }

  lemma StopsHere(rule: Rule, v: int, rest: string, env: Env)
    requires rule in {TermRule, ExprRule} && (rest == "" || !OperatorOf(rule, rest[0]))
    ensures Continued(rule, v, rest, env) == Answer(v, rest)
  {
  }

  lemma LoopFails(rule: Rule, s: string, env: Env, v: int, rest: string)
    requires Failed(rule, s, env)
    ensures Yields(rule, s, env, false, v, rest)
  {
    Opened(rule, s, env, false, 0, "");
  }

  lemma LoopGoesOn(rule: Rule, s: string, env: Env, left: int, rest: string, ok: bool, right: int, after: string,
                   ok': bool, v': int)
    requires rule in {TermRule, ExprRule} && Looping(rule, s, env, true, left, rest) && rest != "" && OperatorOf(rule, rest[0])
    requires Yields(Operand(rule), Trim(rest[1..]), env, ok, right, after)
    requires if ok then Becomes(Applied(rule, rest[0], left, right), ok', v') else !ok'
    ensures Looping(rule, s, env, ok', v', after)
  {
    Opened(Operand(rule), Trim(rest[1..]), env, ok, right, after);
    OneOperand(rule, left, rest, env);
  }

  lemma OneOperand(rule: Rule, left: int, rest: string, env: Env)
    requires rule in {TermRule, ExprRule} && rest != "" && OperatorOf(rule, rest[0])
    ensures Continued(rule, left, rest, env) ==
            match Eval(Operand(rule), Trim(rest[1..]), env)
            case Refused => Refused
            case Answer(right, after) =>
              var v := Applied(rule, rest[0], left, right);
              if v.None? then Refused else Continued(rule, v.value, after, env)
  {
  }

  // ----- lines

  ghost predicate IsTest(o: Test, s: string, env: Env) { o == EvalCondition(s, env) }

  ghost predicate IsChoice(o: Choice, s: string, env: Env) { o == EvalBranches(s, env) }

  ghost predicate IsLine(o: LineOutcome, s: string, env: Env) { o == EvalStatement(s, env) }

  ghost predicate YieldsTest(s: string, env: Env, ok: bool, holds: bool, after: string) {
    forall o {:trigger IsTest(o, s, env)} :: IsTest(o, s, env) ==> o == if ok then Test(holds, after) else NoTest
  }

  ghost predicate YieldsChoice(s: string, env: Env, ok: bool, yes: int, no: int, after: string) {
    forall o {:trigger IsChoice(o, s, env)} :: IsChoice(o, s, env) ==>
      if ok then o == Choice(yes, no, after) && Fits(yes) && Fits(no) else o == NoChoice
  }

  ghost predicate YieldsLine(s: string, env: Env, ok: bool, v: int, after: string, assign: string) {
    forall o {:trigger IsLine(o, s, env)} :: IsLine(o, s, env) ==>
      if ok then o == LineValue(v, after, assign) && Fits(v) else o == NoLine
  }

  lemma TestRefused(s: string, env: Env, ok: bool, left: int, s1: string)
    requires Yields(ExprRule, s, env, ok, left, s1) && (ok ==> ParseComparison(s1).None?)
    ensures YieldsTest(s, env, false, false, "")
  {
    Opened(ExprRule, s, env, ok, left, s1);
  }

  lemma TestMade(s: string, env: Env, left: int, s1: string, ok: bool, right: int, s2: string, holds: bool)
    requires Yields(ExprRule, s, env, true, left, s1) && ParseComparison(s1).Some?
    requires Yields(ExprRule, Trim(ParseComparison(s1).value.rest), env, ok, right, s2)
    requires ok ==> holds == Holds(ParseComparison(s1).value.tree, left, right)
    ensures YieldsTest(s, env, ok, holds, s2)
  {
    Opened(ExprRule, s, env, true, left, s1);
    Opened(ExprRule, Trim(ParseComparison(s1).value.rest), env, ok, right, s2);
  }

  lemma ChoiceRefused(s: string, env: Env)
    requires !WordNext(s, THEN_WORD)
    ensures YieldsChoice(s, env, false, 0, 0, "")
  {
  }

  lemma ChoiceStuck(s: string, env: Env, ok: bool, yes: int, s1: string)
    requires WordNext(s, THEN_WORD) && Yields(ExprRule, Trim(s[|THEN_WORD|..]), env, ok, yes, s1)
    requires ok ==> !WordNext(s1, ELSE_WORD)
    ensures YieldsChoice(s, env, false, 0, 0, "")
  {
    Opened(ExprRule, Trim(s[|THEN_WORD|..]), env, ok, yes, s1);
  }

  lemma ChoiceMade(s: string, env: Env, yes: int, s1: string, ok: bool, no: int, s2: string)
    requires WordNext(s, THEN_WORD) && Yields(ExprRule, Trim(s[|THEN_WORD|..]), env, true, yes, s1)
    requires WordNext(s1, ELSE_WORD) && Yields(ExprRule, Trim(s1[|ELSE_WORD|..]), env, ok, no, s2)
    ensures YieldsChoice(s, env, ok, yes, no, s2)
  {
    Opened(ExprRule, Trim(s[|THEN_WORD|..]), env, true, yes, s1);
    Opened(ExprRule, Trim(s1[|ELSE_WORD|..]), env, ok, no, s2);
  }

  lemma LineAssigns(s: string, env: Env, name: string, text: string, ok: bool, v: int, after: string)
    requires AssignTaken(s, true, name, text) && Yields(ExprRule, text, env, ok, v, after)
    ensures YieldsLine(s, env, ok, v, after, name)
  {
    AssignOpened(s, true, name, text);
    Opened(ExprRule, text, env, ok, v, after);
  }

  lemma LineIsValue(s: string, env: Env, name: string, text: string, ok: bool, v: int, after: string)
    requires AssignTaken(s, false, name, text) && !WordNext(s, IF_WORD) && Yields(ExprRule, s, env, ok, v, after)
    ensures YieldsLine(s, env, ok, v, after, "")
  {
    AssignOpened(s, false, name, text);
    Opened(ExprRule, s, env, ok, v, after);
  }

  lemma LineRefused(s: string, env: Env, name: string, text: string, holds: bool, after: string)
    requires AssignTaken(s, false, name, text) && WordNext(s, IF_WORD) &&
             YieldsTest(Trim(s[|IF_WORD|..]), env, false, holds, after)
    ensures YieldsLine(s, env, false, 0, "", "")
  {
    AssignOpened(s, false, name, text);
    TestOpened(Trim(s[|IF_WORD|..]), env, false, holds, after);
  }

  lemma TestOpened(s: string, env: Env, ok: bool, holds: bool, after: string)
    requires YieldsTest(s, env, ok, holds, after)
    ensures EvalCondition(s, env) == if ok then Test(holds, after) else NoTest
  {
    assert IsTest(EvalCondition(s, env), s, env);
  }

  lemma LineChooses(s: string, env: Env, name: string, text: string, holds: bool, after: string, ok: bool, yes: int,
                    no: int, rest: string, v: int)
    requires AssignTaken(s, false, name, text) && WordNext(s, IF_WORD) &&
             YieldsTest(Trim(s[|IF_WORD|..]), env, true, holds, after)
    requires YieldsChoice(after, env, ok, yes, no, rest) && (ok ==> v == if holds then yes else no)
    ensures YieldsLine(s, env, ok, v, rest, "")
  {
    AssignOpened(s, false, name, text);
    TestOpened(Trim(s[|IF_WORD|..]), env, true, holds, after);
    assert IsChoice(EvalBranches(after, env), after, env);
  }
}

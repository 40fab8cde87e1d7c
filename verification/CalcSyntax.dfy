// The calculator's language: trees with the spaces they were written with, how
// they print, and how the parser reads them (kernel/src/calc.c:84-131, 246-509).
module CalcSyntax {
  import opened Common
  import opened CalcArith

  const VARS_MAX_NAME: nat := 4

  // ----- characters

  predicate IsDigit(c: char) { '0' <= c <= '9' }

  predicate IsLetter(c: char) { 'A' <= c <= 'Z' }

  predicate IsNameChar(c: char) { IsLetter(c) || IsDigit(c) }

  predicate IsSign(c: char) { c == '+' || c == '-' }

  const IF_WORD: string := "IF"
  const THEN_WORD: string := "THEN"
  const ELSE_WORD: string := "ELSE"

  predicate IsKeyword(word: string) { word == IF_WORD || word == THEN_WORD || word == ELSE_WORD }

  // ----- trees: every token remembers the spaces after it

  datatype Primary = Name(name: string, gap: nat) | Number(digits: string, gap: nat)

  datatype Unary =
    | Signed(minus: bool, gap: nat, arg: Unary)
    | Plain(primary: Primary)
    | Raised(base: Primary, gap: nat, exponent: Unary)

  datatype Term = One(unary: Unary) | Product(left: Term, times: bool, gap: nat, right: Unary)

  datatype Expr = Just(term: Term) | Sum(left: Expr, plus: bool, gap: nat, right: Term)

  datatype Comparison = Equal | DoubleEqual | Less | Greater

  datatype Statement =
    | Assign(name: string, gapName: nat, gapEqual: nat, value: Expr)
    | If(gapIf: nat, left: Expr, how: Comparison, gapHow: nat, right: Expr,
         gapThen: nat, whenTrue: Expr, gapElse: nat, whenFalse: Expr)
    | Value(value: Expr)

  datatype Line = Line(lead: nat, statement: Statement)

  // ----- spaces

  function Spaces(n: nat): string { if n == 0 then "" else [' '] + Spaces(n - 1) }

  /** How many spaces a text starts with. */
  function Gap(s: string): (n: nat)
    ensures n <= |s|
  {
    if s != "" && s[0] == ' ' then 1 + Gap(s[1..]) else 0
  }

  /** `skip_spaces`. */
  function Trim(s: string): (t: string)
    ensures |t| <= |s|
  {
    s[Gap(s)..]
  }

  predicate Flush(s: string) { s == "" || s[0] != ' ' }

  lemma {:induction false} SpacesTrimmed(n: nat, rest: string)
    requires Flush(rest)
    ensures Gap(Spaces(n) + rest) == n && Trim(Spaces(n) + rest) == rest
  {
    if n == 0 {
      assert Spaces(0) + rest == rest;
    } else {
      SpacesTrimmed(n - 1, rest);
      assert (Spaces(n) + rest)[1..] == Spaces(n - 1) + rest;
    }
  }

  lemma {:induction false} TrimSplits(s: string)
    ensures s == Spaces(Gap(s)) + Trim(s) && Flush(Trim(s))
  {
    if s != "" && s[0] == ' ' {
      TrimSplits(s[1..]);
      assert Trim(s) == Trim(s[1..]);
      assert s == [' '] + s[1..];
      assert [' '] + (Spaces(Gap(s[1..])) + Trim(s[1..])) == Spaces(Gap(s)) + Trim(s);
    } else {
      assert s == "" + s;
    }
  }

  // ----- printing

  function PrintPrimary(p: Primary): string {
    match p
    case Name(name, gap) => name + Spaces(gap)
    case Number(digits, gap) => digits + Spaces(gap)
  }

  function SignChar(minus: bool): char { if minus then '-' else '+' }

  function PrintUnary(u: Unary): string {
    match u
    case Signed(minus, gap, arg) => [SignChar(minus)] + Spaces(gap) + PrintUnary(arg)
    case Plain(p) => PrintPrimary(p)
    case Raised(base, gap, exponent) => PrintPrimary(base) + ['^'] + Spaces(gap) + PrintUnary(exponent)
  }

  function PrintTerm(t: Term): string {
    match t
    case One(u) => PrintUnary(u)
    case Product(left, times, gap, right) => PrintTerm(left) + [if times then '*' else '/'] + Spaces(gap) + PrintUnary(right)
  }

  function PrintExpr(e: Expr): string {
    match e
    case Just(t) => PrintTerm(t)
    case Sum(left, plus, gap, right) => PrintExpr(left) + [SignChar(!plus)] + Spaces(gap) + PrintTerm(right)
  }

  function Symbol(how: Comparison): string {
    match how
    case Equal => "="
    case DoubleEqual => "=="
    case Less => "<"
    case Greater => ">"
  }

  function PrintStatement(s: Statement): string {
    match s
    case Assign(name, gapName, gapEqual, value) =>
      name + (Spaces(gapName) + ("=" + (Spaces(gapEqual) + PrintExpr(value))))
    case If(gapIf, left, how, gapHow, right, gapThen, whenTrue, gapElse, whenFalse) =>
      IF_WORD + (Spaces(gapIf) + (PrintExpr(left) + (Symbol(how) + (Spaces(gapHow) + (PrintExpr(right) +
      (THEN_WORD + (Spaces(gapThen) + (PrintExpr(whenTrue) + (ELSE_WORD + (Spaces(gapElse) + PrintExpr(whenFalse)))))))))))
    case Value(value) => PrintExpr(value)
  }

  function Print(line: Line): string { Spaces(line.lead) + PrintStatement(line.statement) }

  // ----- what may be written

  predicate NameOk(name: string) {
    && 0 < |name| <= VARS_MAX_NAME && IsLetter(name[0]) && !IsKeyword(name)
    && forall k :: 0 <= k < |name| ==> IsNameChar(name[k])
  }

  predicate DigitsOk(digits: string) { digits != "" && forall k :: 0 <= k < |digits| ==> IsDigit(digits[k]) }

  predicate PrimaryOk(p: Primary) {
    match p
    case Name(name, _) => NameOk(name)
    case Number(digits, _) => DigitsOk(digits)
  }

  predicate UnaryOk(u: Unary) {
    match u
    case Signed(_, _, arg) => UnaryOk(arg)
    case Plain(p) => PrimaryOk(p)
    case Raised(base, _, exponent) => PrimaryOk(base) && UnaryOk(exponent)
  }

  predicate TermOk(t: Term) {
    match t
    case One(u) => UnaryOk(u)
    case Product(left, _, _, right) => TermOk(left) && UnaryOk(right)
  }

  predicate ExprOk(e: Expr) {
    match e
    case Just(t) => TermOk(t)
    case Sum(left, _, _, right) => ExprOk(left) && TermOk(right)
  }

  function LastPrimary(u: Unary): Primary {
    match u
    case Signed(_, _, arg) => LastPrimary(arg)
    case Plain(p) => p
    case Raised(_, _, exponent) => LastPrimary(exponent)
  }

  function LastOfTerm(t: Term): Primary {
    match t
    case One(u) => LastPrimary(u)
    case Product(_, _, _, right) => LastPrimary(right)
  }

  function LastOfExpr(e: Expr): Primary {
    match e
    case Just(t) => LastOfTerm(t)
    case Sum(_, _, _, right) => LastOfTerm(right)
  }

  /** The text may follow the primary: it would not be read as more of it. */
  predicate MayFollow(p: Primary, rest: string) {
    && Flush(rest)
    && (p.gap == 0 && rest != "" ==> match p case Name(_, _) => !IsNameChar(rest[0]) case Number(_, _) => !IsDigit(rest[0]))
  }

  /** An expression starting with a name or a number must not touch a keyword. */
  predicate KeywordGap(gap: nat, e: Expr) { gap == 0 ==> StartsWithSign(e) }

  predicate StartsWithSign(e: Expr) {
    match e
    case Just(t) => TermStartsWithSign(t)
    case Sum(left, _, _, _) => StartsWithSign(left)
  }

  predicate TermStartsWithSign(t: Term) {
    match t
    case One(u) => u.Signed?
    case Product(left, _, _, _) => TermStartsWithSign(left)
  }

  /** Only a name touching a keyword would be read as something else. */
  predicate BeforeKeyword(e: Expr) { LastOfExpr(e).Name? ==> LastOfExpr(e).gap > 0 }

  predicate StatementOk(s: Statement) {
    match s
    case Assign(name, _, _, value) => NameOk(name) && ExprOk(value)
    case If(gapIf, left, _, _, right, gapThen, whenTrue, gapElse, whenFalse) =>
      && ExprOk(left) && ExprOk(right) && ExprOk(whenTrue) && ExprOk(whenFalse)
      && KeywordGap(gapIf, left) && BeforeKeyword(right) && KeywordGap(gapThen, whenTrue)
      && BeforeKeyword(whenTrue) && KeywordGap(gapElse, whenFalse)
    case Value(value) => ExprOk(value)
  }

  // ----- reading

  /** How many characters of the text continue a name. */
  function NameRun(s: string): (n: nat)
    ensures n <= |s| && (forall k :: 0 <= k < n ==> IsNameChar(s[k])) && (n < |s| ==> !IsNameChar(s[n]))
  {
    if s != "" && IsNameChar(s[0]) then 1 + NameRun(s[1..]) else 0
  }

  function DigitRun(s: string): (n: nat)
    ensures n <= |s| && (forall k :: 0 <= k < n ==> IsDigit(s[k])) && (n < |s| ==> !IsDigit(s[n]))
  {
    if s != "" && IsDigit(s[0]) then 1 + DigitRun(s[1..]) else 0
  }

  /** `read_name`: a name that is short enough and not a keyword. */
  function ReadName(s: string): (n: Option<nat>)
    ensures n.Some? ==> 0 < n.value <= |s| && NameOk(s[..n.value])
  {
    if s != "" && IsLetter(s[0]) && NameRun(s) <= VARS_MAX_NAME && !IsKeyword(s[..NameRun(s)]) then Some(NameRun(s)) else None
  }

  datatype Parsed<T> = Parsed(tree: T, rest: string)

  /** `parse_primary`. */
  function ParsePrimary(s: string): (r: Option<Parsed<Primary>>)
    ensures r.Some? ==> |r.value.rest| < |s|
  {
    var n := ReadName(s);
    if n.Some? then Some(Parsed(Name(s[..n.value], Gap(s[n.value..])), Trim(s[n.value..])))
    else if s != "" && IsDigit(s[0]) then
      var d := DigitRun(s);
      Some(Parsed(Number(s[..d], Gap(s[d..])), Trim(s[d..])))
    else None
  }

  /** `parse_unary` and `parse_power`. */
  function ParseUnary(s: string): (r: Option<Parsed<Unary>>)
    ensures r.Some? ==> |r.value.rest| < |s|
    decreases |s|
  {
    if s != "" && IsSign(s[0]) then
      match ParseUnary(Trim(s[1..]))
      case None => None
      case Some(p) => Some(Parsed(Signed(s[0] == '-', Gap(s[1..]), p.tree), p.rest))
    else
      match ParsePrimary(s)
      case None => None
      case Some(b) =>
        if b.rest != "" && b.rest[0] == '^' then
          match ParseUnary(Trim(b.rest[1..]))
          case None => None
          case Some(e) => Some(Parsed(Raised(b.tree, Gap(b.rest[1..]), e.tree), e.rest))
        else Some(Parsed(Plain(b.tree), b.rest))
  }

  /** The loop of `parse_term`. */
  function TermRest(left: Term, s: string): (r: Option<Parsed<Term>>)
    ensures r.Some? ==> |r.value.rest| <= |s|
    decreases |s|
  {
    if s != "" && (s[0] == '*' || s[0] == '/') then
      match ParseUnary(Trim(s[1..]))
      case None => None
      case Some(p) => TermRest(Product(left, s[0] == '*', Gap(s[1..]), p.tree), p.rest)
    else Some(Parsed(left, s))
  }

  function ParseTerm(s: string): (r: Option<Parsed<Term>>)
    ensures r.Some? ==> |r.value.rest| < |s|
  {
    match ParseUnary(s)
    case None => None
    case Some(p) => TermRest(One(p.tree), p.rest)
  }

  /** The loop of `parse_expression`. */
  function ExprRest(left: Expr, s: string): (r: Option<Parsed<Expr>>)
    ensures r.Some? ==> |r.value.rest| <= |s|
    decreases |s|
  {
    if s != "" && IsSign(s[0]) then
      match ParseTerm(Trim(s[1..]))
      case None => None
      case Some(p) => ExprRest(Sum(left, s[0] == '+', Gap(s[1..]), p.tree), p.rest)
    else Some(Parsed(left, s))
  }

  function ParseExpr(s: string): (r: Option<Parsed<Expr>>)
    ensures r.Some? ==> |r.value.rest| < |s|
  {
    match ParseTerm(s)
    case None => None
    case Some(p) => ExprRest(Just(p.tree), p.rest)
  }

  /** `match_word`: the word, ending where it ends. */
  predicate WordNext(s: string, word: string) { word <= s && (|s| > |word| ==> !IsNameChar(s[|word|])) }

  function ParseComparison(s: string): (r: Option<Parsed<Comparison>>)
    ensures r.Some? ==> |r.value.rest| < |s|
  {
    if s == "" then None
    else if s[0] == '=' then
      if |s| > 1 && s[1] == '=' then Some(Parsed(DoubleEqual, s[2..])) else Some(Parsed(Equal, s[1..]))
    else if s[0] == '<' then Some(Parsed(Less, s[1..]))
    else if s[0] == '>' then Some(Parsed(Greater, s[1..]))
    else None
  }

  /** A name, then one equals sign and not two. */
  predicate AssignNext(s: string) {
    var n := ReadName(s);
    n.Some? && SingleEquals(Trim(s[n.value..]))
  }

  predicate SingleEquals(t: string) { t != "" && t[0] == '=' && (|t| > 1 ==> t[1] != '=') }

  function ParseStatement(s: string): Option<Parsed<Statement>> {
    if AssignNext(s) then
      var n := ReadName(s).value;
      var t := Trim(s[n..]);
      match ParseExpr(Trim(t[1..]))
      case None => None
      case Some(e) => Some(Parsed(Assign(s[..n], Gap(s[n..]), Gap(t[1..]), e.tree), e.rest))
    else if !WordNext(s, IF_WORD) then
      match ParseExpr(s)
      case None => None
      case Some(e) => Some(Parsed(Value(e.tree), e.rest))
    else ParseIf(s[|IF_WORD|..])
  }

  datatype Branches = Branches(gapThen: nat, whenTrue: Expr, gapElse: nat, whenFalse: Expr)

  function ParseBranches(s: string): Option<Parsed<Branches>> {
    if !WordNext(s, THEN_WORD) then None
    else
      match ParseExpr(Trim(s[|THEN_WORD|..]))
      case None => None
      case Some(yes) =>
        if !WordNext(yes.rest, ELSE_WORD) then None
        else
          match ParseExpr(Trim(yes.rest[|ELSE_WORD|..]))
          case None => None
          case Some(no) =>
            Some(Parsed(Branches(Gap(s[|THEN_WORD|..]), yes.tree, Gap(yes.rest[|ELSE_WORD|..]), no.tree), no.rest))
  }

  datatype Condition = Condition(gapIf: nat, left: Expr, how: Comparison, gapHow: nat, right: Expr)

  function ParseCondition(s: string): Option<Parsed<Condition>> {
    match ParseExpr(Trim(s))
    case None => None
    case Some(left) =>
      match ParseComparison(left.rest)
      case None => None
      case Some(how) =>
        match ParseExpr(Trim(how.rest))
        case None => None
        case Some(right) => Some(Parsed(Condition(Gap(s), left.tree, how.tree, Gap(how.rest), right.tree), right.rest))
  }

  function IfOf(c: Condition, b: Branches): Statement {
    If(c.gapIf, c.left, c.how, c.gapHow, c.right, b.gapThen, b.whenTrue, b.gapElse, b.whenFalse)
  }

  function ParseIf(s: string): Option<Parsed<Statement>> {
    match ParseCondition(s)
    case None => None
    case Some(c) =>
      match ParseBranches(c.rest)
      case None => None
      case Some(b) => Some(Parsed(IfOf(c.tree, b.tree), b.rest))
  }

  /** The whole line, with nothing left over. */
  function Parse(text: string): Option<Line> {
    match ParseStatement(Trim(text))
    case None => None
    case Some(p) => if p.rest == "" then Some(Line(Gap(text), p.tree)) else None
  }
}

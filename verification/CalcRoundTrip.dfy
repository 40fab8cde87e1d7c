// Reading undoes printing, and what is read is what was printed
// (kernel/src/calc.c:246-509).
module CalcRoundTrip {
  import opened Common
  import opened CalcArith
  import opened CalcSyntax

  lemma Regroup(a: string, b: string, c: string)
    ensures a + b + c == a + (b + c)
  {
  }

  // ----- reading what was printed

  lemma {:induction false} NameRunIs(name: string, rest: string)
    requires forall k :: 0 <= k < |name| ==> IsNameChar(name[k])
    requires rest != "" ==> !IsNameChar(rest[0])
    ensures NameRun(name + rest) == |name|
  {
    if name == "" {
      assert name + rest == rest;
    } else {
      assert (name + rest)[1..] == name[1..] + rest;
      NameRunIs(name[1..], rest);
    }
  }

  lemma {:induction false} DigitRunIs(digits: string, rest: string)
    requires forall k :: 0 <= k < |digits| ==> IsDigit(digits[k])
    requires rest != "" ==> !IsDigit(rest[0])
    ensures DigitRun(digits + rest) == |digits|
  {
    if digits == "" {
      assert digits + rest == rest;
    } else {
      assert (digits + rest)[1..] == digits[1..] + rest;
      DigitRunIs(digits[1..], rest);
    }
  }

  /** A name and what follows it. */
  lemma ReadNameIs(name: string, rest: string)
    requires NameOk(name) && (rest != "" ==> !IsNameChar(rest[0]))
    ensures ReadName(name + rest) == Some(|name|) && (name + rest)[..|name|] == name && (name + rest)[|name|..] == rest
  {
    NameRunIs(name, rest);
  }

  lemma Follows(gap: nat, rest: string)
    requires Flush(rest)
    ensures Gap(Spaces(gap) + rest) == gap && Trim(Spaces(gap) + rest) == rest
    ensures gap > 0 ==> Spaces(gap) + rest != "" && (Spaces(gap) + rest)[0] == ' '
    ensures gap == 0 ==> Spaces(gap) + rest == rest
  {
    SpacesTrimmed(gap, rest);
  }

  lemma NameRead(s: string, name: string, after: string)
    requires ReadName(s) == Some(|name|) && s[..|name|] == name && s[|name|..] == after
    ensures ParsePrimary(s) == Some(Parsed(Name(name, Gap(after)), Trim(after)))
  {
  }

  lemma NumberRead(s: string, digits: string, after: string)
    requires s != "" && IsDigit(s[0]) && DigitRun(s) == |digits| && s[..|digits|] == digits && s[|digits|..] == after
    ensures ParsePrimary(s) == Some(Parsed(Number(digits, Gap(after)), Trim(after)))
  {
  }

  lemma Pieces(a: string, b: string)
    ensures (a + b)[..|a|] == a && (a + b)[|a|..] == b
  {
  }

  lemma PrimaryPrinted(p: Primary, rest: string)
    requires PrimaryOk(p) && MayFollow(p, rest)
    ensures ParsePrimary(PrintPrimary(p) + rest) == Some(Parsed(p, rest))
  {
    Follows(p.gap, rest);
    var after := Spaces(p.gap) + rest;
    match p
    case Name(name, gap) =>
      Regroup(name, Spaces(gap), rest);
      ReadNameIs(name, after);
      NameRead(name + after, name, after);
    case Number(digits, gap) =>
      Regroup(digits, Spaces(gap), rest);
      DigitRunIs(digits, after);
      Pieces(digits, after);
      NumberRead(digits + after, digits, after);
  }

  predicate NotPower(rest: string) { rest == "" || rest[0] != '^' }

  /** The text may follow a unary: it would not be read as more of it. */
  predicate AfterUnary(u: Unary, rest: string) { MayFollow(LastPrimary(u), rest) && NotPower(rest) }

  predicate AfterTerm(t: Term, rest: string) {
    MayFollow(LastOfTerm(t), rest) && (rest == "" || rest[0] !in {'^', '*', '/'})
  }

  predicate AfterExpr(e: Expr, rest: string) {
    MayFollow(LastOfExpr(e), rest) && (rest == "" || rest[0] !in {'^', '*', '/', '+', '-'})
  }

  /** How a printed unary starts. */
  lemma {:induction false} UnaryStart(u: Unary)
    requires UnaryOk(u)
    ensures PrintUnary(u) != "" && Flush(PrintUnary(u))
    ensures u.Signed? <==> IsSign(PrintUnary(u)[0])
    ensures !u.Signed? ==> IsNameChar(PrintUnary(u)[0])
  {
    match u
    case Signed(_, _, _) =>
    case Plain(p) => PrimaryStart(p);
    case Raised(base, gap, e) => PrimaryStart(base);
  }

  lemma PrimaryStart(p: Primary)
    requires PrimaryOk(p)
    ensures PrintPrimary(p) != "" && IsNameChar(PrintPrimary(p)[0])
  {
  }

  lemma RegroupFour(a: string, b: string, c: string, d: string)
    ensures a + b + c + d == a + (b + (c + d))
  {
    Regroup(a, b, c);
    Regroup(a, b + c, d);
    Regroup(b, c, d);
  }

  lemma RegroupFive(a: string, b: string, c: string, d: string, e: string)
    ensures a + b + c + d + e == a + (b + (c + (d + e)))
  {
    RegroupFour(a, b, c, d);
    Regroup(a, b + (c + d), e);
    RegroupFour(b, c, d, e);
    Regroup(b, c + d, e);
    Regroup(c, d, e);
  }

  /** One character, spaces, and a text that does not start with one. */
  lemma CharThen(c: char, gap: nat, body: string)
    requires Flush(body)
    ensures var s := [c] + (Spaces(gap) + body); s != "" && s[0] == c && Gap(s[1..]) == gap && Trim(s[1..]) == body
  {
    Follows(gap, body);
    assert ([c] + (Spaces(gap) + body))[1..] == Spaces(gap) + body;
  }

  lemma SignedStep(minus: bool, gap: nat, arg: Unary, body: string, rest: string)
    requires Flush(body) && ParseUnary(body) == Some(Parsed(arg, rest))
    ensures ParseUnary([SignChar(minus)] + (Spaces(gap) + body)) == Some(Parsed(Signed(minus, gap, arg), rest))
  {
    CharThen(SignChar(minus), gap, body);
  }

  lemma RaisedStep(s: string, base: Primary, gap: nat, e: Unary, body: string, rest: string)
    requires s != "" && !IsSign(s[0]) && ParsePrimary(s) == Some(Parsed(base, ['^'] + (Spaces(gap) + body)))
    requires Flush(body) && ParseUnary(body) == Some(Parsed(e, rest))
    ensures ParseUnary(s) == Some(Parsed(Raised(base, gap, e), rest))
  {
    CharThen('^', gap, body);
  }

  lemma PlainStep(s: string, p: Primary, rest: string)
    requires s != "" && !IsSign(s[0]) && ParsePrimary(s) == Some(Parsed(p, rest)) && NotPower(rest)
    ensures ParseUnary(s) == Some(Parsed(Plain(p), rest))
  {
  }

  lemma ProductStep(left: Term, times: bool, gap: nat, right: Unary, body: string, rest: string)
    requires Flush(body) && ParseUnary(body) == Some(Parsed(right, rest))
    ensures TermRest(left, [if times then '*' else '/'] + (Spaces(gap) + body)) == TermRest(Product(left, times, gap, right), rest)
  {
    CharThen(if times then '*' else '/', gap, body);
  }

  lemma SumStep(left: Expr, plus: bool, gap: nat, right: Term, body: string, rest: string)
    requires Flush(body) && ParseTerm(body) == Some(Parsed(right, rest))
    ensures ExprRest(left, [SignChar(!plus)] + (Spaces(gap) + body)) == ExprRest(Sum(left, plus, gap, right), rest)
  {
    CharThen(SignChar(!plus), gap, body);
  }

  lemma StartsWith(a: string, rest: string)
    requires a != "" && Flush(a)
    ensures a + rest != "" && (a + rest)[0] == a[0] && Flush(a + rest)
  {
  }

  lemma SignedPrinted(minus: bool, gap: nat, arg: Unary, rest: string)
    requires UnaryOk(arg) && ParseUnary(PrintUnary(arg) + rest) == Some(Parsed(arg, rest))
    ensures ParseUnary(PrintUnary(Signed(minus, gap, arg)) + rest) == Some(Parsed(Signed(minus, gap, arg), rest))
  {
    UnaryStart(arg);
    StartsWith(PrintUnary(arg), rest);
    SignedStep(minus, gap, arg, PrintUnary(arg) + rest, rest);
    RegroupFour([SignChar(minus)], Spaces(gap), PrintUnary(arg), rest);
  }

  lemma PlainPrinted(p: Primary, rest: string)
    requires PrimaryOk(p) && MayFollow(p, rest) && NotPower(rest)
    ensures ParseUnary(PrintPrimary(p) + rest) == Some(Parsed(Plain(p), rest))
  {
    PrimaryStart(p);
    PrimaryPrinted(p, rest);
    StartsWith(PrintPrimary(p), rest);
    PlainStep(PrintPrimary(p) + rest, p, rest);
  }

  lemma RaisedPrinted(base: Primary, gap: nat, e: Unary, rest: string)
    requires PrimaryOk(base) && UnaryOk(e) && ParseUnary(PrintUnary(e) + rest) == Some(Parsed(e, rest))
    ensures ParseUnary(PrintUnary(Raised(base, gap, e)) + rest) == Some(Parsed(Raised(base, gap, e), rest))
  {
    var body := PrintUnary(e) + rest;
    var tail := ['^'] + (Spaces(gap) + body);
    UnaryStart(e);
    StartsWith(PrintUnary(e), rest);
    PowerFollows(base, gap, body, tail);
    PrimaryStart(base);
    StartsWith(PrintPrimary(base), tail);
    RaisedStep(PrintPrimary(base) + tail, base, gap, e, body, rest);
    RegroupFive(PrintPrimary(base), ['^'], Spaces(gap), PrintUnary(e), rest);
  }

  lemma PowerFollows(base: Primary, gap: nat, body: string, tail: string)
    requires PrimaryOk(base) && Flush(body) && tail == ['^'] + (Spaces(gap) + body)
    ensures ParsePrimary(PrintPrimary(base) + tail) == Some(Parsed(base, tail))
  {
    CharThen('^', gap, body);
    PrimaryPrinted(base, tail);
  }

  lemma {:induction false} UnaryPrinted(u: Unary, rest: string)
    requires UnaryOk(u) && AfterUnary(u, rest)
    ensures ParseUnary(PrintUnary(u) + rest) == Some(Parsed(u, rest))
    decreases u
  {
    match u
    case Signed(minus, gap, arg) =>
      UnaryPrinted(arg, rest);
      SignedPrinted(minus, gap, arg, rest);
    case Plain(p) =>
      PlainPrinted(p, rest);
    case Raised(base, gap, e) =>
      UnaryPrinted(e, rest);
      RaisedPrinted(base, gap, e, rest);
  }

  /** A printed term is read up to its end, and then the loop goes on with it. */
  lemma {:induction false} TermPrinted(t: Term, rest: string)
    requires TermOk(t) && MayFollow(LastOfTerm(t), rest) && NotPower(rest)
    ensures ParseTerm(PrintTerm(t) + rest) == TermRest(t, rest)
    decreases t
  {
    match t
    case One(u) => UnaryPrinted(u, rest);
    case Product(left, times, gap, right) =>
      UnaryStart(right);
      UnaryPrinted(right, rest);
      StartsWith(PrintUnary(right), rest);
      var op := [if times then '*' else '/'];
      var body := PrintUnary(right) + rest;
      CharThen(op[0], gap, body);
      TermPrinted(left, op + (Spaces(gap) + body));
      ProductStep(left, times, gap, right, body, rest);
      RegroupFive(PrintTerm(left), op, Spaces(gap), PrintUnary(right), rest);
  }

  lemma {:induction false} TermStart(t: Term)
    requires TermOk(t)
    ensures PrintTerm(t) != "" && Flush(PrintTerm(t))
    ensures TermStartsWithSign(t) <==> IsSign(PrintTerm(t)[0])
    ensures !TermStartsWithSign(t) ==> IsNameChar(PrintTerm(t)[0])
    decreases t
  {
    match t
    case One(u) => UnaryStart(u);
    case Product(left, _, _, _) => TermStart(left);
  }

  lemma {:induction false} ExprPrinted(e: Expr, rest: string)
    requires ExprOk(e) && MayFollow(LastOfExpr(e), rest) && (rest == "" || rest[0] !in {'^', '*', '/'})
    ensures ParseExpr(PrintExpr(e) + rest) == ExprRest(e, rest)
    decreases e
  {
    match e
    case Just(t) => TermPrinted(t, rest);
    case Sum(left, plus, gap, right) =>
      TermStart(right);
      TermPrinted(right, rest);
      StartsWith(PrintTerm(right), rest);
      var body := PrintTerm(right) + rest;
      CharThen(SignChar(!plus), gap, body);
      ExprPrinted(left, [SignChar(!plus)] + (Spaces(gap) + body));
      SumStep(left, plus, gap, right, body, rest);
      RegroupFive(PrintExpr(left), [SignChar(!plus)], Spaces(gap), PrintTerm(right), rest);
  }

  lemma {:induction false} ExprStart(e: Expr)
    requires ExprOk(e)
    ensures PrintExpr(e) != "" && Flush(PrintExpr(e))
    ensures StartsWithSign(e) <==> IsSign(PrintExpr(e)[0])
    ensures !StartsWithSign(e) ==> IsNameChar(PrintExpr(e)[0])
    decreases e
  {
    match e
    case Just(t) => TermStart(t);
    case Sum(left, _, _, _) => ExprStart(left);
  }

  /** A printed expression after a gap, read to its end. */
  lemma ExprAfterGap(gap: nat, e: Expr, rest: string)
    requires ExprOk(e) && AfterExpr(e, rest)
    ensures Gap(Spaces(gap) + (PrintExpr(e) + rest)) == gap
    ensures ParseExpr(Trim(Spaces(gap) + (PrintExpr(e) + rest))) == Some(Parsed(e, rest))
  {
    ExprStart(e);
    ExprPrinted(e, rest);
    Follows(gap, PrintExpr(e) + rest);
  }

  lemma NoMore(s: string)
    ensures s + "" == s
  {
  }

  lemma WordPrinted(word: string, gap: nat, e: Expr, rest: string)
    requires word != "" && ExprOk(e) && KeywordGap(gap, e)
    ensures WordNext(word + (Spaces(gap) + (PrintExpr(e) + rest)), word)
    ensures (word + (Spaces(gap) + (PrintExpr(e) + rest)))[|word|..] == Spaces(gap) + (PrintExpr(e) + rest)
  {
    ExprStart(e);
    StartsWith(PrintExpr(e), rest);
    Follows(gap, PrintExpr(e) + rest);
    WordThen(word, Spaces(gap) + (PrintExpr(e) + rest));
  }

  lemma WordThen(word: string, after: string)
    requires word != "" && (after != "" ==> !IsNameChar(after[0]))
    ensures WordNext(word + after, word) && (word + after)[|word|..] == after
  {
  }

  lemma SymbolPrinted(how: Comparison, gap: nat, e: Expr, rest: string)
    requires ExprOk(e)
    ensures ParseComparison(Symbol(how) + (Spaces(gap) + (PrintExpr(e) + rest))) ==
            Some(Parsed(how, Spaces(gap) + (PrintExpr(e) + rest)))
  {
    ExprStart(e);
    StartsWith(PrintExpr(e), rest);
    Follows(gap, PrintExpr(e) + rest);
    SymbolThen(how, Spaces(gap) + (PrintExpr(e) + rest));
  }

  lemma SymbolThen(how: Comparison, after: string)
    requires after != "" && after[0] != '='
    ensures ParseComparison(Symbol(how) + after) == Some(Parsed(how, after))
  {
    assert (Symbol(how) + after)[|Symbol(how)|..] == after;
    if |Symbol(how)| == 1 { assert (Symbol(how) + after)[1] == after[0]; }
  }

  lemma BranchesStep(s: Statement, afterRight: string, afterThen: string, afterTrue: string, afterElse: string)
    requires s.If? && Gap(afterThen) == s.gapThen && Gap(afterElse) == s.gapElse
    requires WordNext(afterRight, THEN_WORD) && afterRight[|THEN_WORD|..] == afterThen
    requires ParseExpr(Trim(afterThen)) == Some(Parsed(s.whenTrue, afterTrue))
    requires WordNext(afterTrue, ELSE_WORD) && afterTrue[|ELSE_WORD|..] == afterElse
    requires ParseExpr(Trim(afterElse)) == Some(Parsed(s.whenFalse, ""))
    ensures ParseBranches(afterRight) == Some(Parsed(Branches(s.gapThen, s.whenTrue, s.gapElse, s.whenFalse), ""))
  {
  }

  lemma ConditionStep(s: Statement, afterIf: string, afterLeft: string, afterHow: string, afterRight: string)
    requires s.If? && Gap(afterIf) == s.gapIf && Gap(afterHow) == s.gapHow
    requires ParseExpr(Trim(afterIf)) == Some(Parsed(s.left, afterLeft))
    requires ParseComparison(afterLeft) == Some(Parsed(s.how, afterHow))
    requires ParseExpr(Trim(afterHow)) == Some(Parsed(s.right, afterRight))
    ensures ParseCondition(afterIf) == Some(Parsed(Condition(s.gapIf, s.left, s.how, s.gapHow, s.right), afterRight))
  {
  }

  /** The pieces of a conditional, read one after another. */
  lemma IfStep(s: Statement, afterIf: string, afterRight: string)
    requires s.If?
    requires ParseCondition(afterIf) == Some(Parsed(Condition(s.gapIf, s.left, s.how, s.gapHow, s.right), afterRight))
    requires ParseBranches(afterRight) == Some(Parsed(Branches(s.gapThen, s.whenTrue, s.gapElse, s.whenFalse), ""))
    ensures ParseIf(afterIf) == Some(Parsed(s, ""))
  {
  }

  lemma SymbolStart(how: Comparison, after: string)
    ensures Symbol(how) + after != "" && (Symbol(how) + after)[0] in {'=', '<', '>'}
  {
  }

  lemma IfPrinted(s: Statement)
    requires s.If? && StatementOk(s)
    ensures ParseStatement(PrintStatement(s)) == Some(Parsed(s, "")) && Flush(PrintStatement(s))
  {
    var f := PrintExpr(s.whenFalse);
    var afterElse := Spaces(s.gapElse) + f;
    var afterTrue := ELSE_WORD + afterElse;
    var t := PrintExpr(s.whenTrue) + afterTrue;
    var afterThen := Spaces(s.gapThen) + t;
    var afterRight := THEN_WORD + afterThen;
    var r := PrintExpr(s.right) + afterRight;
    var afterHow := Spaces(s.gapHow) + r;
    var afterLeft := Symbol(s.how) + afterHow;
    var l := PrintExpr(s.left) + afterLeft;
    var afterIf := Spaces(s.gapIf) + l;
    NoMore(f);
    AfterWord(ELSE_WORD, s.gapElse, s.whenFalse, "", f, afterElse);
    ExprStops(s.whenTrue, afterTrue);
    AfterWord(THEN_WORD, s.gapThen, s.whenTrue, afterTrue, t, afterThen);
    ExprStops(s.right, afterRight);
    AfterSymbol(s.how, s.gapHow, s.right, afterRight, r, afterHow);
    ExprStops(s.left, afterLeft);
    AfterWord(IF_WORD, s.gapIf, s.left, afterLeft, l, afterIf);
    BranchesStep(s, afterRight, afterThen, afterTrue, afterElse);
    ConditionStep(s, afterIf, afterLeft, afterHow, afterRight);
    IfStep(s, afterIf, afterRight);
    IfRead(PrintStatement(s), afterIf, s);
  }

  /** A keyword, spaces, an expression and what follows it. */
  lemma AfterWord(word: string, gap: nat, e: Expr, rest: string, body: string, after: string)
    requires word != "" && word[0] in {'I', 'T', 'E'} && ExprOk(e) && KeywordGap(gap, e) && AfterExpr(e, rest)
    requires body == PrintExpr(e) + rest && after == Spaces(gap) + body
    ensures Gap(after) == gap && ParseExpr(Trim(after)) == Some(Parsed(e, rest))
    ensures WordNext(word + after, word) && (word + after)[|word|..] == after
    ensures KeywordStart(word + after) && (after != "" ==> !IsNameChar(after[0]))
  {
    ExprAfterGap(gap, e, rest);
    WordPrinted(word, gap, e, rest);
    StartsWith(word, after);
    if after != "" { assert after[0] == (word + after)[|word|]; }
  }

  predicate KeywordStart(s: string) { s != "" && s[0] in {'I', 'T', 'E'} }

  predicate SymbolFirst(s: string) { s != "" && s[0] in {'=', '<', '>'} }

  /** An expression before a keyword it does not run into, or a comparison. */
  lemma ExprStops(e: Expr, rest: string)
    requires (KeywordStart(rest) && BeforeKeyword(e)) || SymbolFirst(rest)
    ensures AfterExpr(e, rest)
  {
  }

  lemma AfterSymbol(how: Comparison, gap: nat, e: Expr, rest: string, body: string, after: string)
    requires ExprOk(e) && AfterExpr(e, rest) && body == PrintExpr(e) + rest && after == Spaces(gap) + body
    ensures Gap(after) == gap && ParseExpr(Trim(after)) == Some(Parsed(e, rest))
    ensures ParseComparison(Symbol(how) + after) == Some(Parsed(how, after)) && SymbolFirst(Symbol(how) + after)
  {
    ExprAfterGap(gap, e, rest);
    SymbolPrinted(how, gap, e, rest);
    SymbolStart(how, after);
  }

  lemma IfRead(text: string, afterIf: string, s: Statement)
    requires text == IF_WORD + afterIf && WordNext(text, IF_WORD) && text[|IF_WORD|..] == afterIf
    requires (afterIf != "" ==> !IsNameChar(afterIf[0])) && ParseIf(afterIf) == Some(Parsed(s, ""))
    ensures ParseStatement(text) == Some(Parsed(s, "")) && Flush(text)
  {
    NameRunIs(IF_WORD, afterIf);
    KeywordNotName(text, afterIf);
  }

  lemma KeywordNotName(text: string, after: string)
    requires text == IF_WORD + after && NameRun(text) == |IF_WORD|
    ensures ReadName(text) == None && text != "" && text[0] != ' '
  {
    assert text[..2] == IF_WORD;
  }

  lemma AssignPrinted(s: Statement)
    requires s.Assign? && StatementOk(s)
    ensures ParseStatement(PrintStatement(s)) == Some(Parsed(s, "")) && Flush(PrintStatement(s))
  {
    NoMore(PrintExpr(s.value));
    var tail := Spaces(s.gapEqual) + PrintExpr(s.value);
    var equals := "=" + tail;
    var afterName := Spaces(s.gapName) + equals;
    AssignTail(s.gapEqual, s.value, tail);
    NameBeforeEquals(s.name, s.gapName, equals, tail, afterName);
    AssignRead(PrintStatement(s), afterName, equals, tail, s);
  }

  lemma AssignTail(gap: nat, e: Expr, tail: string)
    requires ExprOk(e) && tail == Spaces(gap) + PrintExpr(e)
    ensures Gap(tail) == gap && ParseExpr(Trim(tail)) == Some(Parsed(e, "")) && tail != "" && tail[0] != '='
  {
    NoMore(PrintExpr(e));
    ExprStart(e);
    ExprAfterGap(gap, e, "");
    Follows(gap, PrintExpr(e));
  }

  lemma NameBeforeEquals(name: string, gap: nat, equals: string, tail: string, after: string)
    requires NameOk(name) && equals == "=" + tail && after == Spaces(gap) + equals
    ensures Trim(after) == equals && Gap(after) == gap
    ensures ReadName(name + after) == Some(|name|) && (name + after)[..|name|] == name &&
            (name + after)[|name|..] == after
  {
    StartsWith("=", tail);
    Follows(gap, equals);
    ReadNameIs(name, after);
  }

  lemma AssignRead(text: string, afterName: string, equals: string, tail: string, s: Statement)
    requires s.Assign? && ReadName(text) == Some(|s.name|) && text[..|s.name|] == s.name &&
             text[|s.name|..] == afterName
    requires Trim(afterName) == equals && Gap(afterName) == s.gapName
    requires equals == "=" + tail && tail != "" && tail[0] != '=' && Gap(tail) == s.gapEqual
    requires ParseExpr(Trim(tail)) == Some(Parsed(s.value, ""))
    ensures ParseStatement(text) == Some(Parsed(s, "")) && Flush(text)
  {
    assert equals[1..] == tail && equals[1] == tail[0];
    assert text[0] == s.name[0] by { assert text[..|s.name|][0] == text[0]; }
  }

  /** The first name of an expression is followed by no equals sign. */
  lemma ExprNoAssign(e: Expr)
    requires ExprOk(e)
    ensures !AssignNext(PrintExpr(e)) && !WordNext(PrintExpr(e), IF_WORD)
  {
    ExprFirst(e, "");
    NoMore(PrintExpr(e));
  }

  /** What can follow the first name of an expression. */
  predicate OperatorNext(rest: string) { rest == "" || rest[0] in {'^', '*', '/', '+', '-'} }

  lemma OperatorStarts(c: char, rest: string)
    requires c in {'^', '*', '/', '+', '-'}
    ensures OperatorNext([c] + rest)
  {
  }

  /** Nothing an expression is printed with after its first name is an equals sign. */
  lemma {:induction false} ExprFirst(e: Expr, rest: string)
    requires ExprOk(e) && OperatorNext(rest)
    ensures !AssignNext(PrintExpr(e) + rest) && !WordNext(PrintExpr(e) + rest, IF_WORD)
    decreases e
  {
    match e
    case Just(t) => TermFirst(t, rest);
    case Sum(left, plus, gap, right) =>
      var more := Spaces(gap) + (PrintTerm(right) + rest);
      RegroupFive(PrintExpr(left), [SignChar(!plus)], Spaces(gap), PrintTerm(right), rest);
      OperatorStarts(SignChar(!plus), more);
      ExprFirst(left, [SignChar(!plus)] + more);
  }

  lemma {:induction false} TermFirst(t: Term, rest: string)
    requires TermOk(t) && OperatorNext(rest)
    ensures !AssignNext(PrintTerm(t) + rest) && !WordNext(PrintTerm(t) + rest, IF_WORD)
    decreases t
  {
    match t
    case One(u) => UnaryFirst(u, rest);
    case Product(left, times, gap, right) =>
      var op := [if times then '*' else '/'];
      var more := Spaces(gap) + (PrintUnary(right) + rest);
      RegroupFive(PrintTerm(left), op, Spaces(gap), PrintUnary(right), rest);
      OperatorStarts(op[0], more);
      TermFirst(left, op + more);
  }

  lemma UnaryFirst(u: Unary, rest: string)
    requires UnaryOk(u) && OperatorNext(rest)
    ensures !AssignNext(PrintUnary(u) + rest) && !WordNext(PrintUnary(u) + rest, IF_WORD)
  {
    UnaryStart(u);
    StartsWith(PrintUnary(u), rest);
    match u
    case Signed(_, _, _) => NotLetterFirst(PrintUnary(u) + rest);
    case Plain(p) => PrimaryFirst(p, rest);
    case Raised(base, gap, e) =>
      var more := Spaces(gap) + (PrintUnary(e) + rest);
      RegroupFive(PrintPrimary(base), ['^'], Spaces(gap), PrintUnary(e), rest);
      OperatorStarts('^', more);
      PrimaryFirst(base, ['^'] + more);
  }

  lemma NotLetterFirst(s: string)
    requires s != "" && !IsLetter(s[0])
    ensures !AssignNext(s) && !WordNext(s, IF_WORD)
  {
  }

  lemma PrimaryFirst(p: Primary, rest: string)
    requires PrimaryOk(p) && OperatorNext(rest)
    ensures !AssignNext(PrintPrimary(p) + rest) && !WordNext(PrintPrimary(p) + rest, IF_WORD)
  {
    Follows(p.gap, rest);
    match p
    case Name(name, gap) =>
      Regroup(name, Spaces(gap), rest);
      NameFirst(name, Spaces(gap) + rest, rest);
    case Number(digits, gap) =>
      Regroup(digits, Spaces(gap), rest);
      StartsWith(digits, Spaces(gap) + rest);
      NotLetterFirst(digits + (Spaces(gap) + rest));
  }

  lemma NameFirst(name: string, after: string, rest: string)
    requires NameOk(name) && Trim(after) == rest && OperatorNext(rest) && (after != "" ==> !IsNameChar(after[0]))
    ensures !AssignNext(name + after) && !WordNext(name + after, IF_WORD)
  {
    ReadNameIs(name, after);
    var s := name + after;
    assert s[0] == name[0];
    if |name| == 1 {
      assert after != "" ==> s[1] == after[0];
    } else if |name| == 2 {
      assert name == [s[0], s[1]];
    } else {
      assert s[1] == name[1] && s[2] == name[2];
    }
  }

  /** Every legal line, printed with any legal spacing, is read back as itself. */
  lemma ReadsPrinted(line: Line)
    requires StatementOk(line.statement)
    ensures Parse(Print(line)) == Some(line)
  {
    var s := line.statement;
    StatementPrinted(s);
    Follows(line.lead, PrintStatement(s));
  }

  lemma StatementPrinted(s: Statement)
    requires StatementOk(s)
    ensures ParseStatement(PrintStatement(s)) == Some(Parsed(s, "")) && Flush(PrintStatement(s))
  {
    match s
    case Assign(_, _, _, _) => AssignPrinted(s);
    case If(_, _, _, _, _, _, _, _, _) => IfPrinted(s);
    case Value(e) =>
      ExprNoAssign(e);
      ExprStart(e);
      ExprPrinted(e, "");
      NoMore(PrintExpr(e));
  }

  // ----- what was read is what was printed

  lemma PrimaryRead(s: string)
    requires ParsePrimary(s).Some?
    ensures var r := ParsePrimary(s).value;
            PrimaryOk(r.tree) && s == PrintPrimary(r.tree) + r.rest && MayFollow(r.tree, r.rest)
  {
    var n := ReadName(s);
    var k := if n.Some? then n.value else DigitRun(s);
    assert s == s[..k] + s[k..];
    TrimSplits(s[k..]);
    Regroup(s[..k], Spaces(Gap(s[k..])), Trim(s[k..]));
    GapNone(s[k..]);
  }

  lemma GapNone(s: string)
    ensures Gap(s) == 0 ==> Trim(s) == s
  {
  }

  /** One character taken and the spaces after it. */
  lemma CharSplits(s: string)
    requires s != ""
    ensures s == [s[0]] + (Spaces(Gap(s[1..])) + Trim(s[1..])) && Flush(Trim(s[1..]))
  {
    TrimSplits(s[1..]);
    assert s == [s[0]] + s[1..];
  }

  lemma {:induction false} UnaryRead(s: string)
    requires ParseUnary(s).Some?
    ensures var r := ParseUnary(s).value;
            UnaryOk(r.tree) && s == PrintUnary(r.tree) + r.rest && AfterUnary(r.tree, r.rest)
    decreases |s|
  {
    var r := ParseUnary(s).value;
    if IsSign(s[0]) {
      CharSplits(s);
      UnaryRead(Trim(s[1..]));
      var p := ParseUnary(Trim(s[1..])).value;
      assert SignChar(s[0] == '-') == s[0];
      RegroupFour([s[0]], Spaces(Gap(s[1..])), PrintUnary(p.tree), p.rest);
    } else {
      PrimaryRead(s);
      var b := ParsePrimary(s).value;
      if b.rest != "" && b.rest[0] == '^' {
        CharSplits(b.rest);
        UnaryRead(Trim(b.rest[1..]));
        var e := ParseUnary(Trim(b.rest[1..])).value;
        RegroupFive(PrintPrimary(b.tree), ['^'], Spaces(Gap(b.rest[1..])), PrintUnary(e.tree), e.rest);
      }
    }
  }

  lemma {:induction false} TermRestRead(left: Term, s: string)
    requires TermOk(left) && MayFollow(LastOfTerm(left), s) && NotPower(s) && TermRest(left, s).Some?
    ensures var r := TermRest(left, s).value;
            TermOk(r.tree) && PrintTerm(left) + s == PrintTerm(r.tree) + r.rest && AfterTerm(r.tree, r.rest)
    decreases |s|
  {
    if s != "" && (s[0] == '*' || s[0] == '/') {
      CharSplits(s);
      UnaryRead(Trim(s[1..]));
      var p := ParseUnary(Trim(s[1..])).value;
      var next := Product(left, s[0] == '*', Gap(s[1..]), p.tree);
      assert [if s[0] == '*' then '*' else '/'] == [s[0]];
      RegroupFive(PrintTerm(left), [s[0]], Spaces(Gap(s[1..])), PrintUnary(p.tree), p.rest);
      TermRestRead(next, p.rest);
    }
  }

  lemma TermRead(s: string)
    requires ParseTerm(s).Some?
    ensures var r := ParseTerm(s).value;
            TermOk(r.tree) && s == PrintTerm(r.tree) + r.rest && AfterTerm(r.tree, r.rest)
  {
    UnaryRead(s);
    var p := ParseUnary(s).value;
    TermRestRead(One(p.tree), p.rest);
  }

  lemma {:induction false} ExprRestRead(left: Expr, s: string)
    requires ExprOk(left) && MayFollow(LastOfExpr(left), s) && (s == "" || s[0] !in {'^', '*', '/'}) && ExprRest(left, s).Some?
    ensures var r := ExprRest(left, s).value;
            ExprOk(r.tree) && PrintExpr(left) + s == PrintExpr(r.tree) + r.rest && AfterExpr(r.tree, r.rest)
    decreases |s|
  {
    if s != "" && IsSign(s[0]) {
      CharSplits(s);
      TermRead(Trim(s[1..]));
      var p := ParseTerm(Trim(s[1..])).value;
      var next := Sum(left, s[0] == '+', Gap(s[1..]), p.tree);
      assert SignChar(!(s[0] == '+')) == s[0];
      RegroupFive(PrintExpr(left), [s[0]], Spaces(Gap(s[1..])), PrintTerm(p.tree), p.rest);
      ExprRestRead(next, p.rest);
    }
  }

  lemma ExprRead(s: string)
    requires ParseExpr(s).Some?
    ensures var r := ParseExpr(s).value;
            ExprOk(r.tree) && s == PrintExpr(r.tree) + r.rest && AfterExpr(r.tree, r.rest)
  {
    TermRead(s);
    var p := ParseTerm(s).value;
    ExprRestRead(Just(p.tree), p.rest);
  }

  /** An expression after a gap: the text it was read from. */
  lemma GapExprRead(s: string)
    requires ParseExpr(Trim(s)).Some?
    ensures var r := ParseExpr(Trim(s)).value;
            ExprOk(r.tree) && s == Spaces(Gap(s)) + (PrintExpr(r.tree) + r.rest) && AfterExpr(r.tree, r.rest)
  {
    TrimSplits(s);
    ExprRead(Trim(s));
  }

  /** A keyword and the expression after it: they do not run together. */
  lemma WordRead(s: string, word: string)
    requires word != "" && WordNext(s, word) && ParseExpr(Trim(s[|word|..])).Some?
    ensures var t := s[|word|..];
            var r := ParseExpr(Trim(t)).value;
            && ExprOk(r.tree) && AfterExpr(r.tree, r.rest) && KeywordGap(Gap(t), r.tree)
            && s == word + (Spaces(Gap(t)) + (PrintExpr(r.tree) + r.rest))
  {
    var t := s[|word|..];
    assert s == word + t;
    GapExprRead(t);
    var r := ParseExpr(Trim(t)).value;
    ExprStart(r.tree);
    StartsWith(PrintExpr(r.tree), r.rest);
    GapNone(t);
    if t != "" { assert t[0] == s[|word|]; }
  }

  lemma ComparisonRead(s: string)
    requires ParseComparison(s).Some?
    ensures var r := ParseComparison(s).value; s == Symbol(r.tree) + r.rest
  {
    if |s| > 1 { assert s == [s[0], s[1]] + s[2..]; }
    assert s == [s[0]] + s[1..];
  }

  /** An expression that stops at a keyword does not run into it. */
  lemma StoppedByWord(e: Expr, rest: string, word: string)
    requires AfterExpr(e, rest) && word != "" && IsNameChar(word[0]) && WordNext(rest, word)
    ensures BeforeKeyword(e)
  {
    assert rest[0] == word[0];
  }

  lemma IfReadBack(s: string)
    requires WordNext(s, IF_WORD) && ParseIf(s[|IF_WORD|..]).Some?
    ensures var r := ParseIf(s[|IF_WORD|..]).value;
            StatementOk(r.tree) && (r.rest == "" ==> s == PrintStatement(r.tree))
  {
    var afterIf := s[|IF_WORD|..];
    WordRead(s, IF_WORD);
    var left := ParseExpr(Trim(afterIf)).value;
    ComparisonRead(left.rest);
    var how := ParseComparison(left.rest).value;
    GapExprRead(how.rest);
    var right := ParseExpr(Trim(how.rest)).value;
    StoppedByWord(right.tree, right.rest, THEN_WORD);
    WordRead(right.rest, THEN_WORD);
    var afterThen := right.rest[|THEN_WORD|..];
    var yes := ParseExpr(Trim(afterThen)).value;
    StoppedByWord(yes.tree, yes.rest, ELSE_WORD);
    WordRead(yes.rest, ELSE_WORD);
    var no := ParseExpr(Trim(yes.rest[|ELSE_WORD|..])).value;
    NoMore(PrintExpr(no.tree));
  }

  lemma AssignReadBack(s: string)
    requires AssignNext(s) && ParseStatement(s).Some?
    ensures var r := ParseStatement(s).value;
            StatementOk(r.tree) && (r.rest == "" ==> s == PrintStatement(r.tree))
  {
    var n := ReadName(s).value;
    var t := Trim(s[n..]);
    Cut(s, n);
    TrimSplits(s[n..]);
    Cut(t, 1);
    assert t[..1] == "=";
    var e := ParseExpr(Trim(t[1..])).value;
    GapExprRead(t[1..]);
    NoMore(PrintExpr(e.tree));
    AssignGlue(s, s[..n], s[n..], Gap(s[n..]), t, t[1..], Gap(t[1..]), PrintExpr(e.tree) + e.rest);
  }

  lemma Cut(s: string, n: nat)
    requires n <= |s|
    ensures s == s[..n] + s[n..]
  {
  }

  lemma AssignGlue(s: string, name: string, afterName: string, gapName: nat, equals: string, tail: string,
                   gapEqual: nat, body: string)
    requires s == name + afterName && afterName == Spaces(gapName) + equals && equals == "=" + tail && tail == Spaces(gapEqual) + body
    ensures s == name + (Spaces(gapName) + ("=" + (Spaces(gapEqual) + body)))
  {
  }

  lemma StatementRead(s: string)
    requires ParseStatement(s).Some?
    ensures var r := ParseStatement(s).value;
            StatementOk(r.tree) && (r.rest == "" ==> s == PrintStatement(r.tree))
  {
    if AssignNext(s) {
      AssignReadBack(s);
    } else if WordNext(s, IF_WORD) {
      IfReadBack(s);
    } else {
      ExprRead(s);
      NoMore(PrintExpr(ParseExpr(s).value.tree));
    }
  }

  /** What the parser accepts is exactly the printed legal lines, and it knows
      which. */
  lemma ReadsOnlyPrinted(text: string)
    requires Parse(text).Some?
    ensures StatementOk(Parse(text).value.statement) && Print(Parse(text).value) == text
  {
    TrimSplits(text);
    StatementRead(Trim(text));
  }
}

// The recursive descent evaluator: it agrees with the exact value of the tree the
// line prints, or refuses and changes nothing (kernel/src/calc.c).
module Calc {
  import opened Common
  import opened CalcArith
  import opened CalcSyntax
  import opened CalcValue
  import opened CalcVars
  import opened CalcRoundTrip
  import opened CalcEval

  const LENGTH_MAX: nat := 255

  ghost predicate TableOk(vars: Vars?)
    reads vars, if vars == null then {} else {vars.names, vars.values}
  {
    vars != null ==> vars.Valid()
  }

  /** The names a line can use. */
  ghost function NamesOf(vars: Vars?): (env: Env)
    requires TableOk(vars)
    reads vars, if vars == null then {} else {vars.names, vars.values}
  {
    if vars == null then map[] else vars.Env()
  }

  class Parser {
    const text: string
    const vars: Vars?
    var pos: nat
    var ok: bool
    /** The name the line assigns to, or empty. */
    var assign: string

    constructor (text: string, vars: Vars?)
      requires |text| <= LENGTH_MAX
      ensures this.text == text && this.vars == vars && pos == 0 && ok && assign == ""
    {
      this.text, this.vars, pos, ok, assign := text, vars, 0, true, "";
    }

    ghost predicate Valid()
      reads this, vars, if vars == null then {} else {vars.names, vars.values}
    {
      pos <= |text| <= LENGTH_MAX && TableOk(vars)
    }

    /** The text from here, spaces aside. */
    ghost function Rest(): string
      requires pos <= |text|
      reads this
    {
      Trim(text[pos..])
    }

    /** `skip_spaces`. */
    method SkipSpaces()
      requires Valid()
      modifies this`pos
      ensures Valid() && old(pos) <= pos && text[pos..] == old(Rest()) && Rest() == old(Rest())
    {
      ghost var start := text[pos..];
      while pos < |text| && text[pos] == ' '
        invariant Valid() && old(pos) <= pos && Trim(text[pos..]) == Trim(start)
      {
        assert text[pos..][1..] == text[pos + 1..];
        pos := pos + 1;
      }
    }

    /** `peek`. */
    method Peek() returns (c: char)
      requires Valid()
      modifies this`pos
      ensures Valid() && old(pos) <= pos && text[pos..] == old(Rest()) && Rest() == old(Rest())
      ensures c == if Rest() == "" then '\0' else Rest()[0]
    {
      SkipSpaces();
      c := if pos < |text| then text[pos] else '\0';
    }

    /** One character consumed, at a place no space stands. */
    method Take()
      requires Valid() && pos < |text|
      modifies this`pos
      ensures Valid() && pos == old(pos) + 1 && text[pos..] == old(text[pos..])[1..]
    {
      pos := pos + 1;
    }

    /** `peek` at a character and, when it is the one looked for, past it. */
    method TakeIf(c: char) returns (taken: bool)
      requires Valid() && c != '\0'
      modifies this`pos
      ensures Valid() && old(pos) <= pos && (taken ==> old(pos) < pos)
      ensures taken <==> old(Rest()) != "" && old(Rest())[0] == c
      ensures Rest() == if taken then Trim(old(Rest())[1..]) else old(Rest())
    {
      var next := Peek();
      taken := next == c;
      if taken { Take(); }
    }

    /** `parse_number`. */
    method Number() returns (v: int)
      requires Valid() && ok
      modifies this`pos, this`ok
      ensures Valid() && old(pos) <= pos && YieldsNumber(old(Rest()), ok, v, Rest())
    {
      SkipSpaces();
      ghost var s := text[pos..];
      if pos >= |text| || !IsDigit(text[pos]) {
        NumberMissing(s);
        ok := false;
        return 0;
      }
      v := ReadDigits();
      NumberCounted(s, ok, v, text[pos..]);
    }

    /** The digits of a number, as long as they last. */
    method ReadDigits() returns (v: int)
      requires Valid() && ok
      modifies this`pos, this`ok
      ensures Valid() && old(pos) <= pos && YieldsDigits(old(text[pos..]), ok, v, text[pos..])
    {
      ghost var s, start := text[pos..], pos;
      v := 0;
      while pos < |text| && IsDigit(text[pos])
        invariant Valid() && ok && start <= pos && pos - start <= DigitRun(s)
        invariant v == DigitsValue(s[..pos - start]) && Fits(v)
      {
        ghost var n := pos - start;
        assert s[n] == text[pos];
        NextDigit(s, n);
        var sum := AppendDigit(v, text[pos]);
        if sum.None? {
          DigitsGrow(s, n + 1, DigitRun(s));
          ok := false;
          return 0;
        }
        v := sum.value;
        pos := pos + 1;
      }
      RunEnds(s, pos - start, text, start);
    }

    /** The characters of a name from here, unless there are too many. */
    method ReadNameChars() returns (fits: bool, name: string)
      requires Valid()
      modifies this`pos
      ensures Valid() && old(pos) <= pos && CharsTaken(old(text[pos..]), fits, name, text[pos..])
    {
      ghost var s, start := text[pos..], pos;
      name := "";
      while pos < |text| && IsNameChar(text[pos])
        invariant Valid() && start <= pos && pos - start == |name| <= VARS_MAX_NAME
        invariant name == text[start..pos] && |name| <= NameRun(s)
      {
        assert s[|name|] == text[pos];
        NameGoesOn(s, |name|);
        if |name| >= VARS_MAX_NAME {
          CharsAre(s, false, "", text[pos..]);
          return false, "";
        }
        name := name + [text[pos]];
        pos := pos + 1;
      }
      NameEnds(s, |name|, text, start);
      CharsAre(s, true, name, text[pos..]);
      fits := true;
    }

    /** `read_name`: a name taken, or the place left as it was. */
    method TakeName() returns (found: bool, name: string)
      requires Valid()
      modifies this`pos
      ensures Valid() && old(pos) <= pos && NameTaken(old(Rest()), found, name, Rest())
      ensures !found ==> Rest() == old(Rest())
    {
      SkipSpaces();
      found, name := NameHere();
    }

    /** A name that starts here. */
    method NameHere() returns (found: bool, name: string)
      requires Valid()
      modifies this`pos
      ensures Valid() && old(pos) <= pos
      ensures if found then NameTaken(old(text[pos..]), true, name, Rest())
              else pos == old(pos) && NameTaken(text[pos..], false, name, text[pos..])
    {
      ghost var s := text[pos..];
      var start := pos;
      if pos >= |text| || !IsLetter(text[pos]) {
        NoLetter(s);
        return false, "";
      }
      var fits;
      fits, name := ReadNameChars();
      NameIs(s, fits, name, text[pos..]);
      if !fits || IsKeyword(name) {
        pos := start;
        return false, "";
      }
      return true, name;
    }

    /** `vars_get`, with no table at all when there is none. */
    method LookUp(name: string) returns (known: bool, v: int)
      requires Valid()
      ensures known <==> name in NamesOf(vars)
      ensures known ==> v == NamesOf(vars)[name] && Fits(v)
    {
      if vars == null { return false, 0; }
      known, v := vars.Get(name);
    }

    /** `parse_primary`. */
    method Primary() returns (v: int)
      requires Valid() && ok
      modifies this`pos, this`ok
      ensures Valid() && old(pos) <= pos
      ensures Yields(PrimaryRule, old(Rest()), NamesOf(vars), ok, v, Rest())
    {
      ghost var s, names := Rest(), NamesOf(vars);
      var found, name := TakeName();
      if found {
        ok, v := LookUp(name);
        PrimaryNamed(s, names, name, Rest(), ok, v);
        return;
      }
      NameNotTaken(s, name, Rest());
      v := Number();
      PrimaryCounted(s, names, ok, v, Rest());
    }

    /** `parse_power`. */
    method Power() returns (v: int)
      requires Valid() && ok && !SignNext(Rest())
      modifies this`pos, this`ok
      ensures Valid() && old(pos) <= pos
      ensures Yields(UnaryRule, old(Rest()), NamesOf(vars), ok, v, Rest())
      decreases |text| - pos, 0
    {
      ghost var s, names := Rest(), NamesOf(vars);
      var base := Primary();
      ghost var rest := Rest();
      if !ok {
        UnaryPlain(s, names, ok, base, rest);
        return 0;
      }
      OperandFits(PrimaryRule, s, names, base, rest);
      var raised := TakeIf('^');
      if !raised {
        UnaryPlain(s, names, ok, base, rest);
        return base;
      }
      var exponent := Unary();
      ghost var okInner, after := ok, Rest();
      v := RaiseTo(base, exponent, Trim(rest[1..]), after);
      UnaryRaised(s, names, base, rest, okInner, exponent, after, ok, v);
    }

    /** `pow_checked` on what was read. */
    method RaiseTo(base: int, exponent: int, ghost s: string, ghost after: string) returns (v: int)
      requires Valid() && Fits(base) && Yields(UnaryRule, s, NamesOf(vars), ok, exponent, after)
      modifies this`ok
      ensures Valid() && Rest() == old(Rest())
      ensures if old(ok) then Becomes(PowerOf(base, exponent), ok, v) else !ok
    {
      if !ok { return 0; }
      OperandFits(UnaryRule, s, NamesOf(vars), exponent, after);
      var power, turns := PowChecked(base, exponent);
      ok := power.Some?;
      v := if ok then power.value else 0;
    }

    /** A sign, taken, when the text goes on with one. */
    method TakeSign() returns (c: char)
      requires Valid()
      modifies this`pos
      ensures Valid() && old(pos) <= pos
      ensures var s := old(Rest());
              if SignNext(s) then c == s[0] && IsSign(c) && old(pos) < pos && Rest() == Trim(s[1..])
              else c == '\0' && Rest() == s
    {
      c := Peek();
      if !IsSign(c) { return '\0'; }
      Take();
    }

    /** `parse_unary`. */
    method Unary() returns (v: int)
      requires Valid() && ok
      modifies this`pos, this`ok
      ensures Valid() && old(pos) <= pos
      ensures Yields(UnaryRule, old(Rest()), NamesOf(vars), ok, v, Rest())
      decreases |text| - pos, 1
    {
      ghost var s := Rest();
      var c := TakeSign();
      if c == '\0' {
        v := Power();
        return;
      }
      var inner := Unary();
      v := SignedAs(c, inner, s);
    }

    /** The sign the text starts with, put to what was read after it. */
    method SignedAs(c: char, inner: int, ghost s: string) returns (v: int)
      requires Valid() && s != "" && c == s[0] && IsSign(c)
      requires Yields(UnaryRule, Trim(s[1..]), NamesOf(vars), ok, inner, Rest())
      modifies this`ok
      ensures Valid() && Yields(UnaryRule, s, NamesOf(vars), ok, v, Rest())
    {
      ghost var names, okInner, after := NamesOf(vars), ok, Rest();
      v := Sign(c, inner, Trim(s[1..]), after);
      assert NamesOf(vars) == names;
      UnarySigned(s, names, okInner, inner, after, ok, v);
    }

    /** A sign on what was read: a minus is a subtraction from zero. */
    method Sign(c: char, inner: int, ghost s: string, ghost after: string) returns (v: int)
      requires Valid() && IsSign(c) && Yields(UnaryRule, s, NamesOf(vars), ok, inner, after)
      modifies this`ok
      ensures Valid() && Rest() == old(Rest())
      ensures if old(ok) then Becomes(Negated(c == '-', inner), ok, v) else !ok
    {
      if !ok { return 0; }
      OperandFits(UnaryRule, s, NamesOf(vars), inner, after);
      if c != '-' { return inner; }
      var minus := SubChecked(0, inner);
      ok := minus.Some?;
      v := if ok then minus.value else 0;
    }

    /** The operator a loop goes on with, taken; or the end of the loop. */
    method TakeOperator(rule: Rule) returns (c: char)
      requires Valid() && rule in {TermRule, ExprRule}
      modifies this`pos
      ensures Valid() && old(pos) <= pos
      ensures var s := old(Rest());
              if s != "" && OperatorOf(rule, s[0]) then c == s[0] && old(pos) < pos && Rest() == Trim(s[1..])
              else c == '\0' && Rest() == s
    {
      c := Peek();
      if !OperatorOf(rule, c) { return '\0'; }
      Take();
    }

    /** The checked operation of a loop. */
    method Operate(rule: Rule, c: char, left: int, right: int, ghost s: string, ghost after: string) returns (v: int)
      requires Valid() && rule in {TermRule, ExprRule} && OperatorOf(rule, c) && Fits(left)
      requires ok && Yields(Operand(rule), s, NamesOf(vars), true, right, after)
      modifies this`ok
      ensures Valid() && Rest() == old(Rest()) && Becomes(Applied(rule, c, left, right), ok, v)
    {
      OperandFits(Operand(rule), s, NamesOf(vars), right, after);
      var r := if c == '*' then MulChecked(left, right) else if c == '/' then DivChecked(left, right)
               else if c == '+' then AddChecked(left, right) else SubChecked(left, right);
      ok := r.Some?;
      v := if ok then r.value else 0;
    }

    /** `parse_term`. */
    method Term() returns (v: int)
      requires Valid() && ok
      modifies this`pos, this`ok
      ensures Valid() && old(pos) <= pos && Yields(TermRule, old(Rest()), NamesOf(vars), ok, v, Rest())
    {
      ghost var s, names := Rest(), NamesOf(vars);
      v := Unary();
      LoopBegins(TermRule, s, names, ok, v, Rest());
      while ok
        invariant Valid() && old(pos) <= pos && Looping(TermRule, s, names, ok, v, Rest())
        decreases ok, |text| - pos
      {
        ghost var rest := Rest();
        var c := TakeOperator(TermRule);
        if c == '\0' {
          LoopStops(TermRule, s, names, v, rest);
          return;
        }
        var right := Unary();
        ghost var okInner, after := ok, Rest();
        var left := v;
        if ok { v := Operate(TermRule, c, left, right, Trim(rest[1..]), after); }
        LoopGoesOn(TermRule, s, names, left, rest, okInner, right, after, ok, v);
      }
      LoopFails(TermRule, s, names, v, Rest());
    }

    /** `parse_expression`. */
    method Expression() returns (v: int)
      requires Valid() && ok
      modifies this`pos, this`ok
      ensures Valid() && old(pos) <= pos && Yields(ExprRule, old(Rest()), NamesOf(vars), ok, v, Rest())
    {
      ghost var s, names := Rest(), NamesOf(vars);
      v := Term();
      LoopBegins(ExprRule, s, names, ok, v, Rest());
      while ok
        invariant Valid() && old(pos) <= pos && Looping(ExprRule, s, names, ok, v, Rest())
        decreases ok, |text| - pos
      {
        ghost var rest := Rest();
        var c := TakeOperator(ExprRule);
        if c == '\0' {
          LoopStops(ExprRule, s, names, v, rest);
          return;
        }
        var right := Term();
        ghost var okInner, after := ok, Rest();
        var left := v;
        if ok { v := Operate(ExprRule, c, left, right, Trim(rest[1..]), after); }
        LoopGoesOn(ExprRule, s, names, left, rest, okInner, right, after, ok, v);
      }
      LoopFails(ExprRule, s, names, v, Rest());
    }

    /** Whether the word stands right here and ends where it ends. */
    method WordHere(word: string) returns (here: bool)
      requires Valid()
      ensures here <==> WordNext(text[pos..], word)
      ensures here ==> pos + |word| <= |text|
    {
      var at, i := pos, 0;
      while i < |word|
        invariant i <= |word| && at == pos + i && at <= |text|
        invariant forall k :: 0 <= k < i ==> text[pos + k] == word[k]
      {
        if at >= |text| || text[at] != word[i] {
          WordBroken(text[pos..], word, i);
          return false;
        }
        at := at + 1;
        i := i + 1;
      }
      WordFound(text[pos..], word, text, pos);
      return at >= |text| || !IsNameChar(text[at]);
    }

    /** `match_word`. */
    method MatchWord(word: string) returns (matched: bool)
      requires Valid()
      modifies this`pos
      ensures Valid() && old(pos) <= pos
      ensures matched <==> WordNext(old(Rest()), word)
      ensures Rest() == if matched then Trim(old(Rest())[|word|..]) else old(Rest())
    {
      SkipSpaces();
      matched := WordHere(word);
      if matched { Skip(|word|); }
    }

    method Skip(n: nat)
      requires Valid() && pos + n <= |text|
      modifies this`pos
      ensures Valid() && pos == old(pos) + n && text[pos..] == old(text[pos..])[n..]
    {
      pos := pos + n;
    }

    /** The symbol that stands here. */
    method ReadSymbol() returns (how: Option<Comparison>)
      requires Valid()
      modifies this`pos
      ensures Valid() && old(pos) <= pos
      ensures var r := ParseComparison(old(text[pos..]));
              if r.Some? then how == Some(r.value.tree) && text[pos..] == r.value.rest else how == None
    {
      if pos == |text| { return None; }
      ghost var s := text[pos..];
      var c := text[pos];
      if c == '=' {
        Take();
        if pos < |text| && text[pos] == '=' {
          Take();
          assert s[1..][1..] == s[2..];
          return Some(DoubleEqual);
        }
        return Some(Equal);
      }
      if c == '<' {
        Take();
        return Some(Less);
      }
      if c == '>' {
        Take();
        return Some(Greater);
      }
      return None;
    }

    /** `parse_comparison`. */
    method ReadComparison() returns (how: Option<Comparison>)
      requires Valid()
      modifies this`pos
      ensures Valid() && old(pos) <= pos
      ensures var r := ParseComparison(old(Rest()));
              if r.Some? then how == Some(r.value.tree) && Rest() == Trim(r.value.rest) else how == None
    {
      SkipSpaces();
      how := ReadSymbol();
    }

    /** The condition of an `IF`: an expression, a comparison, an expression. */
    method ReadCondition() returns (holds: bool)
      requires Valid() && ok
      modifies this`pos, this`ok
      ensures Valid() && old(pos) <= pos && YieldsTest(old(Rest()), NamesOf(vars), ok, holds, Rest())
    {
      ghost var s, names := Rest(), NamesOf(vars);
      holds := false;
      var left := Expression();
      ghost var after := Rest();
      if !ok {
        TestRefused(s, names, ok, left, after);
        return;
      }
      var how := ReadComparison();
      if how.None? {
        TestRefused(s, names, ok, left, after);
        ok := false;
        return;
      }
      var right := Expression();
      holds := Holds(how.value, left, right);
      TestMade(s, names, left, after, ok, right, Rest(), holds);
    }

    /** Both branches, because the parser has to read past both. */
    method ReadBranches() returns (yes: int, no: int)
      requires Valid() && ok
      modifies this`pos, this`ok
      ensures Valid() && old(pos) <= pos && YieldsChoice(old(Rest()), NamesOf(vars), ok, yes, no, Rest())
    {
      ghost var s, names := Rest(), NamesOf(vars);
      yes, no := 0, 0;
      var matched := MatchWord(THEN_WORD);
      if !matched {
        ChoiceRefused(s, names);
        ok := false;
        return;
      }
      yes := Expression();
      ghost var after := Rest();
      if !ok {
        ChoiceStuck(s, names, ok, yes, after);
        return;
      }
      matched := MatchWord(ELSE_WORD);
      if !matched {
        ChoiceStuck(s, names, ok, yes, after);
        ok := false;
        return;
      }
      no := Expression();
      ChoiceMade(s, names, yes, after, ok, no, Rest());
    }

    /** The start of an assignment, taken; or the place left as it was. */
    method TakeAssignment() returns (found: bool, name: string)
      requires Valid()
      modifies this`pos
      ensures Valid() && old(pos) <= pos
      ensures AssignTaken(old(Rest()), found, name, Rest())
      ensures !found ==> Rest() == old(Rest())
    {
      ghost var s := Rest();
      var start := pos;
      found, name := TakeName();
      ghost var rest := Rest();
      if found {
        var taken := TakeEquals();
        if taken {
          AssignFound(s, name, rest, Rest());
          return;
        }
      }
      AssignMissing(s, found, name, rest);
      pos := start;
      return false, "";
    }

    /** One equals sign and not two, taken. */
    method TakeEquals() returns (taken: bool)
      requires Valid()
      modifies this`pos
      ensures Valid() && old(pos) <= pos
      ensures taken <==> SingleEquals(old(Rest()))
      ensures taken ==> Rest() == Trim(old(Rest())[1..])
    {
      SkipSpaces();
      taken := EqualsHere();
      if taken { Take(); }
    }

    method EqualsHere() returns (here: bool)
      requires Valid()
      ensures here <==> SingleEquals(text[pos..])
    {
      return pos < |text| && text[pos] == '=' && (pos + 1 >= |text| || text[pos + 1] != '=');
    }

    /** `parse_statement`. */
    method StatementLine() returns (v: int)
      requires Valid() && ok && assign == ""
      modifies this`pos, this`ok, this`assign
      ensures Valid() && YieldsLine(old(Rest()), NamesOf(vars), ok, v, Rest(), assign)
    {
      ghost var s, names := Rest(), NamesOf(vars);
      var found, name := TakeAssignment();
      ghost var value := Rest();
      if found {
        v := Expression();
        LineAssigns(s, names, name, value, ok, v, Rest());
        assign := name;
        return;
      }
      var conditional := MatchWord(IF_WORD);
      if !conditional {
        v := Expression();
        LineIsValue(s, names, name, value, ok, v, Rest());
        return;
      }
      var holds := ReadCondition();
      ghost var after := Rest();
      if !ok {
        LineRefused(s, names, name, value, holds, after);
        return 0;
      }
      var yes, no := ReadBranches();
      v := if holds then yes else no;
      LineChooses(s, names, name, value, holds, after, ok, yes, no, Rest(), v);
    }
  }

  lemma OperandFits(rule: Rule, s: string, env: Env, v: int, after: string)
    requires Yields(rule, s, env, true, v, after)
    ensures Fits(v)
  {
    Opened(rule, s, env, true, v, after);
  }

  lemma NameGoesOn(s: string, n: nat)
    requires n < |s| && n <= NameRun(s) && IsNameChar(s[n])
    ensures n < NameRun(s)
  {
  }

  lemma NameEnds(s: string, n: nat, text: string, start: nat)
    requires start + n <= |text| && s == text[start..] && n <= NameRun(s)
    requires start + n == |text| || !IsNameChar(text[start + n])
    ensures n == NameRun(s) && s[..n] == text[start..start + n] && s[n..] == text[start + n..]
  {
    assert n < |s| ==> s[n] == text[start + n];
  }

  /** One digit more, by the checked operations. */
  function AppendDigit(v: int, c: char): (r: Option<int>)
    requires Fits(v) && v >= 0 && IsDigit(c)
    ensures r == Checked(v * 10 + (c as int - '0' as int))
  {
    var tens := MulChecked(v, 10);
    if tens.None? then None else AddChecked(tens.value, c as int - '0' as int)
  }

  /** The run goes on while digits do. */
  lemma NextDigit(s: string, n: nat)
    requires n < |s| && n <= DigitRun(s) && IsDigit(s[n])
    ensures n < DigitRun(s)
    ensures DigitsValue(s[..n + 1]) == DigitsValue(s[..n]) * 10 + (s[n] as int - '0' as int)
  {
    assert s[..n + 1][..n] == s[..n];
  }

  /** More digits never make a number smaller. */
  lemma {:induction false} DigitsGrow(s: string, n: nat, m: nat)
    requires n <= m <= DigitRun(s)
    ensures DigitsValue(s[..n]) <= DigitsValue(s[..m])
    decreases m
  {
    if n < m {
      DigitsGrow(s, n, m - 1);
      assert s[..m][..m - 1] == s[..m - 1];
    }
  }

  lemma RunEnds(s: string, n: nat, text: string, start: nat)
    requires start + n <= |text| && s == text[start..] && n <= DigitRun(s)
    requires start + n == |text| || !IsDigit(text[start + n])
    ensures n == DigitRun(s) && s[n..] == text[start + n..]
  {
    assert n < |s| ==> s[n] == text[start + n];
  }

  lemma WordBroken(s: string, word: string, i: nat)
    requires i < |word| && (i >= |s| || s[i] != word[i])
    ensures !WordNext(s, word)
  {
    if |word| <= |s| { assert s[..|word|][i] == s[i] != word[i]; }
  }

  lemma WordFound(s: string, word: string, text: string, pos: nat)
    requires pos + |word| <= |text| && s == text[pos..] && forall k :: 0 <= k < |word| ==> text[pos + k] == word[k]
    ensures word <= s && s[|word|..] == text[pos + |word|..]
    ensures |s| > |word| <==> pos + |word| < |text|
    ensures |s| > |word| ==> s[|word|] == text[pos + |word|]
  {
  }

  /** The names and the length a line is evaluated with, and where its answer
      goes. */
  ghost predicate LineAnswer(text: string, env: Env, env': Env, table: bool, ok: bool, before: int, out: int) {
    match Parse(text)
    case None => !ok && env' == env && out == before
    case Some(line) =>
      StatementOk(line.statement) &&
      match StatementValue(line.statement, env)
      case None => !ok && env' == env && out == before
      case Some(v) =>
        var name := Assigned(line.statement);
        if name == "" then ok && env' == env && out == v
        else if table && (name in env || |env| < VARS_MAX) then ok && env' == env[name := v] && out == v
        else !ok && env' == env && out == before
  }

  /** `calc_evaluate`: for every text of up to 255 characters, the value of the
      line it prints, stored when it assigns; or refused, with neither the
      variables nor the answer touched. */
  method Evaluate(text: string, vars: Vars?, before: int) returns (ok: bool, out: int)
    requires |text| <= LENGTH_MAX && TableOk(vars)
    modifies if vars == null then {} else {vars, vars.names, vars.values}
    ensures TableOk(vars) && LineAnswer(text, old(NamesOf(vars)), NamesOf(vars), vars != null, ok, before, out)
  {
    if |text| == 0 {
      NothingThere();
      return false, before;
    }
    var parser := new Parser(text, vars);
    var value := parser.StatementLine();
    ghost var rest := parser.Rest();
    parser.SkipSpaces();
    var whole := parser.ok && parser.pos == |text|;
    LineRead(text, NamesOf(vars), parser.ok, value, rest, parser.assign);
    if !whole { return false, before; }
    if parser.assign != "" {
      var stored := Store(vars, parser.assign, value);
      if !stored { return false, before; }
    }
    return true, value;
  }

  /** `vars_set`, with no table at all when there is none. */
  method Store(vars: Vars?, name: string, value: int) returns (ok: bool)
    requires TableOk(vars) && Fits(value)
    modifies if vars == null then {} else {vars, vars.names, vars.values}
    ensures TableOk(vars)
    ensures ok <==> vars != null && NameFits(name) && (name in old(NamesOf(vars)) || |old(NamesOf(vars))| < VARS_MAX)
    ensures NamesOf(vars) == if ok then old(NamesOf(vars))[name := value] else old(NamesOf(vars))
  {
    if vars == null { return false; }
    ok := vars.Set(name, value);
  }

  lemma NothingThere()
    ensures Parse("") == None
  {
    assert Trim("") == "";
  }

  /** A line that was worked out is the printed line it was read from. */
  lemma LineRead(text: string, env: Env, ok: bool, v: int, rest: string, assign: string)
    requires text != "" && YieldsLine(Trim(text), env, ok, v, rest, assign) && Trim(text[0..]) == Trim(text)
    ensures match Parse(text)
            case None => !ok || rest != ""
            case Some(line) =>
              && StatementOk(line.statement)
              && match StatementValue(line.statement, env)
                 case None => !ok
                 case Some(w) => ok && rest == "" && v == w && Fits(v) && assign == Assigned(line.statement) &&
                                 (assign != "" ==> NameFits(assign))
  {
    var s := Trim(text);
    assert IsLine(EvalStatement(s, env), s, env);
    StatementAgrees(s, env);
  }

  /** Every legal line, printed with any legal spacing: the answer is its exact
      value when every intermediate value fits in 64 bits, every name is known,
      no divisor is zero and no exponent negative, and there is room for the name
      it assigns; otherwise it is refused and nothing changes. */
  lemma PrintedAnswer(line: Line, env: Env, env': Env, table: bool, ok: bool, before: int, out: int)
    requires StatementOk(line.statement) && EnvOk(env)
    requires LineAnswer(Print(line), env, env', table, ok, before, out)
    ensures var s := line.statement;
            var room := Assigned(s) == "" || (table && (Assigned(s) in env || |env| < VARS_MAX));
            if StatementFits(s, env) && room
            then
              && ok && ExactStatement(s, env) == Some(out)
              && env' == if Assigned(s) == "" then env else env[Assigned(s) := out]
            else !ok && env' == env && out == before
  {
    ReadsPrinted(line);
    StatementExact(line.statement, env);
  }

  /** A text that no legal line prints is refused. */
  lemma UnprintedRefused(text: string, env: Env, env': Env, table: bool, ok: bool, before: int, out: int)
    requires LineAnswer(text, env, env', table, ok, before, out)
    requires forall line: Line :: StatementOk(line.statement) ==> Print(line) != text
    ensures !ok && env' == env && out == before
  {
    if Parse(text).Some? { ReadsOnlyPrinted(text); }
  }
}

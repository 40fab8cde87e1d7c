// A text buffer edited in place (kernel/src/editor.c).
module Editor {
  import opened EditorText

  const MAX_LINES: nat := 48
  const MAX_COLS: nat := 110

  /** `font_knows`. */
  predicate Knows(c: char) {
    c == ' ' || 'A' <= c <= 'Z' || 'a' <= c <= 'z' || '0' <= c <= '9' || c in "+-=*/^<>.,:_|\\()%"
  }

  /** A row up to its terminator. */
  ghost function Upto(row: seq<char>): (s: string)
    ensures |s| <= |row| && s == row[..|s|] && NUL !in s
    ensures forall k :: 0 <= k < |s| ==> row[k] != NUL
    ensures |s| < |row| ==> row[|s|] == NUL
  {
    if row == [] || row[0] == NUL then [] else [row[0]] + Upto(row[1..])
  }

  lemma {:induction false} UptoIs(row: seq<char>, n: nat)
    requires n < |row| && row[n] == NUL && NUL !in row[..n]
    ensures Upto(row) == row[..n]
  {
    if n > 0 {
      assert row[0] in row[..n] && row[1..][..n - 1] == row[..n][1..];
      UptoIs(row[1..], n - 1);
      assert row[..n] == [row[0]] + row[1..][..n - 1];
    }
  }

  /** A row moved right from a column, with a character in the gap. */
  function MovedRight(was: seq<char>, length: nat, column: nat, ch: char): seq<char>
    requires column <= length < |was| - 1
  {
    was[..column] + [ch] + was[column..length + 1] + was[length + 2..]
  }

  /** Half way: moved right from place `i`. */
  function ShiftedRight(was: seq<char>, length: nat, i: nat): seq<char>
    requires i <= length + 1 < |was|
  {
    was[..i + 1] + was[i..length + 1] + was[length + 2..]
  }

  lemma Shift0(was: seq<char>, length: nat)
    requires length + 1 < |was|
    ensures ShiftedRight(was, length, length + 1) == was
  {
  }

  lemma ShiftNext(was: seq<char>, length: nat, i: nat)
    requires 0 < i <= length + 1 < |was|
    ensures var row := ShiftedRight(was, length, i);
            |row| == |was| && row[i := row[i - 1]] == ShiftedRight(was, length, i - 1)
  {
  }

  lemma ShiftEnd(was: seq<char>, length: nat, column: nat, ch: char)
    requires column <= length < |was| - 1
    ensures var row := ShiftedRight(was, length, column);
            |row| == |was| && row[column := ch] == MovedRight(was, length, column, ch)
  {
  }

  lemma PutInIs(was: seq<char>, column: nat, ch: char)
    requires column <= |Upto(was)| < |was| - 1 && ch != NUL
    ensures Upto(MovedRight(was, |Upto(was)|, column, ch)) == Inserted(Upto(was), column, ch)
  {
    var row, line := MovedRight(was, |Upto(was)|, column, ch), Inserted(Upto(was), column, ch);
    forall k | 0 <= k < |line| ensures row[k] == line[k] != NUL { }
    assert row[..|line|] == line;
    UptoIs(row, |line|);
  }

  lemma Back0(was: seq<char>, length: nat, column: nat)
    requires column < length < |was|
    ensures MovedLeft(was, column, column) == was
  {
  }

  lemma BackNext(was: seq<char>, column: nat, i: nat)
    requires column <= i < |was| - 1
    ensures var row := MovedLeft(was, i, column);
            |row| == |was| && row[i := row[i + 1]] == MovedLeft(was, i + 1, column)
  {
  }

  /** A row moved left over a column, as far as place `length`. */
  function MovedLeft(was: seq<char>, length: nat, column: nat): seq<char>
    requires column <= length < |was|
  {
    was[..column] + was[column + 1..length + 1] + was[length..]
  }

  lemma TakeOutIs(was: seq<char>, column: nat)
    requires column < |Upto(was)| < |was|
    ensures Upto(MovedLeft(was, |Upto(was)|, column)) == Deleted(Upto(was), column)
  {
    var n := |Upto(was)|;
    ShortenedIs(was, n, column);
    UptoIs(MovedLeft(was, n, column), n - 1);
  }

  lemma ShortenedIs(was: seq<char>, n: nat, column: nat)
    requires column < n < |was|
    ensures var row := MovedLeft(was, n, column);
            row[..n - 1] == Deleted(was[..n], column) && row[n - 1] == was[n] && |row| == |was|
    ensures NUL !in was[..n] ==> NUL !in Deleted(was[..n], column)
  {
    assert was[..n][column + 1..] == was[column + 1..n];
  }

  lemma AddedIs(was: seq<char>, row: seq<char>, column: nat, ch: char)
    requires column == |Upto(was)| < |was| - 1 && was[column + 1] == NUL && ch != NUL && row == was[column := ch]
    ensures Upto(row) == Upto(was) + [ch]
  {
    assert row[..column + 1] == Upto(was) + [ch];
    UptoIs(row, column + 1);
  }

  /** A row with another written after its end, terminator and all. */
  lemma AppendIs(a: string, b: seq<char>, row: seq<char>)
    requires NUL !in a && |a| + |Upto(b)| < |row| && |Upto(b)| < |b|
    requires forall c :: 0 <= c <= |a| + |Upto(b)| ==> row[c] == (a + b)[c]
    ensures Upto(row) == a + Upto(b)
  {
    var line := a + Upto(b);
    assert row[..|line|] == line;
    forall c | 0 <= c < |line| ensures line[c] != NUL {
      if c >= |a| { assert Upto(b)[c - |a|] in Upto(b); } else { assert a[c] in a; }
    }
    assert row[|line|] == b[|Upto(b)|];
    UptoIs(row, |line|);
  }

  /** A line that ends inside its row, and holds no break. */
  ghost predicate LineOk(s: string) { |s| <= MAX_COLS && BREAK !in s }

  ghost predicate DocOk(doc: seq<string>) {
    0 < |doc| <= MAX_LINES && forall i :: 0 <= i < |doc| ==> LineOk(doc[i])
  }

  lemma DividedOk(doc: seq<string>, line: nat, column: nat)
    requires DocOk(doc) && line < |doc| < MAX_LINES && column <= |doc[line]|
    ensures DocOk(Divided(doc, line, column))
  {
    var now := Divided(doc, line, column);
    forall i | 0 <= i < |now| ensures LineOk(now[i]) {
      assert LineOk(doc[if i <= line then i else i - 1]);
    }
  }

  lemma JoinedOk(doc: seq<string>, line: nat)
    requires DocOk(doc) && 0 < line < |doc| && |doc[line - 1]| + |doc[line]| <= MAX_COLS
    ensures DocOk(Joined(doc, line))
  {
    var now := Joined(doc, line);
    assert LineOk(doc[line - 1]) && LineOk(doc[line]);
    forall i | 0 <= i < |now| ensures LineOk(now[i]) {
      if i != line - 1 { assert LineOk(doc[if i < line then i else i + 1]); }
    }
  }

  /** A document with a line to be filled at `at`, those below it moved down. */
  ghost function Opened(doc: seq<string>, at: nat, x: string): seq<string>
    requires at <= |doc|
  {
    doc[..at] + [x] + doc[at..]
  }

  lemma Opened0(doc: seq<string>, x: string)
    ensures Opened(doc, |doc|, x) == doc + [x]
  {
  }

  lemma OpenedNext(doc: seq<string>, at: nat, x: string)
    requires 0 < at <= |doc|
    ensures var was := Opened(doc, at, x);
            was[at - 1] == doc[at - 1] && was[at := was[at - 1]] == Opened(doc, at - 1, doc[at - 1])
  {
  }

  /** A document without line `line`, closed up as far as `at`, which is to be filled. */
  ghost function Closed(doc: seq<string>, line: nat, at: nat, x: string): seq<string>
    requires line <= at < |doc|
  {
    doc[..line] + doc[line + 1..at + 1] + [x] + doc[at + 1..]
  }

  lemma ClosedNext(doc: seq<string>, line: nat, at: nat, x: string)
    requires line <= at < |doc| - 1
    ensures var was := Closed(doc, line, at, x);
            was[at + 1] == doc[at + 1] && was[at := was[at + 1]] == Closed(doc, line, at + 1, doc[at + 1])
  {
  }

  lemma ClosedAll(doc: seq<string>, line: nat, x: string)
    requires line < |doc|
    ensures Closed(doc, line, |doc| - 1, x)[..|doc| - 1] == doc[..line] + doc[line + 1..]
  {
  }

  lemma SplitOpened(doc: seq<string>, line: nat, column: nat, x: string)
    requires line < |doc| && column <= |doc[line]|
    ensures Opened(doc, line + 1, x)[line + 1 := doc[line][column..]][line := doc[line][..column]] == Divided(doc, line, column)
  {
  }

  lemma ClosedJoined(doc: seq<string>, line: nat)
    requires 0 < line < |doc|
    ensures var was := doc[line - 1 := doc[line - 1] + doc[line]];
            was[..line] + was[line + 1..] == Joined(doc, line)
  {
  }

  lemma JoinedSays(doc: seq<string>, line: nat)
    requires DocOk(doc) && 0 < line < |doc| && |doc[line - 1]| + |doc[line]| <= MAX_COLS
    ensures var was := doc[line - 1 := doc[line - 1] + doc[line]];
            was[..line] + was[line + 1..] == Joined(doc, line)
    ensures DocOk(Joined(doc, line)) && |Joined(doc, line)| == |doc| - 1 && |doc[line - 1]| <= |Joined(doc, line)[line - 1]|
  {
    JoinedOk(doc, line);
    ClosedJoined(doc, line);
  }

  /** The view moved no further than it must for the cursor's line to be on it; a view of no
      lines starts at the cursor. */
  ghost predicate Nearest(was: nat, top: nat, line: nat, visible: nat) {
    if visible == 0 then top == line
    else
      OnView(top, line, visible) &&
      forall other: nat {:trigger OnView(other, line, visible)} :: OnView(other, line, visible) ==>
        Distance(was, top) <= Distance(was, other)
  }

  predicate OnView(top: nat, line: nat, visible: nat) { top <= line < top + visible }

  function Distance(a: nat, b: nat): nat { if a < b then b - a else a - b }

  function Between(v: int, most: nat): nat { if v < 0 then 0 else if v > most then most else v }

  // ----- what fits

  function Cut(s: string): string { if |s| > MAX_COLS then s[..MAX_COLS] else s }

  /** As much of a document as the buffer holds. */
  ghost function Fitted(doc: seq<string>): (f: seq<string>)
    ensures |f| == if |doc| > MAX_LINES then MAX_LINES else |doc|
  {
    seq(if |doc| > MAX_LINES then MAX_LINES else |doc|,
        r requires 0 <= r < |doc| => Cut(doc[r]))
  }

  /** All of it, when there are not too many lines and none is too long. */
  lemma FitsWhole(doc: seq<string>)
    ensures Fitted(doc) == doc <==> |doc| <= MAX_LINES && forall r :: 0 <= r < |doc| ==> |doc[r]| <= MAX_COLS
  {
    if Fitted(doc) == doc {
      forall r | 0 <= r < |doc| ensures |doc[r]| <= MAX_COLS { assert Fitted(doc)[r] == Cut(doc[r]); }
    }
    if |doc| <= MAX_LINES && forall r :: 0 <= r < |doc| ==> |doc[r]| <= MAX_COLS {
      assert Fitted(doc) == doc;
    }
  }

  /** A text cut short by a break that would have begun a line too many. */
  lemma FittedEarly(text: string, n: nat)
    requires n < |text| && text[n] == BREAK && |Split(text[..n])| == MAX_LINES
    ensures Fitted(Split(text)) == Fitted(Split(text[..n])) && Fitted(Split(text)) != Split(text)
  {
    SplitPrefix(text, n);
    var short, all := Split(text[..n]), Split(text);
    forall r | 0 <= r < MAX_LINES ensures all[r] == short[r] { }
    assert Fitted(all) == Fitted(short);
  }

  lemma {:induction false} SplitHasNoBreaks(text: string)
    ensures forall r :: 0 <= r < |Split(text)| ==> BREAK !in Split(text)[r]
  {
    if text != [] { SplitHasNoBreaks(text[..|text| - 1]); }
  }

  /** What the buffer is like while a text is being read into it. */
  ghost predicate Reading(lines: seq<string>, doc: seq<string>, cut: bool) {
    |lines| == |doc| <= MAX_LINES && lines == Fitted(doc) &&
    (!cut <==> forall r :: 0 <= r < |doc| ==> |doc[r]| <= MAX_COLS)
  }

  lemma ReadBreak(lines: seq<string>, doc: seq<string>, cut: bool)
    requires Reading(lines, doc, cut) && doc != [] && |doc| < MAX_LINES
    ensures Reading(lines + [[]], Grown(doc, BREAK), cut)
  {
    var now := Grown(doc, BREAK);
    forall r | 0 <= r < |doc| ensures now[r] == doc[r] && (lines + [[]])[r] == Cut(now[r]) { assert lines[r] == Fitted(doc)[r]; }
    assert lines + [[]] == Fitted(now);
    if !cut { forall r | 0 <= r < |now| ensures |now[r]| <= MAX_COLS { } }
  }

  lemma ReadChar(lines: seq<string>, doc: seq<string>, cut: bool, c: char)
    requires Reading(lines, doc, cut) && doc != [] && c != BREAK
    ensures var last := |doc| - 1;
            if |lines[last]| < MAX_COLS then Reading(lines[last := lines[last] + [c]], Grown(doc, c), cut)
            else Reading(lines, Grown(doc, c), true)
  {
    var last, now := |doc| - 1, Grown(doc, c);
    assert lines[last] == Fitted(doc)[last] == Cut(doc[last]);
    var after := if |lines[last]| < MAX_COLS then lines[last := lines[last] + [c]] else lines;
    forall r | 0 <= r < |doc| ensures after[r] == Cut(now[r]) {
      assert lines[r] == Fitted(doc)[r] == Cut(doc[r]);
    }
    assert after == Fitted(now);
    if |lines[last]| < MAX_COLS {
      assert forall r :: 0 <= r < |now| && r != last ==> now[r] == doc[r];
      assert |now[last]| == |doc[last]| + 1 <= MAX_COLS;
    }
  }

  /** What fits is whole exactly when its text is the text that was read. */
  lemma Honest(text: string, doc: seq<string>, cut: bool)
    requires doc == Fitted(Split(text)) && (cut <==> doc != Split(text))
    ensures DocOk(doc) && (Flat(doc) == text <==> !cut)
  {
    SplitHasNoBreaks(text);
    FlatSplit(text);
    forall r | 0 <= r < |doc| ensures LineOk(doc[r]) { assert doc[r] == Cut(Split(text)[r]); }
    SplitFlat(doc);
  }

  /** The first `n` characters of the text written over what was there; the place after
      them untouched, except that an empty text was ended at once. */
  ghost predicate Filled(out: seq<char>, was: seq<char>, text: string, n: nat) {
    n <= |text| && n < |out| == |was| && out[..n] == text[..n] && out[n] == (if n == 0 then NUL else was[n]) &&
    out[n + 1..] == was[n + 1..]
  }

  /** The same, and ended. */
  ghost predicate Ended(out: seq<char>, was: seq<char>, text: string, n: nat) {
    n <= |text| && n < |out| == |was| && out[..n] == text[..n] && out[n] == NUL && out[n + 1..] == was[n + 1..]
  }

  /** The room ran out. At a break that is found before the place is ended. */
  ghost predicate Stopped(out: seq<char>, was: seq<char>, text: string, n: nat, capacity: nat) {
    n == capacity - 1 < |text| && if text[n] == BREAK then Filled(out, was, text, n) else Ended(out, was, text, n)
  }

  /** A text that did not fit is left without its terminator exactly when the character that
      did not fit is a break, there was room for more than that terminator, and the place
      had not one already. */
  lemma UnterminatedExactly(out: seq<char>, was: seq<char>, text: string, n: nat, capacity: nat)
    requires Stopped(out, was, text, n, capacity) && NUL !in text
    ensures NUL !in out[..capacity] <==> text[n] == BREAK && n > 0 && was[n] != NUL
  {
    assert out[..capacity][n] == out[n];
    assert forall k :: 0 <= k < n ==> out[..capacity][k] == out[..n][k] == text[..n][k] == text[k];
  }

  /** "A" over "B" into two characters of a buffer that held "XY": no terminator. */
  lemma Unterminated(out: seq<char>)
    requires Stopped(out, "XY", "A\nB", 1, 2)
    ensures out == "AY"
  {
    assert out[..1] == "A\nB"[..1];
    assert out == out[..1] + [out[1]] + out[2..];
  }

  lemma DividedIs(doc: seq<string>, line: nat, column: nat, now: seq<string>, nowLine: nat, nowColumn: nat)
    requires line < |doc| && column <= |doc[line]|
    requires now == Divided(doc, line, column) && nowLine == line + 1 && nowColumn == 0
    ensures CharIn(doc, line, column, BREAK, now, nowLine, nowColumn)
  {
    DivideIsSplice(doc, line, column);
  }

  lemma JoinedIs(doc: seq<string>, line: nat, now: seq<string>, nowLine: nat, nowColumn: nat)
    requires 0 < line < |doc|
    requires now == Joined(doc, line) && nowLine == line - 1 && nowColumn == |doc[line - 1]|
    ensures CharOut(doc, line, 0, now, nowLine, nowColumn)
  {
    JoinIsSplice(doc, line);
  }

  class Editor {
    const cells: array2<char>
    var lineCount: nat
    var cursorLine: nat
    var cursorColumn: nat
    var topLine: nat
    var visibleLines: nat
    var changed: bool
    var status: string

    ghost function Row(r: nat): (row: seq<char>)
      requires r < cells.Length0
      reads cells
      ensures |row| == cells.Length1
    {
      seq(cells.Length1, c requires 0 <= c < cells.Length1 reads cells => cells[r, c])
    }

    ghost function Line(r: nat): string
      requires r < cells.Length0
      reads cells
    {
      Upto(Row(r))
    }

    predicate Sized() { cells.Length0 == MAX_LINES && cells.Length1 == MAX_COLS + 1 }

    /** The cursor is in its line, and on the screen. */
    ghost predicate Valid()
      reads this, cells
    {
      LinesOk(lineCount) && cursorLine < lineCount && cursorColumn <= |Line(cursorLine)| &&
      visibleLines > 0 && topLine <= cursorLine < topLine + visibleLines
    }

    ghost function Lines(n: nat): (doc: seq<string>)
      requires n <= cells.Length0
      reads cells
      ensures |doc| == n
    {
      seq(n, r requires 0 <= r < n && n <= cells.Length0 reads cells => Line(r))
    }

    /** The lines in use, ended and without breaks. */
    ghost predicate LinesOk(n: nat)
      reads cells
    {
      Sized() && n <= MAX_LINES && DocOk(Lines(n))
    }

    /** The document. */
    ghost function Doc(): seq<string>
      requires lineCount <= cells.Length0
      reads this, cells
    {
      Lines(lineCount)
    }

    /** One line is now `s`, and every other is what it was. */
    twostate predicate OnlyLine(r: nat, s: string)
      requires r < cells.Length0
      reads cells
    {
      Line(r) == s &&
      forall n {:trigger Lines(n)} :: r < n <= cells.Length0 ==> Lines(n) == old(Lines(n))[r := s]
    }

    lemma LineIsOk(r: nat)
      requires r < lineCount && LinesOk(lineCount)
      ensures LineOk(Line(r)) && Doc()[r] == Line(r)
    {
      assert LineOk(Doc()[r]);
    }

    // ----- rows

    /** `length_of` a line. */
    method LengthOf(r: nat) returns (n: nat)
      requires r < cells.Length0 && |Line(r)| < cells.Length1
      ensures n == |Line(r)|
    {
      n := 0;
      while cells[r, n] != NUL
        invariant n <= |Line(r)|
        decreases |Line(r)| - n
      {
        assert Row(r)[n] == cells[r, n];
        n := n + 1;
      }
      assert Row(r)[n] == cells[r, n];
    }

    /** One row is now `row`, and every other is what it was. */
    twostate predicate OnlyRow(r: nat, row: seq<char>)
      requires r < cells.Length0
      reads cells
    {
      Row(r) == row && forall q :: 0 <= q < cells.Length0 && q != r ==> Row(q) == old(Row(q))
    }

    /** The shift of `editor_insert`, and the character. */
    method ShiftRight(r: nat, length: nat, column: nat, ch: char)
      requires Sized() && r < MAX_LINES && column <= length < MAX_COLS
      modifies cells
      ensures OnlyRow(r, MovedRight(old(Row(r)), length, column, ch))
    {
      ghost var was := Row(r);
      var i := length + 1;
      Shift0(was, length);
      while i > column
        invariant column <= i <= length + 1
        invariant OnlyRow(r, ShiftedRight(was, length, i))
      {
        ShiftNext(was, length, i);
        SetCell(r, i, cells[r, i - 1]);
        i := i - 1;
      }
      ShiftEnd(was, length, column, ch);
      SetCell(r, column, ch);
    }

    method SetCell(r: nat, c: nat, ch: char)
      requires r < cells.Length0 && c < cells.Length1
      modifies cells
      ensures OnlyRow(r, old(Row(r))[c := ch])
    {
      cells[r, c] := ch;
    }

    method PutIn(r: nat, length: nat, column: nat, ch: char)
      requires Sized() && r < MAX_LINES && length == |Line(r)| < MAX_COLS && column <= length && ch != NUL
      modifies cells
      ensures OnlyLine(r, Inserted(old(Line(r)), column, ch))
    {
      PutInIs(Row(r), column, ch);
      ShiftRight(r, length, column, ch);
    }

    /** The shift of `editor_backspace`. */
    method ShiftLeft(r: nat, length: nat, column: nat)
      requires Sized() && r < MAX_LINES && column < length <= MAX_COLS
      modifies cells
      ensures OnlyRow(r, MovedLeft(old(Row(r)), length, column))
    {
      ghost var was := Row(r);
      var i := column;
      Back0(was, length, column);
      while i < length
        invariant column <= i <= length
        invariant OnlyRow(r, MovedLeft(was, i, column))
      {
        BackNext(was, column, i);
        SetCell(r, i, cells[r, i + 1]);
        i := i + 1;
      }
    }

    method TakeOut(r: nat, length: nat, column: nat)
      requires Sized() && r < MAX_LINES && length == |Line(r)| <= MAX_COLS && column < length
      modifies cells
      ensures OnlyLine(r, Deleted(old(Line(r)), column))
    {
      TakeOutIs(Row(r), column);
      ShiftLeft(r, length, column);
    }

    /** `copy_into` a line, from somewhere in another. */
    method CopyLine(to: nat, from: nat, start: nat)
      requires Sized() && to < MAX_LINES && from < MAX_LINES && to != from
      requires start <= |Line(from)| <= MAX_COLS
      modifies cells
      ensures OnlyLine(to, old(Line(from))[start..])
    {
      ghost var line := Line(from);
      var i := 0;
      while cells[from, start + i] != NUL && i + 1 < MAX_COLS + 1
        invariant start + i <= |line|
        invariant forall c :: 0 <= c < i ==> cells[to, c] == line[start + c]
        invariant forall q, c :: 0 <= q < MAX_LINES && q != to && 0 <= c <= MAX_COLS ==> cells[q, c] == old(cells[q, c])
        decreases |line| - i
      {
        assert Row(from) == old(Row(from)) && Row(from)[start + i] == cells[from, start + i];
        cells[to, i] := cells[from, start + i];
        i := i + 1;
      }
      assert Row(from) == old(Row(from)) && Row(from)[start + i] == cells[from, start + i];
      assert start + i == |line|;
      cells[to, i] := NUL;
      assert Row(to)[..i] == line[start..];
      UptoIs(Row(to), i);
      forall q | 0 <= q < MAX_LINES && q != to ensures Line(q) == old(Line(q)) { assert Row(q) == old(Row(q)); }
    }

    /** A line ended at a column. */
    method EndAt(r: nat, column: nat)
      requires Sized() && r < MAX_LINES && column <= |Line(r)| <= MAX_COLS
      modifies cells
      ensures OnlyLine(r, old(Line(r))[..column])
    {
      ghost var line := Line(r);
      cells[r, column] := NUL;
      assert Row(r)[..column] == line[..column];
      UptoIs(Row(r), column);
      forall q | 0 <= q < MAX_LINES && q != r ensures Line(q) == old(Line(q)) { assert Row(q) == old(Row(q)); }
    }

    // ----- the operations

    /** `editor_init`. */
    constructor ()
      ensures Valid() && fresh(cells) && Doc() == [[]] && cursorLine == 0 && cursorColumn == 0 && !changed
    {
      cells := new char[MAX_LINES, MAX_COLS + 1]((_, _) => NUL);
      lineCount, cursorLine, cursorColumn, topLine, visibleLines := 1, 0, 0, 0, 1;
      changed, status := false, "";
      new;
      UptoIs(Row(0), 0);
      assert Doc() == [[]];
    }

    /** The flat text, and where the cursor is in it. */
    ghost function Text(): string
      requires lineCount <= cells.Length0
      reads this, cells
    {
      Flat(Doc())
    }

    ghost function At(): nat
      requires cursorLine <= lineCount <= cells.Length0
      reads this, cells
    {
      Offset(Doc(), cursorLine, cursorColumn)
    }

    /** `follow_cursor`: the view moves only when the cursor has left it, and no further
        than it must. */
    method FollowCursor()
      modifies this`topLine
      ensures visibleLines > 0 ==> topLine <= cursorLine < topLine + visibleLines
      ensures Nearest(old(topLine), topLine, cursorLine, visibleLines)
    {
      if visibleLines == 0 {
        topLine := cursorLine;
      } else if cursorLine < topLine {
        topLine := cursorLine;
      } else if cursorLine >= topLine + visibleLines {
        topLine := cursorLine - visibleLines + 1;
      }
    }

    /** How every edit ends. */
    method MoveCursor(line: nat, column: nat)
      requires LinesOk(lineCount) && line < lineCount && column <= |Line(line)| && visibleLines > 0
      modifies this`cursorLine, this`cursorColumn, this`changed, this`topLine
      ensures Valid() && changed && cursorLine == line && cursorColumn == column && Doc() == old(Doc())
      ensures Nearest(old(topLine), topLine, line, visibleLines)
    {
      cursorLine, cursorColumn := line, column;
      changed := true;
      FollowCursor();
    }

    /** Nothing but the status line changes. */
    twostate predicate OnlySays(s: string)
      reads this, cells
    {
      lineCount == old(lineCount) && cursorLine == old(cursorLine) && cursorColumn == old(cursorColumn) &&
      topLine == old(topLine) && changed == old(changed) && status == s &&
      forall r :: 0 <= r < cells.Length0 ==> Row(r) == old(Row(r))
    }

    /** One character more in the text, where the cursor was, and the cursor after it. */
    twostate predicate Typed(c: char)
      requires old(lineCount) <= cells.Length0 && lineCount <= cells.Length0
      reads this, cells
    {
      CharIn(old(Doc()), old(cursorLine), old(cursorColumn), c, Doc(), cursorLine, cursorColumn) &&
      changed && status == old(status) && Nearest(old(topLine), topLine, cursorLine, visibleLines)
    }

    /** The character before the cursor gone. */
    twostate predicate Erased()
      requires old(lineCount) <= cells.Length0 && lineCount <= cells.Length0
      reads this, cells
    {
      CharOut(old(Doc()), old(cursorLine), old(cursorColumn), Doc(), cursorLine, cursorColumn) &&
      changed && status == old(status) && Nearest(old(topLine), topLine, cursorLine, visibleLines)
    }

    /** `editor_insert`: one character into the text at the cursor, or nothing. */
    method Insert(ch: char)
      requires Valid()
      modifies this, cells
      ensures Valid()
      ensures !Knows(ch) ==> OnlySays(old(status))
      ensures Knows(ch) && |old(Line(cursorLine))| == MAX_COLS ==> OnlySays("THAT LINE IS FULL")
      ensures Knows(ch) && |old(Line(cursorLine))| < MAX_COLS ==> Typed(ch)
    {
      if ch == NUL || !Knows(ch) { return; }
      LineIsOk(cursorLine);
      var length := LengthOf(cursorLine);
      if length >= MAX_COLS {
        status := "THAT LINE IS FULL";
        return;
      }
      Type(length, ch);
    }

    method Type(length: nat, ch: char)
      requires Valid() && |Line(cursorLine)| == length < MAX_COLS && ch != NUL && ch != BREAK
      modifies this, cells
      ensures Valid() && Typed(ch)
    {
      ghost var doc, line, column := Doc(), cursorLine, cursorColumn;
      TypeIn(length, ch);
      MoveCursor(cursorLine, cursorColumn + 1);
      InsertIsSplice(doc, line, column, ch);
    }

    method TypeIn(length: nat, ch: char)
      requires LinesOk(lineCount) && cursorLine < lineCount && cursorColumn <= |Line(cursorLine)| == length < MAX_COLS
      requires ch != NUL && ch != BREAK
      modifies cells
      ensures LinesOk(lineCount) && |Line(cursorLine)| == length + 1
      ensures cursorColumn <= |old(Doc())[cursorLine]| &&
              Doc() == old(Doc())[cursorLine := Inserted(old(Doc())[cursorLine], cursorColumn, ch)]
    {
      LineIsOk(cursorLine);
      ghost var doc, line := Doc(), Inserted(Line(cursorLine), cursorColumn, ch);
      PutIn(cursorLine, length, cursorColumn, ch);
      assert LineOk(line);
    }

    method MoveLine(to: nat, from: nat, ghost n: nat)
      requires Sized() && to < n <= MAX_LINES && from < n && to != from && LineOk(Lines(n)[from])
      modifies cells
      ensures Lines(n) == old(Lines(n))[to := old(Lines(n))[from]]
    {
      ghost var line := Line(from);
      CopyLine(to, from, 0);
    }

    /** The loop of `editor_newline`: the lines below the cursor's move down one. */
    method OpenBelow(line: nat)
      requires LinesOk(lineCount) && line < lineCount < MAX_LINES
      modifies cells
      ensures Lines(lineCount + 1) == Opened(old(Doc()), line + 1, Line(line + 1))
    {
      ghost var n, doc, x := lineCount + 1, Doc(), Line(lineCount);
      Opened0(doc, x);
      assert Lines(n) == doc + [x];
      var at := lineCount;
      while at > line + 1
        invariant line + 1 <= at <= lineCount
        invariant Lines(n) == Opened(doc, at, x)
      {
        OpenedNext(doc, at, x);
        assert LineOk(doc[at - 1]);
        MoveLine(at, at - 1, n);
        at := at - 1;
        x := doc[at];
      }
      assert Lines(n)[line + 1] == x;
    }

    /** The cursor's line in two. */
    method DivideLine()
      requires LinesOk(lineCount) && cursorLine < lineCount < MAX_LINES && cursorColumn <= |Line(cursorLine)|
      modifies this`lineCount, cells
      ensures lineCount == old(lineCount) + 1 && LinesOk(lineCount)
      ensures cursorColumn <= |old(Doc())[cursorLine]| && Doc() == Divided(old(Doc()), cursorLine, cursorColumn)
    {
      ghost var doc := Doc();
      DividedOk(doc, cursorLine, cursorColumn);
      LineIsOk(cursorLine);
      OpenBelow(cursorLine);
      lineCount := lineCount + 1;
      SplitHere(doc);
    }

    /** What was after the cursor goes below, what was before it stays. */
    method SplitHere(ghost doc: seq<string>)
      requires Sized() && lineCount <= MAX_LINES && cursorLine + 1 < lineCount && lineCount == |doc| + 1
      requires Doc() == Opened(doc, cursorLine + 1, Line(cursorLine + 1))
      requires cursorColumn <= |doc[cursorLine]| <= MAX_COLS
      modifies cells
      ensures Doc() == Divided(doc, cursorLine, cursorColumn)
    {
      assert Doc()[cursorLine] == Line(cursorLine) == doc[cursorLine];
      ghost var was, line := Doc(), doc[cursorLine];
      CopyLine(cursorLine + 1, cursorLine, cursorColumn);
      assert Doc()[cursorLine] == Line(cursorLine);
      EndAt(cursorLine, cursorColumn);
      SplitOpened(doc, cursorLine, cursorColumn, was[cursorLine + 1]);
    }

    /** `editor_newline`. */
    method Newline()
      requires Valid()
      modifies this, cells
      ensures Valid()
      ensures old(lineCount) == MAX_LINES ==> OnlySays("THIS FILE HAS AS MANY LINES AS IT CAN HOLD")
      ensures old(lineCount) < MAX_LINES ==> Typed(BREAK)
    {
      if lineCount >= MAX_LINES {
        status := "THIS FILE HAS AS MANY LINES AS IT CAN HOLD";
        return;
      }
      BreakLine();
    }

    method BreakLine()
      requires Valid() && lineCount < MAX_LINES
      modifies this, cells
      ensures Valid() && Typed(BREAK)
    {
      ghost var doc, line, column := Doc(), cursorLine, cursorColumn;
      DivideLine();
      MoveCursor(cursorLine + 1, 0);
      DividedIs(doc, line, column, Doc(), cursorLine, cursorColumn);
    }

    /** The second loop of a joining `editor_backspace`: the lines below move up one. */
    method CloseUp(line: nat)
      requires LinesOk(lineCount) && line < lineCount
      modifies cells
      ensures var doc := old(Doc()); Lines(lineCount - 1) == doc[..line] + doc[line + 1..]
    {
      ghost var doc, x := Doc(), Line(line);
      var at := line;
      while at + 1 < lineCount
        invariant line <= at < lineCount
        invariant Doc() == Closed(doc, line, at, x)
      {
        ClosedNext(doc, line, at, x);
        assert LineOk(doc[at + 1]);
        MoveLine(at, at + 1, lineCount);
        at := at + 1;
        x := doc[at];
      }
      assert Lines(lineCount - 1) == Doc()[..lineCount - 1];
      ClosedAll(doc, line, x);
    }

    /** A line's characters and terminator, copied after a column of the line above, so
        that it reads as `joined`. */
    method CopyAfter(line: nat, above: nat, here: nat, ghost joined: seq<char>)
      requires Sized() && 0 < line < MAX_LINES && above + here <= MAX_COLS && |joined| > above + here
      requires forall c :: 0 <= c < above ==> cells[line - 1, c] == joined[c]
      requires forall c :: above <= c <= above + here ==> joined[c] == cells[line, c - above]
      modifies cells
      ensures forall c :: 0 <= c <= above + here ==> cells[line - 1, c] == joined[c]
      ensures forall q, c :: 0 <= q < MAX_LINES && q != line - 1 && 0 <= c <= MAX_COLS ==> cells[q, c] == old(cells[q, c])
    {
      var i := 0;
      while i <= here
        invariant i <= here + 1
        invariant forall c :: 0 <= c < above + i ==> cells[line - 1, c] == joined[c]
        invariant forall q, c :: 0 <= q < MAX_LINES && q != line - 1 && 0 <= c <= MAX_COLS ==> cells[q, c] == old(cells[q, c])
      {
        assert joined[above + i] == cells[line, i];
        cells[line - 1, above + i] := cells[line, i];
        i := i + 1;
      }
    }

    /** The first: a line put after the end of the one above. */
    method Append(line: nat, above: nat, here: nat)
      requires Sized() && 0 < line < MAX_LINES && above == |Line(line - 1)| && here == |Line(line)|
      requires above + here <= MAX_COLS
      modifies cells
      ensures OnlyLine(line - 1, old(Line(line - 1)) + old(Line(line)))
    {
      ghost var a, b := Line(line - 1), Row(line);
      forall c | 0 <= c < above ensures cells[line - 1, c] == (a + b)[c] {
        assert Row(line - 1)[c] == cells[line - 1, c];
      }
      CopyAfter(line, above, here, a + b);
      AppendIs(a, b, Row(line - 1));
      forall q | 0 <= q < MAX_LINES && q != line - 1 ensures Line(q) == old(Line(q)) { assert Row(q) == old(Row(q)); }
    }

    method PutTogether(above: nat, here: nat)
      requires LinesOk(lineCount) && 0 < cursorLine < lineCount
      requires above == |Line(cursorLine - 1)| && here == |Line(cursorLine)| && above + here <= MAX_COLS
      modifies cells
      ensures var doc := old(Doc());
              Doc() == doc[cursorLine - 1 := doc[cursorLine - 1] + doc[cursorLine]] && LinesOk(lineCount)
    {
      ghost var doc := Doc();
      ghost var both := doc[cursorLine - 1] + doc[cursorLine];
      assert LineOk(doc[cursorLine - 1]) && LineOk(doc[cursorLine]);
      Append(cursorLine, above, here);
      assert DocOk(doc[cursorLine - 1 := both]);
    }

    method JoinLines(above: nat, here: nat)
      requires LinesOk(lineCount) && 0 < cursorLine < lineCount
      requires above == |Line(cursorLine - 1)| && here == |Line(cursorLine)| && above + here <= MAX_COLS
      modifies this`lineCount, cells
      ensures lineCount == old(lineCount) - 1 && LinesOk(lineCount)
      ensures Doc() == Joined(old(Doc()), cursorLine) && above <= |Line(cursorLine - 1)|
    {
      JoinedSays(Doc(), cursorLine);
      PutTogether(above, here);
      DropLine(cursorLine);
      LinesSay(cursorLine - 1);
    }

    lemma LinesSay(r: nat)
      requires r < lineCount <= cells.Length0
      ensures Doc()[r] == Line(r)
    {
    }

    /** One line fewer, those below it moved up. */
    method DropLine(line: nat)
      requires LinesOk(lineCount) && line < lineCount
      modifies this`lineCount, cells
      ensures lineCount == old(lineCount) - 1 && Doc() == old(Doc())[..line] + old(Doc())[line + 1..]
    {
      CloseUp(line);
      OneLess();
    }

    method OneLess()
      requires 0 < lineCount <= cells.Length0
      modifies this`lineCount
      ensures lineCount == old(lineCount) - 1 && Doc() == old(Lines(lineCount - 1))
    {
      lineCount := lineCount - 1;
    }

    /** `editor_backspace`. */
    method Backspace()
      requires Valid()
      modifies this, cells
      ensures Valid()
      ensures old(cursorColumn) > 0 ==> Erased()
      ensures old(cursorColumn) == 0 && old(cursorLine) == 0 ==> OnlySays(old(status))
      ensures old(cursorColumn) == 0 && old(cursorLine) > 0 ==>
                if |old(Line(cursorLine - 1))| + |old(Line(cursorLine))| <= MAX_COLS then Erased()
                else OnlySays("THOSE TWO LINES WILL NOT FIT AS ONE")
    {
      if cursorColumn > 0 {
        EraseBack();
        return;
      }
      if cursorLine == 0 { return; }
      JoinBack();
    }

    method EraseBack()
      requires Valid() && cursorColumn > 0
      modifies this, cells
      ensures Valid() && Erased()
    {
      ghost var doc, line, column := Doc(), cursorLine, cursorColumn;
      EraseIn();
      MoveCursor(cursorLine, cursorColumn - 1);
      DeleteIsSplice(doc, line, column);
    }

    /** A line joined to the one above. */
    method JoinBack()
      requires Valid() && cursorColumn == 0 && cursorLine > 0
      modifies this, cells
      ensures Valid()
      ensures if |old(Line(cursorLine - 1))| + |old(Line(cursorLine))| <= MAX_COLS then Erased()
              else OnlySays("THOSE TWO LINES WILL NOT FIT AS ONE")
    {
      LineIsOk(cursorLine - 1);
      LineIsOk(cursorLine);
      var above := LengthOf(cursorLine - 1);
      var here := LengthOf(cursorLine);
      if above + here > MAX_COLS {
        status := "THOSE TWO LINES WILL NOT FIT AS ONE";
        return;
      }
      JoinUp(above, here);
    }

    method JoinUp(above: nat, here: nat)
      requires Valid() && cursorColumn == 0 && cursorLine > 0
      requires above == |Line(cursorLine - 1)| && here == |Line(cursorLine)| && above + here <= MAX_COLS
      modifies this, cells
      ensures Valid() && Erased()
    {
      ghost var doc, line := Doc(), cursorLine;
      assert doc[line - 1] == Line(line - 1);
      JoinLines(above, here);
      MoveCursor(cursorLine - 1, above);
      JoinedIs(doc, line, Doc(), cursorLine, cursorColumn);
    }

    method EraseIn()
      requires LinesOk(lineCount) && cursorLine < lineCount && 0 < cursorColumn <= |Line(cursorLine)|
      modifies cells
      ensures LinesOk(lineCount) && |Line(cursorLine)| == |old(Line(cursorLine))| - 1
      ensures cursorColumn <= |old(Doc())[cursorLine]| &&
              Doc() == old(Doc())[cursorLine := Deleted(old(Doc())[cursorLine], cursorColumn - 1)]
    {
      LineIsOk(cursorLine);
      ghost var doc, line := Doc(), Deleted(Line(cursorLine), cursorColumn - 1);
      var length := LengthOf(cursorLine);
      TakeOut(cursorLine, length, cursorColumn - 1);
      assert LineOk(line);
    }

    // ----- moving

    /** `editor_move`: the cursor stays on a line and inside it; the text is untouched. */
    method Move(columns: int, lines: int)
      requires Valid()
      modifies this`cursorLine, this`cursorColumn, this`topLine
      ensures Valid()
      ensures cursorLine == Between(old(cursorLine) + lines, lineCount - 1)
      ensures cursorColumn == Between(old(cursorColumn) + columns, |Line(cursorLine)|)
      ensures Nearest(old(topLine), topLine, cursorLine, visibleLines)
    {
      MoveLines(lines);
      MoveColumns(columns);
      FollowCursor();
    }

    method MoveLines(lines: int)
      requires cursorLine < lineCount
      modifies this`cursorLine
      ensures cursorLine == Between(old(cursorLine) + lines, lineCount - 1)
    {
      if lines < 0 && cursorLine >= -lines {
        cursorLine := cursorLine - (-lines);
      } else if lines < 0 {
        cursorLine := 0;
      } else if lines > 0 {
        cursorLine := cursorLine + lines;
        if cursorLine >= lineCount { cursorLine := lineCount - 1; }
      }
    }

    method MoveColumns(columns: int)
      requires LinesOk(lineCount) && cursorLine < lineCount
      modifies this`cursorColumn
      ensures cursorColumn == Between(old(cursorColumn) + columns, |Line(cursorLine)|)
    {
      if columns < 0 && cursorColumn >= -columns {
        cursorColumn := cursorColumn - (-columns);
      } else if columns < 0 {
        cursorColumn := 0;
      } else if columns > 0 {
        cursorColumn := cursorColumn + columns;
      }
      LineIsOk(cursorLine);
      var length := LengthOf(cursorLine);
      if cursorColumn > length { cursorColumn := length; }
    }

    // ----- files

    /** Nothing from there on. */
    ghost predicate Blank(r: nat, column: nat)
      requires r < cells.Length0
      reads cells
    {
      forall c :: column <= c < cells.Length1 ==> Row(r)[c] == NUL
    }

    /** `editor_init`, on a buffer that was in use. */
    method Clear()
      requires Sized()
      modifies this, cells
      ensures Valid() && Doc() == [[]] && cursorLine == 0 && cursorColumn == 0 && !changed
      ensures lineCount == 1 && topLine == 0 && visibleLines == 1
      ensures forall r :: 0 <= r < MAX_LINES ==> Blank(r, 0)
    {
      forall r, c | 0 <= r < MAX_LINES && 0 <= c <= MAX_COLS { cells[r, c] := NUL; }
      lineCount, cursorLine, cursorColumn, topLine, visibleLines := 1, 0, 0, 0, 1;
      changed, status := false, "";
      UptoIs(Row(0), 0);
      assert Doc() == [[]];
    }

    /** A character after the last of a line. */
    method AddAt(r: nat, column: nat, ch: char)
      requires Sized() && r < MAX_LINES && column == |Line(r)| < MAX_COLS && Blank(r, column) && ch != NUL
      modifies cells
      ensures OnlyLine(r, old(Line(r)) + [ch]) && Blank(r, column + 1)
      ensures forall q :: r < q < MAX_LINES && old(Blank(q, 0)) ==> Blank(q, 0)
    {
      ghost var was := Row(r);
      assert was[column + 1] == NUL;
      cells[r, column] := ch;
      AddedIs(was, Row(r), column, ch);
      forall q | 0 <= q < MAX_LINES && q != r ensures Line(q) == old(Line(q)) { assert Row(q) == old(Row(q)); }
      forall q | r < q < MAX_LINES && old(Blank(q, 0)) ensures Blank(q, 0) { assert Row(q) == old(Row(q)); }
    }

    /** `editor_load`: as much of the text as the buffer holds, and the truth about whether
        that was all. */
    method Load(text: string)
      requires Sized() && NUL !in text
      modifies this, cells
      ensures Valid() && Doc() == Fitted(Split(text)) && !changed && cursorLine == 0 && cursorColumn == 0
      ensures status == if Text() == text then "OPENED" else "OPENED, AND IT DID NOT ALL FIT"
    {
      Clear();
      var cut := ReadIn(text);
      Honest(text, Doc(), cut);
      assert Doc()[0] == Line(0);
      SayOpened(cut);
    }

    method SayOpened(cut: bool)
      modifies this`changed, this`status
      ensures !changed && status == if cut then "OPENED, AND IT DID NOT ALL FIT" else "OPENED"
    {
      changed := false;
      status := if cut then "OPENED, AND IT DID NOT ALL FIT" else "OPENED";
    }

    /** The loop of `editor_load`. */
    method ReadIn(text: string) returns (cut: bool)
      requires Sized() && NUL !in text && lineCount == 1 && Doc() == [[]]
      requires forall r :: 0 <= r < MAX_LINES ==> Blank(r, 0)
      modifies this`lineCount, cells
      ensures 0 < lineCount <= MAX_LINES && Doc() == Fitted(Split(text))
      ensures cut <==> Doc() != Split(text)
    {
      cut := false;
      var line, column, i := 0, 0, 0;
      assert text[..i] == [] && Doc()[0] == Line(0) && Fitted([[]]) == [[]];
      while i < |text|
        invariant i <= |text| && line < MAX_LINES && column == |Line(line)|
        invariant Blank(line, column) && forall r :: line < r < MAX_LINES ==> Blank(r, 0)
        invariant Reading(Lines(line + 1), Split(text[..i]), cut)
      {
        SplitNext(text, i);
        if text[i] == BREAK {
          if line + 1 >= MAX_LINES {
            FittedEarly(text, i);
            lineCount := line + 1;
            return true;
          }
          BeginLine(line, Split(text[..i]), cut);
          line := line + 1;
          column := 0;
        } else {
          assert text[i] in text;
          var full := TakeChar(line, column, text[i], Split(text[..i]), cut);
          if full { cut := true; } else { column := column + 1; }
        }
        i := i + 1;
      }
      assert text[..i] == text;
      lineCount := line + 1;
      FitsWhole(Split(text));
    }

    /** The next line, still empty. */
    lemma BeginLine(line: nat, doc: seq<string>, cut: bool)
      requires Sized() && line + 1 < MAX_LINES && |doc| == line + 1
      requires Reading(Lines(line + 1), doc, cut) && Blank(line + 1, 0)
      ensures Reading(Lines(line + 2), Grown(doc, BREAK), cut) && Line(line + 1) == []
    {
      ReadBreak(Lines(line + 1), doc, cut);
      assert Row(line + 1)[0] == NUL;
      UptoIs(Row(line + 1), 0);
      assert Lines(line + 2) == Lines(line + 1) + [[]];
    }

    /** A character put at the end of the line, or dropped. */
    method TakeChar(line: nat, column: nat, ch: char, ghost doc: seq<string>, ghost cut: bool) returns (full: bool)
      requires Sized() && line < MAX_LINES && |doc| == line + 1 && column == |Line(line)| && ch != NUL && ch != BREAK
      requires Reading(Lines(line + 1), doc, cut) && Blank(line, column)
      modifies cells
      ensures Reading(Lines(line + 1), Grown(doc, ch), cut || full)
      ensures |Line(line)| == if full then column else column + 1
      ensures Blank(line, |Line(line)|)
      ensures forall r :: line < r < MAX_LINES && old(Blank(r, 0)) ==> Blank(r, 0)
    {
      ghost var lines := Lines(line + 1);
      assert lines[line] == Line(line) == Cut(doc[line]);
      ReadChar(lines, doc, cut, ch);
      if column >= MAX_COLS { return true; }
      AddAt(line, column, ch);
      return false;
    }

    /** `editor_text`: as much of the flat text as there is room for, and whether that is
        all. When it is not, and what does not fit begins with a break, the terminator is
        not written. */
    method TextInto(out: array<char>, capacity: nat) returns (written: nat, complete: bool)
      requires LinesOk(lineCount) && capacity <= out.Length
      modifies out
      ensures complete <==> |Text()| < capacity
      ensures capacity == 0 ==> written == 0
      ensures capacity > 0 ==>
                if complete then written == |Text()| && Ended(out[..], old(out[..]), Text(), written)
                else Stopped(out[..], old(out[..]), Text(), written, capacity)
    {
      if capacity == 0 { return 0, false; }
      ghost var doc, text, was := Doc(), Text(), out[..];
      out[0] := NUL;
      written := 0;
      var line := 0;
      assert doc[..line] == [];
      while line < lineCount
        invariant line <= lineCount && written == |Flat(doc[..line])| < capacity
        invariant Doc() == doc && Filled(out[..], was, text, written)
      {
        var full;
        written, full := NextLineInto(out, capacity, line, written, was, doc);
        if full { return written, false; }
        line := line + 1;
      }
      assert doc[..line] == doc;
      PutEnd(out, written, was, text);
      return written, true;
    }

    /** A turn of the loop: the break, and the line. */
    method NextLineInto(out: array<char>, capacity: nat, line: nat, at: nat, ghost was: seq<char>,
                        ghost doc: seq<string>)
      returns (written: nat, full: bool)
      requires LinesOk(lineCount) && doc == Doc() && line < |doc| && at == |Flat(doc[..line])| < capacity <= out.Length
      requires Filled(out[..], was, Flat(doc), at)
      modifies out
      ensures Doc() == doc && written < capacity
      ensures !full ==> written == |Flat(doc[..line + 1])| && Filled(out[..], was, Flat(doc), written)
      ensures full ==> Stopped(out[..], was, Flat(doc), written, capacity)
    {
      written, full := BreakInto(out, capacity, line, at, was, doc);
      if full { return; }
      written, full := WholeLineInto(out, capacity, line, written, was, doc);
    }

    /** The line, after its break. */
    method WholeLineInto(out: array<char>, capacity: nat, line: nat, at: nat, ghost was: seq<char>,
                         ghost doc: seq<string>)
      returns (written: nat, full: bool)
      requires LinesOk(lineCount) && doc == Doc() && line < |doc| && at < capacity <= out.Length
      requires at + |doc[line]| <= |Flat(doc)| && Flat(doc)[at..at + |doc[line]|] == doc[line]
      requires Filled(out[..], was, Flat(doc), at)
      modifies out
      ensures Doc() == doc && written < capacity
      ensures !full ==> written == at + |doc[line]| && Filled(out[..], was, Flat(doc), written)
      ensures full ==> Stopped(out[..], was, Flat(doc), written, capacity)
    {
      LinesSay(line);
      written, full := LineInto(out, capacity, line, at, Flat(doc), was);
    }

    static method BreakInto(out: array<char>, capacity: nat, line: nat, at: nat, ghost was: seq<char>,
                            ghost doc: seq<string>)
      returns (written: nat, full: bool)
      requires line < |doc| && at == |Flat(doc[..line])| < capacity <= out.Length
      requires Filled(out[..], was, Flat(doc), at)
      modifies out
      ensures written < capacity
      ensures !full ==> written == Offset(doc, line, 0) && Filled(out[..], was, Flat(doc), written)
      ensures !full ==> written + |doc[line]| == |Flat(doc[..line + 1])| <= |Flat(doc)|
      ensures !full ==> Flat(doc)[written..written + |doc[line]|] == doc[line]
      ensures full ==> Stopped(out[..], was, Flat(doc), written, capacity)
    {
      LineInText(doc, line);
      if line == 0 { return at, false; }
      if at + 1 >= capacity { return at, true; }
      PutChar(out, at, BREAK, was, Flat(doc));
      return at + 1, false;
    }

    static method PutChar(out: array<char>, at: nat, c: char, ghost was: seq<char>, ghost text: string)
      requires Filled(out[..], was, text, at) && at < |text| && text[at] == c && at + 1 < out.Length
      modifies out
      ensures Filled(out[..], was, text, at + 1)
    {
      out[at] := c;
      assert out[..][..at + 1] == text[..at + 1];
    }

    static method PutEnd(out: array<char>, at: nat, ghost was: seq<char>, ghost text: string)
      requires Filled(out[..], was, text, at)
      modifies out
      ensures Ended(out[..], was, text, at)
    {
      out[at] := NUL;
      assert out[..][..at] == text[..at];
    }

    /** The inner loop: one line's characters. */
    method LineInto(out: array<char>, capacity: nat, line: nat, at: nat, ghost text: string, ghost was: seq<char>)
      returns (written: nat, full: bool)
      requires LinesOk(lineCount) && line < lineCount && at < capacity <= out.Length
      requires at + |Line(line)| <= |text| && text[at..at + |Line(line)|] == Line(line)
      requires Filled(out[..], was, text, at)
      modifies out
      ensures at <= written < capacity && written <= at + |Line(line)|
      ensures !full ==> written == at + |Line(line)| && Filled(out[..], was, text, written)
      ensures full ==> written == capacity - 1 < at + |Line(line)| && Ended(out[..], was, text, written) && text[written] != BREAK
    {
      LineIsOk(line);
      ghost var s := Line(line);
      written := at;
      var i := 0;
      while cells[line, i] != NUL
        invariant i <= |s| && written == at + i < capacity && Filled(out[..], was, text, written)
        decreases |s| - i
      {
        assert Row(line)[i] == cells[line, i];
        assert i < |s| ==> s[i] == text[at..at + |s|][i] == text[at + i] && s[i] in s;
        if written + 1 >= capacity {
          PutEnd(out, written, was, text);
          return written, true;
        }
        PutChar(out, written, cells[line, i], was, text);
        written := written + 1;
        i := i + 1;
      }
      assert Row(line)[i] == cells[line, i];
      full := false;
    }
  }
}

// A document as lines and as one flat text (kernel/src/editor.c).
module EditorText {

  const NUL: char := '\0'
  const BREAK: char := '\n'

  /** The lines with breaks between them. */
  ghost function Flat(doc: seq<string>): string {
    if doc == [] then [] else doc[0] + Tail(doc[1..])
  }

  /** Lines below others: each after a break. */
  ghost function Tail(doc: seq<string>): string {
    if doc == [] then [] else [BREAK] + doc[0] + Tail(doc[1..])
  }

  /** Lines above others: each before a break. */
  ghost function Head(doc: seq<string>): string {
    if doc == [] then [] else doc[0] + [BREAK] + Head(doc[1..])
  }

  /** Where a place in the document is in its flat text. */
  ghost function Offset(doc: seq<string>, line: nat, column: nat): nat
    requires line <= |doc|
  {
    |Head(doc[..line])| + column
  }

  lemma {:induction false} TailParts(above: seq<string>, below: seq<string>)
    ensures Tail(above + below) == Tail(above) + Tail(below)
  {
    if above == [] {
      assert above + below == below;
    } else {
      assert (above + below)[1..] == above[1..] + below;
      TailParts(above[1..], below);
    }
  }

  lemma TailFlat(doc: seq<string>)
    requires doc != []
    ensures Tail(doc) == [BREAK] + Flat(doc)
  {
  }

  lemma {:induction false} HeadTail(above: seq<string>)
    ensures above != [] ==> Head(above) == Flat(above) + [BREAK]
  {
    if above != [] {
      var first, rest := above[0], above[1..];
      if rest == [] {
        assert Head(rest) == [] && Tail(rest) == [];
        assert first + [BREAK] + [] == first + [] + [BREAK];
      } else {
        HeadTail(rest);
        TailFlat(rest);
        Regroup(first, Flat(rest));
      }
    }
  }

  lemma Regroup(first: string, rest: string)
    ensures first + [BREAK] + (rest + [BREAK]) == first + ([BREAK] + rest) + [BREAK]
  {
  }

  /** A document in three parts, the middle one not empty. */
  lemma FlatParts(above: seq<string>, middle: seq<string>, below: seq<string>)
    requires middle != []
    ensures Flat(above + middle + below) == Head(above) + Flat(middle) + Tail(below)
  {
    if above == [] {
      FlatStart(middle, below);
      assert above + middle + below == middle + below;
    } else {
      var first, rest := above[0], above[1..];
      assert above + middle + below == [first] + (rest + (middle + below)) && above == [first] + rest;
      FlatCons(first, rest + (middle + below));
      TailParts(rest, middle + below);
      TailParts(middle, below);
      TailFlat(middle);
      HeadTail(above);
      FlatCons(first, rest);
      FlatRest(first, Tail(rest), Flat(middle), Tail(below));
    }
  }

  lemma FlatCons(first: string, rest: seq<string>)
    ensures Flat([first] + rest) == first + Tail(rest)
  {
    assert ([first] + rest)[1..] == rest;
  }

  lemma FlatStart(middle: seq<string>, below: seq<string>)
    requires middle != []
    ensures Flat(middle + below) == Head([]) + Flat(middle) + Tail(below)
  {
    assert (middle + below)[1..] == middle[1..] + below;
    TailParts(middle[1..], below);
    FlatFirst(middle[0], Tail(middle[1..]), Tail(below));
  }

  lemma FlatFirst(first: string, rest: string, below: string)
    ensures first + (rest + below) == [] + (first + rest) + below
  {
  }

  lemma FlatRest(first: string, rest: string, middle: string, below: string)
    ensures first + (rest + ([BREAK] + middle + below)) == (first + rest + [BREAK]) + middle + below
  {
  }

  lemma FlatOne(a: string)
    ensures Flat([a]) == a
  {
    assert [a][1..] == [] && a + Tail([]) == a;
  }

  /** A document by its last line. */
  lemma FlatLast(above: seq<string>, line: string)
    ensures Flat(above + [line]) == Head(above) + line
  {
    var none := [];
    assert above + [line] + none == above + [line];
    FlatParts(above, [line], none);
    FlatOne(line);
    assert Head(above) + line + Tail(none) == Head(above) + line;
  }

  lemma FlatTwo(a: string, b: string)
    ensures Flat([a, b]) == a + [BREAK] + b
  {
    assert [a, b] == [a] + [b] && [a, b][1..] == [b] && [b][1..] == [];
    FlatLast([a], b);
    HeadTail([a]);
    FlatOne(a);
  }

  // ----- edits of the text

  /** From one document and place to another: one character more in the flat text, where
      the place was, and the place now after it. */
  ghost predicate CharIn(doc: seq<string>, line: nat, column: nat, c: char, now: seq<string>, nowLine: nat,
                         nowColumn: nat) {
    line <= |doc| && nowLine <= |now| && Offset(doc, line, column) <= |Flat(doc)| &&
    Flat(now) == Inserted(Flat(doc), Offset(doc, line, column), c) &&
    Offset(now, nowLine, nowColumn) == Offset(doc, line, column) + 1
  }

  /** The character before the place gone, and the place where it was. */
  ghost predicate CharOut(doc: seq<string>, line: nat, column: nat, now: seq<string>, nowLine: nat, nowColumn: nat) {
    line <= |doc| && nowLine <= |now| && 0 < Offset(doc, line, column) <= |Flat(doc)| &&
    Flat(now) == Deleted(Flat(doc), Offset(doc, line, column) - 1) &&
    Offset(now, nowLine, nowColumn) == Offset(doc, line, column) - 1
  }

  // ----- edits of the lines

  function Inserted(s: string, at: nat, c: char): string
    requires at <= |s|
  {
    s[..at] + [c] + s[at..]
  }

  function Deleted(s: string, at: nat): string
    requires at < |s|
  {
    s[..at] + s[at + 1..]
  }

  function Divided(doc: seq<string>, line: nat, column: nat): seq<string>
    requires line < |doc| && column <= |doc[line]|
  {
    doc[..line] + [doc[line][..column], doc[line][column..]] + doc[line + 1..]
  }

  function Joined(doc: seq<string>, line: nat): seq<string>
    requires 0 < line < |doc|
  {
    doc[..line - 1] + [doc[line - 1] + doc[line]] + doc[line + 1..]
  }

  lemma Splice(h: string, u: string, v: string, t: string, c: char)
    ensures Inserted(h + (u + v) + t, |h| + |u|, c) == h + (u + [c] + v) + t
    ensures Deleted(h + (u + [c] + v) + t, |h| + |u|) == h + (u + v) + t
  {
    var s := h + (u + v) + t;
    assert s[..|h| + |u|] == h + u && s[|h| + |u|..] == v + t;
    var w := h + (u + [c] + v) + t;
    assert w[..|h| + |u|] == h + u && w[|h| + |u| + 1..] == v + t;
  }

  /** A character put into a line is put into the text, at the line's place and column. */
  lemma InsertIsSplice(doc: seq<string>, line: nat, column: nat, c: char)
    requires line < |doc| && column <= |doc[line]|
    ensures CharIn(doc, line, column, c, doc[line := Inserted(doc[line], column, c)], line, column + 1)
  {
    var now := doc[line := Inserted(doc[line], column, c)];
    var h, u, v, t := Head(doc[..line]), doc[line][..column], doc[line][column..], Tail(doc[line + 1..]);
    assert doc == doc[..line] + [doc[line]] + doc[line + 1..];
    assert now == doc[..line] + [now[line]] + doc[line + 1..] && now[..line] == doc[..line];
    FlatParts(doc[..line], [doc[line]], doc[line + 1..]);
    FlatParts(doc[..line], [now[line]], doc[line + 1..]);
    FlatOne(doc[line]);
    FlatOne(now[line]);
    assert doc[line] == u + v && now[line] == u + [c] + v;
    Splice(h, u, v, t, c);
  }

  /** Taking a character out undoes putting it in. */
  lemma OutUndoesIn(doc: seq<string>, line: nat, column: nat, c: char, now: seq<string>, nowLine: nat, nowColumn: nat)
    requires CharIn(doc, line, column, c, now, nowLine, nowColumn)
    ensures CharOut(now, nowLine, nowColumn, doc, line, column)
  {
    var o := Offset(doc, line, column);
    assert Deleted(Inserted(Flat(doc), o, c), o) == Flat(doc);
  }

  /** The character before a column taken out of a line is taken out of the text. */
  lemma DeleteIsSplice(doc: seq<string>, line: nat, column: nat)
    requires line < |doc| && 0 < column <= |doc[line]|
    ensures CharOut(doc, line, column, doc[line := Deleted(doc[line], column - 1)], line, column - 1)
  {
    var now, c := doc[line := Deleted(doc[line], column - 1)], doc[line][column - 1];
    InsertIsSplice(now, line, column - 1, c);
    assert Inserted(now[line], column - 1, c) == doc[line];
    assert now[line := doc[line]] == doc;
    OutUndoesIn(now, line, column - 1, c, doc, line, column);
  }

  /** Dividing a line puts a break into the text, and the cursor goes after it. */
  lemma DivideIsSplice(doc: seq<string>, line: nat, column: nat)
    requires line < |doc| && column <= |doc[line]|
    ensures CharIn(doc, line, column, BREAK, Divided(doc, line, column), line + 1, 0)
  {
    var now := Divided(doc, line, column);
    var a, b := doc[line][..column], doc[line][column..];
    var h, t := Head(doc[..line]), Tail(doc[line + 1..]);
    assert doc == doc[..line] + [doc[line]] + doc[line + 1..];
    FlatParts(doc[..line], [doc[line]], doc[line + 1..]);
    FlatParts(doc[..line], [a, b], doc[line + 1..]);
    FlatOne(doc[line]);
    FlatTwo(a, b);
    assert doc[line] == a + b;
    Splice(h, a, b, t, BREAK);
    assert now[..line + 1] == doc[..line] + [a];
    HeadParts(doc[..line], [a]);
    assert [a][1..] == [];
  }

  lemma {:induction false} HeadParts(above: seq<string>, below: seq<string>)
    ensures Head(above + below) == Head(above) + Head(below)
  {
    if above == [] {
      assert above + below == below;
    } else {
      assert (above + below)[1..] == above[1..] + below;
      HeadParts(above[1..], below);
    }
  }

  /** Joining a line to the one above takes the break between them out of the text. */
  lemma JoinIsSplice(doc: seq<string>, line: nat)
    requires 0 < line < |doc|
    ensures CharOut(doc, line, 0, Joined(doc, line), line - 1, |doc[line - 1]|)
  {
    var now := Joined(doc, line);
    assert now[line - 1][..|doc[line - 1]|] == doc[line - 1] && now[line - 1][|doc[line - 1]|..] == doc[line];
    assert Divided(now, line - 1, |doc[line - 1]|) == doc;
    DivideIsSplice(now, line - 1, |doc[line - 1]|);
    OutUndoesIn(now, line - 1, |doc[line - 1]|, BREAK, doc, line, 0);
  }

  /** A line's place in the flat text. */
  lemma LineInText(doc: seq<string>, line: nat)
    requires line < |doc|
    ensures var o := Offset(doc, line, 0);
            o + |doc[line]| <= |Flat(doc)| && Flat(doc)[o..o + |doc[line]|] == doc[line]
    ensures line > 0 ==> Offset(doc, line, 0) == |Flat(doc[..line])| + 1 && Flat(doc)[|Flat(doc[..line])|] == BREAK
    ensures line == 0 ==> Offset(doc, line, 0) == 0 == |Flat(doc[..line])|
    ensures |Flat(doc[..line + 1])| == Offset(doc, line, 0) + |doc[line]|
    ensures line + 1 == |doc| ==> |Flat(doc)| == Offset(doc, line, 0) + |doc[line]|
  {
    assert doc == doc[..line] + [doc[line]] + doc[line + 1..];
    FlatParts(doc[..line], [doc[line]], doc[line + 1..]);
    FlatOne(doc[line]);
    HeadTail(doc[..line]);
    assert doc[..line + 1] == doc[..line] + [doc[line]];
    FlatLast(doc[..line], doc[line]);
  }

  // ----- text into lines

  /** The text at its breaks. */
  ghost function Split(text: string): (doc: seq<string>)
    ensures doc != []
  {
    if text == [] then [[]]
    else
      var n := |text| - 1;
      Grown(Split(text[..n]), text[n])
  }

  lemma SplitNext(text: string, n: nat)
    requires n < |text|
    ensures Split(text[..n + 1]) == Grown(Split(text[..n]), text[n])
  {
    assert text[..n + 1][..n] == text[..n];
  }

  /** One more character of the text, in lines. */
  function Grown(doc: seq<string>, c: char): seq<string>
    requires doc != []
  {
    if c == BREAK then doc + [[]] else doc[|doc| - 1 := doc[|doc| - 1] + [c]]
  }

  lemma FlatGrown(doc: seq<string>, c: char)
    requires doc != []
    ensures Flat(Grown(doc, c)) == Flat(doc) + [c]
  {
    var above, line := doc[..|doc| - 1], doc[|doc| - 1];
    assert doc == above + [line];
    FlatLast(above, line);
    if c == BREAK {
      HeadTail(doc);
      FlatLast(doc, []);
    } else {
      assert Grown(doc, c) == above + [line + [c]];
      FlatLast(above, line + [c]);
    }
  }

  /** Nothing is lost in splitting. */
  lemma {:induction false} FlatSplit(text: string)
    ensures Flat(Split(text)) == text
  {
    if text == [] {
      FlatOne(text);
    } else {
      var n := |text| - 1;
      FlatSplit(text[..n]);
      FlatGrown(Split(text[..n]), text[n]);
      assert text == text[..n] + [text[n]];
    }
  }

  /** Lines without breaks come back from their flat text. */
  lemma {:induction false} SplitFlat(doc: seq<string>)
    requires doc != [] && forall i :: 0 <= i < |doc| ==> BREAK !in doc[i]
    ensures Split(Flat(doc)) == doc
    decreases |doc|, |doc[|doc| - 1]|
  {
    var last := |doc| - 1;
    var above, line := doc[..last], doc[last];
    assert doc == above + [line];
    FlatLast(above, line);
    if line != [] {
      var cut, c := line[..|line| - 1], line[|line| - 1];
      var shorter := doc[last := cut];
      assert shorter == above + [cut] && line == cut + [c] && c in line;
      FlatLast(above, cut);
      SplitFlat(shorter);
      SplitLast(Flat(doc), Flat(shorter), c);
    } else if last > 0 {
      HeadTail(above);
      SplitFlat(above);
      SplitLast(Flat(doc), Flat(above), BREAK);
    }
  }

  lemma SplitLast(text: string, short: string, c: char)
    requires text == short + [c]
    ensures Split(text) == Grown(Split(short), c)
  {
    assert text[..|text| - 1] == short;
  }

  /** What comes later in the text leaves the lines that are finished alone. */
  lemma {:induction false} SplitPrefix(text: string, n: nat)
    requires n <= |text|
    ensures var short, all := Split(text[..n]), Split(text);
            |short| <= |all| && (forall r :: 0 <= r < |short| - 1 ==> all[r] == short[r]) &&
            |short[|short| - 1]| <= |all[|short| - 1]|
    ensures n < |text| && text[n] == BREAK ==>
              var short, all := Split(text[..n]), Split(text);
              |short| < |all| && all[|short| - 1] == short[|short| - 1]
    decreases |text|
  {
    if n == |text| {
      assert text[..n] == text;
    } else {
      var m := |text| - 1;
      SplitPrefix(text[..m], n);
      assert text[..m][..n] == text[..n];
      if n < m { assert text[..m][n] == text[n]; }
    }
  }
}

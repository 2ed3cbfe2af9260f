/**
 The text terminal of kernel/io/vt100tty.c in front of an abstract display.

 The reference is an unbounded document of wrapped lines; the terminal keeps its
 last `rows` lines, and the update flags say where the display may differ.
 */
module Terminal {

  // ------------------------------------------------------------ the document

  /** Lines as far as they are written, which of them continue the line before, and the cursor column in the last. */
  datatype Doc = Doc(lines: seq<string>, wrapped: seq<bool>, col: nat)

  const EMPTY := Doc([[]], [false], 0)

  ghost predicate DocOk(d: Doc, columns: nat)
  {
    && |d.lines| > 0 && |d.wrapped| == |d.lines| && d.col <= |d.lines[|d.lines| - 1]|
    && forall i :: 0 <= i < |d.lines| ==> |d.lines[i]| <= columns
  }

  ghost function NewLine(d: Doc, wraps: bool): Doc
  {
    Doc(d.lines + [[]], d.wrapped + [wraps], 0)
  }

  /** The character goes to the cursor, over what is there. */
  ghost function Place(d: Doc, ch: char): Doc
    requires |d.lines| > 0 && d.col <= |d.lines[|d.lines| - 1]|
  {
    var n := |d.lines| - 1;
    var line := d.lines[n];
    Doc(d.lines[n := line[..d.col] + [ch] + (if d.col < |line| then line[d.col + 1..] else [])], d.wrapped, d.col + 1)
  }

  ghost function Put(d: Doc, columns: nat, ch: char): (d': Doc)
    requires columns > 0 && DocOk(d, columns)
    ensures DocOk(d', columns)
  {
    if ch == '\n' then NewLine(d, false)
    else if ch == '\r' then d.(col := 0)
    else Place(if columns <= d.col then NewLine(d, true) else d, ch)
  }

  ghost function Feed(d: Doc, columns: nat, text: string): (d': Doc)
    requires columns > 0 && DocOk(d, columns)
    ensures DocOk(d', columns)
  {
    if text == [] then d else Put(Feed(d, columns, text[..|text| - 1]), columns, text[|text| - 1])
  }

  /** The text of the first n lines: a line that is no continuation starts with a line feed. */
  ghost function Joined(d: Doc, n: nat): string
    requires n <= |d.lines| == |d.wrapped|
  {
    if n == 0 then []
    else Joined(d, n - 1) + (if n == 1 || d.wrapped[n - 1] then [] else ['\n']) + d.lines[n - 1]
  }

  lemma {:induction false} JoinedPrefix(d: Doc, e: Doc, n: nat)
    requires n <= |d.lines| == |d.wrapped| && n <= |e.lines| == |e.wrapped|
    requires d.lines[..n] == e.lines[..n] && d.wrapped[..n] == e.wrapped[..n]
    ensures Joined(d, n) == Joined(e, n)
  {
    if n > 0 {
      assert d.lines[..n - 1] == d.lines[..n][..n - 1] && e.lines[..n - 1] == e.lines[..n][..n - 1];
      assert d.wrapped[..n - 1] == d.wrapped[..n][..n - 1] && e.wrapped[..n - 1] == e.wrapped[..n][..n - 1];
      assert d.lines[n - 1] == d.lines[..n][n - 1] && e.lines[n - 1] == e.lines[..n][n - 1];
      assert d.wrapped[n - 1] == d.wrapped[..n][n - 1] && e.wrapped[n - 1] == e.wrapped[..n][n - 1];
      JoinedPrefix(d, e, n - 1);
    }
  }

  /** The cursor stands behind the last character. */
  ghost predicate AtEnd(d: Doc)
  {
    |d.lines| > 0 && d.col == |d.lines[|d.lines| - 1]|
  }

  lemma JoinedNewLine(d: Doc, wraps: bool)
    requires |d.lines| == |d.wrapped| > 0
    ensures var e := NewLine(d, wraps);
            |e.lines| == |e.wrapped| && Joined(e, |e.lines|) == Joined(d, |d.lines|) + if wraps then [] else ['\n']
  {
    var e := NewLine(d, wraps);
    JoinedPrefix(d, e, |d.lines|);
  }

  lemma JoinedPlace(d: Doc, ch: char)
    requires |d.lines| == |d.wrapped| && AtEnd(d)
    ensures var e := Place(d, ch);
            |e.lines| == |e.wrapped| && AtEnd(e) && Joined(e, |e.lines|) == Joined(d, |d.lines|) + [ch]
  {
    var e := Place(d, ch);
    var n := |d.lines| - 1;
    JoinedPrefix(d, e, n);
    assert e.lines[n] == d.lines[n] + [ch];
  }

  /** One more character that is no carriage return. */
  lemma PutAppends(d: Doc, columns: nat, ch: char)
    requires columns > 0 && DocOk(d, columns) && AtEnd(d) && ch != '\r'
    ensures var e := Put(d, columns, ch);
            AtEnd(e) && Joined(e, |e.lines|) == Joined(d, |d.lines|) + [ch]
  {
    hide Joined;
    if ch == '\n' {
      JoinedNewLine(d, false);
    } else if columns <= d.col {
      JoinedNewLine(d, true);
      JoinedPlace(NewLine(d, true), ch);
      assert Joined(d, |d.lines|) + [] == Joined(d, |d.lines|);
    } else {
      JoinedPlace(d, ch);
    }
  }

  /** Wrapping loses nothing: the document of a text without carriage returns joins back to the text. */
  lemma {:induction false} DocumentIsText(columns: nat, text: string)
    requires columns > 0 && '\r' !in text
    ensures var d := Feed(EMPTY, columns, text);
            AtEnd(d) && Joined(d, |d.lines|) == text
  {
    if text == [] {
      assert Joined(EMPTY, 1) == Joined(EMPTY, 0) + [] + [];
    } else {
      hide Joined, Put;
      var rest, ch := text[..|text| - 1], text[|text| - 1];
      assert ch != '\r' && text == rest + [ch];
      DocumentIsText(columns, rest);
      PutAppends(Feed(EMPTY, columns, rest), columns, ch);
    }
  }

  /** A line goes on in the next one exactly where it is full: no text is wrapped early, and none late. */
  lemma {:induction false} WrapsWhenFull(columns: nat, text: string, i: nat)
    requires columns > 0 && i + 1 < |Feed(EMPTY, columns, text).lines|
    ensures var d := Feed(EMPTY, columns, text);
            |d.wrapped| == |d.lines| && |d.lines[i]| <= columns && (d.wrapped[i + 1] ==> |d.lines[i]| == columns)
  {
    FeedMarks(columns, text);
  }

  lemma {:induction false} FeedMarks(columns: nat, text: string)
    requires columns > 0
    ensures MarksFullLines(Feed(EMPTY, columns, text), columns)
  {
    if text != [] {
      hide Put;
      FeedMarks(columns, text[..|text| - 1]);
      PutMarks(Feed(EMPTY, columns, text[..|text| - 1]), columns, text[|text| - 1]);
    }
  }

  ghost predicate MarksFullLines(d: Doc, columns: nat)
  {
    && DocOk(d, columns)
    && forall i :: 0 <= i < |d.lines| - 1 && d.wrapped[i + 1] ==> |d.lines[i]| == columns
  }

  lemma PutMarks(d: Doc, columns: nat, ch: char)
    requires columns > 0 && MarksFullLines(d, columns)
    ensures MarksFullLines(Put(d, columns, ch), columns)
  {
    var e := if ch != '\n' && ch != '\r' && columns <= d.col then NewLine(d, true) else d;
    assert MarksFullLines(e, columns);
  }

  /** What is written over the first |s| columns of a line. */
  ghost function Over(line: string, s: string): string
  {
    s + if |s| <= |line| then line[|s|..] else []
  }

  /** After a carriage return a text goes over the start of the same line, and everything else stays. */
  lemma {:induction false} CarriageReturn(d: Doc, columns: nat, s: string)
    requires columns > 0 && DocOk(d, columns) && |s| <= columns && '\n' !in s && '\r' !in s
    ensures var e, n := Feed(Put(d, columns, '\r'), columns, s), |d.lines| - 1;
            e == Doc(d.lines[n := Over(d.lines[n], s)], d.wrapped, |s|)
  {
    var n := |d.lines| - 1;
    var line := d.lines[n];
    if s == [] {
      assert line[0..] == line && [] + line == line;
      assert d.lines[n := line] == d.lines;
    } else {
      var rest, ch := s[..|s| - 1], s[|s| - 1];
      assert s == rest + [ch];
      CarriageReturn(d, columns, rest);
      OverMore(line, rest, ch);
      hide Over;
      var e := Doc(d.lines[n := Over(line, rest)], d.wrapped, |rest|);
      assert Feed(Put(d, columns, '\r'), columns, s) == Put(e, columns, ch) == Place(e, ch);
      assert d.lines[n := Over(line, rest)][n := Over(line, s)] == d.lines[n := Over(line, s)];
    }
  }

  /** One more character over the line. */
  lemma OverMore(line: string, rest: string, ch: char)
    ensures var was := Over(line, rest);
            && |rest| <= |was|
            && Over(line, rest + [ch]) == was[..|rest|] + [ch] + (if |rest| < |was| then was[|rest| + 1..] else [])
  {
    var was := Over(line, rest);
    assert was[..|rest|] == rest;
    if |rest| < |line| {
      assert was == rest + line[|rest|..];
      assert was[|rest| + 1..] == line[|rest| + 1..];
    }
  }

  /** What the document has in line i, column c. */
  ghost function CellOf(d: Doc, i: int, c: nat): char
  {
    if 0 <= i < |d.lines| && c < |d.lines[i]| then d.lines[i][c] else ' '
  }

  /** The document line in the top row. */
  ghost function Top(d: Doc, rows: nat): nat
  {
    if |d.lines| <= rows then 0 else |d.lines| - rows
  }

  // ------------------------------------------------------------ the terminal

  /** struct vt100tty_char */
  datatype Cell = Cell(chr: char, dirty: bool)

  class Tty {
    const rows: nat
    const columns: nat
    const hasScroll: bool
    const chars: array2<Cell>
    /** is_continuation of each line */
    const continuation: array<bool>
    /** What the display shows. */
    const display: array2<char>
    var row: nat
    var col: nat
    /** Everything that was written. */
    ghost var doc: Doc

    ghost predicate Sized()
    {
      && rows > 0 && columns > 0
      && chars.Length0 == rows && chars.Length1 == columns
      && display.Length0 == rows && display.Length1 == columns && continuation.Length == rows
    }

    /** The rows hold the last lines of the document, the cursor is in the last line. */
    ghost predicate Shows(d: Doc)
      requires Sized()
      reads this`row, this`col, chars
    {
      && DocOk(d, columns) && row == |d.lines| - 1 - Top(d, rows) && col == d.col
      && forall r, c :: 0 <= r < rows && 0 <= c < columns ==> chars[r, c].chr == CellOf(d, Top(d, rows) + r, c)
    }

    /** Continuation marks below the top row agree with the document; the top row has none unless it is the only one. */
    ghost predicate Marks(d: Doc)
      requires Sized()
      reads this`row, continuation
    {
      && |d.wrapped| == |d.lines|
      && (forall r :: 1 <= r <= row && r < rows && Top(d, rows) + r < |d.lines| ==> continuation[r] == d.wrapped[Top(d, rows) + r])
      && (rows > 1 ==> !continuation[0])
    }

    /** A cell whose update flag is clear is on the display already. */
    ghost predicate Synced()
      requires Sized()
      reads chars, display
    {
      forall r, c :: 0 <= r < rows && 0 <= c < columns && !chars[r, c].dirty ==> display[r, c] == chars[r, c].chr
    }

    ghost predicate Valid()
      reads this, chars, display, continuation
    {
      Sized() && Shows(doc) && Marks(doc) && Synced()
    }

    /** vt100tty_init over zeroed memory; what the display shows is arbitrary. */
    constructor (lineCount: nat, columnCount: nat, scrolls: bool, shown: array2<char>)
      requires lineCount > 0 && columnCount > 0 && shown.Length0 == lineCount && shown.Length1 == columnCount
      ensures Valid() && doc == EMPTY && rows == lineCount && columns == columnCount && display == shown && fresh(chars) && fresh(continuation)
    {
      rows, columns, hasScroll, display := lineCount, columnCount, scrolls, shown;
      row, col, doc := 0, 0, EMPTY;
      chars := new Cell[lineCount, columnCount]((r, c) => Cell(' ', true));
      continuation := new bool[lineCount](_ => false);
    }

    /** The scroll hook: the display moves up one line; the last line may show anything. */
    method HardwareScroll()
      requires Sized()
      modifies display
      ensures forall r, c :: 0 <= r < rows - 1 && 0 <= c < columns ==> display[r, c] == old(display[r + 1, c])
    {
      forall r, c | 0 <= r < rows - 1 && 0 <= c < columns {
        display[r, c] := display[r + 1, c];
      }
    }

    /** The copy loop of advanceline. */
    method MoveLinesUp()
      requires Sized()
      modifies chars, continuation
      ensures forall r, c :: 0 <= r < rows - 1 && 0 <= c < columns ==>
                chars[r, c].chr == old(chars[r + 1, c].chr) && chars[r, c].dirty == (!hasScroll || old(chars[r + 1, c].dirty))
      ensures forall r :: 0 <= r < rows - 1 ==> continuation[r] == old(continuation[r + 1])
      ensures continuation[rows - 1] == old(continuation[rows - 1])
    {
      for src := 1 to rows
        invariant forall r, c :: 0 <= r < src - 1 && 0 <= c < columns ==>
                    chars[r, c].chr == old(chars[r + 1, c].chr) && chars[r, c].dirty == (!hasScroll || old(chars[r + 1, c].dirty))
        invariant forall r, c :: src - 1 <= r < rows && 0 <= c < columns ==>
                    chars[r, c].chr == old(chars[r, c].chr) && (hasScroll || src <= r ==> chars[r, c] == old(chars[r, c]))
        invariant forall r :: 0 <= r < src - 1 ==> continuation[r] == old(continuation[r + 1])
        invariant forall r :: src - 1 <= r < rows ==> continuation[r] == old(continuation[r])
      {
        var dest := src - 1;
        forall c | 0 <= c < columns {
          chars[dest, c] := chars[src, c];
        }
        if !hasScroll {
          forall c | 0 <= c < columns {
            chars[dest, c] := chars[dest, c].(dirty := true);
          }
          forall c | 0 <= c < columns {
            chars[src, c] := chars[src, c].(dirty := true);
          }
        }
        continuation[dest] := continuation[src];
      }
    }

    /** One round of the loop of advanceline. */
    method ScrollOnce()
      requires Sized() && row == rows && Synced()
      modifies this`row, chars, continuation, display
      ensures row == rows - 1 && Synced()
      ensures forall r, c :: 0 <= r < rows - 1 && 0 <= c < columns ==> chars[r, c].chr == old(chars[r + 1, c].chr)
      ensures forall r, c :: r == rows - 1 && 0 <= c < columns ==> chars[r, c].chr == ' '
      ensures forall r :: 0 <= r < rows - 1 ==> continuation[r] == old(continuation[r + 1])
    {
      MoveLinesUp();
      row := row - 1;
      if hasScroll {
        HardwareScroll();
      }
      if row < rows {
        forall c | 0 <= c < columns {
          chars[row, c] := Cell(' ', true);
        }
      }
    }

    /** Every line moved up by one and the last one is blank. */
    twostate predicate MovedUp()
      requires Sized()
      reads chars, continuation
    {
      && (forall r, c :: 0 <= r < rows - 1 && 0 <= c < columns ==> chars[r, c].chr == old(chars[r + 1, c].chr))
      && (forall r, c :: r == rows - 1 && 0 <= c < columns ==> chars[r, c].chr == ' ')
      && (forall r :: 0 <= r < rows - 1 ==> continuation[r] == old(continuation[r + 1]))
    }

    /** The loop of advanceline: the lines move up exactly if the row was beyond the screen. */
    method MakeRoom()
      requires Sized() && row <= rows && Synced()
      modifies this`row, chars, continuation, display
      ensures Synced()
      ensures if old(row) < rows then row == old(row) && unchanged(chars, continuation) else row == rows - 1 && MovedUp()
    {
      while rows <= row
        invariant Sized() && Synced()
        invariant if row == old(row) then unchanged(chars, continuation) else old(row) == rows && row == rows - 1 && MovedUp()
        decreases row
      {
        ScrollOnce();
      }
    }

    /** advanceline */
    method AdvanceLine(wasTextOverflow: bool)
      requires Valid()
      modifies this`row, this`col, this`doc, chars, continuation, display
      ensures Valid() && doc == NewLine(old(doc), wasTextOverflow)
    {
      hide CellOf, DocOk, NewLine;
      NewLineFacts(doc, columns, wasTextOverflow);
      col := 0;
      row := row + 1;
      MakeRoom();
      continuation[0] := false;
      continuation[row] := wasTextOverflow;
      doc := NewLine(doc, wasTextOverflow);
      AdvancedShows(wasTextOverflow);
      AdvancedMarks(wasTextOverflow);
    }

    twostate lemma AdvancedShows(new wraps: bool)
      requires Sized() && old(Shows(doc)) && doc == NewLine(old(doc), wraps) && col == 0
      requires if old(row) + 1 < rows
               then row == old(row) + 1 && forall r, c :: 0 <= r < rows && 0 <= c < columns ==> chars[r, c] == old(chars[r, c])
               else row == rows - 1 && (forall r, c :: 0 <= r < rows - 1 && 0 <= c < columns ==> chars[r, c].chr == old(chars[r + 1, c].chr))
                    && forall r, c :: r == rows - 1 && 0 <= c < columns ==> chars[r, c].chr == ' '
      ensures Shows(doc)
    {
      hide CellOf, DocOk, NewLine;
      NewLineFacts(old(doc), columns, wraps);
      forall r, c | 0 <= r < rows && 0 <= c < columns
        ensures chars[r, c].chr == CellOf(doc, Top(doc, rows) + r, c)
      {
        if old(row) + 1 == rows && r < rows - 1 {
          assert old(chars[r + 1, c].chr) == CellOf(old(doc), Top(old(doc), rows) + (r + 1), c);
        }
      }
    }

    twostate lemma AdvancedMarks(new wraps: bool)
      requires Sized() && old(Marks(doc)) && old(Shows(doc)) && doc == NewLine(old(doc), wraps) && row < rows
      requires row == (if old(row) + 1 < rows then old(row) + 1 else rows - 1)
      requires continuation[row] == wraps && (row != 0 ==> !continuation[0])
      requires forall r :: 0 < r < row ==> continuation[r] == if old(row) + 1 < rows then old(continuation[r]) else old(continuation[r + 1])
      ensures Marks(doc)
    {
      hide CellOf, DocOk, NewLine;
      NewLineFacts(old(doc), columns, wraps);
      forall r | 1 <= r <= row && r < rows && Top(doc, rows) + r < |doc.lines|
        ensures continuation[r] == doc.wrapped[Top(doc, rows) + r]
      {
        if r < row && old(row) + 1 == rows {
          assert old(continuation[r + 1]) == old(doc).wrapped[Top(old(doc), rows) + (r + 1)];
        }
      }
    }

    /** write_char */
    method WriteChar(ch: char)
      requires Valid()
      modifies this`row, this`col, this`doc, chars, continuation, display
      ensures Valid() && doc == Put(old(doc), columns, ch)
    {
      if ch == '\n' {
        AdvanceLine(false);
        return;
      }
      if ch == '\r' {
        col := 0;
        doc := doc.(col := 0);
        return;
      }
      if columns <= col {
        AdvanceLine(true);
      }
      PutCell(ch);
    }

    /** The end of write_char: the character goes to the cursor. */
    method PutCell(ch: char)
      requires Valid() && col < columns
      modifies this`col, this`doc, chars
      ensures Valid() && DocOk(old(doc), columns) && doc == Place(old(doc), ch)
    {
      hide CellOf;
      PlaceCells(doc, columns, ch);
      hide DocOk, Place;
      chars[row, col] := Cell(ch, true);
      col := col + 1;
      doc := Place(doc, ch);
    }

    /** stream_op_write: after any bytes, the screen shows the end of the document of those bytes. */
    method Write(data: string)
      requires Valid()
      modifies this`row, this`col, this`doc, chars, continuation, display
      ensures Valid() && doc == Feed(old(doc), columns, data)
    {
      for i := 0 to |data|
        invariant Valid() && doc == Feed(old(doc), columns, data[..i])
      {
        assert data[..i + 1][..i] == data[..i];
        WriteChar(data[i]);
      }
      assert data[..|data|] == data;
    }

    /** stream_op_flush, with the update hook drawing every flagged cell: the display shows the screen. */
    method Flush()
      requires Valid()
      modifies chars, display
      ensures Valid() && doc == old(doc)
      ensures forall r, c :: 0 <= r < rows && 0 <= c < columns ==>
                display[r, c] == CellOf(doc, Top(doc, rows) + r, c) && !chars[r, c].dirty
    {
      for r := 0 to rows
        invariant Valid()
        invariant forall q, c :: 0 <= q < r && 0 <= c < columns ==> !chars[q, c].dirty
      {
        for c := 0 to columns
          invariant Valid()
          invariant forall q, e :: 0 <= q < r && 0 <= e < columns ==> !chars[q, e].dirty
          invariant forall e :: 0 <= e < c ==> !chars[r, e].dirty
        {
          if chars[r, c].dirty {
            display[r, c] := chars[r, c].chr;
            chars[r, c] := chars[r, c].(dirty := false);
          }
        }
      }
    }
  }

  lemma NewLineFacts(d: Doc, columns: nat, wraps: bool)
    requires DocOk(d, columns)
    ensures var e := NewLine(d, wraps);
            && DocOk(e, columns) && |d.lines| > 0 && |e.lines| == |d.lines| + 1 && |e.wrapped| == |e.lines| && e.col == 0
            && e.wrapped[|d.lines|] == wraps && (forall i :: 0 <= i < |d.lines| ==> e.wrapped[i] == d.wrapped[i])
            && (forall i, c: nat :: CellOf(e, i, c) == CellOf(d, i, c))
            && forall i, c: nat :: i >= |d.lines| ==> CellOf(d, i, c) == ' '
  {}

  /** Placing a character changes the cell at the cursor only. */
  lemma PlaceCells(d: Doc, columns: nat, ch: char)
    requires DocOk(d, columns) && d.col < columns
    ensures var e := Place(d, ch);
            && DocOk(e, columns) && |d.lines| > 0 && |e.lines| == |d.lines| && e.wrapped == d.wrapped && e.col == d.col + 1
            && forall i, c: nat :: CellOf(e, i, c) == if i == |d.lines| - 1 && c == d.col then ch else CellOf(d, i, c)
  {}
}

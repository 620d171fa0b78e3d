/**
  Which bytes stand for which records, by the format (section 2 of RFC 4180) and
  not by the automaton: lines of cells, each cell bare or in quotes. Every file is
  such a text, and decoding it gives its cells.
*/
module CsvText {
  import opened Basics
  import opened CsvParse

  /** A bare cell stands for itself. A quoted cell has its quotes doubled, and
      perhaps more text behind the closing quote. */
  datatype Cell = Bare(text: seq<byte>) | Quoted(inner: seq<byte>, tail: seq<byte>)

  datatype Line = Line(cells: seq<Cell>, end: seq<byte>)

  /** The record that a file breaks off in: complete cells, and then one more, in
      which a quote may be open. */
  datatype Open = Whole(cells: seq<Cell>, last: Cell) | Unclosed(cells: seq<Cell>, inner: seq<byte>)

  function FieldOf(cell: Cell): (f: Field) {
    match cell case Bare(text) => text case Quoted(inner, tail) => inner + tail
  }

  function FieldsOf(cells: seq<Cell>): (fs: seq<Field>)
    ensures |fs| == |cells|
  {
    seq(|cells|, i requires 0 <= i < |cells| => FieldOf(cells[i]))
  }

  function RecordsIn(lines: seq<Line>): (rs: seq<Record>)
    ensures |rs| == |lines|
  {
    seq(|lines|, i requires 0 <= i < |lines| => FieldsOf(lines[i].cells))
  }

  // ---- The text of cells, lines and files ----

  function Doubled(d: Dialect, s: seq<byte>): (t: seq<byte>) {
    if s == [] then []
    else
      var c := s[|s| - 1];
      Doubled(d, s[..|s| - 1]) + (if c == d.quote then [c, c] else [c])
  }

  function CellText(d: Dialect, cell: Cell): (t: seq<byte>) {
    match cell
    case Bare(text) => text
    case Quoted(inner, tail) => [d.quote] + Doubled(d, inner) + [d.quote] + tail
  }

  /** Cells, each with the delimiter behind it. */
  function Delimited(d: Dialect, cells: seq<Cell>): (t: seq<byte>) {
    if cells == [] then []
    else Delimited(d, cells[..|cells| - 1]) + (CellText(d, cells[|cells| - 1]) + [d.delimiter])
  }

  /** Cells with a delimiter between neighbours. */
  function Joined(d: Dialect, cells: seq<Cell>): (t: seq<byte>) {
    if cells == [] then [] else Delimited(d, cells[..|cells| - 1]) + CellText(d, cells[|cells| - 1])
  }

  function LineText(d: Dialect, line: Line): (t: seq<byte>) {
    Joined(d, line.cells) + line.end
  }

  /** Blank lines, and then the lines. */
  function Text(d: Dialect, blank: seq<byte>, lines: seq<Line>): (t: seq<byte>) {
    if lines == [] then blank else Text(d, blank, lines[..|lines| - 1]) + LineText(d, lines[|lines| - 1])
  }

  function OpenText(d: Dialect, open: Option<Open>): (t: seq<byte>) {
    match open
    case None => []
    case Some(Whole(cells, last)) => Delimited(d, cells) + CellText(d, last)
    case Some(Unclosed(cells, inner)) => Delimited(d, cells) + ([d.quote] + Doubled(d, inner))
  }

  /** Nothing in it ends a cell, and it does not begin with a quote. */
  predicate Plaintext(d: Dialect, s: seq<byte>) {
    && (forall i :: 0 <= i < |s| ==> s[i] != d.delimiter && !IsTerminator(s[i]))
    && (s != [] ==> s[0] != d.quote)
  }

  predicate IsCell(d: Dialect, cell: Cell) {
    match cell case Bare(text) => Plaintext(d, text) case Quoted(_, tail) => Plaintext(d, tail)
  }

  predicate AreCells(d: Dialect, cells: seq<Cell>) {
    cells == [] || (AreCells(d, cells[..|cells| - 1]) && IsCell(d, cells[|cells| - 1]))
  }

  predicate AllTerminators(s: seq<byte>) {
    forall i :: 0 <= i < |s| ==> IsTerminator(s[i])
  }

  /** Cells, and one or more line ends. One empty bare cell alone is a blank line. */
  predicate IsLine(d: Dialect, line: Line) {
    line.cells != [] && line.cells != [Bare([])] && AreCells(d, line.cells) && line.end != [] && AllTerminators(line.end)
  }

  predicate AreLines(d: Dialect, lines: seq<Line>) {
    lines == [] || (AreLines(d, lines[..|lines| - 1]) && IsLine(d, lines[|lines| - 1]))
  }

  predicate IsOpen(d: Dialect, open: Option<Open>) {
    match open
    case None => true
    case Some(Whole(cells, last)) => AreCells(d, cells) && IsCell(d, last) && (cells != [] || last != Bare([]))
    case Some(Unclosed(cells, _)) => AreCells(d, cells)
  }

  // ---- Decoding gives the cells ----

  /** A cell may start here. */
  ghost predicate AtCell(p: Parse) {
    p.cur == [] && (p.state.Idle() || p.state.FieldStart?)
  }

  /** Behind a cell: its field is read, and nothing of it is left out. */
  ghost function Behind(p: Parse, cell: Cell): (q: Parse) {
    if cell == Bare([]) then p
    else p.(cur := FieldOf(cell), state := if cell.Quoted? && cell.tail == [] then QuoteSeen else InField)
  }

  lemma QuotedByteFed(d: Dialect, p: Parse, c: byte)
    requires p.state == InQuoted
    ensures Feed(d, p, if c == d.quote then [c, c] else [c]) == p.(cur := p.cur + [c])
  {
    if c == d.quote {
      FeedTwo(d, p, c, c);
    } else {
      FeedOne(d, p, c);
    }
  }

  lemma {:induction false} DoubledFed(d: Dialect, p: Parse, s: seq<byte>)
    requires p.state == InQuoted
    ensures Feed(d, p, Doubled(d, s)) == p.(cur := p.cur + s)
  {
    if s == [] {
      assert p.cur + s == p.cur;
    } else {
      var init, c := s[..|s| - 1], s[|s| - 1];
      DoubledFed(d, p, init);
      FeedChunks(d, p, Doubled(d, init), if c == d.quote then [c, c] else [c]);
      QuotedByteFed(d, p.(cur := p.cur + init), c);
      assert p.cur + s == p.cur + init + [c];
    }
  }

  /** Text behind the first byte of a bare cell, or behind a closing quote. */
  lemma {:induction false} PlainFed(d: Dialect, p: Parse, s: seq<byte>)
    requires Plaintext(d, s) && s != []
    requires p.state == QuoteSeen || (AtCell(p) && d.Sane())
    ensures Feed(d, p, s) == p.(cur := p.cur + s, state := InField)
  {
    var init, c := s[..|s| - 1], s[|s| - 1];
    if init == [] {
      assert s == [c];
      FeedOne(d, p, c);
    } else {
      PlainFed(d, p, init);
      FeedSnoc(d, p, init, c);
      assert init + [c] == s && p.cur + init + [c] == p.cur + s;
    }
  }

  lemma OpensQuote(d: Dialect, p: Parse)
    requires AtCell(p) && d.Sane()
    ensures Feed(d, p, [d.quote]) == p.(state := InQuoted)
  {
    FeedOne(d, p, d.quote);
  }

  lemma UnclosedFed(d: Dialect, p: Parse, inner: seq<byte>)
    requires AtCell(p) && d.Sane()
    ensures Feed(d, p, [d.quote] + Doubled(d, inner)) == p.(cur := inner, state := InQuoted)
  {
    OpensQuote(d, p);
    FeedChunks(d, p, [d.quote], Doubled(d, inner));
    DoubledFed(d, p.(state := InQuoted), inner);
    assert [] + inner == inner;
  }

  lemma CellFed(d: Dialect, p: Parse, cell: Cell)
    requires AtCell(p) && d.Sane() && IsCell(d, cell)
    ensures Feed(d, p, CellText(d, cell)) == Behind(p, cell)
  {
    match cell
    case Bare(text) =>
      if text != [] {
        PlainFed(d, p, text);
        assert [] + text == text;
      }
    case Quoted(inner, tail) =>
      var q := p.(cur := inner, state := InQuoted);
      UnclosedFed(d, p, inner);
      FeedSnoc(d, p, [d.quote] + Doubled(d, inner), d.quote);
      if tail == [] {
        assert CellText(d, cell) == [d.quote] + Doubled(d, inner) + [d.quote];
        assert inner + tail == inner;
      } else {
        FeedChunks(d, p, [d.quote] + Doubled(d, inner) + [d.quote], tail);
        PlainFed(d, q.(state := QuoteSeen), tail);
      }
  }

  /** A cell and the delimiter behind it are a field. */
  lemma DelimiterFed(d: Dialect, p: Parse, cell: Cell)
    requires AtCell(p) && d.Sane() && IsCell(d, cell)
    ensures Feed(d, p, CellText(d, cell) + [d.delimiter]) == Parse(p.done, p.fields + [FieldOf(cell)], [], FieldStart)
  {
    CellFed(d, p, cell);
    FeedSnoc(d, p, CellText(d, cell), d.delimiter);
  }

  lemma DelimitedSplit(d: Dialect, cells: seq<Cell>)
    requires cells != []
    ensures var init, cell := cells[..|cells| - 1], cells[|cells| - 1];
            && Delimited(d, cells) == Delimited(d, init) + (CellText(d, cell) + [d.delimiter])
            && FieldsOf(cells) == FieldsOf(init) + [FieldOf(cell)]
            && (init == [] ==> FieldsOf(init) == [])
  {
  }

  /** One more cell behind some. */
  lemma NextCellFed(d: Dialect, p: Parse, text: seq<byte>, cell: Cell)
    requires d.Sane() && IsCell(d, cell) && AtCell(Feed(d, p, text))
    ensures var q := Feed(d, p, text);
            Feed(d, p, text + (CellText(d, cell) + [d.delimiter])) == Parse(q.done, q.fields + [FieldOf(cell)], [], FieldStart)
  {
    FeedChunks(d, p, text, CellText(d, cell) + [d.delimiter]);
    DelimiterFed(d, Feed(d, p, text), cell);
  }

  lemma {:induction false} DelimitedFed(d: Dialect, p: Parse, cells: seq<Cell>)
    requires AtCell(p) && p.fields == [] && d.Sane() && AreCells(d, cells)
    ensures Feed(d, p, Delimited(d, cells)) == if cells == [] then p else Parse(p.done, FieldsOf(cells), [], FieldStart)
  {
    if cells != [] {
      var init, cell := cells[..|cells| - 1], cells[|cells| - 1];
      DelimitedSplit(d, cells);
      DelimitedFed(d, p, init);
      NextCellFed(d, p, Delimited(d, init), cell);
    }
  }

  /** More line ends open no record. */
  lemma {:induction false} BlankFed(d: Dialect, p: Parse, blank: seq<byte>)
    requires p.state.Idle() && AllTerminators(blank)
    ensures Feed(d, p, blank) == if blank == [] then p else p.(state := StartRecord)
  {
    if blank != [] {
      BlankFed(d, p, blank[..|blank| - 1]);
    }
  }

  /** These records are complete, and nothing is pending. */
  ghost predicate Between(p: Parse, rs: seq<Record>) {
    p.state.Idle() && p.done == rs && p.fields == [] && p.cur == []
  }

  lemma EndFed(d: Dialect, p: Parse, end: seq<byte>)
    requires d.Sane() && !p.state.Idle() && p.state != InQuoted && end != [] && AllTerminators(end)
    ensures Between(Feed(d, p, end), p.done + [p.fields + [p.cur]])
  {
    FeedOne(d, p, end[0]);
    FeedChunks(d, p, [end[0]], end[1..]);
    assert [end[0]] + end[1..] == end;
    BlankFed(d, FeedByte(d, p, end[0]), end[1..]);
  }

  /** All cells of a line: the last one is read but not ended. */
  lemma CellsFed(d: Dialect, p: Parse, cells: seq<Cell>, last: Cell)
    requires d.Sane() && AreCells(d, cells) && IsCell(d, last) && (cells != [] || last != Bare([]))
    requires p.state.Idle() && p.fields == [] && p.cur == []
    ensures var q := Feed(d, p, Delimited(d, cells) + CellText(d, last));
            !q.state.Idle() && q.state != InQuoted && q == Parse(p.done, FieldsOf(cells), FieldOf(last), q.state)
  {
    DelimitedFed(d, p, cells);
    FeedChunks(d, p, Delimited(d, cells), CellText(d, last));
    CellFed(d, Feed(d, p, Delimited(d, cells)), last);
    assert cells == [] ==> FieldsOf(cells) == [];
  }

  lemma CellsSplit(cells: seq<Cell>)
    requires cells != [] && cells != [Bare([])]
    ensures var init, last := cells[..|cells| - 1], cells[|cells| - 1];
            FieldsOf(cells) == FieldsOf(init) + [FieldOf(last)] && (init != [] || last != Bare([]))
  {
    assert |cells| == 1 ==> cells == [cells[0]];
  }

  lemma JoinedFed(d: Dialect, p: Parse, cells: seq<Cell>)
    requires d.Sane() && AreCells(d, cells) && cells != [] && cells != [Bare([])]
    requires p.state.Idle() && p.fields == [] && p.cur == []
    ensures var q := Feed(d, p, Joined(d, cells));
            && !q.state.Idle() && q.state != InQuoted && q.done == p.done && q.fields + [q.cur] == FieldsOf(cells)
  {
    CellsSplit(cells);
    CellsFed(d, p, cells[..|cells| - 1], cells[|cells| - 1]);
  }

  /** A line is a record. */
  lemma LineFed(d: Dialect, p: Parse, line: Line, before: seq<Record>)
    requires d.Sane() && IsLine(d, line) && Between(p, before)
    ensures Between(Feed(d, p, LineText(d, line)), before + [FieldsOf(line.cells)])
  {
    var text := Joined(d, line.cells);
    JoinedFed(d, p, line.cells);
    FeedChunks(d, p, text, line.end);
    EndFed(d, Feed(d, p, text), line.end);
  }

  /** The same behind a text that was read before. */
  lemma NextLineFed(d: Dialect, text: seq<byte>, line: Line, before: seq<Record>)
    requires d.Sane() && IsLine(d, line) && Between(Feed(d, FRESH, text), before)
    ensures Between(Feed(d, FRESH, text + LineText(d, line)), before + [FieldsOf(line.cells)])
  {
    FeedChunks(d, FRESH, text, LineText(d, line));
    LineFed(d, Feed(d, FRESH, text), line, before);
  }

  lemma RecordsSplit(lines: seq<Line>)
    requires lines != []
    ensures RecordsIn(lines) == RecordsIn(lines[..|lines| - 1]) + [FieldsOf(lines[|lines| - 1].cells)]
  {
  }

  lemma {:induction false} TextFed(d: Dialect, blank: seq<byte>, lines: seq<Line>)
    requires d.Sane() && AllTerminators(blank) && AreLines(d, lines)
    ensures Between(Feed(d, FRESH, Text(d, blank, lines)), RecordsIn(lines))
  {
    if lines == [] {
      BlankFed(d, FRESH, blank);
    } else {
      var init, line := lines[..|lines| - 1], lines[|lines| - 1];
      RecordsSplit(lines);
      TextFed(d, blank, init);
      NextLineFed(d, Text(d, blank, init), line, RecordsIn(init));
    }
  }

  /** Text that breaks off completes no record, and leaves one open. */
  lemma OpenFed(d: Dialect, p: Parse, open: Open)
    requires d.Sane() && IsOpen(d, Some(open)) && p.state.Idle() && p.fields == [] && p.cur == []
    ensures var q := Feed(d, p, OpenText(d, Some(open)));
            && !q.state.Idle() && (q.state == InQuoted <==> open.Unclosed?)
            && q == Parse(p.done, FieldsOf(open.cells), if open.Whole? then FieldOf(open.last) else open.inner, q.state)
  {
    match open
    case Whole(cells, last) => CellsFed(d, p, cells, last);
    case Unclosed(cells, inner) =>
      DelimitedFed(d, p, cells);
      FeedChunks(d, p, Delimited(d, cells), [d.quote] + Doubled(d, inner));
      UnclosedFed(d, Feed(d, p, Delimited(d, cells)), inner);
      assert cells == [] ==> FieldsOf(cells) == [];
  }

  /** Round trip: lines of cells, bare or quoted with their quotes doubled, decode to
      the fields that were written. */
  lemma WrittenIsRead(d: Dialect, blank: seq<byte>, lines: seq<Line>)
    requires d.Sane() && AllTerminators(blank) && AreLines(d, lines)
    ensures Records(d, Text(d, blank, lines)) == RecordsIn(lines) && Closed(d, Text(d, blank, lines))
  {
    TextFed(d, blank, lines);
    IdleIff(d, FRESH, Text(d, blank, lines));
  }

  // ---- Every file is such a text ----

  /** A whole file: blank lines, lines, and perhaps a record that it breaks off in. */
  datatype Reading = Reading(blank: seq<byte>, lines: seq<Line>, open: Option<Open>)

  ghost predicate IsReading(d: Dialect, r: Reading) {
    AllTerminators(r.blank) && AreLines(d, r.lines) && IsOpen(d, r.open)
  }

  function FileText(d: Dialect, r: Reading): (t: seq<byte>) {
    Text(d, r.blank, r.lines) + OpenText(d, r.open)
  }

  function MoreCell(cell: Cell, c: byte): (cell': Cell) {
    match cell case Bare(text) => Bare(text + [c]) case Quoted(inner, tail) => Quoted(inner, tail + [c])
  }

  lemma DoubledSnoc(d: Dialect, s: seq<byte>, c: byte)
    ensures Doubled(d, s + [c]) == Doubled(d, s) + (if c == d.quote then [c, c] else [c])
  {
    assert (s + [c])[..|s|] == s;
  }

  /** `more` is the open record with one more byte. */
  ghost predicate Grows(d: Dialect, open: Option<Open>, c: byte, more: Open) {
    IsOpen(d, Some(more)) && OpenText(d, Some(more)) == OpenText(d, open) + [c]
  }

  lemma GrowsQuoted(d: Dialect, cells: seq<Cell>, inner: seq<byte>, c: byte)
    requires AreCells(d, cells) && c != d.quote
    ensures Grows(d, Some(Unclosed(cells, inner)), c, Unclosed(cells, inner + [c]))
  {
    DoubledSnoc(d, inner, c);
    Assoc([d.quote], Doubled(d, inner), [c]);
    Assoc(Delimited(d, cells), [d.quote] + Doubled(d, inner), [c]);
  }

  lemma ClosesQuote(d: Dialect, cells: seq<Cell>, inner: seq<byte>)
    requires AreCells(d, cells)
    ensures Grows(d, Some(Unclosed(cells, inner)), d.quote, Whole(cells, Quoted(inner, [])))
  {
    var text := [d.quote] + Doubled(d, inner);
    assert CellText(d, Quoted(inner, [])) == text + [d.quote];
    Assoc(Delimited(d, cells), text, [d.quote]);
  }

  lemma DoublesText(q: byte, text: seq<byte>)
    ensures [q] + (text + [q, q]) == [q] + text + [q] + [] + [q]
  {
  }

  lemma DoublesQuote(d: Dialect, cells: seq<Cell>, inner: seq<byte>)
    requires AreCells(d, cells)
    ensures Grows(d, Some(Whole(cells, Quoted(inner, []))), d.quote, Unclosed(cells, inner + [d.quote]))
  {
    DoubledSnoc(d, inner, d.quote);
    DoublesText(d.quote, Doubled(d, inner));
    Assoc(Delimited(d, cells), CellText(d, Quoted(inner, [])), [d.quote]);
  }

  lemma BeginsQuote(d: Dialect, cells: seq<Cell>)
    requires AreCells(d, cells)
    ensures Grows(d, Some(Whole(cells, Bare([]))), d.quote, Unclosed(cells, []))
  {
    var c := d.quote;
    assert [c] + Doubled(d, []) == CellText(d, Bare([])) + [c];
    Assoc(Delimited(d, cells), CellText(d, Bare([])), [c]);
  }

  lemma CellsSnoc(d: Dialect, cells: seq<Cell>, last: Cell)
    ensures Delimited(d, cells + [last]) == Delimited(d, cells) + (CellText(d, last) + [d.delimiter])
    ensures Joined(d, cells + [last]) == Delimited(d, cells) + CellText(d, last)
    ensures AreCells(d, cells + [last]) <==> AreCells(d, cells) && IsCell(d, last)
  {
    assert (cells + [last])[..|cells|] == cells;
  }

  lemma EndsCell(d: Dialect, cells: seq<Cell>, last: Cell)
    requires AreCells(d, cells) && IsCell(d, last)
    ensures Grows(d, Some(Whole(cells, last)), d.delimiter, Whole(cells + [last], Bare([])))
  {
    CellsSnoc(d, cells, last);
    Assoc(Delimited(d, cells), CellText(d, last), [d.delimiter]);
    assert Delimited(d, cells + [last]) + [] == Delimited(d, cells + [last]);
  }

  lemma GrowsCell(d: Dialect, cells: seq<Cell>, last: Cell, c: byte)
    requires AreCells(d, cells) && IsCell(d, last) && c != d.delimiter && !IsTerminator(c)
    requires c == d.quote ==> last != Bare([]) && !(last.Quoted? && last.tail == [])
    ensures Grows(d, Some(Whole(cells, last)), c, Whole(cells, MoreCell(last, c)))
  {
    assert IsCell(d, MoreCell(last, c)) && CellText(d, MoreCell(last, c)) == CellText(d, last) + [c];
    Assoc(Delimited(d, cells), CellText(d, last), [c]);
  }

  lemma MoreOfCell(d: Dialect, cells: seq<Cell>, last: Cell, c: byte) returns (more: Open)
    requires AreCells(d, cells) && IsCell(d, last) && !IsTerminator(c)
    ensures Grows(d, Some(Whole(cells, last)), c, more)
  {
    if c == d.delimiter {
      EndsCell(d, cells, last);
      more := Whole(cells + [last], Bare([]));
    } else if c == d.quote && last == Bare([]) {
      BeginsQuote(d, cells);
      more := Unclosed(cells, []);
    } else if c == d.quote && last.Quoted? && last.tail == [] {
      DoublesQuote(d, cells, last.inner);
      more := Unclosed(cells, last.inner + [c]);
    } else {
      GrowsCell(d, cells, last, c);
      more := Whole(cells, MoreCell(last, c));
    }
  }

  lemma MoreOfQuoted(d: Dialect, cells: seq<Cell>, inner: seq<byte>, c: byte) returns (more: Open)
    requires AreCells(d, cells)
    ensures Grows(d, Some(Unclosed(cells, inner)), c, more)
  {
    if c == d.quote {
      ClosesQuote(d, cells, inner);
      more := Whole(cells, Quoted(inner, []));
    } else {
      GrowsQuoted(d, cells, inner, c);
      more := Unclosed(cells, inner + [c]);
    }
  }

  /** Any byte but a line end that is not quoted goes on with the record, or opens one. */
  lemma MoreOpen(d: Dialect, open: Option<Open>, c: byte) returns (more: Open)
    requires IsOpen(d, open) && (!IsTerminator(c) || (open.Some? && open.value.Unclosed?))
    ensures Grows(d, open, c, more)
  {
    match open
    case None =>
      more := MoreOfCell(d, [], Bare([]), c);
      assert OpenText(d, Some(Whole([], Bare([])))) == [];
    case Some(Whole(cells, last)) => more := MoreOfCell(d, cells, last, c);
    case Some(Unclosed(cells, inner)) => more := MoreOfQuoted(d, cells, inner, c);
  }

  lemma LinesSnoc(d: Dialect, blank: seq<byte>, lines: seq<Line>, line: Line)
    ensures Text(d, blank, lines + [line]) == Text(d, blank, lines) + LineText(d, line)
    ensures AreLines(d, lines + [line]) <==> AreLines(d, lines) && IsLine(d, line)
  {
    assert (lines + [line])[..|lines|] == lines;
  }

  /** A line end behind an open record makes it a line. */
  lemma EndsOpen(d: Dialect, cells: seq<Cell>, last: Cell, c: byte)
    requires IsOpen(d, Some(Whole(cells, last))) && IsTerminator(c)
    ensures var line := Line(cells + [last], [c]);
            IsLine(d, line) && LineText(d, line) == OpenText(d, Some(Whole(cells, last))) + [c]
  {
    CellsSnoc(d, cells, last);
    assert cells == [] ==> cells + [last] == [last];
    assert cells != [] ==> |cells + [last]| > 1;
  }

  /** What is read, and the text that it stands for. */
  ghost predicate ReadsAs(d: Dialect, r: Reading, content: seq<byte>) {
    IsReading(d, r) && FileText(d, r) == content
  }

  /** `stands` says which reading stands for which text. The trigger keeps the
      definition of texts out of the way wherever it is not the point. */
  ghost predicate ReadsTexts(stands: (Reading, seq<byte>) -> bool, d: Dialect) {
    forall r, content {:trigger ReadsAs(d, r, content)} :: stands(r, content) == ReadsAs(d, r, content)
  }

  lemma LineBehind(d: Dialect, r: Reading, cells: seq<Cell>, last: Cell, line: Line, content: seq<byte>, c: byte)
    requires ReadsAs(d, r, content) && r.open == Some(Whole(cells, last)) && line == Line(cells + [last], [c]) && IsTerminator(c)
    ensures ReadsAs(d, Reading(r.blank, r.lines + [line], None), content + [c])
  {
    EndsOpen(d, cells, last, c);
    LinesSnoc(d, r.blank, r.lines, line);
    Assoc(Text(d, r.blank, r.lines), OpenText(d, r.open), [c]);
  }

  lemma NextLine(stands: (Reading, seq<byte>) -> bool, d: Dialect, r: Reading, cells: seq<Cell>, last: Cell, line: Line,
                 content: seq<byte>, c: byte)
    requires ReadsTexts(stands, d) && stands(r, content)
    requires r.open == Some(Whole(cells, last)) && line == Line(cells + [last], [c]) && IsTerminator(c)
    ensures stands(Reading(r.blank, r.lines + [line], None), content + [c])
  {
    assert ReadsAs(d, r, content);
    LineBehind(d, r, cells, last, line, content, c);
  }

  lemma EndBehind(d: Dialect, r: Reading, init: seq<Line>, last: Line, content: seq<byte>, c: byte)
    requires ReadsAs(d, r, content) && r.open.None? && r.lines == init + [last] && IsTerminator(c)
    ensures ReadsAs(d, r.(lines := init + [last.(end := last.end + [c])]), content + [c])
  {
    LinesSnoc(d, r.blank, init, last);
    LinesSnoc(d, r.blank, init, last.(end := last.end + [c]));
    Assoc(Joined(d, last.cells), last.end, [c]);
    Assoc(Text(d, r.blank, init), LineText(d, last), [c]);
  }

  lemma LongerEnd(stands: (Reading, seq<byte>) -> bool, d: Dialect, r: Reading, init: seq<Line>, last: Line, content: seq<byte>, c: byte)
    returns (r': Reading)
    requires ReadsTexts(stands, d) && stands(r, content) && r.open.None? && r.lines == init + [last] && IsTerminator(c)
    ensures stands(r', content + [c])
  {
    assert ReadsAs(d, r, content);
    EndBehind(d, r, init, last, content, c);
    r' := r.(lines := init + [last.(end := last.end + [c])]);
  }

  lemma LongerBlank(stands: (Reading, seq<byte>) -> bool, d: Dialect, r: Reading, content: seq<byte>, c: byte) returns (r': Reading)
    requires ReadsTexts(stands, d) && stands(r, content) && r.open.None? && r.lines == [] && IsTerminator(c)
    ensures stands(r', content + [c])
  {
    assert ReadsAs(d, r, content);
    r' := r.(blank := r.blank + [c]);
    assert ReadsAs(d, r', content + [c]);
  }

  lemma MoreRecord(stands: (Reading, seq<byte>) -> bool, d: Dialect, r: Reading, content: seq<byte>, c: byte) returns (r': Reading)
    requires ReadsTexts(stands, d) && stands(r, content) && (!IsTerminator(c) || (r.open.Some? && r.open.value.Unclosed?))
    ensures stands(r', content + [c])
  {
    assert ReadsAs(d, r, content);
    var more := MoreOpen(d, r.open, c);
    r' := r.(open := Some(more));
    Assoc(Text(d, r.blank, r.lines), OpenText(d, r.open), [c]);
    assert ReadsAs(d, r', content + [c]);
  }

  /** One more byte, whatever it is. */
  lemma MoreText(stands: (Reading, seq<byte>) -> bool, d: Dialect, r: Reading, content: seq<byte>, c: byte) returns (r': Reading)
    requires ReadsTexts(stands, d) && stands(r, content)
    ensures stands(r', content + [c])
  {
    if !IsTerminator(c) || (r.open.Some? && r.open.value.Unclosed?) {
      r' := MoreRecord(stands, d, r, content, c);
    } else if r.open.Some? {
      var Whole(cells, last) := r.open.value;
      var line := Line(cells + [last], [c]);
      NextLine(stands, d, r, cells, last, line, content, c);
      r' := Reading(r.blank, r.lines + [line], None);
    } else if r.lines == [] {
      r' := LongerBlank(stands, d, r, content, c);
    } else {
      r' := LongerEnd(stands, d, r, r.lines[..|r.lines| - 1], r.lines[|r.lines| - 1], content, c);
    }
  }

  lemma {:induction false} Reads(stands: (Reading, seq<byte>) -> bool, d: Dialect, content: seq<byte>) returns (r: Reading)
    requires ReadsTexts(stands, d)
    ensures stands(r, content)
  {
    if content == [] {
      r := Reading([], [], None);
      assert ReadsAs(d, r, []);
    } else {
      var init, c := content[..|content| - 1], content[|content| - 1];
      r := Reads(stands, d, init);
      r := MoreText(stands, d, r, init, c);
      assert init + [c] == content;
    }
  }

  lemma ReadingFed(d: Dialect, r: Reading, content: seq<byte>)
    requires d.Sane() && ReadsAs(d, r, content)
    ensures var p := Feed(d, FRESH, content); p.done == RecordsIn(r.lines) && (p.state.Idle() <==> r.open.None?)
  {
    var text := Text(d, r.blank, r.lines);
    TextFed(d, r.blank, r.lines);
    if r.open.None? {
      assert text + [] == text;
    } else {
      FeedChunks(d, FRESH, text, OpenText(d, r.open));
      OpenFed(d, Feed(d, FRESH, text), r.open.value);
    }
  }

  /** Every file, whatever its bytes, stands as lines of cells and perhaps a record
      that it breaks off in. Its records are the lines, and it is closed exactly if
      it does not break off. */
  lemma EveryFile(d: Dialect, content: seq<byte>) returns (r: Reading)
    requires d.Sane()
    ensures ReadsAs(d, r, content)
    ensures Records(d, content) == RecordsIn(r.lines) && (Closed(d, content) <==> r.open.None?)
  {
    r := Reads((r, content) => ReadsAs(d, r, content), d, content);
    ReadingFed(d, r, content);
    IdleIff(d, FRESH, content);
  }
}

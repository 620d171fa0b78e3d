/**
  `CsvReader`: pulls batches of records out of a file, against the meaning of
  the file as a list of records.
*/
module CsvReader {
  import opened Basics
  import opened Files
  import opened CsvParse
  import opened CsvRuns
  import opened CsvDecoder

  datatype ReaderState =
    | Reading(skipFirst: bool)
    | Flushing(recordOffset: nat, streamExhausted: bool)
    | Exhausted

  datatype PullResult =
    | PullPending
    | PullFailed
    | PullPanicked
    | HasMore(columns: seq<seq<Field>>, rowIds: seq<int>)
    | PullExhausted

  // ---- Writing a batch ----

  /** What a scan writes: records of so many columns, of which some are projected.
      `accepts` says which bytes a column takes: UTF-8 that is empty or parses. */
  datatype Shape = Shape(columns: nat, projection: seq<nat>, accepts: (nat, Field) -> bool) {
    ghost predicate Valid() {
      forall j :: 0 <= j < |projection| ==> projection[j] < columns
    }

    ghost predicate ProjectsLast() {
      columns - 1 in projection
    }
  }

  datatype Output<+T> = Put(vals: seq<T>) | Refused | Panics

  /** One cell of a record whose first `absent` bytes are not in the buffer. */
  function CellOf(shape: Shape, row: Record, absent: nat, col: nat): (cell: Output<Field>) {
    if |row| != shape.columns then Refused
    else
      match Shown(row, absent, col)
      case Value(f) => if shape.accepts(col, f) then Put([f]) else Refused
      case _ => Panics
  }

  /** One column of some records; bytes are absent from the first of them only. */
  function ColumnOf(shape: Shape, rows: seq<Record>, absent: nat, col: nat): (c: Output<Field>) {
    if rows == [] then Put([])
    else
      var n := |rows| - 1;
      var before := ColumnOf(shape, rows[..n], absent, col);
      if !before.Put? then before
      else
        var cell := CellOf(shape, rows[n], if n == 0 then absent else 0, col);
        if cell.Put? then Put(before.vals + cell.vals) else cell
  }

  /** The columns of a batch, one after the other. */
  function BatchOf(shape: Shape, rows: seq<Record>, absent: nat, cols: seq<nat>): (b: Output<seq<Field>>) {
    if cols == [] then Put([])
    else
      var before := BatchOf(shape, rows, absent, cols[..|cols| - 1]);
      if !before.Put? then before
      else
        match ColumnOf(shape, rows, absent, cols[|cols| - 1])
        case Put(vals) => Put(before.vals + [vals])
        case Refused => Refused
        case Panics => Panics
  }

  /** `writes` writes batches of the shape. The trigger keeps the definition out of
      the way where it is not the point. */
  ghost predicate WritesBatches(writes: (seq<Record>, nat) -> Output<seq<Field>>, shape: Shape) {
    forall rows, absent {:trigger BatchOf(shape, rows, absent, shape.projection)} ::
      writes(rows, absent) == BatchOf(shape, rows, absent, shape.projection)
  }

  lemma {:induction false} ColumnStays(shape: Shape, rows: seq<Record>, absent: nat, col: nat, m: nat)
    requires m <= |rows| && !ColumnOf(shape, rows[..m], absent, col).Put?
    ensures ColumnOf(shape, rows, absent, col) == ColumnOf(shape, rows[..m], absent, col)
  {
    if m < |rows| {
      assert rows[..|rows| - 1][..m] == rows[..m];
      ColumnStays(shape, rows[..|rows| - 1], absent, col, m);
    } else {
      assert rows[..m] == rows;
    }
  }

  lemma {:induction false} BatchStays(shape: Shape, rows: seq<Record>, absent: nat, cols: seq<nat>, m: nat)
    requires m <= |cols| && !BatchOf(shape, rows, absent, cols[..m]).Put?
    ensures BatchOf(shape, rows, absent, cols) == BatchOf(shape, rows, absent, cols[..m])
  {
    if m < |cols| {
      assert cols[..|cols| - 1][..m] == cols[..m];
      BatchStays(shape, rows, absent, cols[..|cols| - 1], m);
    } else {
      assert cols[..m] == cols;
    }
  }

  /** One more cell, or the column ends there. */
  lemma ColumnNext(shape: Shape, rows: seq<Record>, absent: nat, col: nat, i: nat)
    requires i < |rows| && ColumnOf(shape, rows[..i], absent, col).Put?
    ensures var cell := CellOf(shape, rows[i], if i == 0 then absent else 0, col);
            if cell.Put? then ColumnOf(shape, rows[..i + 1], absent, col) == Put(ColumnOf(shape, rows[..i], absent, col).vals + cell.vals)
            else ColumnOf(shape, rows, absent, col) == cell
  {
    assert rows[..i + 1][..i] == rows[..i];
    if !CellOf(shape, rows[i], if i == 0 then absent else 0, col).Put? {
      ColumnStays(shape, rows, absent, col, i + 1);
    }
  }

  lemma BatchNext(shape: Shape, rows: seq<Record>, absent: nat, cols: seq<nat>, j: nat)
    requires j < |cols| && BatchOf(shape, rows, absent, cols[..j]).Put?
    ensures match ColumnOf(shape, rows, absent, cols[j])
            case Put(vals) => BatchOf(shape, rows, absent, cols[..j + 1]) == Put(BatchOf(shape, rows, absent, cols[..j]).vals + [vals])
            case Refused => BatchOf(shape, rows, absent, cols) == Refused
            case Panics => BatchOf(shape, rows, absent, cols) == Panics
  {
    assert cols[..j + 1][..j] == cols[..j];
    if !ColumnOf(shape, rows, absent, cols[j]).Put? {
      BatchStays(shape, rows, absent, cols, j + 1);
    }
  }

  /** The values are those of the column in the records. */
  ghost predicate Holds(vals: seq<Field>, rows: seq<Record>, col: nat) {
    |vals| == |rows| && forall i :: 0 <= i < |rows| ==> col < |rows[i]| && vals[i] == rows[i][col]
  }

  ghost predicate AllHold(columns: seq<seq<Field>>, rows: seq<Record>, cols: seq<nat>) {
    |columns| == |cols| && forall j :: 0 <= j < |cols| ==> Holds(columns[j], rows, cols[j])
  }

  /** With nothing absent, a column holds the fields of its records. */
  lemma {:induction false} ColumnHolds(shape: Shape, rows: seq<Record>, col: nat)
    requires col < shape.columns
    ensures var c := ColumnOf(shape, rows, 0, col); !c.Panics? && (c.Put? ==> Holds(c.vals, rows, col))
  {
    if rows != [] {
      var n := |rows| - 1;
      ColumnHolds(shape, rows[..n], col);
      assert forall i :: 0 <= i < n ==> rows[..n][i] == rows[i];
      if |rows[n]| == shape.columns {
        ShownWhole(rows[n], col);
      }
    }
  }

  lemma AllHoldSnoc(columns: seq<seq<Field>>, rows: seq<Record>, cols: seq<nat>, vals: seq<Field>, col: nat)
    requires AllHold(columns, rows, cols) && Holds(vals, rows, col)
    ensures AllHold(columns + [vals], rows, cols + [col])
  {
  }

  /** With nothing absent, a batch holds the projected fields of its records. */
  lemma {:induction false} BatchHolds(shape: Shape, rows: seq<Record>, cols: seq<nat>)
    requires forall j :: 0 <= j < |cols| ==> cols[j] < shape.columns
    ensures var b := BatchOf(shape, rows, 0, cols); !b.Panics? && (b.Put? ==> AllHold(b.vals, rows, cols))
  {
    if cols != [] {
      var init, col := cols[..|cols| - 1], cols[|cols| - 1];
      assert forall j :: 0 <= j < |init| ==> init[j] == cols[j];
      BatchHolds(shape, rows, init);
      ColumnHolds(shape, rows, col);
      var before, c := BatchOf(shape, rows, 0, init), ColumnOf(shape, rows, 0, col);
      if before.Put? && c.Put? {
        AllHoldSnoc(before.vals, rows, init, c.vals, col);
        assert init + [col] == cols;
      }
    }
  }

  /** The record has the number of columns that it should, and its value in the
      column is one that the column takes. */
  ghost predicate Taken(shape: Shape, row: Record, col: nat) {
    |row| == shape.columns && col < |row| && shape.accepts(col, row[col])
  }

  /** With nothing absent, a column is written exactly if it takes the value of every
      record, and refused otherwise. */
  lemma {:induction false} ColumnWrittenIff(shape: Shape, rows: seq<Record>, col: nat)
    requires col < shape.columns
    ensures ColumnOf(shape, rows, 0, col).Put? <==> forall i :: 0 <= i < |rows| ==> Taken(shape, rows[i], col)
  {
    if rows != [] {
      var n := |rows| - 1;
      ColumnWrittenIff(shape, rows[..n], col);
      assert forall i :: 0 <= i < n ==> rows[..n][i] == rows[i];
      if |rows[n]| == shape.columns {
        ShownWhole(rows[n], col);
      }
    }
  }

  /** The projected columns take all values of these records. */
  ghost predicate AllTaken(shape: Shape, rows: seq<Record>, cols: seq<nat>) {
    forall i, j :: 0 <= i < |rows| && 0 <= j < |cols| ==> Taken(shape, rows[i], cols[j])
  }

  /** With nothing absent, a batch is written exactly if the projected columns take
      the values of all its records, and refused otherwise. */
  lemma {:induction false} BatchWrittenIff(shape: Shape, rows: seq<Record>, cols: seq<nat>)
    requires forall j :: 0 <= j < |cols| ==> cols[j] < shape.columns
    ensures BatchOf(shape, rows, 0, cols) == Refused || BatchOf(shape, rows, 0, cols).Put?
    ensures BatchOf(shape, rows, 0, cols).Put? <==> AllTaken(shape, rows, cols)
  {
    BatchHolds(shape, rows, cols);
    if cols != [] {
      var n := |cols| - 1;
      assert forall j :: 0 <= j < n ==> cols[..n][j] == cols[j];
      BatchWrittenIff(shape, rows, cols[..n]);
      ColumnWrittenIff(shape, rows, cols[n]);
    }
  }

  lemma LastCellUnreadable(shape: Shape, row: Record, absent: nat)
    requires absent > 0 && shape.columns > 0
    ensures !CellOf(shape, row, absent, shape.columns - 1).Put?
  {
    if |row| == shape.columns {
      ShownLast(row, absent);
    }
  }

  lemma LastColumnFails(shape: Shape, rows: seq<Record>, absent: nat)
    requires absent > 0 && rows != [] && shape.columns > 0
    ensures !ColumnOf(shape, rows, absent, shape.columns - 1).Put?
  {
    LastCellUnreadable(shape, rows[0], absent);
    assert rows[..0] == [];
    ColumnNext(shape, rows, absent, shape.columns - 1, 0);
  }

  /** With bytes absent, a batch that starts at the first record and reads its last
      column is never written. */
  lemma LastColumnUnreadable(shape: Shape, rows: seq<Record>, absent: nat)
    requires absent > 0 && rows != [] && shape.ProjectsLast()
    ensures !BatchOf(shape, rows, absent, shape.projection).Put?
  {
    LastColumnFails(shape, rows, absent);
    var cols := shape.projection;
    var j :| 0 <= j < |cols| && cols[j] == shape.columns - 1;
    if BatchOf(shape, rows, absent, cols[..j]).Put? {
      BatchNext(shape, rows, absent, cols, j);
    } else {
      BatchStays(shape, rows, absent, cols, j);
    }
  }

  /** A cell of the first record whose end lies behind the bytes that are there. */
  ghost predicate OutOfReach(shape: Shape, row: Record, absent: nat, col: nat) {
    |row| == shape.columns && col < |row| && absent + Ends(row)[col] > |Concat(row)|
  }

  /** Only the first record can make a column panic. */
  lemma {:induction false} LaterRowsReadable(shape: Shape, rows: seq<Record>, absent: nat, col: nat)
    requires rows != [] && col < shape.columns && ColumnOf(shape, rows[..1], absent, col).Put?
    ensures !ColumnOf(shape, rows, absent, col).Panics?
  {
    if |rows| == 1 {
      assert rows[..1] == rows;
    } else {
      var n := |rows| - 1;
      assert rows[..n][..1] == rows[..1];
      LaterRowsReadable(shape, rows[..n], absent, col);
      if |rows[n]| == shape.columns {
        ShownWhole(rows[n], col);
      }
    }
  }

  /** A column panics exactly if its cell of the first record is out of reach. */
  lemma ColumnPanicsIff(shape: Shape, rows: seq<Record>, absent: nat, col: nat)
    requires rows != [] && col < shape.columns
    ensures ColumnOf(shape, rows, absent, col) == Panics <==> OutOfReach(shape, rows[0], absent, col)
  {
    assert rows[..0] == [];
    ColumnNext(shape, rows, absent, col, 0);
    if CellOf(shape, rows[0], absent, col).Put? {
      LaterRowsReadable(shape, rows, absent, col);
    }
  }

  /** The batch comes to column `j`, and its cell of the first record is out of reach. */
  ghost predicate StopsAt(shape: Shape, rows: seq<Record>, absent: nat, cols: seq<nat>, j: nat)
    requires rows != [] && j < |cols|
  {
    OutOfReach(shape, rows[0], absent, cols[j]) && BatchOf(shape, rows, absent, cols[..j]).Put?
  }

  lemma StopsBefore(shape: Shape, rows: seq<Record>, absent: nat, cols: seq<nat>, n: nat, j: nat)
    requires rows != [] && j < n <= |cols|
    ensures StopsAt(shape, rows, absent, cols[..n], j) <==> StopsAt(shape, rows, absent, cols, j)
  {
    assert cols[..n][j] == cols[j] && cols[..n][..j] == cols[..j];
  }

  /** A batch panics exactly if it comes to a projected column whose cell of the
      first record is out of reach. */
  lemma {:induction false} BatchPanicsIff(shape: Shape, rows: seq<Record>, absent: nat, cols: seq<nat>)
    requires rows != [] && forall j :: 0 <= j < |cols| ==> cols[j] < shape.columns
    ensures BatchOf(shape, rows, absent, cols) == Panics <==> exists j: nat :: j < |cols| && StopsAt(shape, rows, absent, cols, j)
  {
    if cols != [] {
      var n := |cols| - 1;
      BatchPanicsIff(shape, rows, absent, cols[..n]);
      forall j: nat | j < n ensures StopsAt(shape, rows, absent, cols[..n], j) <==> StopsAt(shape, rows, absent, cols, j) {
        StopsBefore(shape, rows, absent, cols, n, j);
      }
      ColumnPanicsIff(shape, rows, absent, cols[n]);
      assert StopsAt(shape, rows, absent, cols, n)
        <==> ColumnOf(shape, rows, absent, cols[n]) == Panics && BatchOf(shape, rows, absent, cols[..n]).Put?;
    }
  }

  // ---- What the reader's state says about the run so far ----

  /** `skip` is 1 if the file has a header and 0 otherwise. */
  ghost predicate Consistent(skip: nat, st: ReaderState, run: Run, emitted: seq<Record>) {
    match st
    case Reading(skipFirst) =>
      if skipFirst then skip == 1 && run.flushed == [] && emitted == []
      else |run.flushed| >= skip && emitted == Drop(run.flushed, skip)
    case Flushing(offset, exhausted) =>
      && |run.flushed| + offset >= skip
      && emitted == Drop(run.flushed + run.view.done[..Min(offset, |run.view.done|)], skip)
      && (!exhausted ==> |run.flushed| + |run.view.done| >= skip)
    case Exhausted => emitted == Drop(run.All(), skip)
  }

  lemma ConsistentFlush(skip: nat, skipFirst: bool, exhausted: bool, run: Run, emitted: seq<Record>)
    requires Consistent(skip, Reading(skipFirst), run, emitted)
    requires exhausted || run.view.done != []
    ensures Consistent(skip, Flushing(if skipFirst then 1 else 0, exhausted), run, emitted)
  {
    var offset := if skipFirst then 1 else 0;
    if !skipFirst {
      assert run.flushed + run.view.done[..0] == run.flushed;
    }
  }

  lemma ConsistentEmit(skip: nat, offset: nat, count: nat, exhausted: bool, run: Run, emitted: seq<Record>)
    requires Consistent(skip, Flushing(offset, exhausted), run, emitted)
    requires offset + count <= |run.view.done|
    ensures Consistent(skip, Flushing(offset + count, exhausted), run, emitted + run.view.done[offset..offset + count])
  {
    var done := run.view.done;
    assert done[..offset] + done[offset..offset + count] == done[..offset + count];
    assert run.flushed + done[..offset + count] == (run.flushed + done[..offset]) + done[offset..offset + count];
  }

  lemma ConsistentCount(skip: nat, offset: nat, exhausted: bool, run: Run, emitted: seq<Record>)
    requires Consistent(skip, Flushing(offset, exhausted), run, emitted) && offset < |run.view.done|
    ensures |emitted| + skip == |run.flushed| + offset
  {
  }

  lemma ConsistentDone(skip: nat, offset: nat, exhausted: bool, run: Run, emitted: seq<Record>)
    requires Consistent(skip, Flushing(offset, exhausted), run, emitted) && offset >= |run.view.done|
    ensures emitted == Drop(run.All(), skip)
  {
    assert run.view.done[..|run.view.done|] == run.view.done;
  }

  /** What has been emitted is always a prefix of the file's records. */
  lemma EmittedIsPrefix(d: Dialect, p0: Parse, skip: nat, st: ReaderState, trace: seq<Event>, emitted: seq<Record>, content: seq<byte>, pos: nat)
    requires Opening(p0) && pos <= |content| && BytesOf(trace) == content[..pos]
    requires Consistent(skip, st, RunOf(d, p0, trace), emitted)
    requires Robust(RecordsFrom(d, p0, content))
    ensures emitted <= Drop(RecordsFrom(d, p0, content), skip)
    ensures RunOf(d, p0, trace).All() == RecordsFrom(d, p0, content[..pos])
  {
    RecordsOfPrefix(d, p0, content, pos);
    RobustPrefix(RecordsFrom(d, p0, content[..pos]), RecordsFrom(d, p0, content));
    TracksTrace(d, p0, trace);
    var run := RunOf(d, p0, trace);
    if st.Flushing? {
      assert run.flushed + run.view.done[..Min(st.recordOffset, |run.view.done|)] <= run.All();
    }
  }

  lemma TailOf<T>(before: seq<T>, rows: seq<T>)
    ensures before <= before + rows && (before + rows)[|before|..] == rows
  {
  }

  /** What was read of each earlier file, how the decoder started this one, what
      was read and compacted since, and what came of it. */
  datatype Log = Log(earlier: seq<seq<byte>>, start: Parse, trace: seq<Event>, run: Run) {
    /** Still the same file, started in the same way. */
    ghost predicate SameFile(before: Log) {
      earlier == before.earlier && start == before.start
    }
  }

  /** The decoder started the file where the earlier ones left it, and followed the trace. */
  ghost predicate History(d: Dialect, log: Log) {
    && Opening(log.start) && log.start.state == Feed(d, FRESH, Concat(log.earlier)).state
    && log.run == RunOf(d, log.start, log.trace) && Realizable(d, log.start, log.trace)
  }

  /** `kept` is the history of `d`. The trigger keeps its definition out of the way
      where it is not the point. */
  ghost predicate KeepsHistory(kept: Log -> bool, d: Dialect) {
    forall log {:trigger History(d, log)} :: kept(log) == History(d, log)
  }

  ghost function Next(d: Dialect, log: Log, e: Event): (log': Log) {
    log.(trace := log.trace + [e], run := StepRun(d, log.run, e))
  }

  lemma HistoryGoesOn(kept: Log -> bool, d: Dialect, log: Log, e: Event)
    requires KeepsHistory(kept, d) && kept(log)
    requires match e
             case Chunk(bytes) => bytes != []
             case Flush => log.trace != [] && log.trace[|log.trace| - 1].Chunk? && log.run.view.done != []
    ensures kept(Next(d, log, e))
    ensures BytesOf(Next(d, log, e).trace) == BytesOf(log.trace) + (if e.Chunk? then e.bytes else [])
  {
    assert History(d, log);
    RunSnoc(d, log.start, log.trace, e);
    assert (log.trace + [e])[..|log.trace|] == log.trace;
    assert History(d, Next(d, log, e));
  }

  /** The rows of the next batch, if those before `from` are done. */
  function NextRows(all: seq<Record>, from: nat, cap: nat): (rows: seq<Record>) {
    var rest := Drop(all, from);
    rest[..Min(cap, |rest|)]
  }

  lemma NextRowsAt(flushed: seq<Record>, done: seq<Record>, offset: nat, cap: nat)
    requires offset <= |done|
    ensures NextRows(flushed + done, |flushed| + offset, cap) == done[offset..offset + Min(|done| - offset, cap)]
  {
    assert Drop(flushed + done, |flushed| + offset) == done[offset..];
  }

  lemma NextAreTaken(shape: Shape, all: seq<Record>, rs: seq<Record>, skip: nat, count: nat, cap: nat)
    requires all <= rs && AllTaken(shape, Drop(rs, skip), shape.projection)
    ensures AllTaken(shape, NextRows(all, skip + count, cap), shape.projection)
  {
    var next := NextRows(all, skip + count, cap);
    forall i, j | 0 <= i < |next| && 0 <= j < |shape.projection| ensures Taken(shape, next[i], shape.projection[j]) {
      assert next[i] == Drop(rs, skip)[count + i];
    }
  }

  /** How a decoder starts the next file: what it has of an open record is one
      piece to it. */
  ghost function Opened(p: Parse): (q: Parse)
    ensures |q.cur| == |Concat(p.fields)| + |p.cur|
  {
    Parse([], [], Concat(p.fields) + p.cur, p.state)
  }

  ghost function NextFile(log: Log): (log': Log) {
    var start := Opened(log.run.view);
    Log(log.earlier + [BytesOf(log.trace)], start, [], Run([], start))
  }

  lemma HistoryNextFile(kept: Log -> bool, d: Dialect, log: Log)
    requires KeepsHistory(kept, d) && kept(log)
    ensures kept(NextFile(log)) && Opening(NextFile(log).start)
  {
    assert History(d, log);
    var bytes := BytesOf(log.trace);
    RunReachable(d, log.start, log.trace);
    RunState(d, log.start, log.trace);
    FeedState(d, log.start, Feed(d, FRESH, Concat(log.earlier)), bytes);
    FeedChunks(d, FRESH, Concat(log.earlier), bytes);
    ConcatSnoc(log.earlier, bytes);
    assert History(d, NextFile(log));
  }

  class CsvReader {
    var file: File?
    const hasHeader: bool
    const readBufLen: nat
    const records: ByteRecords
    const decoder: CsvDecoder
    const shape: Shape
    var state: ReaderState
    var currentCount: int

    // What happened before, and what came out since the file was opened.
    ghost const writes: (seq<Record>, nat) -> Output<seq<Field>>
    ghost const kept: Log -> bool
    ghost var log: Log
    ghost var emitted: seq<Record>

    constructor (hasHeader: bool, readBufLen: nat, dialect: Dialect, shape: Shape)
      requires readBufLen > 0 && shape.Valid()
      ensures file == null && ValidRun() && log == Log([], FRESH, [], Run([], FRESH)) && emitted == []
      ensures this.hasHeader == hasHeader && this.readBufLen == readBufLen && this.shape == shape
      ensures decoder.dialect == dialect && decoder.state == StartRecord
      ensures fresh(records) && fresh(decoder)
    {
      this.hasHeader, this.readBufLen, this.shape := hasHeader, readBufLen, shape;
      file, state, currentCount := null, Reading(hasHeader), 0;
      records := new ByteRecords();
      decoder := new CsvDecoder(dialect);
      writes := (rows, absent) => BatchOf(shape, rows, absent, shape.projection);
      kept := log => History(dialect, log);
      log, emitted := Log([], FRESH, [], Run([], FRESH)), [];
      new;
      assert History(dialect, log);
    }

    ghost function Skip(): (n: nat) {
      if hasHeader then 1 else 0
    }

    /** The bytes absent from the next row, if `count` rows were emitted. */
    ghost function AbsentAt(count: nat): (n: nat)
      reads this`log
    {
      if count + Skip() == 0 then |log.start.cur| else 0
    }

    /** The buffers agree with the history. */
    ghost predicate ValidInput()
      reads this`log, records, decoder
    {
      && readBufLen > 0 && shape.Valid() && WritesBatches(writes, shape)
      && records.Valid() && decoder.Synced(records) && decoder.View(records) == log.run.view
      && KeepsHistory(kept, decoder.dialect) && kept(log)
      && records.absent == (if log.run.flushed == [] then |log.start.cur| else 0)
    }

    /** The buffers, the state and what was emitted agree with the run so far. */
    ghost predicate ValidRun()
      reads this, records, decoder
    {
      ValidInput() && ValidOutput()
    }

    ghost predicate ValidOutput()
      reads this`log, this`state, this`currentCount, this`emitted
    {
      && Consistent(Skip(), state, log.run, emitted) && currentCount == |emitted|
      && (state.Flushing? && !state.streamExhausted ==>
            log.trace != [] && log.trace[|log.trace| - 1].Chunk? && log.run.view.done != [])
      && (AbsentAt(0) > 0 && shape.ProjectsLast() ==> emitted == [])
    }

    /** The run so far has read the file up to its position. */
    ghost predicate Valid()
      reads this, records, decoder, file
    {
      && ValidRun()
      && file != null && file.pos <= |file.content|
      && BytesOf(log.trace) == file.content[..file.pos]
      && (state.Exhausted? || (state.Flushing? && state.streamExhausted) ==> file.pos == |file.content|)
    }

    /** Opens another file. The decoder is not reset, so a record that was open
        goes on in it, without the bytes that were read of it. */
    method Prepare(next: File)
      requires ValidRun() && next.pos == 0
      modifies this, records
      ensures Valid() && file == next && log == NextFile(old(log))
      ensures emitted == [] && currentCount == 0 && state == Reading(hasHeader)
    {
      HistoryNextFile(kept, decoder.dialect, log);
      file := next;
      records.ClearAll(NextFile(log).start.cur);
      state := Reading(hasHeader);
      currentCount := 0;
      log, emitted := NextFile(log), [];
      assert decoder.View(records) == log.run.view;
    }

    /** One cell of a record. */
    method WriteCell(idx: nat, col: nat) returns (cell: Output<Field>)
      requires records.Valid() && idx < |records.done|
      ensures cell == CellOf(shape, records.done[idx], if idx == 0 then records.absent else 0, col)
    {
      var view := records.GetRecord(idx);
      if |view.ends| != shape.columns {
        return Refused;
      }
      var field := view.Field(col, records.done[idx], if idx == 0 then records.absent else 0);
      if !field.Value? {
        return Panics;
      }
      cell := if shape.accepts(col, field.bytes) then Put([field.bytes]) else Refused;
    }

    /** One projected column of `count` records from `offset` on. */
    method WriteColumn(offset: nat, count: nat, col: nat) returns (c: Output<Field>)
      requires records.Valid() && offset + count <= |records.done|
      ensures c == ColumnOf(shape, records.done[offset..offset + count], if offset == 0 then records.absent else 0, col)
    {
      ghost var rows, absent := records.done[offset..offset + count], if offset == 0 then records.absent else 0;
      var vals := [];
      for i := 0 to count
        invariant ColumnOf(shape, rows[..i], absent, col) == Put(vals)
      {
        ColumnNext(shape, rows, absent, col, i);
        var cell := WriteCell(offset + i, col);
        if !cell.Put? {
          return cell;
        }
        vals := vals + cell.vals;
      }
      assert rows[..count] == rows;
      c := Put(vals);
    }

    /** Writes `count` records from `offset` on, column by column. */
    method WriteBatch(offset: nat, count: nat) returns (b: Output<seq<Field>>)
      requires shape.Valid() && records.Valid() && offset + count <= |records.done|
      ensures b == BatchOf(shape, records.done[offset..offset + count], if offset == 0 then records.absent else 0, shape.projection)
    {
      ghost var rows, absent := records.done[offset..offset + count], if offset == 0 then records.absent else 0;
      var cols := shape.projection;
      var columns := [];
      for j := 0 to |cols|
        invariant BatchOf(shape, rows, absent, cols[..j]) == Put(columns)
      {
        BatchNext(shape, rows, absent, cols, j);
        var column := WriteColumn(offset, count, cols[j]);
        if !column.Put? {
          return if column.Refused? then Refused else Panics;
        }
        columns := columns + [column.vals];
      }
      assert cols[..|cols|] == cols;
      b := Put(columns);
    }

    method DecodeChunk(bytes: seq<byte>)
      requires ValidRun() && file != null && state.Reading? && bytes != []
      modifies this`log, records, decoder
      ensures ValidRun() && log == Next(decoder.dialect, old(log), Chunk(bytes))
      ensures BytesOf(log.trace) == old(BytesOf(log.trace)) + bytes
    {
      HistoryGoesOn(kept, decoder.dialect, log, Chunk(bytes));
      var _ := decoder.Decode(bytes, records);
      log := Next(decoder.dialect, log, Chunk(bytes));
    }

    /** Decodes bytes read from the file; none means the end of the stream. */
    method Received(bytes: seq<byte>, cap: nat)
      requires ValidRun() && file != null && state.Reading? && cap > 0
      modifies this`state, this`log, records, decoder
      ensures ValidRun() && BytesOf(log.trace) == old(BytesOf(log.trace)) + bytes && log.SameFile(old(log))
      ensures var skip := if old(state).skipFirst then 1 else 0;
              state == if bytes == [] then Flushing(skip, true) else if |records.done| >= cap then Flushing(skip, false) else old(state)
    {
      if bytes == [] {
        ConsistentFlush(Skip(), state.skipFirst, true, log.run, emitted);
        state := Flushing(if state.skipFirst then 1 else 0, true);
        return;
      }
      DecodeChunk(bytes);
      if |records.boundaries| >= cap {
        ConsistentFlush(Skip(), state.skipFirst, false, log.run, emitted);
        state := Flushing(if state.skipFirst then 1 else 0, false);
      }
    }

    /** What the file must have answered for a turn to end so. */
    ghost function Asked(r: Option<PullResult>): (answer: Poll<()>) {
      match r case Some(PullPending) => Pending case Some(PullFailed) => Failed case _ => Ready(())
    }

    /** The `Reading` branch: poll the file once, decode what came. */
    method ReadMore(cap: nat) returns (r: Option<PullResult>)
      requires Valid() && state.Reading? && cap > 0
      modifies this`state, this`log, records, decoder, file
      ensures Valid() && log.SameFile(old(log)) && file.Counted(Asked(r), old(file.pendings), old(file.failures))
      ensures r.Some? ==> (r.value == PullPending || r.value == PullFailed) && state == old(state)
      ensures r.Some? ==> Answers(r.value, cap, emitted, r.value == PullFailed)
      ensures r.None? ==> file.pos > old(file.pos) ||
                          (file.pos == old(file.pos) && state.Flushing? && state.streamExhausted)
    {
      var got := file.PollRead(readBufLen);
      if !got.Ready? {
        r := Some(if got.Pending? then PullPending else PullFailed);
        AnswersNothing(r.value, cap);
        return;
      }
      assert file.content[..file.pos] == old(file.content[..file.pos]) + got.value;
      Received(got.value, cap);
      r := None;
    }

    /** The `Flushing` branch with nothing left to write: compact or stop. */
    method EndFlush()
      requires ValidRun() && file != null && state.Flushing? && state.recordOffset >= |records.done|
      modifies this`state, this`log, records
      ensures ValidRun() && BytesOf(log.trace) == old(BytesOf(log.trace))
      ensures if old(state).streamExhausted then state == Exhausted && log == old(log)
              else state == Reading(false) && log == Next(decoder.dialect, old(log), Flush)
    {
      ConsistentDone(Skip(), state.recordOffset, state.streamExhausted, log.run, emitted);
      if state.streamExhausted {
        state := Exhausted;
      } else {
        HistoryGoesOn(kept, decoder.dialect, log, Flush);
        records.ClearCompleted();
        assert decoder.View(records) == Compact(log.run.view);
        log := Next(decoder.dialect, log, Flush);
        state := Reading(false);
      }
    }

    /** What writing some records comes to. */
    method Answer(offset: nat, count: nat) returns (r: PullResult)
      requires shape.Valid() && WritesBatches(writes, shape) && records.Valid() && offset + count <= |records.done| && count > 0
      ensures var rows, absent := records.done[offset..offset + count], if offset == 0 then records.absent else 0;
              match r
              case HasMore(columns, rowIds) =>
                && rowIds == Range(currentCount, count) && !(absent > 0 && shape.ProjectsLast())
                && writes(rows, absent) == Put(columns)
              case PullPanicked => absent > 0 && writes(rows, absent) == Panics
              case PullFailed => writes(rows, absent) == Refused
              case _ => false
    {
      ghost var rows, absent := records.done[offset..offset + count], if offset == 0 then records.absent else 0;
      var batch := WriteBatch(offset, count);
      if absent == 0 {
        BatchHolds(shape, rows, shape.projection);
      } else if shape.ProjectsLast() {
        LastColumnUnreadable(shape, rows, absent);
      }
      r := match batch case Put(vals) => HasMore(vals, Range(currentCount, count)) case Refused => PullFailed case Panics => PullPanicked;
    }

    /** Writes the next `count` records in the buffer. */
    method WriteNext(count: nat, ghost rows: seq<Record>) returns (r: PullResult)
      requires ValidRun() && state.Flushing? && state.recordOffset + count <= |records.done| && count > 0
      requires rows == records.done[state.recordOffset..state.recordOffset + count]
      requires (if state.recordOffset == 0 then records.absent else 0) == AbsentAt(|emitted|)
      modifies this`state, this`currentCount, this`emitted
      ensures ValidOutput() && state.Flushing? && state.streamExhausted == old(state).streamExhausted
      ensures emitted == if r.HasMore? then old(emitted) + rows else old(emitted)
      ensures Wrote(r, old(emitted), rows)
    {
      r := Answer(state.recordOffset, count);
      if r.HasMore? {
        Advance(count, rows);
      }
    }

    /** What comes of writing rows behind those emitted before. */
    ghost predicate Wrote(r: PullResult, before: seq<Record>, rows: seq<Record>)
      reads this`log
    {
      match r
      case HasMore(columns, rowIds) => rowIds == Range(|before|, |rows|) && writes(rows, AbsentAt(|before|)) == Put(columns)
      case PullPanicked => AbsentAt(|before|) > 0 && writes(rows, AbsentAt(|before|)) == Panics
      case PullFailed => writes(rows, AbsentAt(|before|)) == Refused
      case _ => false
    }

    /** Where the reader stands in the buffer and in the file. */
    lemma FlushingAt()
      requires ValidRun() && state.Flushing? && state.recordOffset < |records.done|
      ensures records.done == log.run.view.done && |records.boundaries| == |records.done|
      ensures |emitted| + Skip() == |log.run.flushed| + state.recordOffset
      ensures (if state.recordOffset == 0 then records.absent else 0) == AbsentAt(|emitted|)
    {
      ConsistentCount(Skip(), state.recordOffset, state.streamExhausted, log.run, emitted);
    }

    /** The `Flushing` branch with records left: write as many of the next ones as there
        is room for. */
    method Emit(cap: nat) returns (r: PullResult, ghost rows: seq<Record>)
      requires ValidRun() && state.Flushing? && state.recordOffset < |records.done| && cap > 0
      modifies this`state, this`currentCount, this`emitted
      ensures ValidOutput() && state.Flushing? && state.streamExhausted == old(state).streamExhausted
      ensures var offset, done := old(state).recordOffset, records.done;
              && done == log.run.view.done && |old(emitted)| + Skip() == |log.run.flushed| + offset
              && rows == done[offset..offset + Min(|done| - offset, cap)]
      ensures emitted == if r.HasMore? then old(emitted) + rows else old(emitted)
      ensures Wrote(r, old(emitted), rows)
    {
      FlushingAt();
      var offset := state.recordOffset;
      var count := Min(|records.boundaries| - offset, cap);
      rows := records.done[offset..offset + count];
      r := WriteNext(count, rows);
    }

    /** The next rows in the buffer decide the answer, and are emitted if they are written. */
    lemma AnswersNext(r: PullResult, cap: nat, before: seq<Record>, offset: nat, rows: seq<Record>)
      requires |before| + Skip() == |log.run.flushed| + offset && offset < |log.run.view.done| && cap > 0
      requires rows == log.run.view.done[offset..offset + Min(|log.run.view.done| - offset, cap)]
      requires emitted == if r.HasMore? then before + rows else before
      requires Wrote(r, before, rows)
      ensures Answers(r, cap, before, false)
    {
      NextRowsAt(log.run.flushed, log.run.view.done, offset, cap);
      TailOf(before, rows);
    }

    /** Nothing is emitted at the end, or if the file is pending or fails. */
    lemma AnswersNothing(r: PullResult, cap: nat)
      requires r == PullPending || r == PullFailed || r == PullExhausted
      ensures Answers(r, cap, emitted, r == PullFailed)
    {
    }

    /** The next `count` records have been written. */
    method Advance(count: nat, ghost rows: seq<Record>)
      requires ValidOutput() && state.Flushing? && state.recordOffset + count <= |log.run.view.done|
      requires rows == log.run.view.done[state.recordOffset..state.recordOffset + count]
      requires AbsentAt(|emitted|) == 0 || !shape.ProjectsLast()
      modifies this`state, this`currentCount, this`emitted
      ensures ValidOutput() && emitted == old(emitted) + rows
      ensures state.Flushing? && state.streamExhausted == old(state).streamExhausted
    {
      ConsistentEmit(Skip(), state.recordOffset, count, state.streamExhausted, log.run, emitted);
      state := Flushing(state.recordOffset + count, state.streamExhausted);
      currentCount := currentCount + count;
      emitted := emitted + rows;
    }

    /** How far the reader is from its next answer, besides the bytes left to read. */
    ghost function Rank(): (n: nat)
      reads this
    {
      match state
      case Reading(_) => 2
      case Flushing(_, exhausted) => if exhausted then 1 else 3
      case Exhausted => 0
    }

    /** One turn of the pull loop. */
    method Turn(cap: nat) returns (r: Option<PullResult>)
      requires Valid() && !state.Exhausted? && cap > 0
      modifies this`state, this`currentCount, this`log, this`emitted, records, decoder, file
      ensures Valid() && log.SameFile(old(log))
      ensures r.None? ==> file.pos > old(file.pos) || (file.pos == old(file.pos) && Rank() < old(Rank()))
      ensures r.None? ==> emitted == old(emitted)
      ensures r.Some? ==> r.value != PullExhausted && state != Exhausted
      ensures r.Some? ==> Answers(r.value, cap, old(emitted), file.failures > old(file.failures))
      ensures Heard(r, old(file.pendings), old(file.failures))
    {
      if state.Reading? {
        r := ReadMore(cap);
      } else {
        r := FlushMore(cap);
      }
    }

    /** The `Flushing` branch. */
    method FlushMore(cap: nat) returns (r: Option<PullResult>)
      requires ValidRun() && file != null && state.Flushing? && cap > 0
      modifies this`state, this`currentCount, this`log, this`emitted, records
      ensures ValidRun() && log.SameFile(old(log)) && BytesOf(log.trace) == old(BytesOf(log.trace))
      ensures r.None? ==> emitted == old(emitted) && state == if old(state).streamExhausted then Exhausted else Reading(false)
      ensures r.Some? ==> state.Flushing? && state.streamExhausted == old(state).streamExhausted
      ensures r.Some? ==> r.value != PullExhausted && r.value != PullPending && Answers(r.value, cap, old(emitted), false)
    {
      if state.recordOffset >= |records.boundaries| {
        EndFlush();
        r := None;
      } else {
        var batch, rows := Emit(cap);
        AnswersNext(batch, cap, old(emitted), old(state).recordOffset, rows);
        r := Some(batch);
      }
    }

    /** What an answer says about the rows emitted before and after it, if the file
        `failed` or did not. */
    ghost predicate Answers(r: PullResult, cap: nat, before: seq<Record>, failed: bool)
      reads this
    {
      && before <= emitted
      && var rows, next, absent := emitted[|before|..], NextRows(log.run.All(), Skip() + |before|, cap), AbsentAt(|before|);
         match r
         case HasMore(columns, rowIds) =>
           rows == next != [] && rowIds == Range(|before|, |rows|) && writes(rows, absent) == Put(columns)
         case PullPanicked => rows == [] != next && absent > 0 && writes(next, absent) == Panics
         case PullFailed => rows == [] && (failed || (next != [] && writes(next, absent) == Refused))
         case _ => rows == []
    }

    /** A pending answer is the file's own, and a failure of the file fails. */
    ghost predicate Heard(r: Option<PullResult>, pendings0: nat, failures0: nat)
      reads this`file, file
    {
      file != null ==>
      && file.pendings == pendings0 + (if r == Some(PullPending) then 1 else 0)
      && failures0 <= file.failures && (file.failures > failures0 ==> r == Some(PullFailed))
    }

    /** Pulls one batch of at most `cap` rows. */
    method PollPull(cap: nat) returns (r: PullResult)
      requires file != null ==> Valid()
      requires cap > 0
      modifies this`state, this`currentCount, this`log, this`emitted, records, decoder, file
      ensures (file != null ==> Valid()) && log.SameFile(old(log))
      ensures file == null ==> r == PullFailed
      ensures Answers(r, cap, old(emitted), file == null || file.failures > old(file.failures))
      ensures file != null ==> Heard(Some(r), old(file.pendings), old(file.failures))
      ensures r == PullExhausted <==> file != null && state == Exhausted
      ensures r == PullExhausted ==> BytesOf(log.trace) == file.content && emitted == Drop(log.run.All(), Skip())
      ensures old(state) == Exhausted && file != null ==> r == PullExhausted
    {
      if file == null {
        AnswersNothing(PullFailed, cap);
        return PullFailed;
      }
      while state != Exhausted
        invariant Valid() && log.SameFile(old(log))
        invariant emitted == old(emitted) && file.pendings == old(file.pendings) && file.failures == old(file.failures)
        invariant old(state) == Exhausted ==> state == Exhausted
        decreases |file.content| - file.pos, Rank()
      {
        var answer := Turn(cap);
        if answer.Some? {
          return answer.value;
        }
      }
      assert file.content[..file.pos] == file.content;
      AnswersNothing(PullExhausted, cap);
      r := PullExhausted;
    }

    /** The columns of an answer are the projected fields of the rows emitted with
        it, unless it holds the first record of a file that was started with one open. */
    lemma AnswerHoldsRows(r: PullResult, cap: nat, before: seq<Record>)
      requires shape.Valid() && WritesBatches(writes, shape)
      requires Answers(r, cap, before, false) && r.HasMore? && AbsentAt(|before|) == 0
      ensures AllHold(r.columns, emitted[|before|..], shape.projection)
    {
      BatchHolds(shape, emitted[|before|..], shape.projection);
    }

    /** All values of the file, behind the header, are ones that the projected columns take. */
    ghost predicate TakesTheFile()
      reads this`file, this`log, decoder
      requires file != null
    {
      var rs := RecordsFrom(decoder.dialect, log.start, file.content);
      Robust(rs) && AllTaken(shape, Drop(rs, Skip()), shape.projection)
    }

    /** What is decoded so far is an initial part of the file's records. */
    lemma DecodedIsPrefix()
      requires file != null && Valid() && Robust(RecordsFrom(decoder.dialect, log.start, file.content))
      ensures log.run.All() <= RecordsFrom(decoder.dialect, log.start, file.content)
    {
      assert History(decoder.dialect, log);
      EmittedIsPrefix(decoder.dialect, log.start, Skip(), state, log.trace, emitted, file.content, file.pos);
      RecordsOfPrefix(decoder.dialect, log.start, file.content, file.pos);
    }

    /** A pull on such a file fails only if the file does. */
    lemma FailsOnlyWithFile(cap: nat, before: seq<Record>, failed: bool)
      requires file != null && Valid() && TakesTheFile()
      requires Answers(PullFailed, cap, before, failed) && AbsentAt(|before|) == 0
      ensures failed
    {
      DecodedIsPrefix();
      NextAreTaken(shape, log.run.All(), RecordsFrom(decoder.dialect, log.start, file.content), Skip(), |before|, cap);
      BatchWrittenIff(shape, NextRows(log.run.All(), Skip() + |before|, cap), shape.projection);
    }

    /** At every moment, the emitted rows are an initial part of the records that
        the decoder reads in the file, without the header; once exhausted, they are
        all of them. */
    lemma EmitsTheFile()
      requires file != null && Valid()
      requires Robust(RecordsFrom(decoder.dialect, log.start, file.content))
      ensures emitted <= Drop(RecordsFrom(decoder.dialect, log.start, file.content), Skip())
      ensures state == Exhausted ==> emitted == Drop(RecordsFrom(decoder.dialect, log.start, file.content), Skip())
    {
      assert History(decoder.dialect, log);
      EmittedIsPrefix(decoder.dialect, log.start, Skip(), state, log.trace, emitted, file.content, file.pos);
      if state == Exhausted {
        assert file.content[..file.pos] == file.content;
      }
    }

    /** The same for the runs in which no compaction met a tail of empty fields,
        whatever the file. */
    lemma CleanRunEmitsTheFile()
      requires file != null && Valid() && state == Exhausted
      requires Clean(decoder.dialect, log.start, log.trace)
      ensures emitted == Drop(RecordsFrom(decoder.dialect, log.start, file.content), Skip())
    {
      assert History(decoder.dialect, log);
      CleanRunIsFaithful(decoder.dialect, log.start, log.trace);
      assert file.content[..file.pos] == file.content;
    }

    /** Whenever a compaction comes, it commutes with what is decoded later
        exactly if the pending record is not one of empty fields only. */
    lemma CompactionHereIff()
      requires ValidRun() && decoder.dialect.Sane()
      ensures (forall more :: log.run.view.done + Feed(decoder.dialect, Compact(log.run.view), more).done
                           == Feed(decoder.dialect, log.run.view, more).done)
              <==> !EmptyFieldTail(log.run.view)
    {
      assert History(decoder.dialect, log);
      RunReachable(decoder.dialect, log.start, log.trace);
      CompactionCommutesIff(decoder.dialect, log.run.view);
    }

    // ---- The end of a file, and the next file ----

    /** An exhausted reader has a record open exactly if the file does not end with
        a line end that is not quoted (or is empty, and one was open before). */
    lemma OpenAfterFileIff()
      requires file != null && Valid() && state == Exhausted && decoder.dialect.Sane()
      ensures decoder.state.Idle() <==> Feed(decoder.dialect, log.start, file.content).state.Idle()
      ensures log.start.state.Idle() ==> (decoder.state.Idle() <==> Closed(decoder.dialect, file.content))
    {
      assert History(decoder.dialect, log);
      RunState(decoder.dialect, log.start, log.trace);
      assert file.content[..file.pos] == file.content;
      if log.start.state.Idle() {
        IdleIsFresh(decoder.dialect, log.start, file.content);
        IdleIff(decoder.dialect, FRESH, file.content);
      }
    }

    /** The reader never hands the decoder an empty input, so a last record without
        line end is lost. It emits what a reader would that ends open records at the
        end of the file, exactly if none is open there, or the open one is the header. */
    lemma LastRecordLostIff()
      requires file != null && Valid() && state == Exhausted && decoder.dialect.Sane()
      requires || Robust(RecordsFrom(decoder.dialect, log.start, file.content))
               || Clean(decoder.dialect, log.start, log.trace)
      ensures var p := Feed(decoder.dialect, log.start, file.content);
              && emitted <= Drop(Finish(p).done, Skip())
              && (emitted == Drop(Finish(p).done, Skip()) <==> p.state.Idle() || (hasHeader && p.done == []))
      ensures log.start.state.Idle() ==>
                (Feed(decoder.dialect, log.start, file.content).state.Idle() <==> Closed(decoder.dialect, file.content))
    {
      OpenAfterFileIff();
      if Robust(RecordsFrom(decoder.dialect, log.start, file.content)) {
        EmitsTheFile();
      } else {
        CleanRunEmitsTheFile();
      }
      FinishAddsOne(Feed(decoder.dialect, log.start, file.content), Skip());
    }

    /** Files in sequence: if all that was read of the earlier files ends with line
        ends, the reader emits the file's own records, numbered from 0 on. */
    lemma FilesInSequence()
      requires file != null && Valid() && decoder.dialect.Sane()
      requires forall i :: 0 <= i < |log.earlier| ==> Closed(decoder.dialect, log.earlier[i])
      ensures log.start.cur == [] && currentCount == |emitted| && forall count :: AbsentAt(count) == 0
      ensures RecordsFrom(decoder.dialect, log.start, file.content) == Records(decoder.dialect, file.content)
      ensures Robust(Records(decoder.dialect, file.content)) ==> emitted <= Drop(Records(decoder.dialect, file.content), Skip())
      ensures state == Exhausted && (Robust(Records(decoder.dialect, file.content)) || Clean(decoder.dialect, log.start, log.trace)) ==>
                emitted == Drop(Records(decoder.dialect, file.content), Skip())
    {
      assert History(decoder.dialect, log);
      AllClosed(decoder.dialect, log.earlier);
      IdleIsFresh(decoder.dialect, log.start, file.content);
      if Robust(Records(decoder.dialect, file.content)) {
        EmitsTheFile();
      } else if state == Exhausted && Clean(decoder.dialect, log.start, log.trace) {
        CleanRunEmitsTheFile();
      }
    }

    /** The next file is read as its own records, whatever it is, exactly if no
        record is open now. */
    lemma ReadyForNextFileIff()
      requires ValidRun() && decoder.dialect.Sane()
      ensures (forall content :: Drop(RecordsFrom(decoder.dialect, Opened(log.run.view), content), Skip())
                              == Drop(Records(decoder.dialect, content), Skip()))
              <==> decoder.state.Idle()
    {
      HistoryNextFile(kept, decoder.dialect, log);
      ReuseIsFreshIff(decoder.dialect, Opened(log.run.view), Skip());
    }
  }

  lemma FinishAddsOne(p: Parse, skip: nat)
    requires skip <= 1
    ensures Drop(p.done, skip) <= Drop(Finish(p).done, skip)
    ensures Drop(p.done, skip) == Drop(Finish(p).done, skip) <==> p.state.Idle() || (skip == 1 && p.done == [])
  {
    if !p.state.Idle() {
      assert |Finish(p).done| == |p.done| + 1;
    }
  }

  /** A file of one unterminated field has no record. A line end that opens the next
      file ends one that is not in that file, and whose byte is absent: reading it
      panics. */
  lemma UnterminatedField()
    ensures var p := Feed(COMMAS, FRESH, [97]);
            && Records(COMMAS, [97]) == [] && Finish(p).done == [[[97]]]
            && Records(COMMAS, [LF]) == [] && RecordsFrom(COMMAS, Opened(p), [LF]) == [[[97]]]
            && BatchOf(Shape(1, [0], (_, _) => true), [[[97]]], |Opened(p).cur|, [0]) == Panics
  {
    var p := Parse([], [], [97], InField);
    FeedOne(COMMAS, FRESH, 97);
    assert FeedByte(COMMAS, FRESH, 97) == p;
    Alone<Field>([97], []);
    Alone<Record>([[97]], []);
    FeedOne(COMMAS, FRESH, LF);
    assert Opened(p) == p;
    FeedOne(COMMAS, p, LF);
    assert FeedByte(COMMAS, p, LF) == Parse([[[97]]], [], [], AfterRecord);
    var shape := Shape(1, [0], (_, _) => true);
    ShownLast([[97]], 1);
    assert CellOf(shape, [[97]], 1, 0) == Panics;
    assert [[[97]]][..0] == [] && [0][..0] == [];
    assert ColumnOf(shape, [[[97]]], 1, 0) == Panics;
  }
}

/**
  Whole scans: any number of pulls on a file, and any number of files one after
  the other, with nothing known of the reader but the contracts of its methods.
*/
module CsvScan {
  import opened Basics
  import opened Files
  import opened CsvParse
  import opened CsvRuns
  import opened CsvReader
  import CsvText

  function RowsIn(r: PullResult): (n: nat) {
    if r.HasMore? then |r.rowIds| else 0
  }

  /** The answer holds the projected fields of these rows, under their numbers. */
  ghost predicate Carries(shape: Shape, r: PullResult, first: nat, rows: seq<Record>) {
    && |rows| == RowsIn(r)
    && (r.HasMore? ==> r.rowIds == Range(first, |rows|) && AllHold(r.columns, rows, shape.projection))
  }

  /** Put together, the answers are the rows. */
  ghost predicate Agrees(shape: Shape, answers: seq<PullResult>, rows: seq<Record>) {
    if answers == [] then rows == []
    else
      var last := answers[|answers| - 1];
      var n := |rows| - RowsIn(last);
      n >= 0 && Agrees(shape, answers[..|answers| - 1], rows[..n]) && Carries(shape, last, n, rows[n..])
  }

  lemma AgreesSnoc(shape: Shape, answers: seq<PullResult>, before: seq<Record>, r: PullResult, rows: seq<Record>)
    requires Agrees(shape, answers, before) && before <= rows && Carries(shape, r, |before|, rows[|before|..])
    ensures Agrees(shape, answers + [r], rows)
  {
    assert (answers + [r])[..|answers|] == answers;
    assert rows[..|before|] == before;
  }

  /** Behind the end there is only the end. */
  ghost predicate EndStays(answers: seq<PullResult>) {
    forall i, j :: 0 <= i < j < |answers| && answers[i] == PullExhausted ==> answers[j] == PullExhausted
  }

  lemma EndStaysSnoc(answers: seq<PullResult>, r: PullResult)
    requires EndStays(answers) && (PullExhausted in answers ==> r == PullExhausted)
    ensures EndStays(answers + [r])
  {
  }

  /** What answers say of a file that was so often pending and failed meanwhile, with
      so many rows emitted. `takes`: no value of it can be refused. */
  ghost predicate Told(answers: seq<PullResult>, rows: nat, pendings: int, failures: int, takes: bool) {
    && 0 <= pendings && 0 <= failures && (PullPending in answers <==> pendings > 0)
    && (failures > 0 ==> PullFailed in answers) && (takes && PullFailed in answers ==> failures > 0)
    && ((forall i :: 0 <= i < |answers| ==> answers[i].HasMore?) ==> |answers| <= rows)
  }

  /** The same for one answer. */
  ghost predicate TellsOf(r: PullResult, more: nat, pendings: int, failures: int, takes: bool) {
    && pendings == (if r == PullPending then 1 else 0) && 0 <= failures
    && (failures > 0 ==> r == PullFailed) && (takes && r == PullFailed ==> failures > 0)
    && (r.HasMore? ==> more > 0)
  }

  lemma ToldSnoc(answers: seq<PullResult>, rows: nat, pendings: int, failures: int, r: PullResult, more: nat, pendings': int, failures': int, takes: bool)
    requires Told(answers, rows, pendings, failures, takes) && TellsOf(r, more, pendings', failures', takes)
    ensures Told(answers + [r], rows + more, pendings + pendings', failures + failures', takes)
  {
    if forall i :: 0 <= i < |answers + [r]| ==> (answers + [r])[i].HasMore? {
      assert (answers + [r])[|answers|] == r;
      forall i | 0 <= i < |answers| ensures answers[i].HasMore? {
        assert (answers + [r])[i] == answers[i];
      }
    }
  }

  /** One more pull behind some answers. */
  method PullOnce(reader: CsvReader, cap: nat, ghost answers: seq<PullResult>) returns (r: PullResult)
    requires reader.file != null && reader.Valid() && cap > 0
    requires reader.log.start.cur == [] || reader.hasHeader
    requires Agrees(reader.shape, answers, reader.emitted)
    modifies reader`state, reader`currentCount, reader`log, reader`emitted, reader.records, reader.decoder, reader.file
    ensures reader.Valid() && reader.log.SameFile(old(reader.log)) && |reader.emitted| >= |old(reader.emitted)|
    ensures r != PullPanicked && Agrees(reader.shape, answers + [r], reader.emitted)
    ensures r == PullExhausted <==> reader.state == Exhausted
    ensures old(reader.state) == Exhausted ==> r == PullExhausted
    ensures TellsOf(r, |reader.emitted| - |old(reader.emitted)|, reader.file.pendings - old(reader.file.pendings),
                    reader.file.failures - old(reader.file.failures), reader.TakesTheFile())
  {
    ghost var before, failures := reader.emitted, reader.file.failures;
    r := reader.PollPull(cap);
    if r.HasMore? {
      reader.AnswerHoldsRows(r, cap, before);
    }
    if r == PullFailed && reader.TakesTheFile() {
      reader.FailsOnlyWithFile(cap, before, reader.file.failures > failures);
    }
    AgreesSnoc(reader.shape, answers, before, r, reader.emitted);
  }

  /** The same, with what the answers say of the file since it had so many pending
      and failed answers. */
  method PullNext(reader: CsvReader, cap: nat, ghost answers: seq<PullResult>, ghost pendings0: nat, ghost failures0: nat, ghost takes: bool)
    returns (r: PullResult)
    requires reader.file != null && reader.Valid() && cap > 0
    requires reader.log.start.cur == [] || reader.hasHeader
    requires Agrees(reader.shape, answers, reader.emitted) && EndStays(answers) && (PullExhausted in answers ==> reader.state == Exhausted)
    requires takes == reader.TakesTheFile()
    requires Told(answers, |reader.emitted|, reader.file.pendings - pendings0, reader.file.failures - failures0, takes)
    modifies reader`state, reader`currentCount, reader`log, reader`emitted, reader.records, reader.decoder, reader.file
    ensures reader.Valid() && reader.log.SameFile(old(reader.log)) && takes == reader.TakesTheFile()
    ensures r != PullPanicked && Agrees(reader.shape, answers + [r], reader.emitted)
    ensures EndStays(answers + [r]) && (PullExhausted in answers + [r] ==> reader.state == Exhausted)
    ensures Told(answers + [r], |reader.emitted|, reader.file.pendings - pendings0, reader.file.failures - failures0, takes)
  {
    ghost var rows, pendings, failures := |reader.emitted|, reader.file.pendings, reader.file.failures;
    r := PullOnce(reader, cap, answers);
    EndStaysSnoc(answers, r);
    ToldSnoc(answers, rows, pendings - pendings0, failures - failures0, r,
             |reader.emitted| - rows, reader.file.pendings - pendings, reader.file.failures - failures, takes);
  }

  /** Pulls with the given capacities. The answers, put together, are the rows that
      were emitted; none of them is a panic, and behind the end there is only the end. */
  method Pulls(reader: CsvReader, caps: seq<nat>) returns (answers: seq<PullResult>)
    requires reader.file != null && reader.Valid() && reader.emitted == []
    requires reader.log.start.cur == [] || reader.hasHeader
    requires forall i :: 0 <= i < |caps| ==> caps[i] > 0
    modifies reader`state, reader`currentCount, reader`log, reader`emitted, reader.records, reader.decoder, reader.file
    ensures reader.Valid() && reader.log.SameFile(old(reader.log)) && |answers| == |caps|
    ensures PullPanicked !in answers && Agrees(reader.shape, answers, reader.emitted)
    ensures EndStays(answers) && (PullExhausted in answers ==> reader.state == Exhausted)
    ensures Told(answers, |reader.emitted|, reader.file.pendings - old(reader.file.pendings),
                 reader.file.failures - old(reader.file.failures), reader.TakesTheFile())
  {
    answers := [];
    ghost var takes := reader.TakesTheFile();
    for k := 0 to |caps|
      invariant reader.Valid() && reader.log.SameFile(old(reader.log)) && |answers| == k && takes == reader.TakesTheFile()
      invariant PullPanicked !in answers && Agrees(reader.shape, answers, reader.emitted)
      invariant EndStays(answers) && (PullExhausted in answers ==> reader.state == Exhausted)
      invariant Told(answers, |reader.emitted|, reader.file.pendings - old(reader.file.pendings),
                     reader.file.failures - old(reader.file.failures), takes)
    {
      var r := PullNext(reader, caps[k], answers, old(reader.file.pendings), old(reader.file.failures), takes);
      answers := answers + [r];
    }
  }

  /** Opens a file behind files that all ended with line ends, and pulls. */
  method PullFile(reader: CsvReader, next: File, caps: seq<nat>) returns (answers: seq<PullResult>)
    requires reader.ValidRun() && next.pos == 0 && reader.decoder.dialect.Sane() && AllRead(reader)
    requires forall i :: 0 <= i < |caps| ==> caps[i] > 0
    modifies reader, reader.records, reader.decoder, next
    ensures reader.file == next && reader.Valid() && |answers| == |caps| && PullPanicked !in answers
    ensures reader.log.earlier == old(reader.log.earlier) + [old(BytesOf(reader.log.trace))]
    ensures Agrees(reader.shape, answers, reader.emitted) && (PullExhausted in answers ==> reader.state == Exhausted)
    ensures Told(answers, |reader.emitted|, next.pendings - old(next.pendings), next.failures - old(next.failures), reader.TakesTheFile())
  {
    reader.Prepare(next);
    reader.FilesInSequence();
    answers := Pulls(reader, caps);
  }

  /** Scans a file behind files that all ended with line ends: the answers are the
      records of this file, without the header. With more pulls than records, on a file
      that is never pending, never fails and holds no value that a column refuses, the
      scan comes to the end. */
  method ScanFile(reader: CsvReader, next: File, caps: seq<nat>) returns (answers: seq<PullResult>)
    requires reader.ValidRun() && next.pos == 0 && reader.decoder.dialect.Sane() && AllRead(reader)
    requires forall i :: 0 <= i < |caps| ==> caps[i] > 0
    modifies reader, reader.records, reader.decoder, next
    ensures reader.Valid() && reader.file == next && PullPanicked !in answers
    ensures reader.log.earlier == old(reader.log.earlier) + [old(BytesOf(reader.log.trace))]
    ensures Agrees(reader.shape, answers, reader.emitted)
    ensures Robust(Records(reader.decoder.dialect, next.content)) ==>
              reader.emitted <= Drop(Records(reader.decoder.dialect, next.content), reader.Skip())
    ensures PullExhausted in answers && Closed(reader.decoder.dialect, next.content) ==> AllRead(reader)
    ensures PullExhausted in answers
            && (Robust(Records(reader.decoder.dialect, next.content)) || Clean(reader.decoder.dialect, reader.log.start, reader.log.trace)) ==>
              OwnRecords(reader.decoder.dialect, reader.shape, reader.Skip(), next.content, answers)
    ensures next.pendings == old(next.pendings) && next.failures == old(next.failures)
            && Takeable(reader.decoder.dialect, reader.shape, reader.Skip(), next.content, |caps|) ==>
              PullExhausted in answers
  {
    answers := PullFile(reader, next, caps);
    reader.FilesInSequence();
    assert next.content[..|next.content|] == next.content;
    if Takeable(reader.decoder.dialect, reader.shape, reader.Skip(), next.content, |caps|) {
      ReachesEnd(answers, reader.emitted, Drop(Records(reader.decoder.dialect, next.content), reader.Skip()),
                 next.pendings - old(next.pendings), next.failures - old(next.failures));
    }
  }

  /** The columns take all values of the file, and there are more pulls than rows. */
  ghost predicate Takeable(d: Dialect, shape: Shape, skip: nat, content: seq<byte>, pulls: nat) {
    var rows := Drop(Records(d, content), skip);
    Robust(Records(d, content)) && AllTaken(shape, rows, shape.projection) && pulls > |rows|
  }

  lemma ReachesEnd(answers: seq<PullResult>, emitted: seq<Record>, rows: seq<Record>, pendings: int, failures: int)
    requires Told(answers, |emitted|, pendings, failures, true) && emitted <= rows && |answers| > |rows| && PullPanicked !in answers
    ensures pendings == 0 && failures == 0 ==> PullExhausted in answers
  {
    var i :| 0 <= i < |answers| && !answers[i].HasMore?;
    assert answers[i] in answers;
  }

  /** The answers are the file's own records behind the header. */
  ghost predicate OwnRecords(d: Dialect, shape: Shape, skip: nat, content: seq<byte>, answers: seq<PullResult>) {
    Agrees(shape, answers, Drop(Records(d, content), skip))
  }

  /** A file written as lines of cells is one that scans can be started behind, and
      its own records are the fields of the cells. */
  lemma WrittenFile(d: Dialect, shape: Shape, skip: nat, blank: seq<byte>, lines: seq<CsvText.Line>, answers: seq<PullResult>)
    requires d.Sane() && CsvText.AllTerminators(blank) && CsvText.AreLines(d, lines)
    ensures var content := CsvText.Text(d, blank, lines);
            && (GoodFile(d, content) <==> Robust(CsvText.RecordsIn(lines)))
            && (OwnRecords(d, shape, skip, content, answers) <==> Agrees(shape, answers, Drop(CsvText.RecordsIn(lines), skip)))
  {
    CsvText.WrittenIsRead(d, blank, lines);
  }

  /** What was read of all files so far, this one included, ends with line ends. */
  ghost predicate AllRead(reader: CsvReader)
    reads reader, reader.decoder
  {
    && (forall i :: 0 <= i < |reader.log.earlier| ==> Closed(reader.decoder.dialect, reader.log.earlier[i]))
    && Closed(reader.decoder.dialect, BytesOf(reader.log.trace))
  }

  /** No scan panics, and those that reach the end are of the files' own records. */
  ghost predicate ScansAgree(d: Dialect, shape: Shape, skip: nat, contents: seq<seq<byte>>, scans: seq<seq<PullResult>>) {
    && |scans| <= |contents|
    && forall i :: 0 <= i < |scans| ==>
         PullPanicked !in scans[i] && (PullExhausted in scans[i] ==> OwnRecords(d, shape, skip, contents[i], scans[i]))
  }

  lemma ScansAgreeSnoc(d: Dialect, shape: Shape, skip: nat, contents: seq<seq<byte>>, scans: seq<seq<PullResult>>, answers: seq<PullResult>)
    requires ScansAgree(d, shape, skip, contents, scans) && |scans| < |contents| && PullPanicked !in answers
    requires PullExhausted in answers ==> OwnRecords(d, shape, skip, contents[|scans|], answers)
    ensures ScansAgree(d, shape, skip, contents, scans + [answers])
  {
  }

  function Contents(files: seq<File>): (cs: seq<seq<byte>>) {
    seq(|files|, i requires 0 <= i < |files| => files[i].content)
  }

  /** The file ends with a line end, and no run can go wrong on it. */
  ghost predicate GoodFile(d: Dialect, content: seq<byte>) {
    Closed(d, content) && Robust(Records(d, content))
  }

  ghost predicate GoodFiles(d: Dialect, contents: seq<seq<byte>>) {
    forall i :: 0 <= i < |contents| ==> GoodFile(d, contents[i])
  }

  /** Distinct files that were not read yet. */
  ghost predicate Unread(files: seq<File>)
    reads files
  {
    && (forall i :: 0 <= i < |files| ==> files[i].pos == 0)
    && forall i, j :: 0 <= i < j < |files| ==> files[i] != files[j]
  }

  /** Scans files one after the other, up to one that is not exhausted by its pulls.
      For every file that is, the answers are that file's own records. */
  method ScanFiles(reader: CsvReader, files: seq<File>, caps: seq<seq<nat>>) returns (scans: seq<seq<PullResult>>)
    requires reader.ValidRun() && reader.decoder.dialect.Sane() && AllRead(reader)
    requires Unread(files) && GoodFiles(reader.decoder.dialect, Contents(files))
    requires |caps| == |files| && forall i, j :: 0 <= i < |caps| && 0 <= j < |caps[i]| ==> caps[i][j] > 0
    modifies reader, reader.records, reader.decoder, files
    ensures ScansAgree(reader.decoder.dialect, reader.shape, reader.Skip(), Contents(files), scans)
    ensures |scans| < |files| ==> scans != [] && PullExhausted !in scans[|scans| - 1]
  {
    scans := [];
    for k := 0 to |files|
      invariant reader.ValidRun() && AllRead(reader) && |scans| == k && Unread(files[k..])
      invariant ScansAgree(reader.decoder.dialect, reader.shape, reader.Skip(), Contents(files), scans)
    {
      assert files[k..][0] == files[k] && files[k..][1..] == files[k + 1..];
      assert Contents(files)[k] == files[k].content;
      var answers := ScanFirst(reader, files[k..], caps[k]);
      ScansAgreeSnoc(reader.decoder.dialect, reader.shape, reader.Skip(), Contents(files), scans, answers);
      scans := scans + [answers];
      if PullExhausted !in answers {
        return;
      }
    }
  }

  /** Scans the first of some files; the others stay unread. */
  method ScanFirst(reader: CsvReader, files: seq<File>, caps: seq<nat>) returns (answers: seq<PullResult>)
    requires reader.ValidRun() && reader.decoder.dialect.Sane() && AllRead(reader)
    requires files != [] && Unread(files)
    requires GoodFile(reader.decoder.dialect, files[0].content)
    requires forall i :: 0 <= i < |caps| ==> caps[i] > 0
    modifies reader, reader.records, reader.decoder, files[0]
    ensures reader.ValidRun() && Unread(files[1..]) && PullPanicked !in answers
    ensures PullExhausted in answers ==>
              AllRead(reader) && OwnRecords(reader.decoder.dialect, reader.shape, reader.Skip(), files[0].content, answers)
  {
    answers := ScanFile(reader, files[0], caps);
  }
}

/**
  The meaning of a CSV byte stream: the automaton of `csv_core::Reader` for a
  delimiter, a quote and CR/LF/CRLF terminators, and the records it yields.

  `csv_core` has two states after a record, one for a carriage return and one
  for a line feed. Both react to every byte as the start of a record does; one
  state, `AfterRecord`, stands for the two.
*/
module CsvParse {
  import opened Basics

  type Field = seq<byte>
  type Record = seq<Field>

  const CR: byte := 13
  const LF: byte := 10

  datatype Dialect = Dialect(delimiter: byte, quote: byte) {
    /** Holds of every dialect the repository offers. */
    predicate Sane() {
      delimiter != quote && !IsTerminator(delimiter) && !IsTerminator(quote)
    }
  }

  datatype State = StartRecord | AfterRecord | FieldStart | InField | InQuoted | QuoteSeen {
    /** No record is open. */
    predicate Idle() {
      StartRecord? || AfterRecord?
    }
  }

  datatype Mark = NoMark | FieldEnd | RecordEnd

  datatype Move = Move(next: State, copies: bool, mark: Mark)

  predicate IsTerminator(c: byte) {
    c == CR || c == LF
  }

  function StepUnquoted(d: Dialect, c: byte): (m: Move) {
    if c == d.delimiter then Move(FieldStart, false, FieldEnd)
    else if IsTerminator(c) then Move(AfterRecord, false, RecordEnd)
    else Move(InField, true, NoMark)
  }

  function StepOpening(d: Dialect, c: byte): (m: Move) {
    if c == d.quote then Move(InQuoted, false, NoMark) else StepUnquoted(d, c)
  }

  function Step(d: Dialect, s: State, c: byte): (m: Move) {
    match s
    case StartRecord | AfterRecord => if IsTerminator(c) then Move(StartRecord, false, NoMark) else StepOpening(d, c)
    case FieldStart => StepOpening(d, c)
    case InField => StepUnquoted(d, c)
    case InQuoted => if c == d.quote then Move(QuoteSeen, false, NoMark) else Move(InQuoted, true, NoMark)
    case QuoteSeen => if c == d.quote then Move(InQuoted, true, NoMark) else StepUnquoted(d, c)
  }

  /** Records completed so far, the completed fields and the bytes of the open
      field of the pending record, and the automaton state. */
  datatype Parse = Parse(done: seq<Record>, fields: seq<Field>, cur: Field, state: State)

  const FRESH: Parse := Parse([], [], [], StartRecord)

  function FeedByte(d: Dialect, p: Parse, c: byte): (r: Parse) {
    Apply(Step(d, p.state, c), p, c)
  }

  function Apply(m: Move, p: Parse, c: byte): (r: Parse) {
    var cur := if m.copies then p.cur + [c] else p.cur;
    match m.mark
    case NoMark => Parse(p.done, p.fields, cur, m.next)
    case FieldEnd => Parse(p.done, p.fields + [cur], [], m.next)
    case RecordEnd => Parse(p.done + [p.fields + [cur]], [], [], m.next)
  }

  function Stepper(d: Dialect): (step: (Parse, byte) -> Parse) {
    (p: Parse, c: byte) => FeedByte(d, p, c)
  }

  function Feed(d: Dialect, p: Parse, input: seq<byte>): (r: Parse) {
    Fold(Stepper(d), p, input)
  }

  /** What `csv_core` does when it is handed no input: an open record ends here. */
  function Finish(p: Parse): (r: Parse) {
    if p.state.Idle() then p else Parse(p.done + [p.fields + [p.cur]], [], [], AfterRecord)
  }

  /** The terminated records of a file, for a decoder that starts it in `p`. */
  function RecordsFrom(d: Dialect, p: Parse, content: seq<byte>): (rs: seq<Record>) {
    Feed(d, p, content).done
  }

  /** The terminated records of a file. */
  function Records(d: Dialect, content: seq<byte>): (rs: seq<Record>) {
    RecordsFrom(d, FRESH, content)
  }

  /** How a decoder may start a file: nothing is decoded. A record may still be
      open, of which `cur` was decoded before. */
  ghost predicate Opening(p: Parse) {
    p.done == [] && p.fields == [] && (p.state.Idle() ==> p.cur == [])
  }

  lemma FeedSnoc(d: Dialect, p: Parse, input: seq<byte>, c: byte)
    ensures Feed(d, p, input + [c]) == FeedByte(d, Feed(d, p, input), c)
  {
    FoldSnoc(Stepper(d), p, input, c);
  }

  /** Chunking does not matter: feeding two chunks is feeding their concatenation. */
  lemma FeedChunks(d: Dialect, p: Parse, a: seq<byte>, b: seq<byte>)
    ensures Feed(d, Feed(d, p, a), b) == Feed(d, p, a + b)
  {
    FoldAppend(Stepper(d), p, a, b);
  }

  /** Any split into chunks, fed one after the other. */
  function FeedAll(d: Dialect, p: Parse, chunks: seq<seq<byte>>): (r: Parse) {
    if chunks == [] then p
    else Feed(d, FeedAll(d, p, chunks[..|chunks| - 1]), chunks[|chunks| - 1])
  }

  lemma {:induction false} ChunkingIndependence(d: Dialect, p: Parse, chunks: seq<seq<byte>>)
    ensures FeedAll(d, p, chunks) == Feed(d, p, Concat(chunks))
  {
    if chunks != [] {
      var init, last := chunks[..|chunks| - 1], chunks[|chunks| - 1];
      ChunkingIndependence(d, p, init);
      FeedChunks(d, p, Concat(init), last);
    }
  }

  /** Completed records are never revised. */
  lemma {:induction false} FeedKeepsDone(d: Dialect, p: Parse, input: seq<byte>)
    ensures p.done <= Feed(d, p, input).done
  {
    if input != [] {
      FeedKeepsDone(d, p, input[..|input| - 1]);
    }
  }

  lemma RecordsOfPrefix(d: Dialect, p: Parse, content: seq<byte>, k: nat)
    requires k <= |content|
    ensures RecordsFrom(d, p, content[..k]) <= RecordsFrom(d, p, content)
  {
    FeedChunks(d, p, content[..k], content[k..]);
    assert content[..k] + content[k..] == content;
    FeedKeepsDone(d, Feed(d, p, content[..k]), content[k..]);
  }

  /** Every completed record has at least one field. */
  ghost predicate NonEmptyRecords(rs: seq<Record>) {
    forall i :: 0 <= i < |rs| ==> |rs[i]| > 0
  }

  lemma {:induction false} FeedNonEmptyRecords(d: Dialect, p: Parse, input: seq<byte>)
    requires NonEmptyRecords(p.done)
    ensures NonEmptyRecords(Feed(d, p, input).done)
  {
    if input != [] {
      FeedNonEmptyRecords(d, p, input[..|input| - 1]);
    }
  }

  /** `p` with completed records `before` in front and the fields `lead` in
      front of the first record that is still open. */
  function Prepend(before: seq<Record>, lead: seq<Field>, p: Parse): (r: Parse) {
    if p.done == [] then Parse(before, lead + p.fields, p.cur, p.state)
    else Parse(before + [lead + p.done[0]] + p.done[1..], p.fields, p.cur, p.state)
  }

  /** The automaton looks neither at completed records nor at completed fields. */
  lemma {:induction false} FeedPrepend(d: Dialect, before: seq<Record>, lead: seq<Field>, p: Parse, input: seq<byte>)
    ensures Feed(d, Prepend(before, lead, p), input) == Prepend(before, lead, Feed(d, p, input))
  {
    if input != [] {
      var init, c := input[..|input| - 1], input[|input| - 1];
      FeedPrepend(d, before, lead, p, init);
      var q := Feed(d, p, init);
      var m := Step(d, q.state, c);
      var cur := if m.copies then q.cur + [c] else q.cur;
      if q.done == [] {
        assert (lead + q.fields) + [cur] == lead + (q.fields + [cur]);
        assert before + [lead + (q.fields + [cur])] == before + [lead + (q.fields + [cur])] + [];
      } else {
        var rec := q.fields + [cur];
        assert (q.done + [rec])[1..] == q.done[1..] + [rec];
        assert before + [lead + q.done[0]] + q.done[1..] + [rec] == before + [lead + q.done[0]] + (q.done[1..] + [rec]);
      }
    }
  }

  /** Input that ends the pending record, whatever the state it is in. */
  function Closing(d: Dialect, s: State): (input: seq<byte>) {
    if s == InQuoted then [d.quote, LF] else [LF]
  }

  lemma FeedOne(d: Dialect, p: Parse, c: byte)
    ensures Feed(d, p, [c]) == FeedByte(d, p, c)
  {
    FeedSnoc(d, p, [], c);
    assert [] + [c] == [c];
  }

  lemma FeedTwo(d: Dialect, p: Parse, b: byte, c: byte)
    ensures Feed(d, p, [b, c]) == FeedByte(d, FeedByte(d, p, b), c)
  {
    FeedOne(d, p, b);
    FeedSnoc(d, p, [b], c);
    assert [b] + [c] == [b, c];
  }

  lemma ClosingEndsRecord(d: Dialect, p: Parse)
    requires d.Sane() && !p.state.Idle()
    ensures Feed(d, p, Closing(d, p.state)) == Parse(p.done + [p.fields + [p.cur]], [], [], AfterRecord)
  {
    if p.state == InQuoted {
      FeedTwo(d, p, d.quote, LF);
    } else {
      FeedOne(d, p, LF);
    }
  }

  /** The two states without an open record cannot be told apart. */
  lemma {:induction false} AfterRecordIsStart(d: Dialect, content: seq<byte>)
    requires content != []
    ensures Feed(d, Parse([], [], [], AfterRecord), content) == Feed(d, FRESH, content)
  {
    var init, c := content[..|content| - 1], content[|content| - 1];
    if init == [] {
      assert content == [c];
      FeedOne(d, Parse([], [], [], AfterRecord), c);
      FeedOne(d, FRESH, c);
    } else {
      AfterRecordIsStart(d, init);
    }
  }

  /** Some byte that is neither delimiter, quote nor terminator. */
  function Plain(d: Dialect): (c: byte)
    ensures c != d.delimiter && c != d.quote && !IsTerminator(c)
  {
    if 0 != d.delimiter && 0 != d.quote then 0
    else if 1 != d.delimiter && 1 != d.quote then 1
    else 2
  }

  lemma {:induction false} FeedState(d: Dialect, p: Parse, q: Parse, input: seq<byte>)
    requires p.state == q.state
    ensures Feed(d, p, input).state == Feed(d, q, input).state
  {
    if input != [] {
      FeedState(d, p, q, input[..|input| - 1]);
    }
  }

  // ---- Whether a file leaves a record open ----

  /** No record is open behind a line end that is not quoted, and only there. */
  lemma IdleIff(d: Dialect, p: Parse, content: seq<byte>)
    requires d.Sane()
    ensures Feed(d, p, content).state.Idle() <==>
            if content == [] then p.state.Idle()
            else IsTerminator(content[|content| - 1]) && Feed(d, p, content[..|content| - 1]).state != InQuoted
  {
    if content != [] {
      var q, c := Feed(d, p, content[..|content| - 1]), content[|content| - 1];
      assert Feed(d, p, content).state == Step(d, q.state, c).next;
    }
  }

  /** The file is empty or ends with a line end that is not quoted. */
  predicate Closed(d: Dialect, content: seq<byte>) {
    content == [] ||
    (IsTerminator(content[|content| - 1]) && Feed(d, FRESH, content[..|content| - 1]).state != InQuoted)
  }

  lemma {:induction false} NeverQuoted(d: Dialect, content: seq<byte>)
    requires d.quote !in content
    ensures Feed(d, FRESH, content).state != InQuoted && Feed(d, FRESH, content).state != QuoteSeen
  {
    if content != [] {
      var init, c := content[..|content| - 1], content[|content| - 1];
      NeverQuoted(d, init);
      assert c in content;
    }
  }

  lemma ClosedWithoutQuotesIff(d: Dialect, content: seq<byte>)
    requires d.quote !in content
    ensures Closed(d, content) <==> content == [] || IsTerminator(content[|content| - 1])
  {
    if content != [] {
      NeverQuoted(d, content[..|content| - 1]);
    }
  }

  /** Starting without an open record is starting fresh. */
  lemma IdleIsFresh(d: Dialect, p: Parse, content: seq<byte>)
    requires Opening(p) && p.state.Idle()
    ensures RecordsFrom(d, p, content) == Records(d, content)
    ensures Feed(d, p, content).state.Idle() <==> Feed(d, FRESH, content).state.Idle()
  {
    if p.state == AfterRecord && content != [] {
      AfterRecordIsStart(d, content);
    }
  }

  /** Files that all end with a line end leave no record open. */
  lemma {:induction false} AllClosed(d: Dialect, files: seq<seq<byte>>)
    requires d.Sane() && forall i :: 0 <= i < |files| ==> Closed(d, files[i])
    ensures Feed(d, FRESH, Concat(files)).state.Idle()
  {
    if files != [] {
      var init, last := files[..|files| - 1], files[|files| - 1];
      assert forall i :: 0 <= i < |init| ==> init[i] == files[i];
      AllClosed(d, init);
      var p := Feed(d, FRESH, Concat(init));
      FeedChunks(d, FRESH, Concat(init), last);
      FeedState(d, p, Parse([], [], [], p.state), last);
      IdleIsFresh(d, Parse([], [], [], p.state), last);
      IdleIff(d, FRESH, last);
    }
  }

  // ---- Starting a file with a record open ----

  /** A line end, a byte and a line end: an open record makes one record more. */
  lemma OpenAddsRecord(d: Dialect, p: Parse)
    requires d.Sane() && !p.state.Idle() && p.state != InQuoted && p.done == []
    ensures var content := [LF, Plain(d), LF]; |RecordsFrom(d, p, content)| == 2 && |Records(d, content)| == 1
  {
    var c := Plain(d);
    FeedThree(d, p, LF, c, LF);
    FeedThree(d, FRESH, LF, c, LF);
  }

  /** Two lines without quotes are nothing to a quoted field. */
  lemma QuoteSwallows(d: Dialect, p: Parse)
    requires d.Sane() && p.state == InQuoted && p.done == []
    ensures var content := [Plain(d), LF, Plain(d), LF]; |RecordsFrom(d, p, content)| == 0 && |Records(d, content)| == 2
  {
    var c := Plain(d);
    FeedTwo(d, p, c, LF);
    FeedTwo(d, FRESH, c, LF);
    FeedTwo(d, Feed(d, p, [c, LF]), c, LF);
    FeedTwo(d, Feed(d, FRESH, [c, LF]), c, LF);
    FeedChunks(d, p, [c, LF], [c, LF]);
    FeedChunks(d, FRESH, [c, LF], [c, LF]);
    assert [c, LF] + [c, LF] == [c, LF, c, LF];
  }

  lemma FeedThree(d: Dialect, p: Parse, a: byte, b: byte, c: byte)
    ensures Feed(d, p, [a, b, c]) == FeedByte(d, FeedByte(d, FeedByte(d, p, a), b), c)
  {
    FeedTwo(d, p, a, b);
    FeedSnoc(d, p, [a, b], c);
    assert [a, b] + [c] == [a, b, c];
  }

  /** A decoder that starts another file without being reset yields that file's
      records behind the header, for every file, exactly when no record is open. */
  lemma ReuseIsFreshIff(d: Dialect, p: Parse, skip: nat)
    requires d.Sane() && Opening(p) && skip <= 1
    ensures (forall content :: Drop(RecordsFrom(d, p, content), skip) == Drop(Records(d, content), skip)) <==> p.state.Idle()
  {
    if p.state.Idle() {
      forall content ensures Drop(RecordsFrom(d, p, content), skip) == Drop(Records(d, content), skip) {
        IdleIsFresh(d, p, content);
      }
    } else {
      var content: seq<byte> := if p.state == InQuoted then [Plain(d), LF, Plain(d), LF] else [LF, Plain(d), LF];
      if p.state == InQuoted {
        QuoteSwallows(d, p);
      } else {
        OpenAddsRecord(d, p);
      }
      assert |Drop(RecordsFrom(d, p, content), skip)| != |Drop(Records(d, content), skip)|;
    }
  }
}

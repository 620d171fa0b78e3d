/**
  Runs of the CSV pipeline at the level of records: chunks are decoded and, in
  between, completed records are flushed and the buffer compacted.

  Compaction asks only whether bytes follow the last completed record, so the
  ends of a pending tail that consists of empty fields are dropped with it.
  The theorems say exactly when that shows.
*/
module CsvRuns {
  import opened Basics
  import opened CsvParse

  /** The pending record has completed fields, all its bytes are missing, and a
      completed record precedes it: the tail compaction forgets. */
  ghost predicate EmptyFieldTail(p: Parse) {
    p.done != [] && p.fields != [] && Concat(p.fields) == [] && p.cur == []
  }

  /** Effect of compaction on what is decoded: completed records go. */
  ghost function Compact(p: Parse): (r: Parse) {
    Parse([], if EmptyFieldTail(p) then [] else p.fields, p.cur, p.state)
  }

  /** What compaction is documented to do: the partial record is preserved. */
  ghost function DropDone(p: Parse): (r: Parse) {
    p.(done := [])
  }

  /** A state decoding can be in: without an open record nothing is pending, and
      completed records have fields. */
  ghost predicate Reachable(p: Parse) {
    (p.state.Idle() ==> p.fields == [] && p.cur == []) && NonEmptyRecords(p.done)
  }

  lemma {:induction false} FeedReachable(d: Dialect, p: Parse, input: seq<byte>)
    requires Reachable(p)
    ensures Reachable(Feed(d, p, input))
  {
    FeedNonEmptyRecords(d, p, input);
    if input != [] {
      FeedReachable(d, p, input[..|input| - 1]);
    }
  }

  /** Compaction commutes with all later decoding exactly when the pending tail
      has a byte or no completed field. */
  lemma CompactionCommutesIff(d: Dialect, p: Parse)
    requires d.Sane() && Reachable(p)
    ensures (forall more :: p.done + Feed(d, Compact(p), more).done == Feed(d, p, more).done)
            <==> !EmptyFieldTail(p)
  {
    var q := DropDone(p);
    if EmptyFieldTail(p) {
      var more := Closing(d, p.state);
      ClosingEndsRecord(d, p);
      ClosingEndsRecord(d, Compact(p));
      var lost := p.done + Feed(d, Compact(p), more).done;
      var kept := Feed(d, p, more).done;
      assert |lost[|p.done|]| < |kept[|p.done|]|;
      assert p.done + Feed(d, Compact(p), more).done != Feed(d, p, more).done;
    } else {
      forall more
        ensures p.done + Feed(d, Compact(p), more).done == Feed(d, p, more).done
      {
        assert Prepend(p.done, [], q) == p;
        FeedPrepend(d, p.done, [], q, more);
        var r := Feed(d, q, more);
        if r.done != [] {
          assert [] + r.done[0] == r.done[0];
          assert p.done + [r.done[0]] + r.done[1..] == p.done + r.done;
        }
      }
    }
  }

  datatype Event = Chunk(bytes: seq<byte>) | Flush

  /** Records flushed so far and what is still in the buffers. */
  datatype Run = Run(flushed: seq<Record>, view: Parse) {
    function All(): (rs: seq<Record>) {
      flushed + view.done
    }
  }

  ghost function StepRun(d: Dialect, r: Run, e: Event): (r': Run) {
    match e
    case Chunk(bytes) => Run(r.flushed, Feed(d, r.view, bytes))
    case Flush => Run(r.flushed + r.view.done, Compact(r.view))
  }

  /** The run of a trace, for a decoder that starts it in `p0`. */
  ghost function RunOf(d: Dialect, p0: Parse, trace: seq<Event>): (r: Run) {
    if trace == [] then Run([], p0)
    else StepRun(d, RunOf(d, p0, trace[..|trace| - 1]), trace[|trace| - 1])
  }

  /** The bytes read along a trace. */
  function BytesOf(trace: seq<Event>): (bs: seq<byte>) {
    if trace == [] then []
    else
      var last := trace[|trace| - 1];
      BytesOf(trace[..|trace| - 1]) + (if last.Chunk? then last.bytes else [])
  }

  lemma RunSnoc(d: Dialect, p0: Parse, trace: seq<Event>, e: Event)
    ensures RunOf(d, p0, trace + [e]) == StepRun(d, RunOf(d, p0, trace), e)
    ensures BytesOf(trace + [e]) == BytesOf(trace) + (if e.Chunk? then e.bytes else [])
  {
    assert (trace + [e])[..|trace|] == trace;
  }

  /** Whatever is read and compacted, the buffers hold a state decoding can be in. */
  lemma {:induction false} RunReachable(d: Dialect, p0: Parse, trace: seq<Event>)
    requires Opening(p0)
    ensures Reachable(RunOf(d, p0, trace).view)
  {
    if trace != [] {
      var init, e := trace[..|trace| - 1], trace[|trace| - 1];
      RunReachable(d, p0, init);
      if e.Chunk? {
        FeedReachable(d, RunOf(d, p0, init).view, e.bytes);
      }
    }
  }

  /** What can come next: reads are never empty, and the buffer is flushed right
      after a read that left completed records in it. */
  ghost predicate CanFollow(d: Dialect, p0: Parse, before: seq<Event>, e: Event) {
    match e
    case Chunk(bytes) => bytes != []
    case Flush => before != [] && before[|before| - 1].Chunk? && RunOf(d, p0, before).view.done != []
  }

  /** A trace the reader can follow. */
  ghost predicate Realizable(d: Dialect, p0: Parse, trace: seq<Event>) {
    trace == [] ||
    (var n := |trace| - 1;
     Realizable(d, p0, trace[..n]) && CanFollow(d, p0, trace[..n], trace[n]))
  }

  /** The true pending record opens with an empty field and something precedes it. */
  ghost predicate FragilePending(p: Parse) {
    p.done != [] && p.fields != [] && p.fields[0] == []
  }

  /** What a run has decoded, against the uncompacted parse of the same bytes:
      equal, or only the pending record differs and it is a fragile one. */
  ghost predicate Tracks(r: Run, p: Parse) {
    && r.All() == p.done
    && r.view.cur == p.cur && r.view.state == p.state
    && (r.view.fields == p.fields || FragilePending(p))
  }

  /** No record but the first has an empty first field that another field follows. */
  ghost predicate Robust(rs: seq<Record>) {
    forall i :: 1 <= i < |rs| && |rs[i]| >= 2 ==> rs[i][0] != []
  }

  lemma RobustPrefix(a: seq<Record>, b: seq<Record>)
    requires a <= b && Robust(b)
    ensures Robust(a)
  {
    forall i | 1 <= i < |a| && |a[i]| >= 2 ensures a[i][0] != [] {
      assert a[i] == b[i];
    }
  }

  lemma TracksByte(d: Dialect, r: Run, p: Parse, c: byte)
    requires Tracks(r, p) && Robust(FeedByte(d, p, c).done)
    ensures Tracks(Run(r.flushed, FeedByte(d, r.view, c)), FeedByte(d, p, c))
  {
    var m := Step(d, p.state, c);
    var cur := if m.copies then p.cur + [c] else p.cur;
    match m.mark
    case NoMark =>
    case FieldEnd =>
      if r.view.fields != p.fields {
        assert (p.fields + [cur])[0] == [];
      }
    case RecordEnd =>
      var rec := p.fields + [cur];
      assert (p.done + [rec])[|p.done|] == rec;
      assert p.fields != [] ==> rec[0] == p.fields[0];
      assert !FragilePending(p);
      assert r.flushed + (r.view.done + [rec]) == p.done + [rec];
  }

  lemma {:induction false} TracksChunk(d: Dialect, r: Run, p: Parse, input: seq<byte>)
    requires Tracks(r, p) && Robust(Feed(d, p, input).done)
    ensures Tracks(Run(r.flushed, Feed(d, r.view, input)), Feed(d, p, input))
  {
    if input != [] {
      var init, c := input[..|input| - 1], input[|input| - 1];
      var q := Feed(d, p, init);
      assert FeedByte(d, q, c) == Feed(d, p, input);
      assert q.done <= FeedByte(d, q, c).done;
      RobustPrefix(q.done, Feed(d, p, input).done);
      TracksChunk(d, r, p, init);
      TracksByte(d, Run(r.flushed, Feed(d, r.view, init)), q, c);
    }
  }

  lemma TracksFlush(r: Run, p: Parse)
    requires Tracks(r, p)
    ensures Tracks(Run(r.flushed + r.view.done, Compact(r.view)), p)
  {
    if EmptyFieldTail(r.view) && r.view.fields == p.fields {
      ConcatEmptyIff(p.fields);
      assert p.done != [];
    }
  }

  lemma {:induction false} TracksTrace(d: Dialect, p0: Parse, trace: seq<Event>)
    requires Opening(p0) && Robust(RecordsFrom(d, p0, BytesOf(trace)))
    ensures Tracks(RunOf(d, p0, trace), Feed(d, p0, BytesOf(trace)))
  {
    if trace != [] {
      var init, e := trace[..|trace| - 1], trace[|trace| - 1];
      var seen := BytesOf(init);
      assert BytesOf(trace)[..|seen|] == seen;
      RecordsOfPrefix(d, p0, BytesOf(trace), |seen|);
      RobustPrefix(RecordsFrom(d, p0, seen), RecordsFrom(d, p0, BytesOf(trace)));
      TracksTrace(d, p0, init);
      match e
      case Chunk(bytes) =>
        FeedChunks(d, p0, seen, bytes);
        TracksChunk(d, RunOf(d, p0, init), Feed(d, p0, seen), bytes);
      case Flush =>
        assert BytesOf(trace) == seen;
        TracksFlush(RunOf(d, p0, init), Feed(d, p0, seen));
    }
  }

  // ---- The other direction: a fragile file has a run that loses a field ----

  /** The moment the first field of the pending record was completed. */
  lemma {:induction false} FirstFieldEnd(d: Dialect, p0: Parse, content: seq<byte>) returns (k: nat)
    requires Opening(p0) && Feed(d, p0, content).fields != []
    ensures k <= |content|
    ensures var p := Feed(d, p0, content);
            Feed(d, p0, content[..k]) == Parse(p.done, [p.fields[0]], [], FieldStart)
  {
    var init := content[..|content| - 1];
    if Feed(d, p0, init).fields == [] {
      k := |content|;
      assert content[..k] == content;
    } else {
      k := FirstFieldEnd(d, p0, init);
      assert content[..k] == init[..k];
    }
  }

  /** The moment the first of several fields of record `i` was completed. */
  lemma {:induction false} FirstFieldEndOf(d: Dialect, p0: Parse, content: seq<byte>, i: nat) returns (k: nat)
    requires Opening(p0) && i < |RecordsFrom(d, p0, content)| && |RecordsFrom(d, p0, content)[i]| >= 2
    ensures k <= |content|
    ensures var rs := RecordsFrom(d, p0, content);
            Feed(d, p0, content[..k]) == Parse(rs[..i], [rs[i][0]], [], FieldStart)
  {
    assert content != [];
    var init := content[..|content| - 1];
    var q := Feed(d, p0, init);
    FeedKeepsDone(d, q, [content[|content| - 1]]);
    FeedSnoc(d, q, [], content[|content| - 1]);
    assert [] + [content[|content| - 1]] == [content[|content| - 1]];
    if i < |q.done| {
      k := FirstFieldEndOf(d, p0, init, i);
      assert content[..k] == init[..k];
      assert q.done[..i] == RecordsFrom(d, p0, content)[..i];
    } else {
      assert i == |q.done| && q.done == RecordsFrom(d, p0, content)[..i];
      k := FirstFieldEnd(d, p0, init);
      assert content[..k] == init[..k];
    }
  }

  /** The losing run: read up to the first delimiter of record `i`, flush, read the rest. */
  function LosingTrace(content: seq<byte>, k: nat): (t: seq<Event>)
    requires k <= |content|
  {
    [Chunk(content[..k]), Flush, Chunk(content[k..])]
  }

  lemma LosingTraceRun(d: Dialect, p0: Parse, content: seq<byte>, k: nat)
    requires k <= |content|
    ensures BytesOf(LosingTrace(content, k)) == content
    ensures var p := Feed(d, p0, content[..k]);
            && RunOf(d, p0, [Chunk(content[..k])]).view == p
            && RunOf(d, p0, LosingTrace(content, k)) == Run(p.done, Feed(d, Compact(p), content[k..]))
  {
    var x, y := content[..k], content[k..];
    assert x + y == content;
    ChunkFlushChunk(d, p0, x, y);
  }

  lemma ChunkFlushChunk(d: Dialect, p0: Parse, x: seq<byte>, y: seq<byte>)
    ensures BytesOf([Chunk(x), Flush, Chunk(y)]) == x + y
    ensures RunOf(d, p0, [Chunk(x)]) == Run([], Feed(d, p0, x))
    ensures var p := Feed(d, p0, x);
            RunOf(d, p0, [Chunk(x), Flush, Chunk(y)]) == Run(p.done, Feed(d, Compact(p), y))
  {
    var t1, t2 := [Chunk(x)], [Chunk(x), Flush];
    var t3 := [Chunk(x), Flush, Chunk(y)];
    assert t1 == [] + [Chunk(x)] && t2 == t1 + [Flush] && t3 == t2 + [Chunk(y)];
    RunSnoc(d, p0, [], Chunk(x));
    RunSnoc(d, p0, t1, Flush);
    RunSnoc(d, p0, t2, Chunk(y));
  }

  /** From the first field end on, the forgotten empty field is all that is missing. */
  lemma DamagedRest(d: Dialect, p0: Parse, content: seq<byte>, k: nat, i: nat)
    requires k <= |content| && i < |RecordsFrom(d, p0, content)|
    requires Feed(d, p0, content[..k]) == Parse(RecordsFrom(d, p0, content)[..i], [[]], [], FieldStart)
    ensures var q := Feed(d, Parse([], [], [], FieldStart), content[k..]);
            q.done != [] && RecordsFrom(d, p0, content)[i] == [[]] + q.done[0]
  {
    var rs := RecordsFrom(d, p0, content);
    var damaged := Parse([], [], [], FieldStart);
    FeedChunks(d, p0, content[..k], content[k..]);
    assert content[..k] + content[k..] == content;
    assert Prepend(rs[..i], [[]], damaged) == Parse(rs[..i], [[]], [], FieldStart);
    FeedPrepend(d, rs[..i], [[]], damaged, content[k..]);
    assert rs == Prepend(rs[..i], [[]], Feed(d, damaged, content[k..])).done;
  }

  lemma LosingRun(d: Dialect, p0: Parse, content: seq<byte>, i: nat) returns (k: nat)
    requires Opening(p0) && 1 <= i < |RecordsFrom(d, p0, content)|
    requires |RecordsFrom(d, p0, content)[i]| >= 2 && RecordsFrom(d, p0, content)[i][0] == []
    ensures k <= |content| && Realizable(d, p0, LosingTrace(content, k))
    ensures BytesOf(LosingTrace(content, k)) == content
    ensures RunOf(d, p0, LosingTrace(content, k)).All() != RecordsFrom(d, p0, content)
  {
    k := FirstFieldEndOf(d, p0, content, i);
    var p := Feed(d, p0, content[..k]);
    assert EmptyFieldTail(p) by {
      ConcatSnoc<byte>([], []);
      assert [] + [[]] == p.fields;
    }
    LosingTraceRun(d, p0, content, k);
    DamagedRest(d, p0, content, k, i);
    var t := LosingTrace(content, k);
    assert t[..1] == [Chunk(content[..k])] && t[..1][..0] == [] && t[..2][..1] == t[..1];
    assert Realizable(d, p0, t[..1]) && Realizable(d, p0, t[..2]);
    assert RunOf(d, p0, LosingTrace(content, k)).All()[i] == Feed(d, Compact(p), content[k..]).done[0];
  }

  /** Whatever the chunks and flushes, the records of a file come out unchanged
      exactly when no record after the first opens with an empty field that
      another field follows. */
  lemma AllRunsFaithfulIff(d: Dialect, p0: Parse, content: seq<byte>)
    requires Opening(p0)
    ensures (forall trace :: Realizable(d, p0, trace) && BytesOf(trace) == content ==>
               RunOf(d, p0, trace).All() == RecordsFrom(d, p0, content))
            <==> Robust(RecordsFrom(d, p0, content))
  {
    if Robust(RecordsFrom(d, p0, content)) {
      forall trace | Realizable(d, p0, trace) && BytesOf(trace) == content
        ensures RunOf(d, p0, trace).All() == RecordsFrom(d, p0, content)
      {
        TracksTrace(d, p0, trace);
      }
    } else {
      var i :| 1 <= i < |RecordsFrom(d, p0, content)| && |RecordsFrom(d, p0, content)[i]| >= 2 && RecordsFrom(d, p0, content)[i][0] == [];
      var k := LosingRun(d, p0, content, i);
    }
  }

  /** The per-run condition: no flush meets a tail of empty fields only. */
  ghost predicate Clean(d: Dialect, p0: Parse, trace: seq<Event>) {
    trace == [] ||
    (var init := trace[..|trace| - 1];
     Clean(d, p0, init) && (trace[|trace| - 1] == Flush ==> !EmptyFieldTail(RunOf(d, p0, init).view)))
  }

  lemma {:induction false} CleanRunIsFaithful(d: Dialect, p0: Parse, trace: seq<Event>)
    requires Opening(p0) && Clean(d, p0, trace)
    ensures RunOf(d, p0, trace).All() == RecordsFrom(d, p0, BytesOf(trace))
    ensures DropDone(RunOf(d, p0, trace).view) == DropDone(Feed(d, p0, BytesOf(trace)))
  {
    if trace != [] {
      var init, e := trace[..|trace| - 1], trace[|trace| - 1];
      CleanRunIsFaithful(d, p0, init);
      var r, p := RunOf(d, p0, init), Feed(d, p0, BytesOf(init));
      match e
      case Chunk(bytes) =>
        FeedChunks(d, p0, BytesOf(init), bytes);
        var q := DropDone(p);
        assert Prepend(p.done, [], q) == p && Prepend(r.view.done, [], q) == r.view;
        FeedPrepend(d, p.done, [], q, bytes);
        FeedPrepend(d, r.view.done, [], q, bytes);
        var f := Feed(d, q, bytes);
        if f.done != [] {
          assert p.done + [[] + f.done[0]] + f.done[1..] == r.flushed + (r.view.done + [[] + f.done[0]] + f.done[1..]);
        }
      case Flush =>
        assert BytesOf(trace) == BytesOf(init);
    }
  }

  /** Flushing never changes the automaton, so it ends where the bytes put it. */
  lemma {:induction false} RunState(d: Dialect, p0: Parse, trace: seq<Event>)
    ensures RunOf(d, p0, trace).view.state == Feed(d, p0, BytesOf(trace)).state
  {
    if trace != [] {
      var init, e := trace[..|trace| - 1], trace[|trace| - 1];
      RunState(d, p0, init);
      if e.Chunk? {
        FeedChunks(d, p0, BytesOf(init), e.bytes);
        FeedState(d, RunOf(d, p0, init).view, Feed(d, p0, BytesOf(init)), e.bytes);
      } else {
        assert BytesOf(trace) == BytesOf(init);
      }
    }
  }

  const COMMAS: Dialect := Dialect(44, 34)

  lemma Alone<T>(x: T, y: T)
    ensures [] + [x] == [x] && [x] + [y] == [x, y]
  {
  }

  lemma ByteThenLineEnd(before: seq<Record>, fields: seq<Field>, s: State, c: byte)
    requires s == StartRecord || s == FieldStart
    requires c != 44 && c != 34 && !IsTerminator(c)
    ensures Feed(COMMAS, Parse(before, fields, [], s), [c, LF]) == Parse(before + [fields + [[c]]], [], [], AfterRecord)
  {
    var p := Parse(before, fields, [], s);
    FeedTwo(COMMAS, p, c, LF);
    assert FeedByte(COMMAS, p, c) == Parse(before, fields, [c], InField);
  }

  /** `a`, line end, comma, flush, `b`, line end: the empty field is lost. */
  lemma EmptyFieldLost()
    ensures var trace := [Chunk([97, LF, 44]), Flush, Chunk([98, LF])];
            && Records(COMMAS, BytesOf(trace)) == [[[97]], [[], [98]]]
            && RunOf(COMMAS, FRESH, trace).All() == [[[97]], [[98]]]
  {
    var x: seq<byte>, y: seq<byte> := [97, LF, 44], [98, LF];
    Alone<Field>([97], []);
    Alone<Record>([[97]], [[], [98]]);
    ByteThenLineEnd([], [], StartRecord, 97);
    var p := Parse([[[97]]], [], [], AfterRecord);
    assert Feed(COMMAS, FRESH, [97, LF]) == p;
    FeedOne(COMMAS, p, 44);
    var q := Parse([[[97]]], [[]], [], FieldStart);
    assert FeedByte(COMMAS, p, 44) == q;
    FeedChunks(COMMAS, FRESH, [97, LF], [44]);
    assert [97, LF] + [44] == x;
    Alone<Field>([], [98]);
    ByteThenLineEnd([[[97]]], [[]], FieldStart, 98);
    FeedChunks(COMMAS, FRESH, x, y);
    assert Compact(q) == Parse([], [], [], FieldStart);
    Alone<Field>([98], []);
    Alone<Record>([[98]], []);
    Alone<Record>([[97]], [[98]]);
    ByteThenLineEnd([], [], FieldStart, 98);
    ChunkFlushChunk(COMMAS, FRESH, x, y);
  }
}

/**
  The Parquet `Reader`: fetches the projected column chunks of a row group with
  seeks and short reads, then emits the rows of the group with their file-wide
  row ids.
*/
module ParquetReader {
  import opened Basics
  import opened Files

  datatype ColumnChunk = ColumnChunk(start: nat, len: nat)
  datatype RowGroup = RowGroup(numRows: nat, columns: seq<ColumnChunk>)
  datatype ScanRowGroup = ScanRowGroup(idx: nat, relativeRowStart: nat)

  datatype FetchState =
    | NeedsFetch(col: nat)
    | Seeking(start: nat, col: nat)
    | Fetching(col: nat, written: nat)
    | Fetched

  datatype PullResult = PullPending | PullFailed | HasMore(rowIds: seq<int>) | PullExhausted

  // ---- Row numbers ----

  function RowsBefore(groups: seq<RowGroup>, k: nat): (n: nat)
    requires k <= |groups|
  {
    if k == 0 then 0 else RowsBefore(groups, k - 1) + groups[k - 1].numRows
  }

  lemma RangeSplit(from: int, m: nat, n: nat)
    ensures Range(from, m) + Range(from + m, n) == Range(from, m + n)
  {
  }

  /** `ScanRowGroup::from_metadata`: every group with the rows before it. */
  method FromMetadata(groups: seq<RowGroup>) returns (scan: seq<ScanRowGroup>)
    ensures scan == AllGroups(groups, |groups|)
  {
    scan := [];
    var relativeRowStart := 0;
    for idx := 0 to |groups|
      invariant scan == AllGroups(groups, idx) && relativeRowStart == RowsBefore(groups, idx)
    {
      scan := scan + [ScanRowGroup(idx, relativeRowStart)];
      relativeRowStart := relativeRowStart + groups[idx].numRows;
    }
  }

  ghost function AllGroups(groups: seq<RowGroup>, n: nat): (scan: seq<ScanRowGroup>)
    requires n <= |groups|
    ensures |scan| == n && forall i :: 0 <= i < n ==> scan[i] == ScanRowGroup(i, RowsBefore(groups, i))
  {
    seq(n, i requires 0 <= i < n => ScanRowGroup(i, RowsBefore(groups, i)))
  }

  /** The row ids of a queue of groups, pruned groups left out. */
  function Plan(groups: seq<RowGroup>, prune: nat -> bool, queue: seq<ScanRowGroup>): (ids: seq<int>)
    requires InFile(groups, queue)
  {
    if queue == [] then []
    else GroupRows(groups, prune, queue[0]) + Plan(groups, prune, queue[1..])
  }

  function GroupRows(groups: seq<RowGroup>, prune: nat -> bool, g: ScanRowGroup): (ids: seq<int>)
    requires g.idx < |groups|
  {
    if prune(g.idx) then [] else Range(g.relativeRowStart, groups[g.idx].numRows)
  }

  ghost predicate Increasing(ids: seq<int>, from: int) {
    && (forall i :: 0 <= i < |ids| ==> from <= ids[i])
    && (forall i, j :: 0 <= i < j < |ids| ==> ids[i] < ids[j])
  }

  /** Rows of one group, and then rows from its end on. */
  lemma IncreasingJoin(from: int, n: nat, rest: seq<int>)
    requires Increasing(rest, from + n)
    ensures Increasing(Range(from, n) + rest, from)
  {
    var ids := Range(from, n) + rest;
    assert forall i :: 0 <= i < |ids| ==> ids[i] == if i < n then from + i else rest[i - n];
  }

  /** Scanning all groups of a file visits exactly the rows of the groups that
      are not pruned, by their number in the file, each once and in order. */
  lemma {:induction false} PlanOfFile(groups: seq<RowGroup>, prune: nat -> bool, k: nat)
    requires k <= |groups|
    ensures var ids := Plan(groups, prune, AllGroups(groups, |groups|)[k..]);
            && Increasing(ids, RowsBefore(groups, k))
            && (forall x :: x in ids <==> InUnpruned(groups, prune, k, x))
    decreases |groups| - k
  {
    if k < |groups| {
      PlanOfFile(groups, prune, k + 1);
      PlanCons(groups, prune, k);
      var rest := Plan(groups, prune, AllGroups(groups, |groups|)[k + 1..]);
      IncreasingPlan(groups, prune, k, rest);
      forall x ensures x in Plan(groups, prune, AllGroups(groups, |groups|)[k..]) <==> InUnpruned(groups, prune, k, x) {
        HeadRows(groups, prune, k, x);
        InUnprunedStep(groups, prune, k, x);
      }
    }
  }

  lemma IncreasingPlan(groups: seq<RowGroup>, prune: nat -> bool, k: nat, rest: seq<int>)
    requires k < |groups| && Increasing(rest, RowsBefore(groups, k + 1))
    ensures Increasing(GroupRows(groups, prune, ScanRowGroup(k, RowsBefore(groups, k))) + rest, RowsBefore(groups, k))
  {
    if prune(k) {
      assert [] + rest == rest;
    } else {
      IncreasingJoin(RowsBefore(groups, k), groups[k].numRows, rest);
    }
  }

  /** Row `x` belongs to a group from `k` on that is not pruned. */
  ghost predicate InUnpruned(groups: seq<RowGroup>, prune: nat -> bool, k: nat, x: int) {
    exists g: nat :: k <= g < |groups| && InGroup(groups, prune, g, x)
  }

  ghost predicate InGroup(groups: seq<RowGroup>, prune: nat -> bool, g: nat, x: int)
    requires g < |groups|
  {
    !prune(g) && RowsBefore(groups, g) <= x < RowsBefore(groups, g + 1)
  }

  lemma HeadRows(groups: seq<RowGroup>, prune: nat -> bool, k: nat, x: int)
    requires k < |groups|
    ensures x in GroupRows(groups, prune, ScanRowGroup(k, RowsBefore(groups, k))) <==> InGroup(groups, prune, k, x)
  {
    var from, n := RowsBefore(groups, k), groups[k].numRows;
    if from <= x < from + n {
      assert Range(from, n)[x - from] == x;
    }
  }

  lemma InUnprunedStep(groups: seq<RowGroup>, prune: nat -> bool, k: nat, x: int)
    requires k < |groups|
    ensures InUnpruned(groups, prune, k, x) <==> InGroup(groups, prune, k, x) || InUnpruned(groups, prune, k + 1, x)
  {
  }

  lemma PlanCons(groups: seq<RowGroup>, prune: nat -> bool, k: nat)
    requires k < |groups|
    ensures Plan(groups, prune, AllGroups(groups, |groups|)[k..])
         == GroupRows(groups, prune, ScanRowGroup(k, RowsBefore(groups, k)))
            + Plan(groups, prune, AllGroups(groups, |groups|)[k + 1..])
  {
    assert AllGroups(groups, |groups|)[k..][1..] == AllGroups(groups, |groups|)[k + 1..];
  }

  /** The bytes of a projected column of a group. */
  function ChunkBytes(content: seq<byte>, group: RowGroup, col: nat): (bs: seq<byte>)
    requires ChunkInFile(content, group, col)
  {
    var c := group.columns[col];
    content[c.start..c.start + c.len]
  }

  predicate ChunkInFile(content: seq<byte>, group: RowGroup, col: nat) {
    col < |group.columns| && group.columns[col].start + group.columns[col].len <= |content|
  }

  /** The chunks of all projected columns lie in the file. */
  ghost predicate ChunksInFile(content: seq<byte>, groups: seq<RowGroup>, projection: seq<nat>) {
    forall g, j :: 0 <= g < |groups| && 0 <= j < |projection| ==> ChunkInFile(content, groups[g], projection[j])
  }

  /** The first `n` column buffers hold exactly their chunks. */
  ghost predicate HoldFirst(content: seq<byte>, group: RowGroup, projection: seq<nat>, bufs: seq<seq<byte>>, n: nat)
    requires n <= |projection| == |bufs|
  {
    forall j :: 0 <= j < n ==>
      ChunkInFile(content, group, projection[j]) && bufs[j] == ChunkBytes(content, group, projection[j])
  }

  ghost predicate InFile(groups: seq<RowGroup>, queue: seq<ScanRowGroup>) {
    forall i :: 0 <= i < |queue| ==> queue[i].idx < |groups|
  }

  /** Taking a group off the queue moves its rows from the queue to the current group. */
  lemma TakeGroup(groups: seq<RowGroup>, prune: nat -> bool, queue: seq<ScanRowGroup>, emitted: seq<int>, offset: int, plan: seq<int>)
    requires queue != [] && InFile(groups, queue) && emitted + Range(offset, 0) + Plan(groups, prune, queue) == plan
    ensures InFile(groups, queue[1..])
    ensures var rest := Plan(groups, prune, queue[1..]);
            plan == if prune(queue[0].idx) then emitted + Range(offset, 0) + rest
                    else emitted + Range(queue[0].relativeRowStart, groups[queue[0].idx].numRows) + rest
  {
    var head, rest := GroupRows(groups, prune, queue[0]), Plan(groups, prune, queue[1..]);
    assert emitted + Range(offset, 0) == emitted;
    Assoc(emitted, head, rest);
    assert emitted + [] == emitted;
  }

  class Reader {
    const file: File
    const groups: seq<RowGroup>
    // Data columns of the projection, and whether a group can be pruned.
    const projection: seq<nat>
    const prune: nat -> bool
    var queue: seq<ScanRowGroup>
    var currentGroup: nat
    var remainingRows: nat
    var scanOffset: int
    var fetch: FetchState
    // One chunk buffer per projected column.
    var bufs: seq<seq<byte>>

    ghost var emitted: seq<int>
    ghost var plan: seq<int>
    // The columns whose fetch was begun for the current group.
    ghost var begun: seq<int>

    constructor (file: File, groups: seq<RowGroup>, projection: seq<nat>, prune: nat -> bool, queue: seq<ScanRowGroup>)
      requires ChunksInFile(file.content, groups, projection)
      requires InFile(groups, queue)
      ensures Valid() && emitted == [] && plan == Plan(groups, prune, queue) && this.queue == queue
      ensures this.file == file && this.groups == groups && this.projection == projection && this.prune == prune
    {
      this.file, this.groups, this.projection, this.prune, this.queue := file, groups, projection, prune, queue;
      currentGroup, remainingRows, scanOffset := 0, 0, 0;
      fetch, bufs := NeedsFetch(0), seq(|projection|, _ => []);
      emitted, plan, begun := [], Plan(groups, prune, queue), [];
    }

    function Chunk(j: nat): (c: ColumnChunk)
      reads this
      requires currentGroup < |groups| && j < |projection| && projection[j] < |groups[currentGroup].columns|
    {
      groups[currentGroup].columns[projection[j]]
    }

    /** Every projected column of the current group has been fetched completely. */
    ghost predicate AllHeld()
      reads this
    {
      && currentGroup < |groups| && |projection| == |bufs|
      && HoldFirst(file.content, groups[currentGroup], projection, bufs, |projection|)
    }

    ghost predicate Fixed()
      reads this
    {
      && ChunksInFile(file.content, groups, projection)
      && |bufs| == |projection| && (currentGroup < |groups| || (groups == [] && remainingRows == 0))
      && InFile(groups, queue)
    }

    /** How many columns are complete. */
    ghost function Complete(): (n: nat)
      reads this
    {
      match fetch
      case NeedsFetch(col) => col
      case Seeking(_, col) => col
      case Fetching(col, _) => col
      case Fetched => |projection|
    }

    /** The columns before the current one hold their chunks; the current buffer
        holds what was written so far, and the file stands right behind it. */
    ghost predicate FetchValid()
      reads this, file
      requires Fixed()
    {
      currentGroup < |groups| ==>
      && Complete() <= |projection|
      && HoldFirst(file.content, groups[currentGroup], projection, bufs, Complete())
      && begun == Range(0, if fetch.Seeking? || fetch.Fetching? then Complete() + 1 else Complete())
      && (fetch.NeedsFetch? ==> fetch.col < |projection| || projection == [])
      && (fetch.Seeking? ==>
            && fetch.col < |projection|
            && fetch.start == Chunk(fetch.col).start && |bufs[fetch.col]| == Chunk(fetch.col).len)
      && (fetch.Fetching? ==>
            && fetch.col < |projection|
            && var c := Chunk(fetch.col);
            && |bufs[fetch.col]| == c.len && fetch.written <= c.len
            && file.pos == c.start + fetch.written
            && bufs[fetch.col][..fetch.written] == file.content[c.start..c.start + fetch.written])
    }

    /** Emitted, remaining and queued rows make up the plan, in this order. */
    ghost predicate Conserved()
      reads this
      requires Fixed()
    {
      emitted + Range(scanOffset, remainingRows) + Plan(groups, prune, queue) == plan
    }

    ghost predicate Valid()
      reads this, file
    {
      Fixed() && FetchValid() && Conserved()
    }

    /** `NeedsFetch`: size the column's buffer and start seeking. */
    method BeginColumn()
      requires Fixed() && FetchValid() && currentGroup < |groups| && fetch.NeedsFetch?
      modifies this`fetch, this`bufs, this`begun
      ensures Fixed() && FetchValid()
      ensures if projection == [] then fetch == Fetched else fetch.Seeking? && fetch.col == old(fetch).col
    {
      if projection == [] {
        fetch := Fetched;
        return;
      }
      var col := fetch.col;
      var chunk := Chunk(col);
      bufs := bufs[col := seq(chunk.len, _ => 0)];
      fetch := Seeking(chunk.start, col);
      begun := begun + [col];
    }

    /** `Seeking`. */
    method Seek() returns (r: Poll<()>)
      requires Fixed() && FetchValid() && currentGroup < |groups| && fetch.Seeking?
      modifies this`fetch, file
      ensures Fixed() && FetchValid() && file.Counted(r, old(file.pendings), old(file.failures))
      ensures if r.Ready? then fetch == Fetching(old(fetch).col, 0) else fetch == old(fetch)
    {
      r := file.PollSeek(fetch.start);
      if r.Ready? {
        fetch := Fetching(fetch.col, 0);
      }
    }

    /** `Fetching`: one read into the rest of the column's buffer. */
    method ReadSome() returns (r: Poll<()>)
      requires Fixed() && FetchValid() && currentGroup < |groups| && fetch.Fetching?
      modifies this`fetch, this`bufs, file
      ensures Fixed() && FetchValid() && file.Counted(r, old(file.pendings), old(file.failures))
      ensures !r.Ready? ==> fetch == old(fetch)
      ensures r.Ready? ==>
                match fetch
                case NeedsFetch(col) => col == old(fetch).col + 1
                case Fetching(col, written) => col == old(fetch).col && old(fetch).written < written < Chunk(col).len
                case Fetched => true
                case Seeking(_, _) => false
    {
      var Fetching(col, written) := fetch;
      var chunk := Chunk(col);
      var got := file.PollRead(|bufs[col]| - written);
      if !got.Ready? {
        return if got.Pending? then Pending else Failed;
      }
      Stored(file.content, chunk.start, bufs[col], written, got.value);
      var upto := written + |got.value|;
      bufs := bufs[col := bufs[col][..written] + got.value + bufs[col][upto..]];
      fetch := Fetching(col, upto);
      if upto == |bufs[col]| {
        FinishColumn();
      }
      r := Ready(());
    }

    /** A column is complete: go on to the next, if there is one. */
    method FinishColumn()
      requires Fixed() && FetchValid() && currentGroup < |groups| && fetch.Fetching? && fetch.written == |bufs[fetch.col]|
      modifies this`fetch
      ensures Fixed() && FetchValid()
      ensures fetch == if old(fetch).col == |projection| - 1 then Fetched else NeedsFetch(old(fetch).col + 1)
    {
      var col := fetch.col;
      assert bufs[col][..fetch.written] == bufs[col];
      if col == |projection| - 1 {
        fetch := Fetched;
      } else {
        fetch := NeedsFetch(col + 1);
      }
    }

    /** How much is left to fetch: columns, then stages of a column, then bytes. */
    ghost function BytesLeft(): (n: nat)
      reads this
    {
      if fetch.Fetching? && fetch.col < |bufs| && fetch.written <= |bufs[fetch.col]|
      then |bufs[fetch.col]| - fetch.written else 0
    }

    ghost function Stage(): (n: nat)
      reads this
    {
      match fetch case NeedsFetch(_) => 3 case Seeking(_, _) => 2 case Fetching(_, _) => 1 case Fetched => 0
    }

    /** Fetches what is missing of the current group. Ready means every projected
        column buffer holds exactly its chunk of the file; the columns were
        fetched in order, each once. Any other answer is the file's own. */
    method PollFetch() returns (r: Poll<()>)
      requires Fixed() && FetchValid() && currentGroup < |groups|
      modifies this`fetch, this`bufs, this`begun, file
      ensures Fixed() && FetchValid() && file.Counted(r, old(file.pendings), old(file.failures))
      ensures r.Ready? ==> fetch == Fetched && begun == Range(0, |projection|)
      ensures r.Ready? ==> AllHeld()
    {
      while fetch != Fetched
        invariant Fixed() && FetchValid() && file.pendings == old(file.pendings) && file.failures == old(file.failures)
        decreases |projection| - Complete(), Stage(), BytesLeft()
      {
        match fetch
        case NeedsFetch(_) =>
          BeginColumn();
        case Seeking(_, _) =>
          r := Seek();
          if !r.Ready? {
            return;
          }
        case Fetching(_, _) =>
          r := ReadSome();
          if !r.Ready? {
            return;
          }
      }
      r := Ready(());
    }

    /** Takes the next group that is not pruned off the queue. */
    method NextGroup() returns (found: bool)
      requires Valid() && remainingRows == 0
      modifies this`queue, this`currentGroup, this`remainingRows, this`scanOffset, this`fetch, this`begun
      ensures Valid()
      ensures !found ==> queue == [] && remainingRows == 0
      ensures found ==> fetch == NeedsFetch(0) && |queue| < |old(queue)| && remainingRows == groups[currentGroup].numRows
    {
      while queue != []
        invariant Valid() && remainingRows == 0 && |queue| <= |old(queue)|
        decreases |queue|
      {
        found := TakeNext();
        if found {
          return;
        }
      }
      found := false;
    }

    /** Takes the first group off the queue. */
    method TakeNext() returns (found: bool)
      requires Valid() && remainingRows == 0 && queue != []
      modifies this`queue, this`currentGroup, this`remainingRows, this`scanOffset, this`fetch, this`begun
      ensures Valid() && queue == old(queue)[1..] && found == !prune(old(queue)[0].idx)
      ensures if found then fetch == NeedsFetch(0) && remainingRows == groups[currentGroup].numRows else remainingRows == 0
    {
      var next := queue[0];
      TakeGroup(groups, prune, queue, emitted, scanOffset, plan);
      queue := queue[1..];
      found := !prune(next.idx);
      if found {
        StartGroup(next);
      }
    }

    /** Makes a group the current one; nothing of it is fetched yet. */
    method StartGroup(group: ScanRowGroup)
      requires Fixed() && group.idx < |groups|
      modifies this`currentGroup, this`remainingRows, this`scanOffset, this`fetch, this`begun
      ensures Fixed() && FetchValid() && fetch == NeedsFetch(0) && currentGroup == group.idx
      ensures scanOffset == group.relativeRowStart && remainingRows == groups[group.idx].numRows
    {
      scanOffset, currentGroup, remainingRows := group.relativeRowStart, group.idx, groups[group.idx].numRows;
      fetch, begun := NeedsFetch(0), [];
    }

    /** Emits the next rows of the current group, at most `cap` of them. */
    method EmitRows(cap: nat) returns (rowIds: seq<int>)
      requires Valid() && fetch == Fetched
      modifies this`remainingRows, this`scanOffset, this`emitted
      ensures Valid() && fetch == Fetched
      ensures |rowIds| == Min(old(remainingRows), cap) && rowIds == Range(old(scanOffset), |rowIds|)
      ensures emitted == old(emitted) + rowIds
      ensures remainingRows == old(remainingRows) - |rowIds|
    {
      var count := Min(remainingRows, cap);
      rowIds := Range(scanOffset, count);
      RangeSplit(scanOffset, count, remainingRows - count);
      assert emitted + Range(scanOffset, remainingRows) == emitted + rowIds + Range(scanOffset + count, remainingRows - count);
      emitted := emitted + rowIds;
      remainingRows := remainingRows - count;
      scanOffset := scanOffset + count;
    }

    /** Pulls one batch. What was emitted is always an initial part of the plan,
        and once exhausted it is the plan. A pull is pending or fails exactly if the
        file did; otherwise it gives as many rows of the group as there is room for. */
    method PollPull(cap: nat) returns (r: PullResult)
      requires Valid()
      modifies this, file
      ensures Valid() && plan == old(plan)
      ensures emitted <= plan
      ensures emitted == old(emitted) + (if r.HasMore? then r.rowIds else [])
      ensures file.pendings == old(file.pendings) + (if r == PullPending then 1 else 0)
      ensures file.failures == old(file.failures) + (if r == PullFailed then 1 else 0)
      ensures r.HasMore? ==> AllHeld() && |r.rowIds| == Min(cap, if old(remainingRows) > 0 then old(remainingRows) else groups[currentGroup].numRows)
      ensures r == PullExhausted ==> emitted == plan && queue == [] && remainingRows == 0
      ensures old(queue == [] && remainingRows == 0) ==> r == PullExhausted
      ensures |queue| <= |old(queue)| && (r.HasMore? && cap > 0 && r.rowIds == [] ==> |queue| < |old(queue)|)
    {
      if remainingRows == 0 {
        var found := NextGroup();
        if !found {
          assert emitted + Range(scanOffset, 0) + [] == emitted;
          return PullExhausted;
        }
      }
      var ready := PollFetch();
      assert emitted <= plan;
      if !ready.Ready? {
        return if ready.Pending? then PullPending else PullFailed;
      }
      var rowIds := EmitRows(cap);
      r := HasMore(rowIds);
    }
  }

  /** A short read extends the part of the buffer that holds the file's bytes. */
  lemma Stored(content: seq<byte>, start: nat, buf: seq<byte>, written: nat, got: seq<byte>)
    requires written + |got| <= |buf| && start + |buf| <= |content|
    requires buf[..written] == content[start..start + written]
    requires got == content[start + written..start + written + |got|]
    ensures var buf' := buf[..written] + got + buf[written + |got|..];
            |buf'| == |buf| && buf'[..written + |got|] == content[start..start + written + |got|]
  {
  }

  // ---- Whole scans ----

  /** The row ids of some answers, put together. */
  function IdsOf(answers: seq<PullResult>): (ids: seq<int>) {
    if answers == [] then []
    else
      var last := answers[|answers| - 1];
      IdsOf(answers[..|answers| - 1]) + (if last.HasMore? then last.rowIds else [])
  }

  /** What some answers say, if the file was so often pending and failed meanwhile,
      and the reader had so many chances to give a row or to take a group. */
  ghost predicate Told(answers: seq<PullResult>, emitted: seq<int>, plan: seq<int>, pendings: int, failures: int, chances: int) {
    && IdsOf(answers) == emitted <= plan && (PullExhausted in answers ==> emitted == plan)
    && 0 <= pendings && 0 <= failures && (PullPending in answers <==> pendings > 0) && (PullFailed in answers <==> failures > 0)
    && ((forall i :: 0 <= i < |answers| ==> answers[i].HasMore?) ==> |answers| <= chances)
  }

  lemma ToldSnoc(answers: seq<PullResult>, before: seq<int>, plan: seq<int>, pendings: int, failures: int, chances: int, r: PullResult,
                 emitted: seq<int>, chances': int)
    requires Told(answers, before, plan, pendings, failures, chances)
    requires emitted == before + (if r.HasMore? then r.rowIds else []) && emitted <= plan
    requires PullExhausted in answers + [r] ==> emitted == plan
    requires if r.HasMore? then chances < chances' else chances <= chances'
    ensures Told(answers + [r], emitted, plan, pendings + (if r == PullPending then 1 else 0),
                 failures + (if r == PullFailed then 1 else 0), chances')
  {
    assert (answers + [r])[..|answers|] == answers;
    if forall i :: 0 <= i < |answers + [r]| ==> (answers + [r])[i].HasMore? {
      assert (answers + [r])[|answers|] == r;
      forall i | 0 <= i < |answers| ensures answers[i].HasMore? {
        assert (answers + [r])[i] == answers[i];
      }
    }
  }

  function Zeros(caps: seq<nat>): (n: nat) {
    if caps == [] then 0 else Zeros(caps[..|caps| - 1]) + (if caps[|caps| - 1] == 0 then 1 else 0)
  }

  lemma ZerosNext(caps: seq<nat>, k: nat)
    requires k < |caps|
    ensures Zeros(caps[..k + 1]) == Zeros(caps[..k]) + (if caps[k] == 0 then 1 else 0)
  {
    assert caps[..k + 1][..k] == caps[..k];
  }

  /** One more pull behind some answers, since the file had so many pending and failed
      answers and the queue had so many groups. */
  method PullNext(reader: Reader, cap: nat, ghost answers: seq<PullResult>, ghost pendings0: nat, ghost failures0: nat, ghost queue0: nat, ghost zeros: nat)
    returns (r: PullResult)
    requires reader.Valid() && (PullExhausted in answers ==> reader.queue == [] && reader.remainingRows == 0)
    requires Told(answers, reader.emitted, reader.plan, reader.file.pendings - pendings0, reader.file.failures - failures0,
                  |reader.emitted| + queue0 - |reader.queue| + zeros)
    modifies reader, reader.file
    ensures reader.Valid() && reader.plan == old(reader.plan)
    ensures PullExhausted in answers + [r] ==> reader.queue == [] && reader.remainingRows == 0
    ensures Told(answers + [r], reader.emitted, reader.plan, reader.file.pendings - pendings0, reader.file.failures - failures0,
                 |reader.emitted| + queue0 - |reader.queue| + zeros + (if cap == 0 then 1 else 0))
  {
    ghost var before, pendings, failures := reader.emitted, reader.file.pendings, reader.file.failures;
    ghost var chances := |reader.emitted| + queue0 - |reader.queue| + zeros;
    r := reader.PollPull(cap);
    ToldSnoc(answers, before, reader.plan, pendings - pendings0, failures - failures0, chances, r,
             reader.emitted, |reader.emitted| + queue0 - |reader.queue| + zeros + (if cap == 0 then 1 else 0));
  }

  /** Pulls with any capacities: put together, the answers are an initial part of the
      plan, and all of it once one of them says that it is exhausted. One of them
      does, unless the file was pending or failed or there were too few pulls. */
  method Pulls(reader: Reader, caps: seq<nat>) returns (answers: seq<PullResult>)
    requires reader.Valid() && reader.emitted == []
    modifies reader, reader.file
    ensures reader.Valid() && reader.plan == old(reader.plan) && |answers| == |caps|
    ensures Told(answers, reader.emitted, reader.plan, reader.file.pendings - old(reader.file.pendings),
                 reader.file.failures - old(reader.file.failures), |reader.plan| + |old(reader.queue)| + Zeros(caps))
  {
    answers := [];
    for k := 0 to |caps|
      invariant reader.Valid() && reader.plan == old(reader.plan) && |answers| == k
      invariant PullExhausted in answers ==> reader.queue == [] && reader.remainingRows == 0
      invariant Told(answers, reader.emitted, reader.plan, reader.file.pendings - old(reader.file.pendings),
                     reader.file.failures - old(reader.file.failures),
                     |reader.emitted| + |old(reader.queue)| - |reader.queue| + Zeros(caps[..k]))
    {
      var r := PullNext(reader, caps[k], answers, old(reader.file.pendings), old(reader.file.failures), |old(reader.queue)|, Zeros(caps[..k]));
      ZerosNext(caps, k);
      answers := answers + [r];
    }
    assert caps[..|caps|] == caps;
  }

  /** The row ids are strictly increasing and are exactly the rows, by their number in
      the file, of the groups not pruned. */
  ghost predicate AllRows(groups: seq<RowGroup>, prune: nat -> bool, ids: seq<int>) {
    Increasing(ids, 0) && forall x :: x in ids <==> InUnpruned(groups, prune, 0, x)
  }

  /** Scans a file: once exhausted, the row ids are all those of the groups not
      pruned. With enough pulls, on a file that is never pending and never fails, it
      comes to that. */
  method ScanFile(file: File, groups: seq<RowGroup>, projection: seq<nat>, prune: nat -> bool, caps: seq<nat>)
    returns (answers: seq<PullResult>)
    requires ChunksInFile(file.content, groups, projection)
    modifies file
    ensures PullExhausted in answers ==> AllRows(groups, prune, IdsOf(answers))
    ensures |caps| > RowsBefore(groups, |groups|) + |groups| + Zeros(caps)
            && file.pendings == old(file.pendings) && file.failures == old(file.failures) ==>
              PullExhausted in answers
  {
    var scan := FromMetadata(groups);
    assert scan == AllGroups(groups, |groups|)[0..];
    var reader := new Reader(file, groups, projection, prune, scan);
    answers := Pulls(reader, caps);
    ToldOfFile(groups, prune, answers, reader.emitted, file.pendings - old(file.pendings), file.failures - old(file.failures), Zeros(caps));
  }

  lemma ToldOfFile(groups: seq<RowGroup>, prune: nat -> bool, answers: seq<PullResult>, emitted: seq<int>, pendings: int, failures: int, zeros: nat)
    requires var plan := Plan(groups, prune, AllGroups(groups, |groups|)[0..]);
             Told(answers, emitted, plan, pendings, failures, |plan| + |groups| + zeros)
    ensures PullExhausted in answers ==> AllRows(groups, prune, IdsOf(answers))
    ensures |answers| > RowsBefore(groups, |groups|) + |groups| + zeros && pendings == 0 && failures == 0 ==> PullExhausted in answers
  {
    PlanOfFile(groups, prune, 0);
    PlanSize(groups, prune, 0);
    if |answers| > RowsBefore(groups, |groups|) + |groups| + zeros {
      var i :| 0 <= i < |answers| && !answers[i].HasMore?;
      assert answers[i] in answers;
    }
  }

  /** A plan is no longer than the rows of its groups. */
  lemma {:induction false} PlanSize(groups: seq<RowGroup>, prune: nat -> bool, k: nat)
    requires k <= |groups|
    ensures RowsBefore(groups, k) + |Plan(groups, prune, AllGroups(groups, |groups|)[k..])| <= RowsBefore(groups, |groups|)
    decreases |groups| - k
  {
    if k < |groups| {
      PlanSize(groups, prune, k + 1);
      PlanCons(groups, prune, k);
    }
  }
}

/**
  `ByteRecords` and `CsvDecoder`: records decoded into flat growable buffers
  with record-relative field ends, proved against the parse in `CsvParse`.
*/
module CsvDecoder {
  import opened Basics
  import opened CsvParse
  import opened CsvRuns

  /** End offsets of fields within their record. */
  function Ends(fields: seq<Field>): (es: seq<nat>)
    ensures |es| == |fields|
  {
    if fields == [] then [] else Ends(fields[..|fields| - 1]) + [|Concat(fields)|]
  }

  /** All bytes of all records, and all field ends, each relative to its record. */
  function FlatAll(rs: seq<Record>): (bs: seq<byte>) {
    if rs == [] then [] else FlatAll(rs[..|rs| - 1]) + Concat(rs[|rs| - 1])
  }

  function EndsAll(rs: seq<Record>): (es: seq<nat>) {
    if rs == [] then [] else EndsAll(rs[..|rs| - 1]) + Ends(rs[|rs| - 1])
  }

  lemma EndsSnoc(fields: seq<Field>, f: Field)
    ensures Ends(fields + [f]) == Ends(fields) + [|Concat(fields)| + |f|]
  {
    ConcatSnoc(fields, f);
    assert (fields + [f])[..|fields|] == fields;
  }

  lemma FlatSnoc(rs: seq<Record>, r: Record)
    ensures FlatAll(rs + [r]) == FlatAll(rs) + Concat(r)
    ensures EndsAll(rs + [r]) == EndsAll(rs) + Ends(r)
  {
    assert (rs + [r])[..|rs|] == rs;
  }

  /** Field `i` lies between the previous end and its own. */
  lemma {:induction false} FieldSlice(fields: seq<Field>, i: nat)
    requires i < |fields|
    ensures var es := Ends(fields);
            var start := if i == 0 then 0 else es[i - 1];
            start <= es[i] <= |Concat(fields)| && Concat(fields)[start..es[i]] == fields[i]
  {
    var init := fields[..|fields| - 1];
    if i < |init| {
      FieldSlice(init, i);
    } else if i > 0 {
      assert Ends(fields)[i - 1] == Ends(init)[i - 1] == |Concat(init)|;
    }
  }

  /** Records `0..k` occupy a prefix of both buffers, record `k` follows. */
  lemma {:induction false} FlatTake(rs: seq<Record>, k: nat)
    requires k <= |rs|
    ensures FlatAll(rs[..k]) <= FlatAll(rs) && EndsAll(rs[..k]) <= EndsAll(rs)
  {
    if k == |rs| {
      assert rs[..k] == rs;
    } else {
      FlatTake(rs[..|rs| - 1], k);
      assert rs[..|rs| - 1][..k] == rs[..k];
    }
  }

  datatype RecordBoundary = RecordBoundary(endIdx: int, endOffset: int)

  /** For each record, the index of its last field end and the end of its bytes, of
      which the first `absent` are not in the buffer. */
  function Boundaries(rs: seq<Record>, absent: nat): (bs: seq<RecordBoundary>)
    ensures |bs| == |rs|
  {
    if rs == [] then []
    else Boundaries(rs[..|rs| - 1], absent) + [RecordBoundary(|EndsAll(rs)| - 1, |FlatAll(rs)| - absent)]
  }

  lemma {:induction false} BoundaryAt(rs: seq<Record>, absent: nat, k: nat)
    requires k < |rs|
    ensures Boundaries(rs, absent)[k] == RecordBoundary(|EndsAll(rs[..k + 1])| - 1, |FlatAll(rs[..k + 1])| - absent)
  {
    if k + 1 < |rs| {
      BoundaryAt(rs[..|rs| - 1], absent, k);
      assert rs[..|rs| - 1][..k + 1] == rs[..k + 1];
    } else {
      assert rs[..k + 1] == rs;
    }
  }

  /** What comes of looking for a field. */
  datatype FieldRead = NoField | Value(bytes: seq<byte>) | OutOfRange

  /** Field `idx` of a record whose first `absent` bytes are not in the buffer: its
      ends still count them. */
  function Shown(r: Record, absent: nat, idx: nat): (f: FieldRead) {
    if idx >= |r| then NoField
    else
      FieldSlice(r, idx);
      var start, end := if idx == 0 then 0 else Ends(r)[idx - 1], Ends(r)[idx];
      if absent + end > |Concat(r)| then OutOfRange else Value(Concat(r)[absent + start..absent + end])
  }

  /** Nothing absent shows the fields. */
  lemma ShownWhole(r: Record, idx: nat)
    requires idx < |r|
    ensures Shown(r, 0, idx) == Value(r[idx])
  {
    FieldSlice(r, idx);
  }

  /** With bytes absent, the last field is out of range. */
  lemma ShownLast(r: Record, absent: nat)
    requires r != [] && absent > 0
    ensures Shown(r, absent, |r| - 1) == OutOfRange
  {
  }

  /** A view of one record in the buffers. */
  datatype ByteRecord = ByteRecord(buf: seq<byte>, ends: seq<nat>) {

    /** The view shows these fields, except for the first `absent` bytes. */
    ghost predicate Shows(r: Record, absent: nat) {
      absent <= |Concat(r)| && buf == Concat(r)[absent..] && ends == Ends(r)
    }

    method Field(idx: nat, ghost r: Record, ghost absent: nat) returns (f: FieldRead)
      requires Shows(r, absent)
      ensures f == Shown(r, absent, idx)
    {
      if idx >= |ends| {
        return NoField;
      }
      FieldSlice(r, idx);
      var start := if idx == 0 then 0 else ends[idx - 1];
      if ends[idx] > |buf| {
        return OutOfRange;
      }
      f := Value(buf[start..ends[idx]]);
      SliceBehind(Concat(r), absent, buf, absent + start, absent + ends[idx]);
    }

    /** Draining `iter_fields`: one pass with a running offset. None if a field is
        out of range, which happens exactly if bytes are absent. */
    method Fields(ghost r: Record, ghost absent: nat) returns (fs: Option<seq<seq<byte>>>)
      requires Shows(r, absent) && r != []
      ensures fs == if absent == 0 then Some(r) else None
    {
      var got := [];
      var offset, rest := 0, ends;
      while rest != []
        invariant |got| + |rest| == |ends| && rest == ends[|got|..]
        invariant absent == 0 ==> got == r[..|got|]
        invariant offset == if got == [] then 0 else ends[|got| - 1]
        invariant offset <= |buf|
        decreases |rest|
      {
        FieldSlice(r, |got|);
        if rest[0] > |buf| {
          return None;
        }
        got := got + [buf[offset..rest[0]]];
        offset := rest[0];
        rest := rest[1..];
      }
      assert offset == Ends(r)[|r| - 1] == |Concat(r)|;
      assert |got| == |r| && r[..|got|] == r;
      fs := Some(got);
    }
  }

  /** How a call that turned `p` into `q` shows in the output slices. */
  ghost predicate Wrote(p: Parse, q: Parse, ended: bool, out: seq<byte>, es: seq<nat>) {
    if ended then
      && q.done != [] && q.done[..|q.done| - 1] == p.done && q.fields == [] && q.cur == []
      && var rec := q.done[|q.done| - 1];
      && rec != []
      && Concat(rec) == Concat(p.fields) + p.cur + out
      && Ends(rec) == Ends(p.fields) + es
    else
      && q.done == p.done
      && Concat(q.fields) + q.cur == Concat(p.fields) + p.cur + out
      && Ends(q.fields) == Ends(p.fields) + es
  }

  /** The used part of the byte buffer, and of the ends buffer. */
  ghost function Bytes(done: seq<Record>, fields: seq<Field>, cur: Field): (bs: seq<byte>) {
    FlatAll(done) + Concat(fields) + cur
  }

  ghost function AllEnds(done: seq<Record>, fields: seq<Field>): (es: seq<nat>) {
    EndsAll(done) + Ends(fields)
  }

  /** Whatever was decoded, the buffers grew by what was written. */
  lemma WroteAppends(p: Parse, q: Parse, ended: bool, out: seq<byte>, es: seq<nat>)
    requires Wrote(p, q, ended, out, es)
    ensures Bytes(q.done, q.fields, q.cur) == Bytes(p.done, p.fields, p.cur) + out
    ensures AllEnds(q.done, q.fields) == AllEnds(p.done, p.fields) + es
  {
    if ended {
      var rec := q.done[|q.done| - 1];
      assert q.done == p.done + [rec];
      FlatSnoc(p.done, rec);
      Regroup(FlatAll(p.done), Concat(p.fields), p.cur, out, Concat(rec), []);
      Regroup(EndsAll(p.done), Ends(p.fields), [], es, Ends(rec), []);
      assert FlatAll(p.done) + Concat(rec) + [] == Bytes(q.done, [], []);
      assert EndsAll(p.done) + Ends(rec) + [] == AllEnds(q.done, []);
    } else {
      Regroup(FlatAll(p.done), Concat(p.fields), p.cur, out, Concat(q.fields), q.cur);
      Regroup(EndsAll(p.done), Ends(p.fields), [], es, Ends(q.fields), []);
    }
    assert AllEnds(p.done, p.fields) + [] == AllEnds(p.done, p.fields);
    assert AllEnds(q.done, q.fields) + [] == AllEnds(q.done, q.fields);
  }

  lemma Regroup<T>(a: seq<T>, b: seq<T>, c: seq<T>, x: seq<T>, y: seq<T>, z: seq<T>)
    requires y + z == b + c + x
    ensures a + y + z == a + b + c + x
  {
    assert a + y + z == a + (y + z);
    assert a + b + c + x == a + (b + c + x);
  }

  lemma WroteBoundary(p: Parse, q: Parse, out: seq<byte>, es: seq<nat>, absent: nat)
    requires Wrote(p, q, true, out, es)
    ensures Boundaries(q.done, absent) == Boundaries(p.done, absent)
            + [RecordBoundary(|AllEnds(q.done, q.fields)| - 1, |Bytes(q.done, q.fields, q.cur)| - absent)]
  {
    assert Bytes(q.done, [], []) == FlatAll(q.done) && AllEnds(q.done, []) == EndsAll(q.done);
  }

  /** `copy_within(n.., 0)`: the tail moves to the front, the rest stays. */
  function CopyDown<T>(s: seq<T>, n: nat): (r: seq<T>)
    requires n <= |s|
    ensures |r| == |s|
  {
    s[n..] + s[|s| - n..]
  }

  lemma CopyDownKeepsTail<T>(s: seq<T>, used: nat, a: seq<T>, b: seq<T>)
    requires used <= |s| && s[..used] == a + b
    ensures CopyDown(s, |a|)[..used - |a|] == b
  {
    assert s[|a|..used] == s[..used][|a|..];
  }

  class ByteRecords {
    var buf: seq<byte>
    var bufLen: nat
    var ends: seq<nat>
    var endsLen: nat
    var boundaries: seq<RecordBoundary>

    // What the buffers hold, and how many of the first record's first bytes are
    // absent because the decoder had them before the buffers were cleared.
    ghost var done: seq<Record>
    ghost var fields: seq<Field>
    ghost var cur: Field
    ghost var absent: nat

    ghost predicate Valid()
      reads this
    {
      && bufLen <= |buf| && endsLen <= |ends|
      && NonEmptyRecords(done)
      && absent <= FirstWidth(done, fields, cur)
      && buf[..bufLen] == Drop(Bytes(done, fields, cur), absent)
      && ends[..endsLen] == AllEnds(done, fields)
      && boundaries == Boundaries(done, absent)
    }

    constructor ()
      ensures Valid() && done == [] && fields == [] && cur == [] && absent == 0
    {
      buf, bufLen, ends, endsLen, boundaries := [], 0, [], 0, [];
      done, fields, cur, absent := [], [], [], 0;
    }

    /** Forgets everything. A decoder with a record open goes on with it all the
        same: the bytes it had of it, `open`, are now absent. */
    method ClearAll(ghost open: seq<byte>)
      requires Valid()
      modifies this
      ensures Valid() && done == [] && fields == [] && cur == open && absent == |open|
    {
      bufLen, endsLen, boundaries := 0, 0, [];
      done, fields, cur, absent := [], [], open, |open|;
    }

    /** Drops the completed records; the pending record is kept unless it
        consists of empty fields only, in which case its fields are forgotten. */
    method ClearCompleted()
      requires Valid()
      modifies this
      ensures Valid() && done == [] && cur == old(cur)
      ensures fields == Compact(Parse(old(done), old(fields), old(cur), StartRecord)).fields
      ensures absent == if old(done) == [] then old(absent) else 0
    {
      if boundaries == [] {
        return;
      }
      var last := boundaries[|boundaries| - 1];
      AllDoneIff(done, fields, cur, absent);
      assert bufLen == |buf[..bufLen]|;
      if last.endOffset == bufLen {
        bufLen, endsLen, boundaries := 0, 0, [];
        done, fields, absent := [], [], 0;
        return;
      }
      KeepPending();
    }

    /** Moves the pending record to the front. */
    method KeepPending()
      requires Valid() && done != []
      modifies this
      ensures Valid() && done == [] && fields == old(fields) && cur == old(cur) && absent == 0
    {
      SplitDone(done, fields, cur, absent);
      var last := boundaries[|boundaries| - 1];
      MoveDown(last.endOffset, last.endIdx + 1, FlatAll(done)[absent..], Bytes([], fields, cur), EndsAll(done), AllEnds([], fields));
      boundaries := [];
      done, absent := [], 0;
    }

    /** Moves the trailing parts of both buffers to the front. */
    method MoveDown(bytes: nat, count: nat, ghost a: seq<byte>, ghost b: seq<byte>, ghost es: seq<nat>, ghost fs: seq<nat>)
      requires bufLen <= |buf| && buf[..bufLen] == a + b && bytes == |a|
      requires endsLen <= |ends| && ends[..endsLen] == es + fs && count == |es|
      modifies this`buf, this`bufLen, this`ends, this`endsLen
      ensures bufLen <= |buf| && buf[..bufLen] == b
      ensures endsLen <= |ends| && ends[..endsLen] == fs
    {
      assert |buf[..bufLen]| == bufLen && |ends[..endsLen]| == endsLen;
      CopyDownKeepsTail(buf, bufLen, a, b);
      buf := CopyDown(buf, bytes);
      bufLen := bufLen - bytes;
      CopyDownKeepsTail(ends, endsLen, es, fs);
      ends := CopyDown(ends, count);
      endsLen := endsLen - count;
    }

    method GetRecord(idx: nat) returns (r: ByteRecord)
      requires Valid() && idx < |done|
      ensures r.Shows(done[idx], if idx == 0 then absent else 0)
    {
      RecordAt(done, fields, cur, absent, idx, buf[..bufLen], ends[..endsLen]);
      var b := boundaries[idx];
      if idx == 0 {
        r := ByteRecord(buf[0..b.endOffset], ends[0..b.endIdx + 1]);
      } else {
        var prev := boundaries[idx - 1];
        r := ByteRecord(buf[prev.endOffset..b.endOffset], ends[prev.endIdx + 1..b.endIdx + 1]);
      }
    }

    method ExpandBuf()
      requires Valid()
      modifies this`buf
      ensures Valid() && |buf| == Max(4, 2 * |old(buf)|)
    {
      var more := Max(4, 2 * |buf|) - |buf|;
      ghost var was := buf;
      buf := buf + seq(more, _ => 0);
      assert buf[..bufLen] == was[..bufLen];
    }

    method ExpandEnds()
      requires Valid()
      modifies this`ends
      ensures Valid() && |ends| == Max(4, 2 * |old(ends)|)
    {
      var more := Max(4, 2 * |ends|) - |ends|;
      ghost var was := ends;
      ends := ends + seq(more, _ => 0);
      assert ends[..endsLen] == was[..endsLen];
    }

    /** What the decoder's writes through the two output slices amount to: the
        pending record grew, or was completed, in which case a boundary is pushed. */
    method Append(ended: bool, out: seq<byte>, es: seq<nat>, ghost p: Parse, ghost q: Parse)
      requires Valid() && |out| <= |buf| - bufLen && |es| <= |ends| - endsLen
      requires p.done == done && p.fields == fields && p.cur == cur
      requires Wrote(p, q, ended, out, es)
      modifies this
      ensures Valid() && done == q.done && fields == q.fields && cur == q.cur
      ensures |buf| == |old(buf)| && |ends| == |old(ends)|
      ensures bufLen == old(bufLen) + |out| && endsLen == old(endsLen) + |es| && absent == old(absent)
    {
      WroteAppends(p, q, ended, out, es);
      WroteBehind(p, q, ended, out, es, absent);
      Store(out, es);
      if ended {
        WroteBoundary(p, q, out, es, absent);
        boundaries := boundaries + [RecordBoundary(endsLen - 1, bufLen)];
      }
      done, fields, cur := q.done, q.fields, q.cur;
    }

    method Store(out: seq<byte>, es: seq<nat>)
      requires bufLen + |out| <= |buf| && endsLen + |es| <= |ends|
      modifies this`buf, this`bufLen, this`ends, this`endsLen
      ensures bufLen == old(bufLen) + |out| <= |buf| == |old(buf)|
      ensures endsLen == old(endsLen) + |es| <= |ends| == |old(ends)|
      ensures buf[..bufLen] == old(buf[..bufLen]) + out
      ensures ends[..endsLen] == old(ends[..endsLen]) + es
    {
      buf := buf[..bufLen] + out + buf[bufLen + |out|..];
      ends := ends[..endsLen] + es + ends[endsLen + |es|..];
      bufLen, endsLen := bufLen + |out|, endsLen + |es|;
    }
  }

  /** The bytes of the first record, complete or not. */
  ghost function FirstWidth(done: seq<Record>, fields: seq<Field>, cur: Field): (n: nat) {
    if done == [] then |Concat(fields)| + |cur| else |Concat(done[0])|
  }

  lemma FirstInPrefix(done: seq<Record>, k: nat)
    requires 0 < k <= |done|
    ensures |Concat(done[0])| <= |FlatAll(done[..k])|
  {
    FlatTake(done[..k], 1);
    assert done[..k][..1] == [] + [done[0]];
    FlatSnoc([], done[0]);
  }

  lemma DropAppend<T>(a: seq<T>, b: seq<T>, n: nat)
    requires n <= |a|
    ensures Drop(a + b, n) == a[n..] + b
  {
  }

  /** With completed records, what is absent is absent from them. */
  lemma SplitDone(done: seq<Record>, fields: seq<Field>, cur: Field, absent: nat)
    requires done != [] && NonEmptyRecords(done) && absent <= FirstWidth(done, fields, cur)
    ensures absent <= |FlatAll(done)| && |EndsAll(done)| > 0
    ensures Drop(Bytes(done, fields, cur), absent) == FlatAll(done)[absent..] + Bytes([], fields, cur)
    ensures AllEnds(done, fields) == EndsAll(done) + AllEnds([], fields)
  {
    PendingBehindDone(done, fields, cur);
    FirstInPrefix(done, |done|);
    assert done[..|done|] == done;
    DropAppend(FlatAll(done), Bytes([], fields, cur), absent);
    EndsNonEmpty(done);
  }

  lemma SliceBehind<T>(flat: seq<T>, absent: nat, s: seq<T>, i: nat, j: nat)
    requires absent <= i <= j <= |flat| && flat[absent..] <= s
    ensures s[i - absent..j - absent] == flat[i..j]
  {
    assert s[..|flat| - absent] == flat[absent..];
    assert s[i - absent..j - absent] == flat[absent..][i - absent..j - absent];
  }

  /** Where record `k` lies in buffers that lack the first `absent` bytes. */
  lemma RecordBehind(done: seq<Record>, absent: nat, k: nat, buf: seq<byte>, ends: seq<nat>)
    requires k < |done| && NonEmptyRecords(done) && absent <= |Concat(done[0])|
    requires absent <= |FlatAll(done)| && FlatAll(done)[absent..] <= buf && EndsAll(done) <= ends
    ensures var i, j := (if k == 0 then absent else |FlatAll(done[..k])|), |FlatAll(done[..k + 1])|;
            && absent <= i <= j && j - absent <= |buf|
            && buf[i - absent..j - absent] == Concat(done[k])[if k == 0 then absent else 0..]
    ensures var i, j := |EndsAll(done[..k])|, |EndsAll(done[..k + 1])|;
            i < j <= |ends| && ends[i..j] == Ends(done[k]) && (k > 0 ==> i > 0)
  {
    RecordSlices(done, k);
    SliceOfPrefix(EndsAll(done), ends, |EndsAll(done[..k])|, |EndsAll(done[..k + 1])|);
    if k == 0 {
      assert done[..0] == [];
      SliceBehind(FlatAll(done), absent, buf, absent, |FlatAll(done[..1])|);
    } else {
      FirstInPrefix(done, k);
      EndsNonEmpty(done[..k]);
      SliceBehind(FlatAll(done), absent, buf, |FlatAll(done[..k])|, |FlatAll(done[..k + 1])|);
    }
  }

  lemma RecordAt(done: seq<Record>, fields: seq<Field>, cur: Field, absent: nat, k: nat, buf: seq<byte>, ends: seq<nat>)
    requires k < |done| && NonEmptyRecords(done) && absent <= FirstWidth(done, fields, cur)
    requires buf == Drop(Bytes(done, fields, cur), absent) && ends == AllEnds(done, fields)
    ensures var bs := Boundaries(done, absent);
            var i, j := (if k == 0 then 0 else bs[k - 1].endOffset), bs[k].endOffset;
            var m, n := (if k == 0 then 0 else bs[k - 1].endIdx + 1), bs[k].endIdx + 1;
            && 0 <= i <= j <= |buf| && 0 <= m <= n <= |ends|
            && ByteRecord(buf[i..j], ends[m..n]).Shows(done[k], if k == 0 then absent else 0)
  {
    SplitDone(done, fields, cur, absent);
    RecordBehind(done, absent, k, buf, ends);
    BoundaryAt(done, absent, k);
    if k > 0 {
      BoundaryAt(done, absent, k - 1);
    } else {
      assert done[..0] == [];
      FirstInPrefix(done, 1);
    }
  }

  /** The completed records fill the buffer exactly if the pending one has no byte. */
  lemma AllDoneIff(done: seq<Record>, fields: seq<Field>, cur: Field, absent: nat)
    requires done != [] && NonEmptyRecords(done) && absent <= FirstWidth(done, fields, cur)
    ensures var last := Boundaries(done, absent)[|done| - 1];
            last.endOffset == |Drop(Bytes(done, fields, cur), absent)| <==> Concat(fields) == [] && cur == []
  {
    SplitDone(done, fields, cur, absent);
    assert |Bytes([], fields, cur)| == |Concat(fields)| + |cur|;
  }

  /** What was written extends what the buffer has, and the absent bytes stay those
      of the first record. */
  lemma WroteBehind(p: Parse, q: Parse, ended: bool, out: seq<byte>, es: seq<nat>, absent: nat)
    requires Wrote(p, q, ended, out, es) && absent <= FirstWidth(p.done, p.fields, p.cur)
    ensures absent <= FirstWidth(q.done, q.fields, q.cur) && absent <= |Bytes(p.done, p.fields, p.cur)|
    ensures Drop(Bytes(p.done, p.fields, p.cur) + out, absent) == Drop(Bytes(p.done, p.fields, p.cur), absent) + out
  {
    FirstInBytes(p.done, p.fields, p.cur);
    DropAppend(Bytes(p.done, p.fields, p.cur), out, absent);
    if p.done != [] {
      assert q.done[0] == p.done[0];
    } else if ended {
      assert |Concat(q.done[0])| == |Concat(p.fields) + p.cur + out|;
    } else {
      assert |Concat(q.fields) + q.cur| == |Concat(p.fields) + p.cur + out|;
    }
  }

  lemma FirstInBytes(done: seq<Record>, fields: seq<Field>, cur: Field)
    ensures FirstWidth(done, fields, cur) <= |Bytes(done, fields, cur)|
  {
    if done != [] {
      FirstInPrefix(done, |done|);
      assert done[..|done|] == done;
    }
  }

  lemma PendingBehindDone(done: seq<Record>, fields: seq<Field>, cur: Field)
    ensures Bytes(done, fields, cur) == FlatAll(done) + Bytes([], fields, cur)
    ensures AllEnds(done, fields) == EndsAll(done) + AllEnds([], fields)
  {
  }

  lemma EndsNonEmpty(rs: seq<Record>)
    requires NonEmptyRecords(rs) && rs != []
    ensures |EndsAll(rs)| > 0
  {
    assert |Ends(rs[|rs| - 1])| > 0;
  }

  lemma SliceOfPrefix<T>(a: seq<T>, s: seq<T>, i: nat, j: nat)
    requires a <= s && i <= j <= |a|
    ensures a[i..j] == s[i..j]
  {
  }

  lemma MiddleSlice<T>(a: seq<T>, b: seq<T>, s: seq<T>)
    requires a + b <= s
    ensures |a| + |b| <= |s| && s[|a|..|a| + |b|] == b
  {
    assert s[..|a| + |b|] == a + b;
    assert s[|a|..|a| + |b|] == (a + b)[|a|..];
  }

  /** Where record `k` lies in the two flat buffers. */
  lemma RecordSlices(rs: seq<Record>, k: nat)
    requires k < |rs| && NonEmptyRecords(rs)
    ensures |FlatAll(rs[..k])| <= |FlatAll(rs[..k + 1])| <= |FlatAll(rs)|
    ensures |EndsAll(rs[..k])| < |EndsAll(rs[..k + 1])| <= |EndsAll(rs)|
    ensures FlatAll(rs)[|FlatAll(rs[..k])|..|FlatAll(rs[..k + 1])|] == Concat(rs[k])
    ensures EndsAll(rs)[|EndsAll(rs[..k])|..|EndsAll(rs[..k + 1])|] == Ends(rs[k])
  {
    FlatTake(rs, k + 1);
    assert rs[..k + 1] == rs[..k] + [rs[k]];
    FlatSnoc(rs[..k], rs[k]);
    MiddleSlice(FlatAll(rs[..k]), Concat(rs[k]), FlatAll(rs));
    MiddleSlice(EndsAll(rs[..k]), Ends(rs[k]), EndsAll(rs));
  }

  /** Bytes of the pending record. */
  ghost function Width(p: Parse): (n: nat) {
    |Concat(p.fields)| + |p.cur|
  }

  datatype ReadResult = InputEmpty | OutputFull | OutputEndsFull | RecordRead | End

  datatype DecoderResult = NeedsMore | AtRecordBoundary

  /** One byte more or none, before the marks. */
  lemma WroteCopy(before: seq<byte>, cur: seq<byte>, start: seq<byte>, out: seq<byte>, copied: seq<byte>)
    requires before + cur == start + out
    ensures before + (cur + copied) == start + (out + copied) && |before| + |cur + copied| == |start| + |out + copied|
  {
    Assoc(before, cur, copied);
    Assoc(start, out, copied);
    assert |before + (cur + copied)| == |start + (out + copied)|;
  }

  lemma WroteMove(p: Parse, q: Parse, c: byte, out: seq<byte>, es: seq<nat>, m: Move, out': seq<byte>, es': seq<nat>, q': Parse)
    requires Wrote(p, q, false, out, es) && q' == Apply(m, q, c)
    requires out' == if m.copies then out + [c] else out
    requires es' == if m.mark == NoMark then es else es + [Width(p) + |out'|]
    ensures Wrote(p, q', m.mark == RecordEnd, out', es')
  {
    var copied := if m.copies then [c] else [];
    var cur := if m.copies then q.cur + [c] else q.cur;
    assert cur == q.cur + copied && out' == out + copied;
    WroteCopy(Concat(q.fields), q.cur, Concat(p.fields) + p.cur, out, copied);
    if m.mark != NoMark {
      ConcatSnoc(q.fields, cur);
      EndsSnoc(q.fields, cur);
      Assoc(Ends(p.fields), es, [Width(p) + |out'|]);
      assert Concat(q.fields + [cur]) + [] == Concat(q.fields + [cur]);
    }
  }

  /** `step` is the automaton of `d`. The trigger keeps its definition out of
      the way wherever single bytes are not the point. */
  ghost predicate Follows(step: (Parse, byte) -> Parse, d: Dialect) {
    forall p, c {:trigger FeedByte(d, p, c)} :: step(p, c) == FeedByte(d, p, c)
  }

  lemma ScanByte(step: (Parse, byte) -> Parse, d: Dialect, p: Parse, q: Parse, c: byte, out: seq<byte>, es: seq<nat>,
                 m: Move, out': seq<byte>, es': seq<nat>)
    requires Follows(step, d) && Wrote(p, q, false, out, es)
    requires m == Step(d, q.state, c)
    requires out' == if m.copies then out + [c] else out
    requires es' == if m.mark == NoMark then es else es + [Width(p) + |out'|]
    ensures Wrote(p, step(q, c), m.mark == RecordEnd, out', es')
    ensures step(q, c).state == m.next && (m.mark == RecordEnd <==> m.next == AfterRecord)
  {
    assert step(q, c) == FeedByte(d, q, c);
    WroteMove(p, q, c, out, es, m, out', es', step(q, c));
  }

  /** What one call of `read_record` on `rest` did to the parse. */
  ghost predicate Stepped(step: (Parse, byte) -> Parse, p: Parse, rest: seq<byte>, res: ReadResult, nin: nat, q: Parse) {
    && nin <= |rest|
    && (rest == [] ==>
          match res
          case End => q == p && p.state.Idle()
          case RecordRead => q == Finish(p) && !p.state.Idle()
          case OutputEndsFull => q == p && !p.state.Idle()
          case _ => false)
    && (rest != [] ==>
          && q == FoldTo(step, p, rest, nin)
          && match res
             case End => false
             case InputEmpty => nin == |rest| && q.state != AfterRecord
             case RecordRead => nin > 0 && q.state == AfterRecord
             case _ => nin < |rest|)
  }

  /** The parse after a call to `decode`; empty input ends an open record. */
  ghost function AfterDecode(d: Dialect, p: Parse, input: seq<byte>): (q: Parse) {
    if input == [] then Finish(p) else Feed(d, p, input)
  }

  class CsvDecoder {
    const dialect: Dialect
    // The state of `csv_core::Reader`: its automaton and how many bytes of the
    // current record it has written.
    var state: State
    var outputPos: nat

    constructor (dialect: Dialect)
      ensures this.dialect == dialect && state == StartRecord && outputPos == 0
    {
      this.dialect, state, outputPos := dialect, StartRecord, 0;
    }

    /** The reader's output position is that of the pending record in `output`. */
    ghost predicate Synced(output: ByteRecords)
      reads this, output
    {
      outputPos == Width(View(output))
    }

    ghost function View(output: ByteRecords): (p: Parse)
      reads this, output
    {
      Parse(output.done, output.fields, output.cur, state)
    }

    /** The scanning loop of `csv_core::Reader::read_record`: one record at most,
        as far as the output space allows. */
    method Scan(input: seq<byte>, room: nat, endsRoom: nat, ghost p: Parse, ghost step: (Parse, byte) -> Parse)
      returns (nin: nat, out: seq<byte>, es: seq<nat>, mark: Mark, ghost q: Parse)
      requires p.state == state && outputPos == Width(p)
      requires input != [] && room > 0 && endsRoom > 0 && Follows(step, dialect)
      modifies this`state
      ensures 0 < nin && |out| <= room && |es| <= endsRoom
      ensures nin <= |input| && q == FoldTo(step, p, input, nin) && state == q.state
      ensures Wrote(p, q, mark == RecordEnd, out, es) && (mark == RecordEnd <==> state == AfterRecord)
      ensures mark == RecordEnd || nin == |input| || |out| == room || |es| == endsRoom
    {
      nin, out, es, mark, q := 0, [], [], NoMark, p;
      while nin < |input| && |out| < room && |es| < endsRoom && mark != RecordEnd
        invariant nin <= |input| && |out| <= room && |es| <= endsRoom
        invariant q == FoldTo(step, p, input, nin) && q.state == state
        invariant Wrote(p, q, mark == RecordEnd, out, es)
        invariant if nin == 0 then out == [] && es == [] && mark == NoMark else mark == RecordEnd <==> state == AfterRecord
        decreases |input| - nin
      {
        var m := Step(dialect, state, input[nin]);
        var out' := if m.copies then out + [input[nin]] else out;
        var es' := if m.mark == NoMark then es else es + [outputPos + |out'|];
        ghost var q' := step(q, input[nin]);
        ScanByte(step, dialect, p, q, input[nin], out, es, m, out', es');
        state, nin, out, es, mark, q := m.next, nin + 1, out', es', m.mark, q';
      }
    }

    /** `csv_core::Reader::read_record` with `room` bytes and `endsRoom` ends of
        output space; returns what it read and what it wrote. */
    method ReadRecord(input: seq<byte>, room: nat, endsRoom: nat, ghost p: Parse, ghost step: (Parse, byte) -> Parse)
      returns (res: ReadResult, nin: nat, out: seq<byte>, es: seq<nat>, ghost q: Parse)
      requires p.state == state && outputPos == Width(p) && Follows(step, dialect)
      modifies this
      ensures nin <= |input| && |out| <= room && |es| <= endsRoom
      ensures Wrote(p, q, res == RecordRead, out, es) && state == q.state && outputPos == Width(q)
      ensures Stepped(step, p, input, res, nin, q)
      ensures nin == 0 ==> out == []
      ensures nin == 0 && res == OutputFull ==> room == 0
      ensures nin == 0 && res == OutputEndsFull ==> endsRoom == 0
    {
      nin, out, es, q := 0, [], [], p;
      if input == [] {
        if state.Idle() {
          res := End;
        } else if endsRoom == 0 {
          res := OutputEndsFull;
        } else {
          res, es, q := RecordRead, [outputPos], Finish(p);
          state, outputPos := AfterRecord, 0;
          ConcatSnoc(p.fields, p.cur);
          EndsSnoc(p.fields, p.cur);
        }
        return;
      }
      if room == 0 {
        res := OutputFull;
        return;
      }
      if endsRoom == 0 {
        res := OutputEndsFull;
        return;
      }
      var mark;
      nin, out, es, mark, q := Scan(input, room, endsRoom, p, step);
      if mark == RecordEnd {
        res, outputPos := RecordRead, 0;
      } else {
        assert |Concat(q.fields) + q.cur| == |Concat(p.fields) + p.cur + out|;
        outputPos := outputPos + |out|;
        res := if nin < |input| && |out| >= room then OutputFull
               else if nin < |input| && |es| >= endsRoom then OutputEndsFull
               else InputEmpty;
      }
    }

    /** One round of the decode loop: read, append to `output`, grow it if asked. */
    method DecodeStep(rest: seq<byte>, output: ByteRecords, ghost step: (Parse, byte) -> Parse) returns (res: ReadResult, nin: nat)
      requires output.Valid() && Synced(output) && Follows(step, dialect)
      modifies this, output
      ensures output.Valid() && Synced(output) && output.absent == old(output.absent)
      ensures Stepped(step, old(View(output)), rest, res, nin, View(output))
      ensures (res == OutputFull || res == OutputEndsFull) && nin == 0 ==> old(Full(output)) > Full(output)
    {
      ghost var p := View(output);
      ghost var q;
      var out, es;
      res, nin, out, es, q := ReadRecord(rest, |output.buf| - output.bufLen, |output.ends| - output.endsLen, p, step);
      output.Append(res == RecordRead, out, es, p, q);
      assert View(output) == q;
      Grow(res, output);
    }

    /** Makes room in the buffer that had none. */
    method Grow(res: ReadResult, output: ByteRecords)
      requires output.Valid()
      modifies output`buf, output`ends
      ensures output.Valid()
      ensures res == OutputFull ==> |output.buf| > old(|output.buf|) && output.ends == old(output.ends)
      ensures res == OutputEndsFull ==> |output.ends| > old(|output.ends|) && output.buf == old(output.buf)
      ensures res != OutputFull && res != OutputEndsFull ==> output.buf == old(output.buf) && output.ends == old(output.ends)
    {
      if res == OutputFull {
        output.ExpandBuf();
      } else if res == OutputEndsFull {
        output.ExpandEnds();
      }
    }

    /** How many of the two buffers are full. */
    ghost function Full(output: ByteRecords): (n: nat)
      reads output
    {
      (if output.bufLen >= |output.buf| then 1 else 0) + (if output.endsLen >= |output.ends| then 1 else 0)
    }

    /** The decode loop. */
    method DecodeLoop(input: seq<byte>, output: ByteRecords, ghost step: (Parse, byte) -> Parse) returns (r: DecoderResult)
      requires output.Valid() && Synced(output) && Follows(step, dialect)
      modifies this, output
      ensures output.Valid() && Synced(output) && output.absent == old(output.absent)
      ensures var p := old(View(output));
              View(output) == if input == [] then Finish(p) else FoldTo(step, p, input, |input|)
      ensures r == AtRecordBoundary <==> state.Idle() && (input == [] || state == AfterRecord)
    {
      ghost var p0 := View(output);
      var offset := 0;
      while true
        invariant output.Valid() && Synced(output) && output.absent == old(output.absent) && offset <= |input|
        invariant input != [] ==> View(output) == FoldTo(step, p0, input, offset)
        invariant input == [] ==> View(output) == p0 || View(output) == Finish(p0)
        invariant input != [] && offset == |input| ==> state == AfterRecord
        decreases |input| - offset, if state.Idle() then 0 else 1, Full(output)
      {
        var res, nin := DecodeStep(input[offset..], output, step);
        FoldToAdvance(step, p0, input, offset, nin);
        offset := offset + nin;
        if res == InputEmpty {
          return NeedsMore;
        }
        if res == End {
          return AtRecordBoundary;
        }
      }
      assert false;
      r := NeedsMore;
    }

    /** Decodes one chunk: the buffers end up holding what the parse says,
        however often they had to grow. Empty input ends an open record. */
    method Decode(input: seq<byte>, output: ByteRecords) returns (r: DecoderResult)
      requires output.Valid() && Synced(output)
      modifies this, output
      ensures output.Valid() && Synced(output) && output.absent == old(output.absent)
      ensures View(output) == AfterDecode(dialect, old(View(output)), input)
      ensures r == AtRecordBoundary <==> state.Idle() && (input == [] || state == AfterRecord)
    {
      FoldAll(Stepper(dialect), View(output), input);
      r := DecodeLoop(input, output, Stepper(dialect));
    }
  }
}

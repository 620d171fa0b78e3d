/**
  `HttpFileHandle`: a file read through HTTP range requests, proved to behave
  as a plain cursor over the content.

  The server answers a range request (section 14.1.2 of RFC 9110) with 206 and
  a body that is a non-empty initial part of the range, in non-empty chunks of
  any size; requests and streams may also be pending or fail at any time.
*/
module HttpHandle {
  import opened Basics

  /** What is left of a response body stands for the stream that delivers it. A
      request that answered with an error is used up: its future must not be
      polled again, and only a seek gets rid of it. */
  datatype ChunkReadState =
    | Idle
    | Requesting(start: nat, end: nat)
    | UsedUp
    | Streaming(stream: seq<byte>)
    | Reading(rest: seq<byte>, chunkPos: nat, chunk: seq<byte>)

  datatype SeekFrom = Start(offset: nat) | End(fromEnd: int) | Current(delta: int)

  /** The position a seek asks for, if it is not before the start of the file. */
  function SeekTarget(seek: SeekFrom, pos: nat, len: nat): (t: Option<nat>) {
    var at := match seek case Start(n) => n as int case End(n) => len + n case Current(n) => pos + n;
    if at >= 0 then Some(at) else None
  }

  lemma JoinSlices(content: seq<byte>, from: nat, mid: nat, to: nat)
    requires from <= mid <= to <= |content|
    ensures content[from..mid] + content[mid..to] == content[from..to]
  {
  }

  /** Delivering `count` bytes of a chunk leaves the bytes after them. */
  lemma TakeFromChunk(content: seq<byte>, pos: nat, bytes: seq<byte>, chunkPos: nat, rest: seq<byte>, count: nat)
    requires chunkPos + count <= |bytes| && pos + |bytes| - chunkPos + |rest| <= |content|
    requires bytes[chunkPos..] + rest == content[pos..pos + |bytes| - chunkPos + |rest|]
    ensures bytes[chunkPos..chunkPos + count] == content[pos..pos + count]
    ensures bytes[chunkPos + count..] + rest == content[pos + count..pos + |bytes| - chunkPos + |rest|]
    ensures chunkPos + count == |bytes| ==> rest == content[pos + count..pos + count + |rest|]
  {
    var unread := bytes[chunkPos..] + rest;
    assert bytes[chunkPos..chunkPos + count] == unread[..count];
    assert bytes[chunkPos + count..] + rest == unread[count..];
    if chunkPos + count == |bytes| {
      assert bytes[chunkPos + count..] + rest == rest;
    }
  }

  method CopyFrom(buf: array<byte>, src: seq<byte>)
    requires |src| <= buf.Length
    modifies buf
    ensures buf[..] == src + old(buf[..])[|src|..]
  {
    forall i | 0 <= i < |src| {
      buf[i] := src[i];
    }
  }

  class HttpFileHandle {
    // The file on the server. Only `PollResponse`, which stands for the server's
    // answer, looks at it; the handle itself knows its length.
    const content: seq<byte>
    const len: nat
    var chunk: ChunkReadState
    var pos: nat
    // Where the last seek went, and everything read since.
    ghost var base: nat
    ghost var delivered: seq<byte>
    // How often the server, or making a request, was pending and failed.
    ghost var pendings: nat
    ghost var failures: nat

    constructor (len: nat, content: seq<byte>)
      requires len == |content|
      ensures Valid() && this.content == content && pos == 0 && base == 0 && delivered == [] && pendings == 0 && failures == 0
    {
      this.len, this.content := len, content;
      chunk, pos, base, delivered, pendings, failures := Idle, 0, 0, [], 0, 0;
    }

    /** Exactly the last answer was added to the counts. */
    ghost predicate Counted<T>(r: Poll<T>, pendings0: nat, failures0: nat)
      reads this
    {
      && pendings == pendings0 + (if r.Pending? then 1 else 0)
      && failures == failures0 + (if r.Failed? then 1 else 0)
    }

    /** What is buffered or still to be streamed. */
    function Unread(): (bs: seq<byte>)
      reads this
      requires chunk.Reading? ==> chunk.chunkPos <= |chunk.chunk|
    {
      match chunk
      case Streaming(stream) => stream
      case Reading(rest, chunkPos, bytes) => bytes[chunkPos..] + rest
      case _ => []
    }

    /** Whatever is buffered or still to be streamed is what follows `pos`. */
    ghost predicate ChunkFollows()
      reads this
    {
      && len == |content|
      && (chunk.Requesting? ==> chunk.start == pos < chunk.end <= len)
      && (chunk.Reading? ==> chunk.chunkPos < |chunk.chunk|)
      && (chunk.Streaming? || chunk.Reading? ==>
            pos + |Unread()| <= len && Unread() == content[pos..pos + |Unread()|])
    }

    ghost predicate Valid()
      reads this
    {
      && ChunkFollows()
      && base <= pos
      && (pos <= len ==> delivered == content[base..pos])
      && (pos > len ==> base == pos && delivered == [])
    }

    /** Sends a range request; both ends of the range header are inclusive. */
    method SendRequest(first: nat, last: nat)
      requires ChunkFollows() && chunk == Idle && first == pos <= last < len
      modifies this`chunk
      ensures ChunkFollows() && chunk == Requesting(first, last + 1)
    {
      chunk := Requesting(first, last + 1);
    }

    /** Polls the response; a status other than 206 is an error, and so is the
        request's own failure. Both use the request up. */
    method PollResponse() returns (r: Poll<()>)
      requires ChunkFollows() && chunk.Requesting?
      modifies this`chunk, this`pendings, this`failures
      ensures ChunkFollows() && Counted(r, old(pendings), old(failures))
      ensures match r case Pending => chunk == old(chunk)
                      case Failed => chunk == UsedUp
                      case Ready(_) => chunk.Streaming? && chunk.stream != []
    {
      if * {
        pendings := pendings + 1;
        return Pending;
      }
      if * {
        chunk, failures := UsedUp, failures + 1;
        return Failed;
      }
      var end: nat :| pos < end <= chunk.end;
      r := Ready(());
      chunk := Streaming(content[pos..end]);
    }

    /** Polls the stream for its next chunk, or for its end. */
    method PollChunk() returns (r: Poll<Option<seq<byte>>>)
      requires ChunkFollows() && chunk.Streaming?
      modifies this`chunk, this`pendings, this`failures
      ensures ChunkFollows() && Counted(r, old(pendings), old(failures))
      ensures !r.Ready? ==> chunk == old(chunk)
      ensures r.Ready? && r.value.None? ==> old(chunk).stream == [] && chunk == Idle
      ensures r.Ready? && r.value.Some? ==> chunk.Reading?
    {
      if * {
        pendings := pendings + 1;
        return Pending;
      }
      if * {
        failures := failures + 1;
        return Failed;
      }
      var stream := chunk.stream;
      if stream == [] {
        chunk := Idle;
        return Ready(None);
      }
      var n :| 0 < n <= |stream|;
      r := Ready(Some(stream[..n]));
      chunk := Reading(stream[n..], 0, stream[..n]);
      assert stream[..n][0..] + stream[n..] == stream;
    }

    /** Advances past `count` buffered bytes. */
    method Consume(count: nat)
      requires ChunkFollows() && chunk.Reading? && chunk.chunkPos + count <= |chunk.chunk|
      modifies this`chunk, this`pos
      ensures ChunkFollows() && chunk != UsedUp && pos == old(pos) + count <= len
      ensures old(chunk.chunk[chunk.chunkPos..chunk.chunkPos + count]) == content[old(pos)..pos]
    {
      var Reading(rest, chunkPos, bytes) := chunk;
      TakeFromChunk(content, pos, bytes, chunkPos, rest, count);
      pos := pos + count;
      if chunkPos + count >= |bytes| {
        chunk := Streaming(rest);
      } else {
        chunk := Reading(rest, chunkPos + count, bytes);
      }
    }

    /** Copies from the buffered chunk into the front of `buf`. */
    method CopyOut(buf: array<byte>) returns (count: nat)
      requires ChunkFollows() && chunk.Reading?
      modifies this`chunk, this`pos, buf
      ensures ChunkFollows() && chunk != UsedUp && count <= buf.Length && pos == old(pos) + count <= len
      ensures buf[..] == content[old(pos)..pos] + old(buf[..])[count..]
      ensures count == Min(buf.Length, |old(chunk).chunk| - old(chunk).chunkPos)
    {
      count := Min(buf.Length, |chunk.chunk| - chunk.chunkPos);
      CopyFrom(buf, chunk.chunk[chunk.chunkPos..chunk.chunkPos + count]);
      Consume(count);
    }

    /** How many turns of the read loop are left at most. */
    ghost function Rank(): (n: nat)
      reads this
    {
      match chunk
      case Idle => 3
      case Requesting(_, _) => 2
      case UsedUp => 0
      case Streaming(stream) => if stream == [] then 4 else 1
      case Reading(_, _, _) => 0
    }

    /** An answer that is not ready was given by the server, or the request was used up. */
    ghost predicate Heard<T>(r: Poll<T>, used: bool, pendings0: nat, failures0: nat)
      reads this
    {
      if used then r == Failed && pendings == pendings0 && failures == failures0 else Counted(r, pendings0, failures0)
    }

    /** One turn of the read loop, without copying out. */
    method Turn(bufLen: nat) returns (r: Poll<bool>)
      requires ChunkFollows() && pos <= len && !chunk.Reading?
      modifies this`chunk, this`pendings, this`failures
      ensures ChunkFollows() && Heard(r, old(chunk) == UsedUp, old(pendings), old(failures))
      ensures r == Ready(false) ==> Rank() < old(Rank()) && chunk != UsedUp
      ensures r == Ready(false) && old(chunk) == Idle ==> chunk == Requesting(pos, pos + Min(len - pos, bufLen))
      ensures r == Ready(true) ==> bufLen == 0 || pos == len
      ensures if old(chunk) == UsedUp then chunk == UsedUp else chunk == UsedUp ==> failures > old(failures)
    {
      match chunk
      case Idle =>
        // The range asks for the whole buffer, up to the end of the file.
        var rangeCount := Min(len - pos, bufLen);
        if rangeCount == 0 {
          return Ready(true);
        }
        if * {
          // The request cannot be signed.
          failures := failures + 1;
          return Failed;
        }
        SendRequest(pos, pos + rangeCount - 1);
        r := Ready(false);
      case Requesting(_, _) =>
        var resp := PollResponse();
        r := match resp case Pending => Pending case Failed => Failed case Ready(_) => Ready(false);
      case UsedUp =>
        // Polling the finished future is not defined; nothing comes of it here.
        r := Failed;
      case Streaming(_) =>
        var next := PollChunk();
        r := match next case Pending => Pending case Failed => Failed case Ready(_) => Ready(false);
    }

    /** The read loop up to the point where a chunk is buffered; true if there
        is nothing left to read. */
    method Buffer(bufLen: nat) returns (r: Poll<bool>)
      requires ChunkFollows() && pos <= len
      modifies this`chunk, this`pendings, this`failures
      ensures ChunkFollows() && Heard(r, old(chunk) == UsedUp, old(pendings), old(failures))
      ensures r == Ready(false) ==> chunk.Reading?
      ensures r == Ready(true) ==> bufLen == 0 || pos == len
      ensures if old(chunk) == UsedUp then chunk == UsedUp else chunk == UsedUp ==> failures > old(failures)
    {
      while !chunk.Reading?
        invariant ChunkFollows() && pendings == old(pendings) && failures == old(failures)
        invariant old(chunk) == UsedUp <==> chunk == UsedUp
        decreases Rank()
      {
        var turn := Turn(bufLen);
        if turn != Ready(false) {
          return turn;
        }
      }
      r := Ready(false);
    }

    /** Reads into `buf`: the next bytes of the file, none only at its end. What
        was read since the last seek is always one slice of the file. A read is
        pending or fails exactly if the server was or did, or the request is used up. */
    method PollRead(buf: array<byte>) returns (r: Poll<nat>)
      requires Valid() && pos <= len
      modifies this, buf
      ensures Valid() && pos <= len
      ensures !r.Ready? ==> pos == old(pos) && buf[..] == old(buf[..])
      ensures r.Ready? ==>
                && r.value <= buf.Length && pos == old(pos) + r.value
                && buf[..] == content[old(pos)..pos] + old(buf[..])[r.value..]
      ensures r.Ready? && r.value == 0 ==> buf.Length == 0 || pos == len
      ensures base == old(base) && delivered == old(delivered) + content[old(pos)..pos]
      ensures Heard(r, old(chunk) == UsedUp, old(pendings), old(failures))
      ensures if old(chunk) == UsedUp then chunk == UsedUp else chunk == UsedUp ==> failures > old(failures)
    {
      var ready := Buffer(buf.Length);
      if !ready.Ready? {
        return if ready.Pending? then Pending else Failed;
      }
      var count := 0;
      if !ready.value {
        count := CopyOut(buf);
      }
      JoinSlices(content, base, old(pos), pos);
      delivered := delivered + content[old(pos)..pos];
      r := Ready(count);
    }

    /** Drops any response and moves; seeking past the end is allowed, seeking
        before the start is an error that keeps the position. From the end backwards,
        exactly that many bytes are left to read. */
    method PollSeek(seek: SeekFrom) returns (ok: bool)
      requires Valid()
      modifies this`chunk, this`pos, this`base, this`delivered
      ensures Valid()
      ensures ok <==> SeekTarget(seek, old(pos), len).Some?
      ensures pos == if ok then SeekTarget(seek, old(pos), len).value else old(pos)
      ensures match seek
              case Start(n) => ok && pos == n
              case End(n) => (ok <==> -n <= len) && (ok && n <= 0 ==> pos <= len && |content[pos..]| == -n) && (ok && n > 0 ==> pos - n == len)
              case Current(n) => (ok <==> -n <= old(pos)) && (ok ==> pos == old(pos) + n)
      ensures if ok then base == pos && delivered == [] else base == old(base) && delivered == old(delivered)
      ensures chunk == Idle
    {
      chunk := Idle;
      match seek {
      case Start(n) => pos := n;
      case End(n) =>
        if n > 0 {
          pos := len + n;
        } else {
          if -n > len {
            return false;
          }
          pos := len - (-n);
        }
      case Current(n) =>
        if n > 0 {
          pos := pos + n;
        } else {
          if -n > pos {
            return false;
          }
          pos := pos - (-n);
        }
      }
      base, delivered := pos, [];
      ok := true;
    }
  }

  /** Reads from `k` bytes before the end on, as for a footer: what comes is an initial
      part of the last `k` bytes, and all of them if there are enough reads and the
      server is never pending and never fails. */
  method ReadTail(handle: HttpFileHandle, k: nat, sizes: seq<nat>) returns (ok: bool, bytes: seq<byte>)
    requires handle.Valid()
    modifies handle
    ensures handle.Valid() && (ok <==> k <= handle.len)
    ensures ok ==> bytes <= handle.content[handle.len - k..]
    ensures ok && |sizes| >= k && (forall i :: 0 <= i < |sizes| ==> sizes[i] > 0)
            && handle.pendings == old(handle.pendings) && handle.failures == old(handle.failures) ==>
              bytes == handle.content[handle.len - k..]
  {
    bytes := [];
    var back: int := k;
    ok := handle.PollSeek(End(-back));
    if ok {
      bytes := Reads(handle, sizes);
      assert bytes == handle.content[handle.len - k..][..|bytes|];
    }
  }

  /** Any reads with any buffer sizes: put together, what they deliver is the slice
      of the file that the position moved over. With as many reads as bytes that is
      all up to the end, unless the server was pending or failed. */
  method Reads(handle: HttpFileHandle, sizes: seq<nat>) returns (bytes: seq<byte>)
    requires handle.Valid() && handle.pos <= handle.len
    modifies handle
    ensures handle.Valid() && old(handle.pos) <= handle.pos <= handle.len
    ensures bytes == handle.content[old(handle.pos)..handle.pos]
    ensures |sizes| >= handle.len - old(handle.pos) && (forall i :: 0 <= i < |sizes| ==> sizes[i] > 0) ==>
              || handle.pos == handle.len || old(handle.chunk) == UsedUp
              || handle.pendings > old(handle.pendings) || handle.failures > old(handle.failures)
  {
    bytes := [];
    for k := 0 to |sizes|
      invariant handle.Valid() && old(handle.pos) <= handle.pos <= handle.len
      invariant bytes == handle.content[old(handle.pos)..handle.pos]
      invariant handle.pendings >= old(handle.pendings) && handle.failures >= old(handle.failures)
      invariant handle.chunk == UsedUp ==> old(handle.chunk) == UsedUp || handle.failures > old(handle.failures)
      invariant (forall i :: 0 <= i < k ==> sizes[i] > 0) ==>
                  || k <= handle.pos - old(handle.pos) || handle.pos == handle.len || old(handle.chunk) == UsedUp
                  || handle.pendings > old(handle.pendings) || handle.failures > old(handle.failures)
    {
      var buf := new byte[sizes[k]];
      ghost var pos := handle.pos;
      var r := handle.PollRead(buf);
      if r.Ready? {
        assert buf[..r.value] == handle.content[pos..handle.pos];
        JoinSlices(handle.content, old(handle.pos), pos, handle.pos);
        bytes := bytes + buf[..r.value];
      }
    }
  }
}

/**
  The Hadoop framing of LZ4: every frame is its decompressed size, its
  compressed size, both big-endian and four bytes, and the compressed data.
  The raw codec is foreign: a decompressor and a compressor that it undoes.
*/
module Lz4Hadoop {
  import opened Basics

  const PREFIX_LEN: nat := 8

  function BeBytes(n: nat): (bs: seq<byte>)
    ensures |bs| == 4
  {
    var n1 := n / 256;
    var n2 := n1 / 256;
    [n2 / 256 % 256, n2 % 256, n1 % 256, n % 256]
  }

  function FromBe(bs: seq<byte>): (n: nat)
    requires |bs| == 4
    ensures n < TWO_32
  {
    (((bs[0] as int * 256) + bs[1]) * 256 + bs[2]) * 256 + bs[3]
  }

  lemma BeRoundTrip(n: nat)
    requires n < TWO_32
    ensures FromBe(BeBytes(n)) == n
  {
    var n1 := n / 256;
    var n2 := n1 / 256;
    assert n2 / 256 % 256 == n2 / 256;
  }

  /** The raw block codec. Decompression may fail, and it writes at most the
      space it is given. */
  datatype RawCodec = RawCodec(compress: seq<byte> -> seq<byte>, decompress: seq<byte> -> Option<seq<byte>>) {
    ghost predicate RoundTrips(data: seq<byte>) {
      decompress(compress(data)) == Some(data)
    }
  }

  /** `try_decompress_hadoop` on values: the bytes written to `cap` bytes of output. */
  function TryDecode(codec: RawCodec, input: seq<byte>, cap: nat): (out: Option<seq<byte>>)
    ensures out.Some? ==> |out.value| <= cap
    decreases |input|
  {
    if |input| < PREFIX_LEN then (if input == [] then Some([]) else None)
    else
      var payload := FirstPayload(codec, input, cap);
      if payload.None? then None
      else
        var size := FromBe(input[4..8]);
        var tail := input[PREFIX_LEN + size..];
        if |tail| > size then
          var more := TryDecode(codec, tail, cap - |payload.value|);
          if more.Some? then Some(payload.value + more.value) else None
        else if tail == [] then Some(payload.value)
        else None
  }

  /** The payload of the first frame, if its sizes check out. */
  function FirstPayload(codec: RawCodec, input: seq<byte>, cap: nat): (payload: Option<seq<byte>>)
    requires |input| >= PREFIX_LEN
    ensures payload.Some? ==>
              && FromBe(input[4..8]) <= |input| - PREFIX_LEN
              && |payload.value| == FromBe(input[..4]) <= cap
              && codec.decompress(input[PREFIX_LEN..PREFIX_LEN + FromBe(input[4..8])]) == payload
  {
    var want, size := FromBe(input[..4]), FromBe(input[4..8]);
    if |input| - PREFIX_LEN < size || cap < want then None
    else
      var payload := codec.decompress(input[PREFIX_LEN..PREFIX_LEN + size]);
      if payload.Some? && |payload.value| == want then payload else None
  }

  /** A frame whose data decompresses to exactly the advertised size. */
  ghost predicate IsFrame(codec: RawCodec, frame: seq<byte>, payload: seq<byte>) {
    && |frame| >= PREFIX_LEN
    && FromBe(frame[..4]) == |payload|
    && FromBe(frame[4..8]) == |frame| - PREFIX_LEN
    && codec.decompress(frame[PREFIX_LEN..]) == Some(payload)
  }

  ghost predicate AreFrames(codec: RawCodec, frames: seq<seq<byte>>, payloads: seq<seq<byte>>) {
    |frames| == |payloads| && forall i :: 0 <= i < |frames| ==> IsFrame(codec, frames[i], payloads[i])
  }

  lemma ConcatOne(x: seq<byte>)
    ensures Concat([x]) == x
  {
    assert [x][..0] == [];
    assert [] + x == x;
  }

  lemma ConcatTwo(x: seq<byte>, y: seq<byte>)
    ensures Concat([y]) == y && Concat([x, y]) == x + y
  {
    ConcatOne(x);
    ConcatOne(y);
    assert [x, y][..1] == [x];
  }

  /** Before each further frame, more input is left than the compressed size of
      the frame just read. */
  ghost predicate Guarded(frames: seq<seq<byte>>) {
    |frames| <= 1 || (|Concat(frames[1..])| > |frames[0]| - PREFIX_LEN && Guarded(frames[1..]))
  }

  lemma FirstFrame(codec: RawCodec, frame: seq<byte>, payload: seq<byte>, tail: seq<byte>, cap: nat)
    requires IsFrame(codec, frame, payload) && |payload| <= cap
    ensures var input := frame + tail;
            && FirstPayload(codec, input, cap) == Some(payload)
            && FromBe(input[4..8]) == |frame| - PREFIX_LEN
            && input[PREFIX_LEN + FromBe(input[4..8])..] == tail
  {
    var input := frame + tail;
    assert input[..4] == frame[..4] && input[4..8] == frame[4..8];
    assert input[PREFIX_LEN..|frame|] == frame[PREFIX_LEN..];
  }

  lemma FirstTooLarge(codec: RawCodec, frame: seq<byte>, payload: seq<byte>, tail: seq<byte>, cap: nat)
    requires IsFrame(codec, frame, payload) && |payload| > cap
    ensures TryDecode(codec, frame + tail, cap) == None
  {
    assert (frame + tail)[..4] == frame[..4];
  }

  /** A sequence of frames is accepted exactly when the guard holds between them and
      there is room for the payloads, and then it decodes to the payloads in order. */
  lemma {:induction false} AcceptsIffGuarded(codec: RawCodec, frames: seq<seq<byte>>, payloads: seq<seq<byte>>, cap: nat)
    requires AreFrames(codec, frames, payloads)
    ensures TryDecode(codec, Concat(frames), cap) == if Guarded(frames) && |Concat(payloads)| <= cap then Some(Concat(payloads)) else None
  {
    if frames != [] {
      var tail := Concat(frames[1..]);
      ConcatHead(frames);
      ConcatHead(payloads);
      if |payloads[0]| > cap {
        FirstTooLarge(codec, frames[0], payloads[0], tail, cap);
        return;
      }
      FirstFrame(codec, frames[0], payloads[0], tail, cap);
      AcceptsIffGuarded(codec, frames[1..], payloads[1..], cap - |payloads[0]|);
      if |frames| == 1 {
        assert tail == [] && payloads[0] + Concat(payloads[1..]) == payloads[0];
      } else {
        FramesNonEmpty(codec, frames[1..], payloads[1..]);
      }
    }
  }

  lemma FramesNonEmpty(codec: RawCodec, frames: seq<seq<byte>>, payloads: seq<seq<byte>>)
    requires AreFrames(codec, frames, payloads) && frames != []
    ensures Concat(frames) != []
  {
    ConcatHead(frames);
    assert |frames[0]| >= PREFIX_LEN;
  }

  /** The frames make up the input, and the payloads what it decodes to. */
  ghost predicate Splits(codec: RawCodec, input: seq<byte>, cap: nat, frames: seq<seq<byte>>, payloads: seq<seq<byte>>) {
    && AreFrames(codec, frames, payloads) && Guarded(frames)
    && Concat(frames) == input && TryDecode(codec, input, cap) == Some(Concat(payloads))
  }

  lemma NoFrame(codec: RawCodec, cap: nat)
    ensures Splits(codec, [], cap, [], [])
  {
  }

  lemma OnlyFrame(codec: RawCodec, input: seq<byte>, cap: nat)
    requires |input| >= PREFIX_LEN && TryDecode(codec, input, cap).Some? && FirstPayload(codec, input, cap).Some?
    requires PREFIX_LEN + FromBe(input[4..8]) == |input|
    ensures Splits(codec, input, cap, [input], [FirstPayload(codec, input, cap).value])
  {
    FirstOf(codec, input, cap);
    FirstIsFrame(codec, input, cap);
    assert input[..|input|] == input;
    ConcatOne(input);
    ConcatOne(FirstPayload(codec, input, cap).value);
  }

  lemma NextFrame(codec: RawCodec, input: seq<byte>, cap: nat, fs: seq<seq<byte>>, ps: seq<seq<byte>>)
    requires |input| >= PREFIX_LEN && TryDecode(codec, input, cap).Some? && FirstPayload(codec, input, cap).Some?
    requires var n, size := PREFIX_LEN + FromBe(input[4..8]), FromBe(input[4..8]);
             |input[n..]| > size && Splits(codec, input[n..], cap - |FirstPayload(codec, input, cap).value|, fs, ps)
    ensures var n := PREFIX_LEN + FromBe(input[4..8]);
            Splits(codec, input, cap, [input[..n]] + fs, [FirstPayload(codec, input, cap).value] + ps)
  {
    FirstOf(codec, input, cap);
    FirstIsFrame(codec, input, cap);
    var n := PREFIX_LEN + FromBe(input[4..8]);
    ConsFrame(codec, input[..n], FirstPayload(codec, input, cap).value, fs, ps);
  }

  /** Whatever is accepted is a concatenation of frames, and the output is the
      concatenation of their payloads. */
  lemma {:induction false} AcceptedIsFrames(codec: RawCodec, input: seq<byte>, cap: nat)
    returns (frames: seq<seq<byte>>, payloads: seq<seq<byte>>)
    requires TryDecode(codec, input, cap).Some?
    ensures Splits(codec, input, cap, frames, payloads)
    decreases |input|
  {
    if input == [] {
      NoFrame(codec, cap);
      frames, payloads := [], [];
    } else {
      FirstOf(codec, input, cap);
      var payload := FirstPayload(codec, input, cap).value;
      var n := PREFIX_LEN + FromBe(input[4..8]);
      if |input[n..]| > FromBe(input[4..8]) {
        var fs, ps := AcceptedIsFrames(codec, input[n..], cap - |payload|);
        NextFrame(codec, input, cap, fs, ps);
        frames, payloads := [input[..n]] + fs, [payload] + ps;
      } else {
        OnlyFrame(codec, input, cap);
        frames, payloads := [input], [payload];
      }
    }
  }

  /** Accepted input begins with a frame; what follows it is accepted or empty. */
  lemma FirstOf(codec: RawCodec, input: seq<byte>, cap: nat)
    requires input != [] && TryDecode(codec, input, cap).Some?
    ensures |input| >= PREFIX_LEN && FirstPayload(codec, input, cap).Some?
    ensures var payload, size := FirstPayload(codec, input, cap).value, FromBe(input[4..8]);
            var rest := input[PREFIX_LEN + size..];
            if |rest| > size then
              var tail := TryDecode(codec, rest, cap - |payload|);
              tail.Some? && TryDecode(codec, input, cap).value == payload + tail.value
            else rest == [] && TryDecode(codec, input, cap).value == payload
  {
  }

  lemma FirstIsFrame(codec: RawCodec, input: seq<byte>, cap: nat)
    requires |input| >= PREFIX_LEN && FirstPayload(codec, input, cap).Some?
    ensures var n := PREFIX_LEN + FromBe(input[4..8]);
            && n <= |input| && input[..n] + input[n..] == input
            && IsFrame(codec, input[..n], FirstPayload(codec, input, cap).value)
  {
    var n := PREFIX_LEN + FromBe(input[4..8]);
    var frame := input[..n];
    assert frame[..4] == input[..4] && frame[4..8] == input[4..8] && frame[8..] == input[8..n];
  }

  lemma ConsFrame(codec: RawCodec, frame: seq<byte>, payload: seq<byte>, fs: seq<seq<byte>>, ps: seq<seq<byte>>)
    requires IsFrame(codec, frame, payload) && AreFrames(codec, fs, ps)
    ensures AreFrames(codec, [frame] + fs, [payload] + ps)
    ensures Concat([frame] + fs) == frame + Concat(fs) && Concat([payload] + ps) == payload + Concat(ps)
    ensures |Concat(fs)| > |frame| - PREFIX_LEN && Guarded(fs) ==> Guarded([frame] + fs)
  {
    HeadTail(frame, fs);
    HeadTail(payload, ps);
    ConcatHead([frame] + fs);
    ConcatHead([payload] + ps);
  }

  /** Two equal frames side by side pass the guard; a large frame followed by a
      small one does not, although both are well-formed. */
  lemma SmallTailRejected(codec: RawCodec, a: seq<byte>, b: seq<byte>, pa: seq<byte>, pb: seq<byte>, cap: nat)
    requires IsFrame(codec, a, pa) && IsFrame(codec, b, pb)
    ensures TryDecode(codec, a + b, cap) == if |b| > |a| - PREFIX_LEN && |pa| + |pb| <= cap then Some(pa + pb) else None
  {
    ConcatTwo(a, b);
    ConcatTwo(pa, pb);
    assert [a, b][1..] == [b];
    AcceptsIffGuarded(codec, [a, b], [pa, pb], cap);
  }

  /** With a raw codec that changes nothing: a frame of nine bytes, and one of
      none behind it, which is shorter than the nine. */
  lemma EmptyFrameRejected()
    ensures var codec := RawCodec(x => x, x => Some(x));
            var a: seq<byte>, b: seq<byte> := [0, 0, 0, 9, 0, 0, 0, 9, 1, 2, 3, 4, 5, 6, 7, 8, 9], [0, 0, 0, 0, 0, 0, 0, 0];
            && IsFrame(codec, a, [1, 2, 3, 4, 5, 6, 7, 8, 9]) && IsFrame(codec, b, [])
            && TryDecode(codec, a + b, 9) == None
  {
    var codec := RawCodec(x => x, x => Some(x));
    var a: seq<byte>, b: seq<byte> := [0, 0, 0, 9, 0, 0, 0, 9, 1, 2, 3, 4, 5, 6, 7, 8, 9], [0, 0, 0, 0, 0, 0, 0, 0];
    assert a[8..] == [1, 2, 3, 4, 5, 6, 7, 8, 9] && b[8..] == [];
    SmallTailRejected(codec, a, b, a[8..], [], 9);
  }

  // ---- The codec ----

  /** The frame `compress` appends for `data`. */
  function Frame(codec: RawCodec, data: seq<byte>): (frame: seq<byte>) {
    BeBytes(|data|) + BeBytes(|codec.compress(data)|) + codec.compress(data)
  }

  lemma FrameIsFrame(codec: RawCodec, data: seq<byte>)
    requires codec.RoundTrips(data) && |data| < TWO_32 && |codec.compress(data)| < TWO_32
    ensures IsFrame(codec, Frame(codec, data), data)
  {
    var z := codec.compress(data);
    var frame := Frame(codec, data);
    BeRoundTrip(|data|);
    BeRoundTrip(|z|);
    assert frame[..4] == BeBytes(|data|) && frame[4..8] == BeBytes(|z|) && frame[8..] == z;
  }

  /** `LZ4HadoopCodec::decompress`: on any failure of the framing a codec that is
      backward compatible tries the LZ4 frame format and then the raw format; a
      wrong total size is final. */
  function Decompress(codec: RawCodec, lz4Frame: seq<byte> -> Option<seq<byte>>, backward: bool, input: seq<byte>, outLen: nat)
    : (r: Option<seq<byte>>)
  {
    match TryDecode(codec, input, outLen)
    case Some(out) => if |out| != outLen then None else Some(out)
    case None =>
      if !backward then None
      else if lz4Frame(input).Some? then lz4Frame(input)
      else codec.decompress(input)
  }

  /** Frames that are accepted are final, with either setting: their payloads, or an
      error if these are fewer bytes than expected. */
  lemma FramesAreFinal(codec: RawCodec, lz4Frame: seq<byte> -> Option<seq<byte>>, backward: bool,
                       frames: seq<seq<byte>>, payloads: seq<seq<byte>>, outLen: nat)
    requires AreFrames(codec, frames, payloads) && Guarded(frames) && |Concat(payloads)| <= outLen
    ensures Decompress(codec, lz4Frame, backward, Concat(frames), outLen)
         == if |Concat(payloads)| == outLen then Some(Concat(payloads)) else None
  {
    AcceptsIffGuarded(codec, frames, payloads, outLen);
  }

  /** No split of the input into frames passes the guard and fits. */
  ghost predicate NotFrames(codec: RawCodec, input: seq<byte>, cap: nat) {
    forall frames: seq<seq<byte>>, payloads: seq<seq<byte>> :: AreFrames(codec, frames, payloads) && Concat(frames) == input ==>
      !Guarded(frames) || |Concat(payloads)| > cap
  }

  /** Anything else is an error, or what the LZ4 frame format makes of it and, if that
      fails, the raw format; which of the two is the setting. */
  lemma OtherFormats(codec: RawCodec, lz4Frame: seq<byte> -> Option<seq<byte>>, input: seq<byte>, outLen: nat)
    requires NotFrames(codec, input, outLen)
    ensures Decompress(codec, lz4Frame, false, input, outLen) == None
    ensures lz4Frame(input).Some? ==> Decompress(codec, lz4Frame, true, input, outLen) == lz4Frame(input)
    ensures lz4Frame(input).None? ==> Decompress(codec, lz4Frame, true, input, outLen) == codec.decompress(input)
  {
    if TryDecode(codec, input, outLen).Some? {
      var frames, payloads := AcceptedIsFrames(codec, input, outLen);
      assert false;
    }
  }

  /** Compress then decompress is the identity, with or without the fallback. */
  lemma CodecRoundTrip(codec: RawCodec, lz4Frame: seq<byte> -> Option<seq<byte>>, backward: bool, data: seq<byte>)
    requires codec.RoundTrips(data) && |data| < TWO_32 && |codec.compress(data)| < TWO_32
    ensures Decompress(codec, lz4Frame, backward, Frame(codec, data), |data|) == Some(data)
  {
    FrameIsFrame(codec, data);
    ConcatOne(Frame(codec, data));
    ConcatOne(data);
    AcceptsIffGuarded(codec, [Frame(codec, data)], [data], |data|);
  }

  /** `compress`: room for the prefix, the raw bytes behind it, then the sizes
      patched in; what was in the output before stays in front. */
  method Compress(codec: RawCodec, input: seq<byte>, output: seq<byte>) returns (output': seq<byte>)
    requires |input| < TWO_32 && |codec.compress(input)| < TWO_32
    ensures output' == output + Frame(codec, input)
  {
    var offset := |output|;
    output' := output + seq(PREFIX_LEN, _ => 0);
    output' := output' + codec.compress(input);
    ghost var z := codec.compress(input);
    var compressedSize := |output'| - offset - PREFIX_LEN;
    output' := output'[..offset] + BeBytes(|input|) + output'[offset + 4..];
    assert output'[..offset + 4] == output + BeBytes(|input|) && output'[offset + PREFIX_LEN..] == z;
    output' := output'[..offset + 4] + BeBytes(compressedSize) + output'[offset + PREFIX_LEN..];
    assert output' == output + (BeBytes(|input|) + BeBytes(|z|) + z);
  }

  /** `try_decompress_hadoop` as a loop over the input that writes frame after
      frame into the output buffer. */
  method TryDecompressHadoop(codec: RawCodec, input: seq<byte>, output: array<byte>) returns (r: Option<nat>)
    modifies output
    ensures match TryDecode(codec, input, output.Length)
            case Some(out) => r == Some(|out|) && output[..] == out + old(output[..])[|out|..]
            case None => r == None
  {
    var rest, readBytes := input, 0;
    ghost var whole := TryDecode(codec, input, output.Length);
    ghost var was, done := output[..], [];
    assert whole.Some? ==> done + whole.value == whole.value;
    assert output[..] == done + was[0..];
    while |rest| >= PREFIX_LEN
      invariant readBytes == |done| <= output.Length == |was|
      invariant output[..] == done + was[readBytes..]
      invariant Continues(whole, done, TryDecode(codec, rest, output.Length - readBytes))
      decreases |rest|
    {
      var payload := FirstPayload(codec, rest, output.Length - readBytes);
      if payload.None? {
        return None;
      }
      var size := FromBe(rest[4..8]);
      var tail := rest[PREFIX_LEN + size..];
      CopyAt(output, readBytes, payload.value, done, was);
      ContinuesNext(codec, whole, done, rest, payload.value, output.Length - readBytes);
      readBytes, done := readBytes + |payload.value|, done + payload.value;
      if |tail| <= size {
        return if tail == [] then Some(readBytes) else None;
      }
      rest := tail;
    }
    ContinuesEnd(codec, whole, done, rest, output.Length - readBytes);
    r := if rest == [] then Some(readBytes) else None;
  }

  /** The loop invariant carries over to the next frame, or decides the result. */
  lemma ContinuesNext(codec: RawCodec, whole: Option<seq<byte>>, done: seq<byte>, rest: seq<byte>, payload: seq<byte>, cap: nat)
    requires |rest| >= PREFIX_LEN && FirstPayload(codec, rest, cap) == Some(payload)
    requires Continues(whole, done, TryDecode(codec, rest, cap))
    ensures var size := FromBe(rest[4..8]);
            var tail := rest[PREFIX_LEN + size..];
            if |tail| > size then Continues(whole, done + payload, TryDecode(codec, tail, cap - |payload|))
            else whole == if tail == [] then Some(done + payload) else None
  {
    var tail := rest[PREFIX_LEN + FromBe(rest[4..8])..];
    var more := TryDecode(codec, tail, cap - |payload|);
    if more.Some? {
      Assoc(done, payload, more.value);
    }
  }

  lemma ContinuesEnd(codec: RawCodec, whole: Option<seq<byte>>, done: seq<byte>, rest: seq<byte>, cap: nat)
    requires |rest| < PREFIX_LEN && Continues(whole, done, TryDecode(codec, rest, cap))
    ensures whole == if rest == [] then Some(done) else None
  {
    assert done + [] == done;
  }

  /** `done` was written; decoding the rest gives what is left of `whole`. */
  ghost predicate Continues(whole: Option<seq<byte>>, done: seq<byte>, rest: Option<seq<byte>>) {
    whole == if rest.Some? then Some(done + rest.value) else None
  }

  /** Writes `bytes` behind the part of the output that is done. */
  method CopyAt(output: array<byte>, at: nat, bytes: seq<byte>, ghost done: seq<byte>, ghost was: seq<byte>)
    requires at == |done| && at + |bytes| <= output.Length == |was| && output[..] == done + was[at..]
    modifies output
    ensures output[..] == done + bytes + was[at + |bytes|..]
  {
    forall i | 0 <= i < |bytes| {
      output[at + i] := bytes[i];
    }
  }
}

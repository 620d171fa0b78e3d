/**
  The PLAIN encoding of Parquet: values written one after another and read back
  in batches, with any number of values skipped in between. A value is its bytes;
  only INT96 is split into words.
*/
module Plain {
  import opened Basics

  // ---- Little-endian words ----

  function ToWord(n: nat): (bs: seq<byte>)
    requires n < TWO_32
  {
    var n1 := n / 256;
    var n2 := n1 / 256;
    [n % 256, n1 % 256, n2 % 256, n2 / 256 % 256]
  }

  function FromDigits(b0: byte, b1: byte, b2: byte, b3: byte): (n: nat)
    ensures n < TWO_32
  {
    b0 as int + 256 * (b1 as int + 256 * (b2 as int + 256 * b3 as int))
  }

  function WordAt(data: seq<byte>, i: nat): (n: nat)
    requires i + 4 <= |data|
  {
    FromDigits(data[i], data[i + 1], data[i + 2], data[i + 3])
  }

  lemma ToFromDigits(n: nat)
    requires n < TWO_32
    ensures var bs := ToWord(n); FromDigits(bs[0], bs[1], bs[2], bs[3]) == n
  {
    var n1 := n / 256;
    var n2 := n1 / 256;
    assert n2 / 256 % 256 == n2 / 256;
  }

  lemma Shifted(low: byte, high: nat)
    ensures (low as int + 256 * high) / 256 == high && (low as int + 256 * high) % 256 == low
  {
  }

  lemma FromToDigits(b0: byte, b1: byte, b2: byte, b3: byte)
    ensures ToWord(FromDigits(b0, b1, b2, b3)) == [b0, b1, b2, b3]
  {
    var n2 := b2 as int + 256 * b3 as int;
    var n1 := b1 as int + 256 * n2;
    Shifted(b0, n1);
    Shifted(b1, n2);
    Shifted(b2, b3);
  }

  lemma WordRoundTrip(n: nat, data: seq<byte>, i: nat)
    requires n < TWO_32 && i + 4 <= |data|
    ensures data[i..i + 4] == ToWord(n) <==> WordAt(data, i) == n
  {
    ToFromDigits(n);
    FromToDigits(data[i], data[i + 1], data[i + 2], data[i + 3]);
    var w := data[i..i + 4];
    assert w == [data[i], data[i + 1], data[i + 2], data[i + 3]];
    assert w[0] == data[i] && w[1] == data[i + 1] && w[2] == data[i + 2] && w[3] == data[i + 3];
  }

  // ---- Layouts ----

  /** Byte arrays carry their length; other values have one size. A bulk layout
      is read all at once or not at all. */
  datatype Layout = Prefixed | Fixed(size: nat, bulk: bool)

  predicate Fits(l: Layout, v: seq<byte>) {
    if l.Prefixed? then |v| < TWO_32 else |v| == l.size
  }

  predicate AllFit(l: Layout, vs: seq<seq<byte>>) {
    forall i :: 0 <= i < |vs| ==> Fits(l, vs[i])
  }

  function Encode(l: Layout, v: seq<byte>): (bs: seq<byte>)
    requires Fits(l, v)
  {
    if l.Prefixed? then ToWord(|v|) + v else v
  }

  function EncodeAll(l: Layout, vs: seq<seq<byte>>): (bs: seq<byte>)
    requires AllFit(l, vs)
  {
    if vs == [] then [] else Encode(l, vs[0]) + EncodeAll(l, vs[1..])
  }

  /** Where the value at `start` lies, or what is cut off. */
  datatype Cut = Item(from: nat, to: nat) | ShortPayload(at: nat) | ShortPrefix

  function CutAt(l: Layout, data: seq<byte>, start: nat): (c: Cut)
    ensures c.Item? ==> start <= c.from <= c.to <= |data|
  {
    if l.Prefixed? then
      if |data| < start + 4 then ShortPrefix
      else
        var len := WordAt(data, start);
        if |data| < start + 4 + len then ShortPayload(start + 4) else Item(start + 4, start + 4 + len)
    else if |data| < start + l.size then ShortPayload(start) else Item(start, start + l.size)
  }

  /** The first `n` values from `start` on, up to the first that is cut off. */
  datatype Walk = End(items: seq<seq<byte>>, next: nat) | Short(done: seq<seq<byte>>, cut: Cut)

  function WalkFrom(l: Layout, data: seq<byte>, start: nat, n: nat): (w: Walk)
    ensures w.End? ==> |w.items| == n && start <= w.next && (start <= |data| ==> w.next <= |data|)
    ensures w.Short? ==> |w.done| < n && !w.cut.Item?
  {
    if n == 0 then End([], start)
    else
      var w := WalkFrom(l, data, start, n - 1);
      if w.Short? then w
      else
        var cut := CutAt(l, data, w.next);
        if cut.Item? then End(w.items + [data[cut.from..cut.to]], cut.to) else Short(w.items, cut)
  }

  /** The values before the end or the cut. */
  function Got(w: Walk): (vs: seq<seq<byte>>) {
    if w.End? then w.items else w.done
  }

  lemma {:induction false} ShortStays(l: Layout, data: seq<byte>, start: nat, m: nat, n: nat)
    requires m <= n && WalkFrom(l, data, start, m).Short?
    ensures WalkFrom(l, data, start, n) == WalkFrom(l, data, start, m)
  {
    if m < n {
      ShortStays(l, data, start, m, n - 1);
    }
  }

  /** One more value, or the walk ends there for good. */
  lemma WalkNext(l: Layout, data: seq<byte>, start: nat, i: nat, n: nat)
    requires i < n && WalkFrom(l, data, start, i).End?
    ensures var w := WalkFrom(l, data, start, i);
            var cut := CutAt(l, data, w.next);
            if cut.Item? then WalkFrom(l, data, start, i + 1) == End(w.items + [data[cut.from..cut.to]], cut.to)
            else WalkFrom(l, data, start, n) == Short(w.items, cut)
  {
    if !CutAt(l, data, WalkFrom(l, data, start, i).next).Item? {
      ShortStays(l, data, start, i + 1, n);
    }
  }

  /** `n` times `size`. */
  function Span(size: nat, n: nat): (r: nat) {
    if n == 0 then 0 else Span(size, n - 1) + size
  }

  lemma {:induction false} SpanIsProduct(size: nat, n: nat)
    ensures Span(size, n) == size * n
  {
    if n > 0 {
      SpanIsProduct(size, n - 1);
    }
  }

  /** Values of one size all fit, or the bytes do not suffice. */
  lemma {:induction false} FixedWalk(l: Layout, data: seq<byte>, start: nat, n: nat)
    requires l.Fixed? && start <= |data|
    ensures var w := WalkFrom(l, data, start, n);
            if start + Span(l.size, n) <= |data| then w.End? && w.next == start + Span(l.size, n)
            else w.Short? && w.cut.ShortPayload?
  {
    if n > 0 {
      FixedWalk(l, data, start, n - 1);
    }
  }

  lemma SliceOfSlice(data: seq<byte>, start: nat, end: nat, from: nat, to: nat)
    requires start <= end <= |data| && from <= to <= end - start
    ensures data[start..end][from..to] == data[start + from..start + to]
  {
    var a, b := data[start..end][from..to], data[start + from..start + to];
    assert |a| == |b| && forall k :: 0 <= k < |a| ==> a[k] == b[k];
  }

  /** Walking over a copy of the bytes gives the same values. */
  lemma {:induction false} WalkInSlice(l: Layout, data: seq<byte>, start: nat, end: nat, n: nat)
    requires l.Fixed? && start <= end <= |data| && start + Span(l.size, n) <= end
    ensures var w := WalkFrom(l, data[start..end], 0, n);
            w.End? && w.next == Span(l.size, n) && WalkFrom(l, data, start, n) == End(w.items, start + w.next)
  {
    if n > 0 {
      WalkInSlice(l, data, start, end, n - 1);
      SliceOfSlice(data, start, end, Span(l.size, n - 1), Span(l.size, n));
      WalkNext(l, data, start, n - 1, n);
      WalkNext(l, data[start..end], 0, n - 1, n);
    }
  }

  /** Values of one size lie at multiples of it. */
  lemma {:induction false} FixedItem(l: Layout, data: seq<byte>, start: nat, n: nat, i: nat)
    requires l.Fixed? && start + Span(l.size, n) <= |data| && i < n
    ensures var w := WalkFrom(l, data, start, n);
            var at := start + Span(l.size, i);
            w.End? && at + l.size <= |data| && w.items[i] == data[at..at + l.size]
  {
    FixedWalk(l, data, start, n);
    FixedWalk(l, data, start, n - 1);
    if i < n - 1 {
      FixedItem(l, data, start, n - 1, i);
    }
  }

  /** Filling a buffer from the front. */
  method Put<T>(buffer: array<T>, i: nat, v: T, ghost items: seq<T>, ghost was: seq<T>)
    requires i == |items| < |was| && buffer[..] == items + was[i..]
    modifies buffer
    ensures buffer[..] == items + [v] + was[i + 1..]
  {
    assert |buffer[..]| == |was|;
    buffer[i] := v;
    assert buffer[..] == (items + was[i..])[i := v];
  }

  // ---- What decode and skip do ----

  datatype State = State(start: nat, left: nat)

  datatype Reply = Done(items: seq<seq<byte>>, state: State) | Refused(state: State) | Panicked
  {
    function Forget(): (r: Reply) {
      if Done? then Done([], state) else this
    }
  }

  function Decode(l: Layout, data: seq<byte>, s: State, k: nat): (r: Reply) {
    var n := Min(k, s.left);
    var w := WalkFrom(l, data, s.start, n);
    if w.End? then Done(w.items, State(w.next, s.left - n))
    else if w.cut.ShortPrefix? then Panicked
    else Refused(State(if l.Fixed? && l.bulk then s.start else w.cut.at, s.left))
  }

  /** Over length prefixes alone, without a look at where the bytes end. */
  function PrefixesFrom(data: seq<byte>, start: nat, n: nat): (next: Option<nat>) {
    if n == 0 then Some(start)
    else
      var p := PrefixesFrom(data, start, n - 1);
      if p.None? || |data| < p.value + 4 then None else Some(p.value + 4 + WordAt(data, p.value))
  }

  lemma {:induction false} PanicStays(data: seq<byte>, start: nat, m: nat, n: nat)
    requires m <= n && PrefixesFrom(data, start, m).None?
    ensures PrefixesFrom(data, start, n).None?
  {
    if m < n {
      PanicStays(data, start, m, n - 1);
    }
  }

  function Skip(l: Layout, data: seq<byte>, s: State, k: nat): (r: Reply) {
    if l.Fixed? then Decode(l, data, s, k).Forget()
    else
      var n := Min(k, s.left);
      var p := PrefixesFrom(data, s.start, n);
      if p.None? then Panicked else Done([], State(p.value, s.left - n))
  }

  lemma {:induction false} PrefixesFollowWalk(data: seq<byte>, start: nat, n: nat)
    ensures var w := WalkFrom(Prefixed, data, start, n);
            && (w.End? ==> PrefixesFrom(data, start, n) == Some(w.next))
            && (w.Short? && w.cut.ShortPrefix? ==> PrefixesFrom(data, start, n).None?)
  {
    if n > 0 {
      PrefixesFollowWalk(data, start, n - 1);
    }
  }

  /** Skipping values is decoding them and throwing them away, unless the layout
      is the prefixed one and a payload is cut off: decode reports it, skip does not. */
  lemma SkipLikeDecodeIff(l: Layout, data: seq<byte>, s: State, k: nat)
    ensures var w := WalkFrom(l, data, s.start, Min(k, s.left));
            Skip(l, data, s, k) == Decode(l, data, s, k).Forget() <==> !(l.Prefixed? && w.Short? && w.cut.ShortPayload?)
  {
    if l.Prefixed? {
      PrefixesFollowWalk(data, s.start, Min(k, s.left));
    }
  }

  /** One value of five bytes of which one is there: skip succeeds, and leaves
      the decoder behind the end of the bytes, where nothing can be read any more. */
  lemma SkipPastTheEnd()
    ensures var data: seq<byte>, s := [5, 0, 0, 0, 1], State(0, 1);
            Decode(Prefixed, data, s, 1) == Refused(State(4, 1)) && Skip(Prefixed, data, s, 1) == Done([], State(9, 0))
  {
    var data: seq<byte> := [5, 0, 0, 0, 1];
    assert WalkFrom(Prefixed, data, 0, 0) == End([], 0) && WordAt(data, 0) == 5;
    assert CutAt(Prefixed, data, 0) == ShortPayload(4);
    assert PrefixesFrom(data, 0, 0) == Some(0);
  }

  // ---- Reading what was written ----

  lemma CutEncoded(l: Layout, v: seq<byte>, data: seq<byte>, start: nat)
    requires Fits(l, v) && start <= |data| && Encode(l, v) <= data[start..]
    ensures var c := CutAt(l, data, start); c.Item? && data[c.from..c.to] == v && c.to == start + |Encode(l, v)|
  {
    var e := Encode(l, v);
    assert e == data[start..start + |e|];
    if l.Prefixed? {
      assert data[start..start + 4] == e[..4] == ToWord(|v|);
      WordRoundTrip(|v|, data, start);
      assert data[start + 4..start + |e|] == e[4..] == v;
    }
  }

  lemma EncodedRest(l: Layout, v: seq<byte>, rest: seq<byte>, data: seq<byte>, start: nat)
    requires Fits(l, v) && start <= |data| && Encode(l, v) + rest <= data[start..]
    ensures Encode(l, v) <= data[start..]
    ensures start + |Encode(l, v)| <= |data| && rest <= data[start + |Encode(l, v)|..]
  {
    var e := Encode(l, v);
    assert data[start + |e|..] == data[start..][|e|..];
    assert (e + rest)[|e|..] == rest && (e + rest)[..|e|] == e;
    assert rest == data[start + |e|..][..|rest|];
  }

  lemma EncodedNext(l: Layout, vs: seq<seq<byte>>, data: seq<byte>, start: nat)
    requires AllFit(l, vs) && vs != [] && start <= |data| && EncodeAll(l, vs) <= data[start..]
    ensures var c := CutAt(l, data, start);
            c.Item? && data[c.from..c.to] == vs[0] && EncodeAll(l, vs[1..]) <= data[c.to..]
  {
    EncodedRest(l, vs[0], EncodeAll(l, vs[1..]), data, start);
    CutEncoded(l, vs[0], data, start);
  }

  lemma AtIndex(vs: seq<seq<byte>>, i: nat)
    requires i < |vs|
    ensures vs[i..][0] == vs[i] && vs[i..][1..] == vs[i + 1..] && vs[..i] + [vs[i]] == vs[..i + 1]
  {
  }

  /** One more of the encoded values that follow. */
  lemma WalkOneMore(l: Layout, rest: seq<seq<byte>>, data: seq<byte>, start: nat, n: nat)
    requires n > 0 && WalkFrom(l, data, start, n - 1).End? && AllFit(l, rest) && rest != []
    requires var at := WalkFrom(l, data, start, n - 1).next; at <= |data| && EncodeAll(l, rest) <= data[at..]
    ensures var w := WalkFrom(l, data, start, n);
            && w.End? && w.items == WalkFrom(l, data, start, n - 1).items + [rest[0]]
            && w.next <= |data| && EncodeAll(l, rest[1..]) <= data[w.next..]
  {
    EncodedNext(l, rest, data, WalkFrom(l, data, start, n - 1).next);
    WalkNext(l, data, start, n - 1, n);
  }

  lemma {:induction false} WalkParts(l: Layout, done: seq<seq<byte>>, rest: seq<seq<byte>>, data: seq<byte>, start: nat)
    requires AllFit(l, done + rest) && AllFit(l, rest) && start <= |data| && EncodeAll(l, done + rest) <= data[start..]
    ensures var w := WalkFrom(l, data, start, |done|);
            w.End? && w.items == done && w.next <= |data| && EncodeAll(l, rest) <= data[w.next..]
  {
    if done == [] {
      assert done + rest == rest;
    } else {
      var init, v := done[..|done| - 1], done[|done| - 1];
      assert init + ([v] + rest) == done + rest && init + [v] == done;
      assert AllFit(l, [v] + rest) by {
        assert v == (done + rest)[|done| - 1];
      }
      WalkParts(l, init, [v] + rest, data, start);
      HeadTail(v, rest);
      WalkOneMore(l, [v] + rest, data, start, |done|);
    }
  }

  lemma WalkEncoded(l: Layout, vs: seq<seq<byte>>, data: seq<byte>, start: nat, n: nat)
    requires AllFit(l, vs) && start <= |data| && EncodeAll(l, vs) <= data[start..] && n <= |vs|
    ensures var w := WalkFrom(l, data, start, n);
            w.End? && w.items == vs[..n] && w.next <= |data| && EncodeAll(l, vs[n..]) <= data[w.next..]
  {
    assert vs[..n] + vs[n..] == vs;
    WalkParts(l, vs[..n], vs[n..], data, start);
  }

  /** More bytes behind them change nothing about the values that are there. */
  lemma {:induction false} WalkMore(l: Layout, data: seq<byte>, more: seq<byte>, start: nat, n: nat)
    requires WalkFrom(l, data, start, n).End? && start <= |data|
    ensures WalkFrom(l, data + more, start, n) == WalkFrom(l, data, start, n)
  {
    if n > 0 {
      WalkMore(l, data, more, start, n - 1);
      CutMore(l, data, more, WalkFrom(l, data, start, n - 1).next);
    }
  }

  lemma CutMore(l: Layout, data: seq<byte>, more: seq<byte>, at: nat)
    requires CutAt(l, data, at).Item?
    ensures var cut := CutAt(l, data, at); CutAt(l, data + more, at) == cut && (data + more)[cut.from..cut.to] == data[cut.from..cut.to]
  {
  }

  /** Values that are cut off, wherever they are, are not decoded to the last one. */
  lemma CutOffFails(l: Layout, vs: seq<seq<byte>>, m: nat)
    requires AllFit(l, vs) && m < |EncodeAll(l, vs)|
    ensures !Decode(l, EncodeAll(l, vs)[..m], State(0, |vs|), |vs|).Done?
  {
    var data := EncodeAll(l, vs);
    assert data[..m] + data[m..] == data && data[0..] == data && vs[|vs|..] == [];
    WalkLength(l, vs, data, 0, |vs|);
    var w := WalkFrom(l, data[..m], 0, |vs|);
    if w.End? {
      WalkMore(l, data[..m], data[m..], 0, |vs|);
      assert false;
    }
  }

  lemma NextLength(l: Layout, vs: seq<seq<byte>>, data: seq<byte>, start: nat)
    requires AllFit(l, vs) && vs != [] && start <= |data| && EncodeAll(l, vs) <= data[start..]
    ensures var c := CutAt(l, data, start); c.Item? && c.to == start + |EncodeAll(l, vs)| - |EncodeAll(l, vs[1..])|
  {
    EncodedRest(l, vs[0], EncodeAll(l, vs[1..]), data, start);
    CutEncoded(l, vs[0], data, start);
  }

  /** Walking over encoded values ends behind the last of them. */
  lemma {:induction false} WalkLength(l: Layout, vs: seq<seq<byte>>, data: seq<byte>, start: nat, n: nat)
    requires AllFit(l, vs) && start <= |data| && EncodeAll(l, vs) <= data[start..] && n <= |vs|
    ensures var w := WalkFrom(l, data, start, n); w.End? && w.next == start + |EncodeAll(l, vs)| - |EncodeAll(l, vs[n..])|
  {
    if n == 0 {
      assert vs[0..] == vs;
    } else {
      WalkLength(l, vs, data, start, n - 1);
      WalkEncoded(l, vs, data, start, n - 1);
      AtIndex(vs, n - 1);
      NextLength(l, vs[n - 1..], data, WalkFrom(l, data, start, n - 1).next);
    }
  }

  /** One call on a decoder. */
  datatype Op = DecodeOp(k: nat) | SkipOp(k: nat)

  type Decoder = (State, Op) -> Reply

  function Calls(l: Layout, data: seq<byte>): (d: Decoder) {
    (s: State, op: Op) => if op.DecodeOp? then Decode(l, data, s, op.k) else Skip(l, data, s, op.k)
  }

  /** The batches that a run of calls decodes; none if one of them fails. */
  function Run(decoder: Decoder, s: State, ops: seq<Op>): (r: Option<seq<seq<seq<byte>>>>)
    decreases |ops|
  {
    if ops == [] then Some([])
    else
      var r := decoder(s, ops[0]);
      if !r.Done? then None
      else
        var rest := Run(decoder, r.state, ops[1..]);
        if rest.None? then None else Some([r.items] + rest.value)
  }

  /** The same calls on the list of values itself. */
  function Slice(vs: seq<seq<byte>>, op: Op): (batch: seq<seq<byte>>) {
    if op.DecodeOp? then vs[..Min(op.k, |vs|)] else []
  }

  function Slices(vs: seq<seq<byte>>, ops: seq<Op>): (r: seq<seq<seq<byte>>>) {
    if ops == [] then [] else [Slice(vs, ops[0])] + Slices(vs[Min(ops[0].k, |vs|)..], ops[1..])
  }

  type Holding = (seq<seq<byte>>, State) -> bool

  /** Every call takes the next slice and leaves the rest. */
  ghost predicate TakesNext(decoder: Decoder, holds: Holding) {
    forall vs, s, op {:trigger holds(vs, s), decoder(s, op)} :: holds(vs, s) ==>
      var r := decoder(s, op);
      r.Done? && r.items == Slice(vs, op) && holds(vs[Min(op.k, |vs|)..], r.state)
  }

  lemma {:induction false} RunsTakeSlices(decoder: Decoder, holds: Holding, vs: seq<seq<byte>>, s: State, ops: seq<Op>)
    requires TakesNext(decoder, holds) && holds(vs, s)
    ensures Run(decoder, s, ops) == Some(Slices(vs, ops))
    decreases |ops|
  {
    if ops != [] {
      RunsTakeSlices(decoder, holds, vs[Min(ops[0].k, |vs|)..], decoder(s, ops[0]).state, ops[1..]);
    }
  }

  /** The bytes from the decoder's position on begin with the encoded values. */
  predicate Holds(l: Layout, data: seq<byte>, vs: seq<seq<byte>>, s: State) {
    && AllFit(l, vs) && s.left == |vs|
    && s.start <= |data| && EncodeAll(l, vs) <= data[s.start..]
  }

  /** One call over encoded values. */
  lemma CallTakesSlice(l: Layout, data: seq<byte>, vs: seq<seq<byte>>, s: State, op: Op)
    requires Holds(l, data, vs, s)
    ensures var r := Calls(l, data)(s, op);
            r.Done? && r.items == Slice(vs, op) && Holds(l, data, vs[Min(op.k, |vs|)..], r.state)
  {
    var n := Min(op.k, |vs|);
    WalkEncoded(l, vs, data, s.start, n);
    SkipLikeDecodeIff(l, data, s, op.k);
  }

  /** Any run of decodes and skips over encoded values takes the matching slices of them. */
  lemma DecodesWhatWasEncoded(l: Layout, vs: seq<seq<byte>>, tail: seq<byte>, ops: seq<Op>)
    requires AllFit(l, vs)
    ensures Run(Calls(l, EncodeAll(l, vs) + tail), State(0, |vs|), ops) == Some(Slices(vs, ops))
  {
    var data := EncodeAll(l, vs) + tail;
    var holds := (vs: seq<seq<byte>>, s: State) => Holds(l, data, vs, s);
    var decoder := Calls(l, data);
    forall vs, s, op | holds(vs, s)
      ensures var r := decoder(s, op); r.Done? && r.items == Slice(vs, op) && holds(vs[Min(op.k, |vs|)..], r.state)
    {
      CallTakesSlice(l, data, vs, s, op);
    }
    assert holds(vs, State(0, |vs|));
    RunsTakeSlices(decoder, holds, vs, State(0, |vs|), ops);
  }

  // ---- INT96 ----

  const INT96: Layout := Fixed(12, true)

  datatype Int96 = Int96(w0: nat, w1: nat, w2: nat)

  /** The words of twelve bytes. */
  function Int96Of(v: seq<byte>): (x: Int96) {
    if |v| == 12 then Int96(WordAt(v, 0), WordAt(v, 4), WordAt(v, 8)) else Int96(0, 0, 0)
  }

  function Int96Bytes(x: Int96): (v: seq<byte>)
    requires x.w0 < TWO_32 && x.w1 < TWO_32 && x.w2 < TWO_32
  {
    ToWord(x.w0) + ToWord(x.w1) + ToWord(x.w2)
  }

  lemma ThreeParts(a: seq<byte>, b: seq<byte>, c: seq<byte>)
    requires |a| == |b| == |c| == 4
    ensures var s := a + b + c; s[0..4] == a && s[4..8] == b && s[8..12] == c
  {
  }

  lemma Int96RoundTrip(x: Int96, v: seq<byte>)
    requires x.w0 < TWO_32 && x.w1 < TWO_32 && x.w2 < TWO_32 && |v| == 12
    ensures v == Int96Bytes(x) <==> Int96Of(v) == x
  {
    WordRoundTrip(x.w0, v, 0);
    WordRoundTrip(x.w1, v, 4);
    WordRoundTrip(x.w2, v, 8);
    assert v == v[0..4] + v[4..8] + v[8..12];
    ThreeParts(ToWord(x.w0), ToWord(x.w1), ToWord(x.w2));
  }

  /** The words follow one another, each with its low byte first. */
  lemma Int96Words(b: seq<byte>)
    requires |b| == 12
    ensures Int96Of(b) == Int96(b[0] as int + 0x100 * b[1] as int + 0x1_0000 * b[2] as int + 0x100_0000 * b[3] as int,
                                b[4] as int + 0x100 * b[5] as int + 0x1_0000 * b[6] as int + 0x100_0000 * b[7] as int,
                                b[8] as int + 0x100 * b[9] as int + 0x1_0000 * b[10] as int + 0x100_0000 * b[11] as int)
  {
  }

  function Int96s(vs: seq<seq<byte>>): (xs: seq<Int96>) {
    if vs == [] then [] else Int96s(vs[..|vs| - 1]) + [Int96Of(vs[|vs| - 1])]
  }

  lemma Int96sSnoc(vs: seq<seq<byte>>, v: seq<byte>)
    ensures Int96s(vs + [v]) == Int96s(vs) + [Int96Of(v)]
  {
    assert (vs + [v])[..|vs|] == vs;
  }

  lemma NextInt96(range: seq<byte>, i: nat, n: nat, items: seq<seq<byte>>, pos: nat)
    requires i < n && WalkFrom(INT96, range, 0, n).End? && WalkFrom(INT96, range, 0, i) == End(items, pos)
    ensures pos + 12 <= |range|
    ensures var v := range[pos..pos + 12];
            && WalkFrom(INT96, range, 0, i + 1) == End(items + [v], pos + 12)
            && Int96s(items + [v]) == Int96s(items) + [Int96Of(v)]
  {
    WalkNext(INT96, range, 0, i, n);
    Int96sSnoc(items, range[pos..pos + 12]);
  }

  /** Three words in a row. */
  method ReadInt96(range: seq<byte>, pos: nat) returns (x: Int96)
    requires pos + 12 <= |range|
    ensures x == Int96Of(range[pos..pos + 12])
  {
    x := Int96(WordAt(range, pos), WordAt(range, pos + 4), WordAt(range, pos + 8));
  }

  // ---- The decoder ----

  datatype Outcome = Read(n: nat) | Error | Panic

  /** A reply with the values left out. */
  function OutcomeOf(r: Reply, n: nat): (o: Outcome) {
    match r
    case Done(_, _) => Read(n)
    case Refused(_) => Error
    case Panicked => Panic
  }

  class PlainDecoder {
    var data: seq<byte>
    var start: nat
    var numValues: nat
    const typeLength: nat

    constructor (typeLength: nat)
      ensures this.typeLength == typeLength
    {
      this.typeLength := typeLength;
      data, start, numValues := [], 0, 0;
    }

    ghost function Now(): (s: State)
      reads this
    {
      State(start, numValues)
    }

    method SetData(data: seq<byte>, numValues: nat)
      modifies this
      ensures this.data == data && Now() == State(0, numValues)
    {
      this.data, start, this.numValues := data, 0, numValues;
    }

    /** The decoder is where the reply leaves it, unless it panicked. */
    twostate predicate Follows(r: Reply, o: Outcome, k: nat)
      reads this
    {
      && data == old(data) && o == OutcomeOf(r, Min(k, old(numValues)))
      && (!r.Panicked? ==> Now() == r.state)
    }

    /** The bytes of `n` values of one size, if there are enough. */
    method BulkBytes(size: nat, n: nat) returns (range: Option<seq<byte>>)
      requires start <= |data|
      modifies this`start
      ensures var w := WalkFrom(Fixed(size, true), data, old(start), n);
              if w.End? then
                range.Some? && start == w.next && |range.value| == Span(size, n)
                && WalkFrom(Fixed(size, true), range.value, 0, n) == End(w.items, Span(size, n))
              else range.None? && start == old(start) && w.cut.ShortPayload?
    {
      SpanIsProduct(size, n);
      FixedWalk(Fixed(size, true), data, start, n);
      var bytes := size * n;
      if |data| - start < bytes {
        return None;
      }
      WalkInSlice(Fixed(size, true), data, start, start + bytes, n);
      range := Some(data[start..start + bytes]);
      start := start + bytes;
    }

    /** INT32, INT64, FLOAT and DOUBLE: the bytes are copied in one go. */
    method DecodeRaw(buffer: array<seq<byte>>, size: nat) returns (o: Outcome)
      requires start <= |data|
      modifies this, buffer
      ensures var r := Decode(Fixed(size, true), old(data), old(Now()), buffer.Length);
              && Follows(r, o, buffer.Length)
              && buffer[..] == if r.Done? then r.items + old(buffer[..])[|r.items|..] else old(buffer[..])
    {
      var n := Min(buffer.Length, numValues);
      var range := BulkBytes(size, n);
      if range.None? {
        return Error;
      }
      CopyBytes(buffer, size, range.value, n);
      numValues := numValues - n;
      o := Read(n);
    }

    /** The buffer seen as bytes: value `i` begins at `i` times the size. */
    method CopyBytes(buffer: array<seq<byte>>, size: nat, range: seq<byte>, n: nat)
      requires n <= buffer.Length && Span(size, n) == |range|
      modifies buffer
      ensures var w := WalkFrom(Fixed(size, true), range, 0, n); w.End? && buffer[..] == w.items + old(buffer[..])[n..]
    {
      FixedWalk(Fixed(size, true), range, 0, n);
      ghost var items := WalkFrom(Fixed(size, true), range, 0, n).items;
      forall i | 0 <= i < n
        ensures Span(size, i) + size <= |range| && items[i] == range[Span(size, i)..Span(size, i) + size]
      {
        FixedItem(Fixed(size, true), range, 0, n, i);
      }
      forall i | 0 <= i < n {
        buffer[i] := range[Span(size, i)..Span(size, i) + size];
      }
      assert buffer[..] == items + old(buffer[..])[n..];
    }

    method SkipRaw(size: nat, k: nat) returns (o: Outcome)
      requires start <= |data|
      modifies this
      ensures Follows(Skip(Fixed(size, true), old(data), old(Now()), k), o, k)
    {
      var n := Min(k, numValues);
      var range := BulkBytes(size, n);
      if range.None? {
        return Error;
      }
      numValues := numValues - n;
      o := Read(n);
    }

    method DecodeInt96(buffer: array<Int96>) returns (o: Outcome)
      requires start <= |data|
      modifies this, buffer
      ensures var r := Decode(INT96, old(data), old(Now()), buffer.Length);
              && Follows(r, o, buffer.Length)
              && (r.Done? ==> buffer[..] == Int96s(r.items) + old(buffer[..])[|r.items|..])
              && (!r.Done? ==> buffer[..] == old(buffer[..]))
    {
      var n := Min(buffer.Length, numValues);
      var range := BulkBytes(12, n);
      if range.None? {
        return Error;
      }
      ReadWords(buffer, range.value, n);
      numValues := numValues - n;
      o := Read(n);
    }

    /** The words of the values in `range`. */
    method ReadWords(buffer: array<Int96>, range: seq<byte>, n: nat)
      requires n <= buffer.Length && WalkFrom(INT96, range, 0, n).End?
      modifies buffer
      ensures var items := WalkFrom(INT96, range, 0, n).items;
              buffer[..] == Int96s(items) + old(buffer[..])[n..]
    {
      ghost var was, items, xs := buffer[..], [], [];
      var pos := 0;
      for i := 0 to n
        invariant WalkFrom(INT96, range, 0, i) == End(items, pos)
        invariant xs == Int96s(items) && |xs| == i && buffer[..] == xs + was[i..]
      {
        NextInt96(range, i, n, items, pos);
        var x := ReadInt96(range, pos);
        Put(buffer, i, x, xs, was);
        items, xs := items + [range[pos..pos + 12]], xs + [x];
        pos := pos + 12;
      }
    }

    method DecodeByteArrays(buffer: array<seq<byte>>) returns (o: Outcome)
      modifies this, buffer
      ensures var r := Decode(Prefixed, old(data), old(Now()), buffer.Length);
              && Follows(r, o, buffer.Length)
              && var got := Got(WalkFrom(Prefixed, old(data), old(start), Min(buffer.Length, old(numValues))));
                 buffer[..] == got + old(buffer[..])[|got|..]
    {
      var n := Min(buffer.Length, numValues);
      var cut := FillByteArrays(buffer, n);
      if cut.Some? {
        return if cut.value.ShortPrefix? then Panic else Error;
      }
      numValues := numValues - n;
      o := Read(n);
    }

    /** Where the values of a walk end, or what it was cut off by. */
    ghost predicate Walked(w: Walk, cut: Option<Cut>)
      reads this`start
    {
      match w
      case End(_, next) => cut == None && start == next
      case Short(_, c) => cut == Some(c) && (c.ShortPayload? ==> start == c.at)
    }

    /** Fills the buffer up to the first value that is cut off. */
    method FillByteArrays(buffer: array<seq<byte>>, n: nat) returns (cut: Option<Cut>)
      requires n <= buffer.Length
      modifies this`start, buffer
      ensures var w := WalkFrom(Prefixed, data, old(start), n);
              Walked(w, cut) && buffer[..] == Got(w) + old(buffer[..])[|Got(w)|..]
    {
      ghost var was, items, from := buffer[..], [], start;
      for i := 0 to n
        invariant |items| == i && WalkFrom(Prefixed, data, from, i) == End(items, start)
        invariant buffer[..] == items + was[i..]
      {
        WalkNext(Prefixed, data, from, i, n);
        var next := ReadByteArray();
        if !next.Item? {
          return Some(next);
        }
        var v := data[next.from..next.to];
        Put(buffer, i, v, items, was);
        items := items + [v];
      }
      cut := None;
    }

    /** Reads one length and moves over the bytes it announces. */
    method ReadByteArray() returns (cut: Cut)
      modifies this`start
      ensures cut == CutAt(Prefixed, data, old(start))
      ensures start == match cut { case Item(_, to) => to case ShortPayload(at) => at case ShortPrefix => old(start) }
    {
      if |data| < start + 4 {
        return ShortPrefix;
      }
      var len := WordAt(data, start);
      start := start + 4;
      if |data| < start + len {
        return ShortPayload(start);
      }
      start := start + len;
      cut := Item(start - len, start);
    }

    method SkipByteArrays(k: nat) returns (o: Outcome)
      modifies this
      ensures Follows(Skip(Prefixed, old(data), old(Now()), k), o, k)
    {
      var n := Min(k, numValues);
      for i := 0 to n
        invariant data == old(data) && numValues == old(numValues)
        invariant PrefixesFrom(data, old(start), i) == Some(start)
      {
        if |data| < start + 4 {
          PanicStays(data, old(start), i + 1, n);
          return Panic;
        }
        start := start + 4 + WordAt(data, start);
      }
      numValues := numValues - n;
      o := Read(n);
    }

    method DecodeFixedLen(buffer: array<seq<byte>>) returns (o: Outcome)
      requires typeLength > 0
      modifies this, buffer
      ensures var r := Decode(Fixed(typeLength, false), old(data), old(Now()), buffer.Length);
              && Follows(r, o, buffer.Length)
              && var got := Got(WalkFrom(Fixed(typeLength, false), old(data), old(start), Min(buffer.Length, old(numValues))));
                 buffer[..] == got + old(buffer[..])[|got|..]
    {
      var n := Min(buffer.Length, numValues);
      var cut := FillFixed(buffer, n);
      if cut.Some? {
        return Error;
      }
      numValues := numValues - n;
      o := Read(n);
    }

    /** Fills the buffer up to the first value that is cut off. */
    method FillFixed(buffer: array<seq<byte>>, n: nat) returns (cut: Option<Cut>)
      requires n <= buffer.Length
      modifies this`start, buffer
      ensures var w := WalkFrom(Fixed(typeLength, false), data, old(start), n);
              && Walked(w, cut) && buffer[..] == Got(w) + old(buffer[..])[|Got(w)|..]
              && (cut.Some? ==> cut.value.ShortPayload?)
    {
      ghost var was, items, from := buffer[..], [], start;
      for i := 0 to n
        invariant |items| == i && WalkFrom(Fixed(typeLength, false), data, from, i) == End(items, start)
        invariant buffer[..] == items + was[i..]
      {
        WalkNext(Fixed(typeLength, false), data, from, i, n);
        var next := ReadFixed();
        if !next.Item? {
          return Some(next);
        }
        var v := data[next.from..next.to];
        Put(buffer, i, v, items, was);
        items := items + [v];
      }
      cut := None;
    }

    /** Moves over one value if it is there. */
    method ReadFixed() returns (cut: Cut)
      modifies this`start
      ensures cut == CutAt(Fixed(typeLength, false), data, old(start))
      ensures start == if cut.Item? then cut.to else old(start)
    {
      if |data| < start + typeLength {
        return ShortPayload(start);
      }
      start := start + typeLength;
      cut := Item(start - typeLength, start);
    }

    method SkipFixedLen(k: nat) returns (o: Outcome)
      requires typeLength > 0
      modifies this
      ensures Follows(Skip(Fixed(typeLength, false), old(data), old(Now()), k), o, k)
    {
      var n := Min(k, numValues);
      for i := 0 to n
        invariant data == old(data) && numValues == old(numValues)
        invariant var w := WalkFrom(Fixed(typeLength, false), data, old(start), i); w.End? && w.next == start
      {
        if |data| < start + typeLength {
          ShortStays(Fixed(typeLength, false), data, old(start), i + 1, n);
          return Error;
        }
        start := start + typeLength;
      }
      numValues := numValues - n;
      o := Read(n);
    }
  }

  // ---- The encoder ----

  /** Writing the values one by one gives their encoding. */
  method EncodeValues(l: Layout, values: seq<seq<byte>>) returns (writer: seq<byte>)
    requires AllFit(l, values)
    ensures writer == EncodeAll(l, values)
  {
    writer := [];
    assert values[0..] == values;
    for i := 0 to |values|
      invariant writer + EncodeAll(l, values[i..]) == EncodeAll(l, values)
    {
      assert values[i..][1..] == values[i + 1..];
      var e := Encode(l, values[i]);
      Assoc(writer, e, EncodeAll(l, values[i + 1..]));
      writer := writer + e;
    }
    assert writer + [] == writer;
  }
}

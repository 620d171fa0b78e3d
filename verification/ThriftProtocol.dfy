/**
  The Thrift compact protocol: what `TCompactSliceInputProtocol` reads, and the
  encoding of its specification for any tree of values.
*/
module ThriftProtocol {
  import opened Basics
  import opened ThriftVarint

  datatype TType =
    | Stop | BoolType | I08 | I16 | I32 | I64 | DoubleType | StringType | ListType | SetType | MapType | StructType

  function U8ToType(b: byte): (t: Option<TType>) {
    match b
    case 0 => Some(Stop)
    case 3 => Some(I08)
    case 4 => Some(I16)
    case 5 => Some(I32)
    case 6 => Some(I64)
    case 7 => Some(DoubleType)
    case 8 => Some(StringType)
    case 9 => Some(ListType)
    case 10 => Some(SetType)
    case 11 => Some(MapType)
    case 12 => Some(StructType)
    case _ => None
  }

  function CollectionU8ToType(b: byte): (t: Option<TType>) {
    if b == 1 then Some(BoolType) else U8ToType(b)
  }

  /** The reader: unread bytes, the last field id of the current struct, those of
      the enclosing structs, and a boolean read with its field header. */
  datatype Prot = Prot(buf: seq<byte>, last: int, stack: seq<int>, pending: Option<bool>)

  datatype Res<+T> = Good(value: T, prot: Prot) | Bad

  function ReadByte(p: Prot): (r: Res<byte>)
    ensures r.Good? ==> |r.prot.buf| < |p.buf|
  {
    if p.buf == [] then Bad else Good(p.buf[0], p.(buf := p.buf[1..]))
  }

  function ReadNumber(p: Prot, width: Width): (r: Res<int>)
    ensures r.Good? ==> |r.prot.buf| < |p.buf|
  {
    match ReadInt(p.buf, width)
    case Ok(n, rest) => Good(n, p.(buf := rest))
    case Err => Bad
  }

  function ReadBool(p: Prot): (r: Res<bool>)
    ensures r.Good? ==> |r.prot.buf| <= |p.buf| && r.prot.pending == None
  {
    match p.pending
    case Some(b) => Good(b, p.(pending := None))
    case None =>
      if p.buf == [] then Bad
      else if p.buf[0] == 1 then Good(true, p.(buf := p.buf[1..]))
      else if p.buf[0] == 2 then Good(false, p.(buf := p.buf[1..]))
      else Bad
  }

  /** The next `n` bytes as they are. */
  function ReadRaw(p: Prot, n: nat): (r: Res<seq<byte>>)
    ensures r.Good? ==> |r.prot.buf| <= |p.buf|
  {
    if n <= |p.buf| then Good(p.buf[..n], p.(buf := p.buf[n..])) else Bad
  }

  function ReadBytes(p: Prot): (r: Res<seq<byte>>)
    ensures r.Good? ==> |r.prot.buf| < |p.buf|
  {
    match ReadVlq(p.buf)
    case Ok(len, rest) => ReadRaw(p.(buf := rest), len)
    case Err => Bad
  }

  /** Element type and count of a list; a count cast to a negative number is an error. */
  function ReadListBegin(p: Prot): (r: Res<(TType, nat)>)
    ensures r.Good? ==> |r.prot.buf| < |p.buf|
  {
    if p.buf == [] then Bad
    else
      var header, q := p.buf[0], p.(buf := p.buf[1..]);
      match CollectionU8ToType(header % 16)
      case None => Bad
      case Some(t) =>
        if header / 16 != 15 then Good((t, header / 16), q)
        else
          match ReadVlq(q.buf)
          case Ok(n, rest) =>
            var count := W32.Narrow(n);
            if count < 0 then Bad else Good((t, count), q.(buf := rest))
          case Err => Bad
  }

  function StructBegin(p: Prot): (q: Prot) {
    p.(stack := p.stack + [p.last], last := 0)
  }

  function StructEnd(p: Prot): (r: Res<()>)
    ensures r.Good? ==> r.prot.buf == p.buf
  {
    if p.stack == [] then Bad
    else Good((), p.(stack := p.stack[..|p.stack| - 1], last := p.stack[|p.stack| - 1]))
  }

  /** The type in a field header, and the boolean that comes with it. */
  function HeaderType(low: byte): (t: Option<TType>) {
    if low == 1 || low == 2 then Some(BoolType) else U8ToType(low)
  }

  function HeaderBool(low: byte, pending: Option<bool>): (b: Option<bool>) {
    if low == 1 then Some(true) else if low == 2 then Some(false) else pending
  }

  /** The id of a field: the delta in its header or, without one, a number after it. */
  function ReadFieldId(p: Prot, delta: nat): (r: Res<int>)
    ensures r.Good? ==> |r.prot.buf| <= |p.buf|
  {
    if delta != 0 then
      if W16.Fits(p.last + delta) then Good(p.last + delta, p.(last := p.last + delta)) else Bad
    else
      var r := ReadNumber(p, W16);
      if r.Good? then Good(r.value, r.prot.(last := r.value)) else Bad
  }

  /** Type and id of the next field, or the stop mark; the value of a boolean
      field comes with its header. */
  function ReadFieldBegin(p: Prot): (r: Res<(TType, int)>)
    ensures r.Good? ==> |r.prot.buf| < |p.buf|
  {
    if p.buf == [] || HeaderType(p.buf[0] % 16).None? then Bad
    else
      var t := HeaderType(p.buf[0] % 16).value;
      var q := p.(buf := p.buf[1..], pending := HeaderBool(p.buf[0] % 16, p.pending));
      if t == Stop then Good((Stop, 0), q)
      else
        var r := ReadFieldId(q, p.buf[0] / 16);
        if r.Good? then Good((t, r.value), r.prot) else Bad
  }

  // ---- Skipping a value of a given type ----

  function Skip(t: TType, p: Prot): (r: Res<()>)
    ensures r.Good? ==> |r.prot.buf| <= |p.buf|
    decreases |p.buf|, 1
  {
    match t
    case BoolType => var r := ReadBool(p); if r.Good? then Good((), r.prot) else Bad
    case I08 => var r := ReadByte(p); if r.Good? then Good((), r.prot) else Bad
    case I16 | I32 | I64 => var r := ReadNumber(p, W64); if r.Good? then Good((), r.prot) else Bad
    case DoubleType => var r := ReadRaw(p, 8); if r.Good? then Good((), r.prot) else Bad
    case StringType => var r := ReadBytes(p); if r.Good? then Good((), r.prot) else Bad
    case ListType =>
      var r := ReadListBegin(p);
      if r.Good? then SkipItems(r.value.0, r.value.1, r.prot) else Bad
    case StructType =>
      var r := SkipFields(StructBegin(p));
      if r.Good? then StructEnd(r.prot) else Bad
    case _ => Bad
  }

  function SkipItems(t: TType, n: nat, p: Prot): (r: Res<()>)
    ensures r.Good? ==> |r.prot.buf| <= |p.buf|
    decreases |p.buf|, n + 2
  {
    if n == 0 then Good((), p)
    else
      var r := Skip(t, p);
      if r.Good? then SkipItems(t, n - 1, r.prot) else Bad
  }

  function SkipFields(p: Prot): (r: Res<()>)
    ensures r.Good? ==> |r.prot.buf| < |p.buf|
    decreases |p.buf|, 0
  {
    var r := ReadFieldBegin(p);
    if r.Bad? then Bad
    else if r.value.0 == Stop then Good((), r.prot)
    else
      var s := Skip(r.value.0, r.prot);
      if s.Good? then SkipFields(s.prot) else Bad
  }

  // ---- Trees of values and their encoding ----

  datatype Wire =
    | WBool(b: bool)
    | WByte(n: byte)
    | WInt(width: Width, i: int)
    | WDouble(raw: seq<byte>)
    | WBytes(bs: seq<byte>)
    | WList(elem: TType, items: seq<Wire>)
    | WStruct(fields: seq<WField>)

  datatype WField = WField(id: int, value: Wire)

  function TypeOf(w: Wire): (t: TType) {
    match w
    case WBool(_) => BoolType
    case WByte(_) => I08
    case WInt(W16, _) => I16
    case WInt(W32, _) => I32
    case WInt(W64, _) => I64
    case WDouble(_) => DoubleType
    case WBytes(_) => StringType
    case WList(_, _) => ListType
    case WStruct(_) => StructType
  }

  /** The type code in list headers, and in field headers except for booleans. */
  function TypeCode(t: TType): (b: byte)
    ensures b < 16 && CollectionU8ToType(b) == Some(t)
  {
    match t
    case Stop => 0 case BoolType => 1 case I08 => 3 case I16 => 4 case I32 => 5 case I64 => 6
    case DoubleType => 7 case StringType => 8 case ListType => 9 case SetType => 10 case MapType => 11
    case StructType => 12
  }

  /** The type code in field headers, which carries the value of a boolean. */
  function FieldCode(w: Wire): (b: byte)
    ensures 0 < b < 16
  {
    if w.WBool? then (if w.b then 1 else 2) else TypeCode(TypeOf(w))
  }

  predicate WellFormed(w: Wire)
    decreases w, 1
  {
    match w
    case WBool(_) => true
    case WByte(_) => true
    case WInt(width, i) => width.Fits(i)
    case WDouble(raw) => |raw| == 8
    case WBytes(bs) => |bs| < TWO_32
    case WList(elem, items) => |items| < TWO_31 && WellFormedItems(elem, items)
    case WStruct(fields) => WellFormedFields(fields)
  }

  predicate WellFormedItems(elem: TType, items: seq<Wire>)
    decreases items, 0
  {
    items == [] || (TypeOf(items[0]) == elem && WellFormed(items[0]) && WellFormedItems(elem, items[1..]))
  }

  predicate WellFormedFields(fields: seq<WField>)
    decreases fields, 0
  {
    fields == [] || (WellFormedField(fields[0]) && WellFormedFields(fields[1..]))
  }

  predicate WellFormedField(f: WField)
    decreases f, 1
  {
    W16.Fits(f.id) && WellFormed(f.value)
  }

  /** The delta to the previous id if it is small and positive, the id otherwise. */
  function FieldHeader(code: byte, id: int, last: int): (bs: seq<byte>)
    requires 0 < code < 16
    ensures |bs| > 0
  {
    if 0 < id - last < 15 then [(id - last) * 16 + code] else [code] + IntBytes(id)
  }

  function ListHeader(elem: TType, n: nat): (bs: seq<byte>) {
    if n < 15 then [n * 16 + TypeCode(elem)] else [240 + TypeCode(elem)] + VlqBytes(n)
  }

  function Encode(w: Wire): (bs: seq<byte>)
    decreases w, 1
  {
    match w
    case WBool(b) => [if b then 1 else 2]
    case WByte(n) => [n]
    case WInt(_, i) => IntBytes(i)
    case WDouble(raw) => raw
    case WBytes(bs) => VlqBytes(|bs|) + bs
    case WList(elem, items) => ListHeader(elem, |items|) + EncodeItems(items)
    case WStruct(fields) => EncodeFields(fields, 0)
  }

  function EncodeItems(items: seq<Wire>): (bs: seq<byte>)
    decreases items, 0
  {
    if items == [] then [] else Encode(items[0]) + EncodeItems(items[1..])
  }

  /** Every field with its header, then the stop mark. */
  function EncodeFields(fields: seq<WField>, last: int): (bs: seq<byte>)
    decreases fields, 0
  {
    if fields == [] then [0] else EncodeField(fields[0], last) + EncodeFields(fields[1..], fields[0].id)
  }

  /** The value of a boolean field is in its header. */
  function EncodeField(f: WField, last: int): (bs: seq<byte>)
    decreases f, 1
  {
    FieldHeader(FieldCode(f.value), f.id, last) + (if f.value.WBool? then [] else Encode(f.value))
  }

  function FieldBody(w: Wire): (bs: seq<byte>) {
    if w.WBool? then [] else Encode(w)
  }

  /** The boolean a field header leaves behind. */
  function FieldPending(w: Wire): (b: Option<bool>) {
    if w.WBool? then Some(w.b) else None
  }

  // ---- Reading back the parts ----

  lemma NumberRoundTrip(p: Prot, width: Width, n: int, suffix: seq<byte>)
    requires width.Fits(n)
    ensures ReadNumber(p.(buf := IntBytes(n) + suffix), width) == Good(n, p.(buf := suffix))
  {
    IntRoundTrip(n, width, suffix);
  }

  lemma RawRoundTrip(p: Prot, bs: seq<byte>, suffix: seq<byte>)
    ensures ReadRaw(p.(buf := bs + suffix), |bs|) == Good(bs, p.(buf := suffix))
  {
    assert (bs + suffix)[..|bs|] == bs && (bs + suffix)[|bs|..] == suffix;
  }

  lemma PrefixedRoundTrip(p: Prot, len: nat, rest: seq<byte>)
    requires len < TWO_32
    ensures ReadBytes(p.(buf := VlqBytes(len) + rest)) == ReadRaw(p.(buf := rest), len)
  {
    VlqRoundTrip(len, rest);
  }

  lemma BytesRoundTrip(p: Prot, bs: seq<byte>, suffix: seq<byte>)
    requires |bs| < TWO_32
    ensures ReadBytes(p.(buf := VlqBytes(|bs|) + bs + suffix)) == Good(bs, p.(buf := suffix))
  {
    Assoc(VlqBytes(|bs|), bs, suffix);
    PrefixedRoundTrip(p, |bs|, bs + suffix);
    RawRoundTrip(p, bs, suffix);
  }

  /** List sizes below 15 travel in the header, others after it. */
  lemma ListHeaderRoundTrip(p: Prot, elem: TType, n: nat, suffix: seq<byte>)
    requires n < TWO_31
    ensures ReadListBegin(p.(buf := ListHeader(elem, n) + suffix)) == Good((elem, n), p.(buf := suffix))
  {
    var code := TypeCode(elem);
    if n < 15 {
      HeadTail(n * 16 + code, suffix);
      assert (n * 16 + code) % 16 == code && (n * 16 + code) / 16 == n;
    } else {
      Assoc([240 + code], VlqBytes(n), suffix);
      HeadTail(240 + code, VlqBytes(n) + suffix);
      assert (240 + code) % 16 == code && (240 + code) / 16 == 15;
      VlqRoundTrip(n, suffix);
      NarrowFits(n, W32);
    }
  }

  lemma HeaderCode(w: Wire)
    ensures HeaderType(FieldCode(w)) == Some(TypeOf(w)) && TypeOf(w) != Stop
    ensures HeaderBool(FieldCode(w), None) == FieldPending(w)
  {
  }

  lemma FieldIdRoundTrip(p: Prot, code: byte, id: int, suffix: seq<byte>) returns (head: byte, tail: seq<byte>)
    requires W16.Fits(id) && 0 < code < 16
    ensures FieldHeader(code, id, p.last) + suffix == [head] + tail && head % 16 == code
    ensures ReadFieldId(p.(buf := tail), head / 16) == Good(id, p.(buf := suffix, last := id))
  {
    if 0 < id - p.last < 15 {
      head, tail := (id - p.last) * 16 + code, suffix;
      assert head / 16 == id - p.last;
    } else {
      head, tail := code, IntBytes(id) + suffix;
      NumberRoundTrip(p, W16, id, suffix);
    }
  }

  lemma FieldHeaderRoundTrip(p: Prot, w: Wire, id: int, suffix: seq<byte>)
    requires p.pending == None && W16.Fits(id)
    ensures ReadFieldBegin(p.(buf := FieldHeader(FieldCode(w), id, p.last) + suffix))
         == Good((TypeOf(w), id), p.(buf := suffix, last := id, pending := FieldPending(w)))
  {
    HeaderCode(w);
    var q := p.(pending := FieldPending(w));
    var head, tail := FieldIdRoundTrip(q, FieldCode(w), id, suffix);
    HeadTail(head, tail);
  }

  lemma StopRoundTrip(p: Prot, suffix: seq<byte>)
    ensures ReadFieldBegin(p.(buf := [0] + suffix)) == Good((Stop, 0), p.(buf := suffix))
  {
    HeadTail<byte>(0, suffix);
  }

  lemma StructEndUndoesBegin(p: Prot, q: Prot)
    requires q.stack == StructBegin(p).stack
    ensures StructEnd(q) == Good((), q.(stack := p.stack, last := p.last))
  {
  }

  // ---- Skipping undoes encoding ----

  lemma SkipsScalar(w: Wire, p: Prot, suffix: seq<byte>)
    requires WellFormed(w) && p.pending == None && !w.WList? && !w.WStruct?
    ensures Skip(TypeOf(w), p.(buf := Encode(w) + suffix)) == Good((), p.(buf := suffix))
  {
    match w
    case WBool(_) => assert (Encode(w) + suffix)[1..] == suffix;
    case WByte(_) => assert (Encode(w) + suffix)[1..] == suffix;
    case WInt(width, i) => NumberRoundTrip(p, W64, i, suffix);
    case WDouble(raw) => RawRoundTrip(p, raw, suffix);
    case WBytes(bs) => BytesRoundTrip(p, bs, suffix);
  }

  /** Skipping a value leaves exactly what follows it and the reader as it was. */
  lemma {:induction false} SkipsValue(w: Wire, p: Prot, suffix: seq<byte>)
    requires WellFormed(w) && p.pending == None
    ensures Skip(TypeOf(w), p.(buf := Encode(w) + suffix)) == Good((), p.(buf := suffix))
    decreases w, 1
  {
    match w
    case WList(elem, items) =>
      SkipsItems(elem, items, p, suffix);
      SkipsListValue(elem, items, p, suffix);
    case WStruct(fields) =>
      SkipsFields(fields, StructBegin(p), suffix);
      SkipsStructValue(fields, p, suffix);
    case _ => SkipsScalar(w, p, suffix);
  }

  lemma SkipsListValue(elem: TType, items: seq<Wire>, p: Prot, suffix: seq<byte>)
    requires WellFormed(WList(elem, items)) && p.pending == None
    requires SkipItems(elem, |items|, p.(buf := EncodeItems(items) + suffix)) == Good((), p.(buf := suffix))
    ensures Skip(ListType, p.(buf := Encode(WList(elem, items)) + suffix)) == Good((), p.(buf := suffix))
  {
    Assoc(ListHeader(elem, |items|), EncodeItems(items), suffix);
    ListHeaderRoundTrip(p, elem, |items|, EncodeItems(items) + suffix);
  }

  lemma SkipsStructValue(fields: seq<WField>, p: Prot, suffix: seq<byte>)
    requires p.pending == None
    requires var r := SkipFields(StructBegin(p).(buf := EncodeFields(fields, 0) + suffix));
             r.Good? && r.prot == StructBegin(p).(buf := suffix, last := r.prot.last)
    ensures Skip(StructType, p.(buf := Encode(WStruct(fields)) + suffix)) == Good((), p.(buf := suffix))
  {
    assert StructBegin(p.(buf := Encode(WStruct(fields)) + suffix)) == StructBegin(p).(buf := EncodeFields(fields, 0) + suffix);
    StructEndUndoesBegin(p, SkipFields(StructBegin(p).(buf := EncodeFields(fields, 0) + suffix)).prot);
  }

  lemma {:induction false} SkipsItems(elem: TType, items: seq<Wire>, p: Prot, suffix: seq<byte>)
    requires WellFormedItems(elem, items) && p.pending == None
    ensures SkipItems(elem, |items|, p.(buf := EncodeItems(items) + suffix)) == Good((), p.(buf := suffix))
    decreases items, 0
  {
    if items == [] {
      assert EncodeItems(items) + suffix == suffix;
    } else {
      var tail := EncodeItems(items[1..]) + suffix;
      Assoc(Encode(items[0]), EncodeItems(items[1..]), suffix);
      SkipsValue(items[0], p, tail);
      SkipsItems(elem, items[1..], p, suffix);
    }
  }

  /** A field: its header gives type and id, its value follows. */
  lemma FieldRoundTrip(f: WField, p: Prot, suffix: seq<byte>)
    requires WellFormedField(f) && p.pending == None
    ensures ReadFieldBegin(p.(buf := EncodeField(f, p.last) + suffix))
         == Good((TypeOf(f.value), f.id),
                 p.(buf := FieldBody(f.value) + suffix, last := f.id, pending := FieldPending(f.value)))
  {
    Assoc(FieldHeader(FieldCode(f.value), f.id, p.last), FieldBody(f.value), suffix);
    FieldHeaderRoundTrip(p, f.value, f.id, FieldBody(f.value) + suffix);
  }

  lemma FieldsCons(fields: seq<WField>, last: int, suffix: seq<byte>)
    requires fields != []
    ensures EncodeFields(fields, last) + suffix
         == EncodeField(fields[0], last) + (EncodeFields(fields[1..], fields[0].id) + suffix)
  {
  }

  /** Skips the value of a field whose header was just read. */
  lemma {:induction false} SkipsField(f: WField, p: Prot, suffix: seq<byte>)
    requires WellFormedField(f) && p.pending == None
    ensures Skip(TypeOf(f.value), p.(buf := FieldBody(f.value) + suffix, pending := FieldPending(f.value)))
         == Good((), p.(buf := suffix))
    decreases f, 1
  {
    if f.value.WBool? {
      assert FieldBody(f.value) + suffix == suffix;
    } else {
      SkipsValue(f.value, p, suffix);
    }
  }

  lemma {:induction false} SkipsFields(fields: seq<WField>, p: Prot, suffix: seq<byte>)
    requires WellFormedFields(fields) && p.pending == None
    ensures var r := SkipFields(p.(buf := EncodeFields(fields, p.last) + suffix));
            r.Good? && r.prot == p.(buf := suffix, last := r.prot.last)
    decreases fields, 0
  {
    if fields == [] {
      StopRoundTrip(p, suffix);
    } else {
      var f := fields[0];
      var tail := EncodeFields(fields[1..], f.id) + suffix;
      FieldsCons(fields, p.last, suffix);
      FieldRoundTrip(f, p, tail);
      SkipsField(f, p.(last := f.id), tail);
      SkipsFields(fields[1..], p.(last := f.id), suffix);
    }
  }
}

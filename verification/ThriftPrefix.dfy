/**
  The readers look at nothing behind what they read: more input changes no result.
  So a value that is cut off anywhere is an error.
*/
module ThriftPrefix {
  import opened Basics
  import opened ThriftVarint
  import opened ThriftProtocol
  import opened ThriftStructs
  import opened ThriftRoundTrip

  function More(p: Prot, more: seq<byte>): (q: Prot) {
    p.(buf := p.buf + more)
  }

  /** What was read without `more` is read with it, and leaves it. */
  ghost predicate Keeps<T(!new)>(r: Res<T>, r': Res<T>, more: seq<byte>) {
    r.Good? ==> r' == Good(r.value, More(r.prot, more))
  }

  lemma TailMore(buf: seq<byte>, more: seq<byte>)
    requires buf != []
    ensures (buf + more)[0] == buf[0] && (buf + more)[1..] == buf[1..] + more
  {
  }

  lemma {:induction false} VlqFromMore(acc: nat, k: nat, buf: seq<byte>, more: seq<byte>)
    requires ReadVlqFrom(acc, k, buf).Ok?
    ensures var r := ReadVlqFrom(acc, k, buf); ReadVlqFrom(acc, k, buf + more) == Ok(r.value, r.rest + more)
    decreases |buf|
  {
    TailMore(buf, more);
    var acc' := (acc + Shl7(buf[0] % 128, k)) % TWO_64;
    if buf[0] >= 128 {
      VlqFromMore(acc', k + 1, buf[1..], more);
    }
  }

  lemma NumberMore(p: Prot, width: Width, more: seq<byte>)
    ensures Keeps(ReadNumber(p, width), ReadNumber(More(p, more), width), more)
  {
    if ReadNumber(p, width).Good? {
      VlqFromMore(0, 0, p.buf, more);
    }
  }

  lemma ByteMore(p: Prot, more: seq<byte>)
    ensures Keeps(ReadByte(p), ReadByte(More(p, more)), more)
  {
    if p.buf != [] {
      TailMore(p.buf, more);
    }
  }

  lemma BoolMore(p: Prot, more: seq<byte>)
    ensures Keeps(ReadBool(p), ReadBool(More(p, more)), more)
  {
    if p.buf != [] {
      TailMore(p.buf, more);
    }
  }

  lemma RawMore(p: Prot, n: nat, more: seq<byte>)
    ensures Keeps(ReadRaw(p, n), ReadRaw(More(p, more), n), more)
  {
    if n <= |p.buf| {
      assert (p.buf + more)[..n] == p.buf[..n] && (p.buf + more)[n..] == p.buf[n..] + more;
    }
  }

  lemma BytesMore(p: Prot, more: seq<byte>)
    ensures Keeps(ReadBytes(p), ReadBytes(More(p, more)), more)
  {
    if ReadBytes(p).Good? {
      VlqFromMore(0, 0, p.buf, more);
      var r := ReadVlq(p.buf);
      RawMore(p.(buf := r.rest), r.value, more);
    }
  }

  lemma ListBeginMore(p: Prot, more: seq<byte>)
    ensures Keeps(ReadListBegin(p), ReadListBegin(More(p, more)), more)
  {
    if ReadListBegin(p).Good? {
      TailMore(p.buf, more);
      if p.buf[0] / 16 == 15 {
        VlqFromMore(0, 0, p.buf[1..], more);
      }
    }
  }

  lemma FieldIdMore(p: Prot, delta: nat, more: seq<byte>)
    ensures Keeps(ReadFieldId(p, delta), ReadFieldId(More(p, more), delta), more)
  {
    NumberMore(p, W16, more);
  }

  lemma FieldBeginMore(p: Prot, more: seq<byte>)
    ensures Keeps(ReadFieldBegin(p), ReadFieldBegin(More(p, more)), more)
  {
    if ReadFieldBegin(p).Good? {
      TailMore(p.buf, more);
      var q := p.(buf := p.buf[1..], pending := HeaderBool(p.buf[0] % 16, p.pending));
      FieldIdMore(q, p.buf[0] / 16, more);
    }
  }

  // ---- Skipping ----

  lemma {:induction false} SkipMore(t: TType, p: Prot, more: seq<byte>)
    ensures Keeps(Skip(t, p), Skip(t, More(p, more)), more)
    decreases |p.buf|, 1
  {
    match t
    case BoolType => BoolMore(p, more);
    case I08 => ByteMore(p, more);
    case I16 | I32 | I64 => NumberMore(p, W64, more);
    case DoubleType => RawMore(p, 8, more);
    case StringType => BytesMore(p, more);
    case ListType =>
      ListBeginMore(p, more);
      var r := ReadListBegin(p);
      if r.Good? {
        SkipItemsMore(r.value.0, r.value.1, r.prot, more);
      }
    case StructType =>
      assert StructBegin(More(p, more)) == More(StructBegin(p), more);
      SkipFieldsMore(StructBegin(p), more);
    case _ =>
  }

  lemma {:induction false} SkipItemsMore(t: TType, n: nat, p: Prot, more: seq<byte>)
    ensures Keeps(SkipItems(t, n, p), SkipItems(t, n, More(p, more)), more)
    decreases |p.buf|, n + 2
  {
    if n > 0 {
      SkipMore(t, p, more);
      var r := Skip(t, p);
      if r.Good? {
        SkipItemsMore(t, n - 1, r.prot, more);
      }
    }
  }

  lemma {:induction false} SkipFieldsMore(p: Prot, more: seq<byte>)
    ensures Keeps(SkipFields(p), SkipFields(More(p, more)), more)
    decreases |p.buf|, 0
  {
    FieldBeginMore(p, more);
    var r := ReadFieldBegin(p);
    if r.Good? && r.value.0 != Stop {
      SkipMore(r.value.0, r.prot, more);
      var s := Skip(r.value.0, r.prot);
      if s.Good? {
        SkipFieldsMore(s.prot, more);
      }
    }
  }

  // ---- The generated readers ----

  /** Whatever a reader accepts, it accepts with anything behind it, and leaves that. */
  lemma {:induction false} ReadMore(ty: Ty, p: Prot, more: seq<byte>)
    ensures Keeps(Read(ty, p), Read(ty, More(p, more)), more)
    decreases ty, 0
  {
    match ty
    case BoolTy => BoolMore(p, more);
    case ByteTy => ByteMore(p, more);
    case IntTy(width) => NumberMore(p, width, more);
    case DoubleTy => RawMore(p, 8, more);
    case BytesTy => BytesMore(p, more);
    case ListTy(elem) =>
      ListBeginMore(p, more);
      var r := ReadListBegin(p);
      if r.Good? {
        ReadItemsMore(elem, r.value.1, [], r.prot, more);
      }
    case StructTy(fs) =>
      assert StructBegin(More(p, more)) == More(StructBegin(p), more);
      ReadFieldsMore(fs, NoSlots(|fs|), StructBegin(p), more);
    case UnionTy(fs) =>
      assert StructBegin(More(p, more)) == More(StructBegin(p), more);
      ReadAlternativesMore(fs, None, 0, StructBegin(p), more);
  }

  lemma {:induction false} ReadItemsMore(elem: Ty, n: nat, done: seq<Value>, p: Prot, more: seq<byte>)
    ensures Keeps(ReadItems(elem, n, done, p), ReadItems(elem, n, done, More(p, more)), more)
    decreases elem, n + 1
  {
    if n > 0 {
      ReadMore(elem, p, more);
      var r := Read(elem, p);
      if r.Good? {
        ReadItemsMore(elem, n - 1, done + [r.value], r.prot, more);
      }
    }
  }

  lemma {:induction false} ReadFieldMore(f: Field, p: Prot, more: seq<byte>)
    ensures Keeps(ReadField(f, p), ReadField(f, More(p, more)), more)
    decreases f, 0
  {
    ReadMore(f.ty, p, more);
  }

  lemma {:induction false} ReadFieldsMore(fs: seq<Field>, slots: seq<Option<Value>>, p: Prot, more: seq<byte>)
    requires |slots| == |fs|
    ensures Keeps(ReadFields(fs, slots, p), ReadFields(fs, slots, More(p, more)), more)
    decreases fs, |p.buf|
  {
    FieldBeginMore(p, more);
    var h := ReadFieldBegin(p);
    if h.Good? && h.value.0 != Stop {
      var k := IndexOf(fs, h.value.1);
      if k.None? {
        SkipMore(h.value.0, h.prot, more);
        var r := Skip(h.value.0, h.prot);
        if r.Good? {
          ReadFieldsMore(fs, slots, r.prot, more);
        }
      } else {
        ReadFieldMore(fs[k.value], h.prot, more);
        var r := ReadField(fs[k.value], h.prot);
        if r.Good? {
          ReadFieldsMore(fs, slots[k.value := Some(r.value)], r.prot, more);
        }
      }
    }
  }

  lemma {:induction false} ReadAlternativesMore(fs: seq<Field>, first: Option<Value>, count: nat, p: Prot, more: seq<byte>)
    ensures Keeps(ReadAlternatives(fs, first, count, p), ReadAlternatives(fs, first, count, More(p, more)), more)
    decreases fs, |p.buf|
  {
    FieldBeginMore(p, more);
    var h := ReadFieldBegin(p);
    if h.Good? && h.value.0 != Stop {
      var k := IndexOf(fs, h.value.1);
      if k.None? {
        SkipMore(h.value.0, h.prot, more);
        var r := Skip(h.value.0, h.prot);
        if r.Good? {
          ReadAlternativesMore(fs, first, count + 1, r.prot, more);
        }
      } else {
        ReadFieldMore(fs[k.value], h.prot, more);
        var r := ReadField(fs[k.value], h.prot);
        if r.Good? {
          ReadAlternativesMore(fs, if first.None? then Some(UnionV(k.value, r.value)) else first, count + 1, r.prot, more);
        }
      }
    }
  }

  /** A written value that is cut off, wherever it is, is an error. */
  lemma TruncatedFails(ty: Ty, v: Value, n: nat, p: Prot)
    requires Typed(ty, v) && p.pending == None && n < |Write(ty, v)|
    ensures Read(ty, p.(buf := Write(ty, v)[..n])) == Bad
  {
    var bytes := Write(ty, v);
    var q := p.(buf := bytes[..n]);
    assert bytes[..n] + bytes[n..] == bytes && bytes + [] == bytes;
    assert More(q, bytes[n..]) == p.(buf := bytes);
    ReadMore(ty, q, bytes[n..]);
    RoundTrip(ty, v, p, []);
    var r := Read(ty, q);
    assert r.Good? ==> |More(r.prot, bytes[n..]).buf| > 0;
  }

  // ---- What is missing, and what is too much ----

  lemma {:induction false} MissingStays(fs: seq<Field>, slots: seq<Option<Value>>, fields: seq<WField>, k: nat)
    requires |slots| == |fs| && AgreeFields(fs, fields) && k < |fs| && slots[k].None?
    requires forall i :: 0 <= i < |fields| ==> fields[i].id != fs[k].id
    ensures var r := MeaningFields(fs, slots, fields); r.Some? ==> r.value[k].None?
    decreases |fields|
  {
    if fields != [] {
      assert forall i :: 0 <= i < |fields[1..]| ==> fields[1..][i] == fields[i + 1];
      var j := IndexOf(fs, fields[0].id);
      if j.None? {
        MissingStays(fs, slots, fields[1..], k);
      } else {
        var v := MeaningField(fs, fields[0]);
        if v.Some? {
          MissingStays(fs, slots[j.value := v], fields[1..], k);
        }
      }
    }
  }

  /** A struct without one of its required fields is an error, whatever else it has. */
  lemma MissingFieldFails(fs: seq<Field>, fields: seq<WField>, k: nat, p: Prot, suffix: seq<byte>)
    requires WellFormedFields(fields) && AgreeFields(fs, fields) && p.pending == None
    requires k < |fs| && fs[k].required && forall i :: 0 <= i < |fields| ==> fields[i].id != fs[k].id
    ensures Read(StructTy(fs), p.(buf := Encode(WStruct(fields)) + suffix)) == Bad
  {
    ReadsMeaning(StructTy(fs), WStruct(fields), p, suffix);
    MissingStays(fs, NoSlots(|fs|), fields, k);
  }

  lemma {:induction false} UnionCounts(fs: seq<Field>, first: Option<Value>, count: nat, fields: seq<WField>)
    requires AgreeFields(fs, fields)
    ensures var u := MeaningUnion(fs, first, count, fields); u.Some? ==> u.value.1 == count + |fields|
    decreases |fields|
  {
    if fields != [] {
      var k := IndexOf(fs, fields[0].id);
      if k.None? {
        UnionCounts(fs, first, count + 1, fields[1..]);
      } else {
        var v := MeaningField(fs, fields[0]);
        if v.Some? {
          UnionCounts(fs, if first.None? then Some(UnionV(k.value, v.value)) else first, count + 1, fields[1..]);
        }
      }
    }
  }

  /** A union is read exactly if it has one field, and that is an alternative whose
      value can be read; then it is that alternative. */
  lemma UnionIff(fs: seq<Field>, fields: seq<WField>, p: Prot, suffix: seq<byte>)
    requires WellFormedFields(fields) && AgreeFields(fs, fields) && p.pending == None
    ensures var r := Read(UnionTy(fs), p.(buf := Encode(WStruct(fields)) + suffix));
            if |fields| == 1 && IndexOf(fs, fields[0].id).Some? && MeaningField(fs, fields[0]).Some?
            then r == Good(UnionV(IndexOf(fs, fields[0].id).value, MeaningField(fs, fields[0]).value), p.(buf := suffix))
            else r == Bad
  {
    ReadsMeaning(UnionTy(fs), WStruct(fields), p, suffix);
    UnionCounts(fs, None, 0, fields);
    if |fields| == 1 {
      assert fields[1..] == [];
      OneAlternative(fs, fields);
    }
  }

  lemma OneAlternative(fs: seq<Field>, fields: seq<WField>)
    requires AgreeFields(fs, fields) && |fields| == 1 && fields[1..] == []
    ensures MeaningUnion(fs, None, 0, fields)
         == var k := IndexOf(fs, fields[0].id);
            if k.None? then Some((None, 1))
            else if MeaningField(fs, fields[0]).None? then None
            else Some((Some(UnionV(k.value, MeaningField(fs, fields[0]).value)), 1))
  {
    assert forall first: Option<Value>, count: nat :: MeaningUnion(fs, first, count, []) == Some((first, count));
  }
}

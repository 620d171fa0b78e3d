/**
  `TCompactSliceInputProtocol` and the generated struct readers as the source
  writes them, with loops over mutable state, proved to compute the reading
  functions of `ThriftProtocol` and `ThriftStructs`.
*/
module ThriftReader {
  import opened Basics
  import opened ThriftVarint
  import opened ThriftProtocol
  import opened ThriftStructs
  import opened ThriftRoundTrip
  import opened ThriftPrefix

  class TCompactSliceInputProtocol {
    var buf: seq<byte>
    var lastReadFieldId: int
    var readFieldIdStack: seq<int>
    var pendingReadBoolValue: Option<bool>

    constructor (buf: seq<byte>)
      ensures State() == Prot(buf, 0, [], None)
    {
      this.buf, lastReadFieldId, readFieldIdStack, pendingReadBoolValue := buf, 0, [], None;
    }

    function State(): (p: Prot)
      reads this
    {
      Prot(buf, lastReadFieldId, readFieldIdStack, pendingReadBoolValue)
    }

    /** The method did what the function `spec` computes; after an error the
        state is not used any more. */
    ghost predicate Did<T(!new)>(spec: Res<T>, r: Option<T>)
      reads this
    {
      match spec
      case Good(v, q) => r == Some(v) && State() == q
      case Bad => r == None
    }

    method ReadByte() returns (r: Option<byte>)
      modifies this
      ensures Did(ThriftProtocol.ReadByte(old(State())), r)
    {
      if buf == [] {
        return None;
      }
      r := Some(buf[0]);
      buf := buf[1..];
    }

    method ReadVlq() returns (r: Option<nat>)
      modifies this
      ensures match ThriftVarint.ReadVlq(old(buf))
              case Ok(n, rest) => r == Some(n) && State() == old(State()).(buf := rest)
              case Err => r == None
    {
      var inProgress: nat, groups: nat := 0, 0;
      while groups < 10
        invariant groups <= 10
        invariant ThriftVarint.ReadVlq(old(buf)) == ReadVlqFrom(inProgress, groups, buf)
        invariant State() == old(State()).(buf := buf)
      {
        var b := ReadByte();
        if b.None? {
          return None;
        }
        inProgress := (inProgress + Shl7(b.value % 128, groups)) % TWO_64;
        groups := groups + 1;
        if b.value < 128 {
          return Some(inProgress);
        }
      }
      r := None;
    }

    method ReadNumber(width: Width) returns (r: Option<int>)
      modifies this
      ensures Did(ThriftProtocol.ReadNumber(old(State()), width), r)
    {
      var v := ReadVlq();
      if v.None? {
        return None;
      }
      r := Some(width.Narrow(UnZigZag(v.value)));
    }

    method ReadListSetBegin() returns (r: Option<(TType, nat)>)
      modifies this
      ensures Did(ReadListBegin(old(State())), r)
    {
      var header := ReadByte();
      if header.None? {
        return None;
      }
      var elementType := CollectionU8ToType(header.value % 16);
      if elementType.None? {
        return None;
      }
      var count := header.value / 16;
      if count == 15 {
        var n := ReadVlq();
        if n.None? {
          return None;
        }
        count := W32.Narrow(n.value);
      }
      if count < 0 {
        return None;
      }
      r := Some((elementType.value, count));
    }

    method ReadStructBegin()
      modifies this
      ensures State() == StructBegin(old(State()))
    {
      readFieldIdStack := readFieldIdStack + [lastReadFieldId];
      lastReadFieldId := 0;
    }

    method ReadStructEnd() returns (r: Option<()>)
      modifies this
      ensures Did(StructEnd(old(State())), r)
    {
      if readFieldIdStack == [] {
        return None;
      }
      lastReadFieldId := readFieldIdStack[|readFieldIdStack| - 1];
      readFieldIdStack := readFieldIdStack[..|readFieldIdStack| - 1];
      r := Some(());
    }

    method ReadFieldBegin() returns (r: Option<(TType, int)>)
      modifies this
      ensures Did(ThriftProtocol.ReadFieldBegin(old(State())), r)
    {
      var header := ReadByte();
      if header.None? {
        return None;
      }
      var fieldDelta, low := header.value / 16, header.value % 16;
      var fieldType := HeaderType(low);
      if fieldType.None? {
        return None;
      }
      pendingReadBoolValue := HeaderBool(low, pendingReadBoolValue);
      if fieldType.value == Stop {
        return Some((Stop, 0));
      }
      if fieldDelta != 0 {
        if !W16.Fits(lastReadFieldId + fieldDelta) {
          return None;
        }
        lastReadFieldId := lastReadFieldId + fieldDelta;
      } else {
        var id := ReadNumber(W16);
        if id.None? {
          return None;
        }
        lastReadFieldId := id.value;
      }
      r := Some((fieldType.value, lastReadFieldId));
    }

    method ReadBool() returns (r: Option<bool>)
      modifies this
      ensures Did(ThriftProtocol.ReadBool(old(State())), r)
    {
      if pendingReadBoolValue.Some? {
        r := pendingReadBoolValue;
        pendingReadBoolValue := None;
      } else {
        var b := ReadByte();
        if b == Some(1) {
          r := Some(true);
        } else if b == Some(2) {
          r := Some(false);
        } else {
          r := None;
        }
      }
    }

    method ReadRaw(n: nat) returns (r: Option<seq<byte>>)
      modifies this
      ensures Did(ThriftProtocol.ReadRaw(old(State()), n), r)
    {
      if n > |buf| {
        return None;
      }
      r := Some(buf[..n]);
      buf := buf[n..];
    }

    method ReadBytes() returns (r: Option<seq<byte>>)
      modifies this
      ensures Did(ThriftProtocol.ReadBytes(old(State())), r)
    {
      var len := ReadVlq();
      if len.None? {
        return None;
      }
      r := ReadRaw(len.value);
    }

    // ---- Skipping ----

    method SkipScalar(t: TType) returns (r: Option<()>)
      requires t != ListType && t != StructType
      modifies this
      ensures Did(Skip(t, old(State())), r)
    {
      match t
      case BoolType => var v := ReadBool(); r := if v.Some? then Some(()) else None;
      case I08 => var v := ReadByte(); r := if v.Some? then Some(()) else None;
      case I16 | I32 | I64 => var v := ReadNumber(W64); r := if v.Some? then Some(()) else None;
      case DoubleType => var v := ReadRaw(8); r := if v.Some? then Some(()) else None;
      case StringType => var v := ReadBytes(); r := if v.Some? then Some(()) else None;
      case _ => r := None;
    }

    method SkipValue(t: TType) returns (r: Option<()>)
      modifies this
      ensures Did(Skip(t, old(State())), r)
      decreases |buf|, 1
    {
      if t == ListType {
        var list := ReadListSetBegin();
        if list.None? {
          return None;
        }
        r := SkipList(list.value.0, list.value.1);
      } else if t == StructType {
        ReadStructBegin();
        var fields := SkipStruct();
        if fields.None? {
          return None;
        }
        r := ReadStructEnd();
      } else {
        r := SkipScalar(t);
      }
    }

    method SkipList(t: TType, n: nat) returns (r: Option<()>)
      modifies this
      ensures Did(SkipItems(t, n, old(State())), r)
      decreases |buf|, n + 2
    {
      var i := n;
      while i > 0
        invariant 0 <= i <= n && |buf| <= |old(buf)|
        invariant SkipItems(t, n, old(State())) == SkipItems(t, i, State())
      {
        var v := SkipValue(t);
        if v.None? {
          return None;
        }
        i := i - 1;
      }
      r := Some(());
    }

    method SkipStruct() returns (r: Option<()>)
      modifies this
      ensures Did(SkipFields(old(State())), r)
      decreases |buf|, 0
    {
      while true
        invariant |buf| <= |old(buf)|
        invariant SkipFields(old(State())) == SkipFields(State())
        decreases |buf|
      {
        var field := ReadFieldBegin();
        if field.None? {
          return None;
        }
        if field.value.0 == Stop {
          return Some(());
        }
        var v := SkipValue(field.value.0);
        if v.None? {
          return None;
        }
      }
      assert false;
      r := None;
    }

    // ---- The generated readers ----

    method ReadScalar(ty: Ty) returns (r: Option<Value>)
      requires !ty.ListTy? && !ty.StructTy? && !ty.UnionTy?
      modifies this
      ensures Did(Read(ty, old(State())), r)
    {
      match ty
      case BoolTy => var v := ReadBool(); r := if v.Some? then Some(BoolV(v.value)) else None;
      case ByteTy => var v := ReadByte(); r := if v.Some? then Some(ByteV(v.value)) else None;
      case IntTy(width) => var v := ReadNumber(width); r := if v.Some? then Some(IntV(v.value)) else None;
      case DoubleTy => var v := ReadRaw(8); r := if v.Some? then Some(BytesV(v.value)) else None;
      case BytesTy => var v := ReadBytes(); r := if v.Some? then Some(BytesV(v.value)) else None;
    }

    method ReadFromInProtocol(ty: Ty) returns (r: Option<Value>)
      modifies this
      ensures Did(Read(ty, old(State())), r)
      decreases ty, 0
    {
      match ty
      case ListTy(elem) =>
        var list := ReadListSetBegin();
        if list.None? {
          return None;
        }
        var items := ReadListItems(elem, list.value.1);
        r := if items.Some? then Some(ListV(items.value)) else None;
      case StructTy(fs) =>
        ReadStructBegin();
        var slots := ReadStructFields(fs);
        if slots.None? {
          return None;
        }
        var end := ReadStructEnd();
        r := if end.Some? && RequiredPresent(fs, slots.value) then Some(StructV(slots.value)) else None;
      case UnionTy(fs) =>
        ReadStructBegin();
        var fields := ReadUnionFields(fs);
        if fields.None? {
          return None;
        }
        var end := ReadStructEnd();
        r := if end.Some? && fields.value.1 == 1 then fields.value.0 else None;
      case _ => r := ReadScalar(ty);
    }

    /** Reading back what was written, with anything behind it: the value, and
        nothing else of the reader's state changed. */
    method ReadBack(ty: Ty, ghost v: Value, ghost suffix: seq<byte>) returns (r: Option<Value>)
      requires Typed(ty, v) && buf == Write(ty, v) + suffix && pendingReadBoolValue == None
      modifies this
      ensures r == Some(v) && State() == old(State()).(buf := suffix)
    {
      RoundTrip(ty, v, State(), suffix);
      assert State() == State().(buf := Write(ty, v) + suffix);
      r := ReadFromInProtocol(ty);
    }

    /** Reading a written value that is cut off is an error. */
    method ReadCutOff(ty: Ty, ghost v: Value, ghost n: nat) returns (r: Option<Value>)
      requires Typed(ty, v) && n < |Write(ty, v)| && buf == Write(ty, v)[..n] && pendingReadBoolValue == None
      modifies this
      ensures r == None
    {
      TruncatedFails(ty, v, n, State());
      assert State() == State().(buf := Write(ty, v)[..n]);
      r := ReadFromInProtocol(ty);
    }

    method ReadListItems(elem: Ty, size: nat) returns (r: Option<seq<Value>>)
      modifies this
      ensures Did(ReadItems(elem, size, [], old(State())), r)
      decreases elem, 1
    {
      var val: seq<Value> := [];
      for i := 0 to size
        invariant ReadItems(elem, size, [], old(State())) == ReadItems(elem, size - i, val, State())
      {
        var item := ReadFromInProtocol(elem);
        if item.None? {
          return None;
        }
        val := val + [item.value];
      }
      r := Some(val);
    }

    method ReadKnownField(f: Field) returns (r: Option<Value>)
      modifies this
      ensures Did(ReadField(f, old(State())), r)
      decreases f, 0
    {
      r := ReadFromInProtocol(f.ty);
    }

    /** The field loop of a generated struct reader. */
    method ReadStructFields(fs: seq<Field>) returns (r: Option<seq<Option<Value>>>)
      modifies this
      ensures Did(ReadFields(fs, NoSlots(|fs|), old(State())), r)
      ensures r.Some? ==> |r.value| == |fs|
      decreases fs, 0
    {
      var slots := NoSlots(|fs|);
      while true
        invariant |slots| == |fs|
        invariant ReadFields(fs, NoSlots(|fs|), old(State())) == ReadFields(fs, slots, State())
        decreases |buf|
      {
        var field := ReadFieldBegin();
        if field.None? {
          return None;
        }
        if field.value.0 == Stop {
          return Some(slots);
        }
        var k := IndexOf(fs, field.value.1);
        if k.None? {
          var skipped := SkipValue(field.value.0);
          if skipped.None? {
            return None;
          }
        } else {
          var val := ReadKnownField(fs[k.value]);
          if val.None? {
            return None;
          }
          slots := slots[k.value := val];
        }
      }
      assert false;
      r := None;
    }

    /** The field loop of a generated union reader. */
    method ReadUnionFields(fs: seq<Field>) returns (r: Option<(Option<Value>, nat)>)
      modifies this
      ensures Did(ReadAlternatives(fs, None, 0, old(State())), r)
      decreases fs, 0
    {
      var ret, receivedFieldCount := None, 0;
      while true
        invariant ReadAlternatives(fs, None, 0, old(State())) == ReadAlternatives(fs, ret, receivedFieldCount, State())
        decreases |buf|
      {
        var field := ReadFieldBegin();
        if field.None? {
          return None;
        }
        if field.value.0 == Stop {
          return Some((ret, receivedFieldCount));
        }
        var k := IndexOf(fs, field.value.1);
        if k.None? {
          var skipped := SkipValue(field.value.0);
          if skipped.None? {
            return None;
          }
        } else {
          var val := ReadKnownField(fs[k.value]);
          if val.None? {
            return None;
          }
          if ret.None? {
            ret := Some(UnionV(k.value, val.value));
          }
        }
        receivedFieldCount := receivedFieldCount + 1;
      }
      assert false;
      r := None;
    }
  }
}

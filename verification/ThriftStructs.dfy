/**
  Structs over the compact protocol, as the Thrift compiler generates their
  readers and writers: a struct is a list of numbered, typed, required or
  optional fields; unknown fields are skipped; a union has exactly one field.
*/
module ThriftStructs {
  import opened Basics
  import opened ThriftVarint
  import opened ThriftProtocol

  datatype Ty =
    | BoolTy
    | ByteTy
    | IntTy(width: Width)
    | DoubleTy
    | BytesTy
    | ListTy(elem: Ty)
    | StructTy(fields: seq<Field>)
    | UnionTy(alternatives: seq<Field>)

  datatype Field = Field(id: int, ty: Ty, required: bool)

  /** A struct value has one slot per field of its type. */
  datatype Value =
    | BoolV(b: bool)
    | ByteV(n: byte)
    | IntV(i: int)
    | BytesV(bs: seq<byte>)
    | ListV(items: seq<Value>)
    | StructV(slots: seq<Option<Value>>)
    | UnionV(which: nat, item: Value)

  function WireType(ty: Ty): (t: TType) {
    match ty
    case BoolTy => BoolType
    case ByteTy => I08
    case IntTy(W16) => I16
    case IntTy(W32) => I32
    case IntTy(W64) => I64
    case DoubleTy => DoubleType
    case BytesTy => StringType
    case ListTy(_) => ListType
    case StructTy(_) => StructType
    case UnionTy(_) => StructType
  }

  function IndexOf(fs: seq<Field>, id: int): (k: Option<nat>)
    ensures k.Some? ==> k.value < |fs| && fs[k.value].id == id
    ensures k.None? ==> forall i :: 0 <= i < |fs| ==> fs[i].id != id
  {
    if fs == [] then None
    else if fs[|fs| - 1].id == id then Some(|fs| - 1)
    else IndexOf(fs[..|fs| - 1], id)
  }

  function NoSlots(n: nat): (slots: seq<Option<Value>>) {
    seq(n, _ => None)
  }

  predicate RequiredPresent(fs: seq<Field>, slots: seq<Option<Value>>)
    requires |slots| == |fs|
  {
    forall i :: 0 <= i < |fs| && fs[i].required ==> slots[i].Some?
  }

  // ---- The generated readers ----

  function Read(ty: Ty, p: Prot): (r: Res<Value>)
    ensures r.Good? ==> |r.prot.buf| <= |p.buf|
    decreases ty, 0
  {
    match ty
    case BoolTy => var r := ReadBool(p); if r.Good? then Good(BoolV(r.value), r.prot) else Bad
    case ByteTy => var r := ReadByte(p); if r.Good? then Good(ByteV(r.value), r.prot) else Bad
    case IntTy(width) => var r := ReadNumber(p, width); if r.Good? then Good(IntV(r.value), r.prot) else Bad
    case DoubleTy => var r := ReadRaw(p, 8); if r.Good? then Good(BytesV(r.value), r.prot) else Bad
    case BytesTy => var r := ReadBytes(p); if r.Good? then Good(BytesV(r.value), r.prot) else Bad
    case ListTy(elem) =>
      var r := ReadListBegin(p);
      if r.Bad? then Bad
      else
        var s := ReadItems(elem, r.value.1, [], r.prot);
        if s.Good? then Good(ListV(s.value), s.prot) else Bad
    case StructTy(fs) =>
      var r := ReadFields(fs, NoSlots(|fs|), StructBegin(p));
      if r.Bad? then Bad
      else
        var e := StructEnd(r.prot);
        if e.Good? && RequiredPresent(fs, r.value) then Good(StructV(r.value), e.prot) else Bad
    case UnionTy(fs) =>
      var r := ReadAlternatives(fs, None, 0, StructBegin(p));
      if r.Bad? then Bad
      else
        var e := StructEnd(r.prot);
        if e.Good? && r.value.1 == 1 && r.value.0.Some? then Good(r.value.0.value, e.prot) else Bad
  }

  function ReadItems(elem: Ty, n: nat, done: seq<Value>, p: Prot): (r: Res<seq<Value>>)
    ensures r.Good? ==> |r.prot.buf| <= |p.buf|
    decreases elem, n + 1
  {
    if n == 0 then Good(done, p)
    else
      var r := Read(elem, p);
      if r.Good? then ReadItems(elem, n - 1, done + [r.value], r.prot) else Bad
  }

  function ReadField(f: Field, p: Prot): (r: Res<Value>)
    ensures r.Good? ==> |r.prot.buf| <= |p.buf|
    decreases f, 0
  {
    Read(f.ty, p)
  }

  function ReadFields(fs: seq<Field>, slots: seq<Option<Value>>, p: Prot): (r: Res<seq<Option<Value>>>)
    requires |slots| == |fs|
    ensures r.Good? ==> |r.prot.buf| <= |p.buf| && |r.value| == |fs|
    decreases fs, |p.buf|
  {
    var h := ReadFieldBegin(p);
    if h.Bad? then Bad
    else if h.value.0 == Stop then Good(slots, h.prot)
    else
      match IndexOf(fs, h.value.1)
      case None =>
        var r := Skip(h.value.0, h.prot);
        if r.Good? then ReadFields(fs, slots, r.prot) else Bad
      case Some(k) =>
        var r := ReadField(fs[k], h.prot);
        if r.Good? then ReadFields(fs, slots[k := Some(r.value)], r.prot) else Bad
  }

  /** A union keeps the first alternative it meets and counts all fields. */
  function ReadAlternatives(fs: seq<Field>, first: Option<Value>, count: nat, p: Prot): (r: Res<(Option<Value>, nat)>)
    ensures r.Good? ==> |r.prot.buf| <= |p.buf|
    decreases fs, |p.buf|
  {
    var h := ReadFieldBegin(p);
    if h.Bad? then Bad
    else if h.value.0 == Stop then Good((first, count), h.prot)
    else
      match IndexOf(fs, h.value.1)
      case None =>
        var r := Skip(h.value.0, h.prot);
        if r.Good? then ReadAlternatives(fs, first, count + 1, r.prot) else Bad
      case Some(k) =>
        var r := ReadField(fs[k], h.prot);
        if r.Good? then
          ReadAlternatives(fs, if first.None? then Some(UnionV(k, r.value)) else first, count + 1, r.prot)
        else Bad
  }

  // ---- What a tree of wire values means at a type ----

  /** The tree has the types that `ty` declares; unknown fields may be anything. */
  ghost predicate Agrees(ty: Ty, w: Wire)
    decreases w, 1
  {
    match ty
    case BoolTy => w.WBool?
    case ByteTy => w.WByte?
    case IntTy(width) => w.WInt? && w.width == width
    case DoubleTy => w.WDouble?
    case BytesTy => w.WBytes?
    case ListTy(elem) => w.WList? && AgreeItems(elem, w.items)
    case StructTy(fs) => w.WStruct? && AgreeFields(fs, w.fields)
    case UnionTy(fs) => w.WStruct? && AgreeFields(fs, w.fields)
  }

  ghost predicate AgreeItems(elem: Ty, items: seq<Wire>)
    decreases items, 0
  {
    items == [] || (Agrees(elem, items[0]) && AgreeItems(elem, items[1..]))
  }

  ghost predicate AgreeField(fs: seq<Field>, wf: WField)
    decreases wf, 2
  {
    var k := IndexOf(fs, wf.id);
    k.Some? ==> Agrees(fs[k.value].ty, wf.value)
  }

  ghost predicate AgreeFields(fs: seq<Field>, fields: seq<WField>)
    decreases fields, 0
  {
    fields == [] || (AgreeField(fs, fields[0]) && AgreeFields(fs, fields[1..]))
  }

  /** The value of a tree at a type; none if a required field is missing or a
      union does not have exactly one known field. */
  ghost function Meaning(ty: Ty, w: Wire): (v: Option<Value>)
    requires Agrees(ty, w)
    decreases w, 1
  {
    match ty
    case BoolTy => Some(BoolV(w.b))
    case ByteTy => Some(ByteV(w.n))
    case IntTy(_) => Some(IntV(w.i))
    case DoubleTy => Some(BytesV(w.raw))
    case BytesTy => Some(BytesV(w.bs))
    case ListTy(elem) =>
      var items := MeaningItems(elem, [], w.items);
      if items.Some? then Some(ListV(items.value)) else None
    case StructTy(fs) =>
      var slots := MeaningFields(fs, NoSlots(|fs|), w.fields);
      if slots.Some? && RequiredPresent(fs, slots.value) then Some(StructV(slots.value)) else None
    case UnionTy(fs) =>
      var u := MeaningUnion(fs, None, 0, w.fields);
      if u.Some? && u.value.1 == 1 then u.value.0 else None
  }

  ghost function MeaningItems(elem: Ty, done: seq<Value>, items: seq<Wire>): (vs: Option<seq<Value>>)
    requires AgreeItems(elem, items)
    decreases items, 0
  {
    if items == [] then Some(done)
    else
      var v := Meaning(elem, items[0]);
      if v.Some? then MeaningItems(elem, done + [v.value], items[1..]) else None
  }

  ghost function MeaningField(fs: seq<Field>, wf: WField): (v: Option<Value>)
    requires AgreeField(fs, wf) && IndexOf(fs, wf.id).Some?
    decreases wf, 2
  {
    Meaning(fs[IndexOf(fs, wf.id).value].ty, wf.value)
  }

  ghost function MeaningFields(fs: seq<Field>, slots: seq<Option<Value>>, fields: seq<WField>): (r: Option<seq<Option<Value>>>)
    requires |slots| == |fs| && AgreeFields(fs, fields)
    ensures r.Some? ==> |r.value| == |fs|
    decreases fields, 0
  {
    if fields == [] then Some(slots)
    else
      var k := IndexOf(fs, fields[0].id);
      if k.None? then MeaningFields(fs, slots, fields[1..])
      else
        var v := MeaningField(fs, fields[0]);
        if v.Some? then MeaningFields(fs, slots[k.value := v], fields[1..]) else None
  }

  ghost function MeaningUnion(fs: seq<Field>, first: Option<Value>, count: nat, fields: seq<WField>): (r: Option<(Option<Value>, nat)>)
    requires AgreeFields(fs, fields)
    decreases fields, 0
  {
    if fields == [] then Some((first, count))
    else
      var k := IndexOf(fs, fields[0].id);
      if k.None? then MeaningUnion(fs, first, count + 1, fields[1..])
      else
        var v := MeaningField(fs, fields[0]);
        if v.None? then None
        else MeaningUnion(fs, if first.None? then Some(UnionV(k.value, v.value)) else first, count + 1, fields[1..])
  }

  /** A reading result that is the value `v`, and the rest of the input. */
  function Expect<T>(v: Option<T>, p: Prot): (r: Res<T>) {
    if v.Some? then Good(v.value, p) else Bad
  }

  // ---- The readers compute the meaning ----

  lemma ReadsScalar(ty: Ty, w: Wire, p: Prot, suffix: seq<byte>)
    requires WellFormed(w) && Agrees(ty, w) && p.pending == None
    requires !ty.ListTy? && !ty.StructTy? && !ty.UnionTy?
    ensures Read(ty, p.(buf := Encode(w) + suffix)) == Expect(Meaning(ty, w), p.(buf := suffix))
  {
    match ty
    case BoolTy => HeadTail(if w.b then 1 as byte else 2, suffix);
    case ByteTy => HeadTail(w.n, suffix);
    case IntTy(width) => NumberRoundTrip(p, width, w.i, suffix);
    case DoubleTy => RawRoundTrip(p, w.raw, suffix);
    case BytesTy => BytesRoundTrip(p, w.bs, suffix);
  }

  /** For every type and every encoded tree that agrees with it, followed by
      anything: the reader returns the meaning of the tree, or fails if it has
      none, and otherwise leaves exactly what follows and its own state as it was. */
  lemma {:induction false} ReadsMeaning(ty: Ty, w: Wire, p: Prot, suffix: seq<byte>)
    requires WellFormed(w) && Agrees(ty, w) && p.pending == None
    ensures Read(ty, p.(buf := Encode(w) + suffix)) == Expect(Meaning(ty, w), p.(buf := suffix))
    decreases w, 1
  {
    match ty
    case ListTy(elem) =>
      Assoc(ListHeader(w.elem, |w.items|), EncodeItems(w.items), suffix);
      ListHeaderRoundTrip(p, w.elem, |w.items|, EncodeItems(w.items) + suffix);
      ReadsItems(elem, w.elem, [], w.items, p, suffix);
    case StructTy(fs) =>
      assert StructBegin(p.(buf := Encode(w) + suffix)) == StructBegin(p).(buf := EncodeFields(w.fields, 0) + suffix);
      ReadsFields(fs, NoSlots(|fs|), w.fields, StructBegin(p), suffix);
    case UnionTy(fs) =>
      assert StructBegin(p.(buf := Encode(w) + suffix)) == StructBegin(p).(buf := EncodeFields(w.fields, 0) + suffix);
      ReadsAlternatives(fs, None, 0, w.fields, StructBegin(p), suffix);
    case _ => ReadsScalar(ty, w, p, suffix);
  }

  lemma {:induction false} ReadsItems(elem: Ty, t: TType, done: seq<Value>, items: seq<Wire>, p: Prot, suffix: seq<byte>)
    requires WellFormedItems(t, items) && AgreeItems(elem, items) && p.pending == None
    ensures ReadItems(elem, |items|, done, p.(buf := EncodeItems(items) + suffix))
         == Expect(MeaningItems(elem, done, items), p.(buf := suffix))
    decreases items, 0
  {
    if items == [] {
      assert EncodeItems(items) + suffix == suffix;
    } else {
      var tail := EncodeItems(items[1..]) + suffix;
      Assoc(Encode(items[0]), EncodeItems(items[1..]), suffix);
      ReadsMeaning(elem, items[0], p, tail);
      var v := Meaning(elem, items[0]);
      if v.Some? {
        ReadsItems(elem, t, done + [v.value], items[1..], p, suffix);
      }
    }
  }

  lemma {:induction false} ReadsField(fs: seq<Field>, wf: WField, p: Prot, suffix: seq<byte>)
    requires WellFormedField(wf) && AgreeField(fs, wf) && p.pending == None && IndexOf(fs, wf.id).Some?
    ensures ReadField(fs[IndexOf(fs, wf.id).value],
                      p.(buf := FieldBody(wf.value) + suffix, pending := FieldPending(wf.value)))
         == Expect(MeaningField(fs, wf), p.(buf := suffix))
    decreases wf, 2
  {
    if wf.value.WBool? {
      assert FieldBody(wf.value) + suffix == suffix;
    } else {
      ReadsMeaning(fs[IndexOf(fs, wf.id).value].ty, wf.value, p, suffix);
    }
  }

  /** The last field id is left behind; the end of the struct restores it. */
  ghost predicate Leaves<T>(r: Res<T>, v: Option<T>, p: Prot, suffix: seq<byte>) {
    if v.Some? then r.Good? && r.value == v.value && r.prot == p.(buf := suffix, last := r.prot.last) else r.Bad?
  }

  lemma {:induction false} ReadsFields(fs: seq<Field>, slots: seq<Option<Value>>, fields: seq<WField>, p: Prot, suffix: seq<byte>)
    requires |slots| == |fs| && WellFormedFields(fields) && AgreeFields(fs, fields) && p.pending == None
    ensures Leaves(ReadFields(fs, slots, p.(buf := EncodeFields(fields, p.last) + suffix)),
                   MeaningFields(fs, slots, fields), p, suffix)
    decreases fields, 0
  {
    if fields == [] {
      StopRoundTrip(p, suffix);
    } else {
      var wf := fields[0];
      var q := p.(last := wf.id);
      var tail := EncodeFields(fields[1..], wf.id) + suffix;
      FieldsCons(fields, p.last, suffix);
      FieldRoundTrip(wf, p, tail);
      var k := IndexOf(fs, wf.id);
      if k.None? {
        SkipsField(wf, q, tail);
        ReadsFields(fs, slots, fields[1..], q, suffix);
      } else {
        ReadsField(fs, wf, q, tail);
        var v := MeaningField(fs, wf);
        if v.Some? {
          ReadsFields(fs, slots[k.value := v], fields[1..], q, suffix);
        }
      }
    }
  }

  lemma {:induction false} ReadsAlternatives(fs: seq<Field>, first: Option<Value>, count: nat, fields: seq<WField>, p: Prot, suffix: seq<byte>)
    requires WellFormedFields(fields) && AgreeFields(fs, fields) && p.pending == None
    ensures Leaves(ReadAlternatives(fs, first, count, p.(buf := EncodeFields(fields, p.last) + suffix)),
                   MeaningUnion(fs, first, count, fields), p, suffix)
    decreases fields, 0
  {
    if fields == [] {
      StopRoundTrip(p, suffix);
    } else {
      var wf := fields[0];
      var q := p.(last := wf.id);
      var tail := EncodeFields(fields[1..], wf.id) + suffix;
      FieldsCons(fields, p.last, suffix);
      FieldRoundTrip(wf, p, tail);
      var k := IndexOf(fs, wf.id);
      if k.None? {
        SkipsField(wf, q, tail);
        ReadsAlternatives(fs, first, count + 1, fields[1..], q, suffix);
      } else {
        ReadsField(fs, wf, q, tail);
        var v := MeaningField(fs, wf);
        if v.Some? {
          var next := if first.None? then Some(UnionV(k.value, v.value)) else first;
          ReadsAlternatives(fs, next, count + 1, fields[1..], q, suffix);
        }
      }
    }
  }
}

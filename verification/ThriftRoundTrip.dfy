/**
  The generated writers and the round trip: every value of every struct type is
  read back as written, whatever follows it. Parquet's page index structs are
  instances.
*/
module ThriftRoundTrip {
  import opened Basics
  import opened ThriftVarint
  import opened ThriftProtocol
  import opened ThriftStructs

  /** Values the writers are called with: numbers in range, lengths that fit the
      protocol, required fields present. */
  ghost predicate Typed(ty: Ty, v: Value)
    decreases ty, 0
  {
    match ty
    case BoolTy => v.BoolV?
    case ByteTy => v.ByteV?
    case IntTy(width) => v.IntV? && width.Fits(v.i)
    case DoubleTy => v.BytesV? && |v.bs| == 8
    case BytesTy => v.BytesV? && |v.bs| < TWO_32
    case ListTy(elem) =>
      v.ListV? && |v.items| < TWO_31 && forall i :: 0 <= i < |v.items| ==> Typed(elem, v.items[i])
    case StructTy(fs) =>
      && v.StructV? && |v.slots| == |fs| && GoodIds(fs) && RequiredPresent(fs, v.slots)
      && forall i :: 0 <= i < |fs| ==> TypedField(fs[i], v.slots[i])
    case UnionTy(fs) => v.UnionV? && v.which < |fs| && GoodIds(fs) && TypedField(fs[v.which], Some(v.item))
  }

  ghost predicate TypedField(f: Field, slot: Option<Value>)
    decreases f, 0
  {
    slot.Some? ==> Typed(f.ty, slot.value)
  }

  ghost predicate GoodIds(fs: seq<Field>) {
    && (forall i :: 0 <= i < |fs| ==> W16.Fits(fs[i].id))
    && forall i, j :: 0 <= i < j < |fs| ==> fs[i].id != fs[j].id
  }

  /** The generated writers: fields in declaration order, absent ones left out. */
  ghost function ToWire(ty: Ty, v: Value): (w: Wire)
    requires Typed(ty, v)
    ensures TypeOf(w) == WireType(ty)
    decreases ty, 0
  {
    match ty
    case BoolTy => WBool(v.b)
    case ByteTy => WByte(v.n)
    case IntTy(width) => WInt(width, v.i)
    case DoubleTy => WDouble(v.bs)
    case BytesTy => WBytes(v.bs)
    case ListTy(elem) => WList(WireType(elem), ToWireItems(elem, v.items))
    case StructTy(fs) => WStruct(ToWireFields(fs, v.slots))
    case UnionTy(fs) => WStruct([ToWireField(fs[v.which], v.item)])
  }

  ghost function ToWireItems(elem: Ty, items: seq<Value>): (ws: seq<Wire>)
    requires forall i :: 0 <= i < |items| ==> Typed(elem, items[i])
    ensures |ws| == |items|
    decreases elem, |items| + 1
  {
    if items == [] then [] else [ToWire(elem, items[0])] + ToWireItems(elem, items[1..])
  }

  ghost function ToWireField(f: Field, v: Value): (wf: WField)
    requires TypedField(f, Some(v))
    ensures wf.id == f.id
    decreases f, 0
  {
    WField(f.id, ToWire(f.ty, v))
  }

  ghost function ToWireFields(fs: seq<Field>, slots: seq<Option<Value>>): (ws: seq<WField>)
    requires |slots| == |fs| && forall i :: 0 <= i < |fs| ==> TypedField(fs[i], slots[i])
    decreases fs, |fs|
  {
    if fs == [] then []
    else
      var rest := ToWireFields(fs[1..], slots[1..]);
      if slots[0].Some? then [ToWireField(fs[0], slots[0].value)] + rest else rest
  }

  /** What `ToWire` guarantees about its result. */
  ghost predicate Faithful(ty: Ty, v: Value, w: Wire) {
    WellFormed(w) && Agrees(ty, w) && Meaning(ty, w) == Some(v)
  }

  lemma {:induction false} WriteIsFaithful(ty: Ty, v: Value)
    requires Typed(ty, v)
    ensures Faithful(ty, v, ToWire(ty, v))
    decreases ty, 0
  {
    match ty
    case ListTy(elem) =>
      ItemsFaithful(elem, [], v.items);
      assert [] + v.items == v.items;
    case StructTy(fs) =>
      FieldsFaithful(fs, v.slots, fs, v.slots, 0);
      assert fs[0..] == fs && v.slots[0..] == v.slots;
      assert Filled(v.slots, 0) == NoSlots(|fs|);
    case UnionTy(fs) =>
      var wf := ToWireField(fs[v.which], v.item);
      WriteFieldIsFaithful(fs[v.which], v.item);
      KnownField(fs, v.which, v.item, wf);
      assert AgreeFields(fs, [wf]) && WellFormedFields([wf]);
      assert [wf][1..] == [];
      assert MeaningUnion(fs, Some(UnionV(v.which, v.item)), 1, []) == Some((Some(v), 1));
    case _ =>
  }

  lemma {:induction false} ItemsFaithful(elem: Ty, done: seq<Value>, items: seq<Value>)
    requires forall i :: 0 <= i < |items| ==> Typed(elem, items[i])
    ensures var ws := ToWireItems(elem, items);
            && WellFormedItems(WireType(elem), ws) && AgreeItems(elem, ws)
            && MeaningItems(elem, done, ws) == Some(done + items)
    decreases elem, |items| + 1
  {
    if items == [] {
      assert done + items == done;
    } else {
      WriteIsFaithful(elem, items[0]);
      ItemsFaithful(elem, done + [items[0]], items[1..]);
      ItemsCons(elem, done, items[0], ToWire(elem, items[0]), ToWireItems(elem, items[1..]));
      assert done + [items[0]] + items[1..] == done + items;
    }
  }

  lemma ItemsCons(elem: Ty, done: seq<Value>, v: Value, w: Wire, ws: seq<Wire>)
    requires Faithful(elem, v, w) && WellFormedItems(WireType(elem), ws) && AgreeItems(elem, ws)
    ensures WellFormedItems(WireType(elem), [w] + ws) && AgreeItems(elem, [w] + ws)
    ensures MeaningItems(elem, done, [w] + ws) == MeaningItems(elem, done + [v], ws)
  {
    HeadTail(w, ws);
    AgreedType(elem, w);
  }

  lemma AgreedType(ty: Ty, w: Wire)
    requires Agrees(ty, w)
    ensures TypeOf(w) == WireType(ty)
  {
  }

  lemma {:induction false} WriteFieldIsFaithful(f: Field, v: Value)
    requires TypedField(f, Some(v)) && W16.Fits(f.id)
    ensures Faithful(f.ty, v, ToWireField(f, v).value) && WellFormedField(ToWireField(f, v))
    decreases f, 0
  {
    WriteIsFaithful(f.ty, v);
  }

  lemma KnownField(fs: seq<Field>, k: nat, v: Value, wf: WField)
    requires GoodIds(fs) && k < |fs| && wf.id == fs[k].id && Faithful(fs[k].ty, v, wf.value)
    ensures IndexOf(fs, wf.id) == Some(k) && AgreeField(fs, wf) && MeaningField(fs, wf) == Some(v)
  {
  }

  /** The slots of the first `k` fields are filled in, those after are not. */
  ghost function Filled(slots: seq<Option<Value>>, k: nat): (r: seq<Option<Value>>)
    ensures |r| == |slots|
  {
    if k <= |slots| then slots[..k] + NoSlots(|slots| - k) else slots
  }

  lemma FilledNext(slots: seq<Option<Value>>, k: nat)
    requires k < |slots|
    ensures Filled(slots, k + 1) == if slots[k].Some? then Filled(slots, k)[k := slots[k]] else Filled(slots, k)
  {
  }

  /** Some version of a struct has the fields `all`; a reader knows the first of
      them, `fs`. With `k` fields read, the others fill the remaining slots and
      those the reader does not know change nothing. */
  lemma {:induction false} FieldsFaithful(fs: seq<Field>, slots: seq<Option<Value>>, all: seq<Field>, allSlots: seq<Option<Value>>, k: nat)
    requires GoodIds(all) && |allSlots| == |all| && k <= |all|
    requires forall i :: 0 <= i < |all| ==> TypedField(all[i], allSlots[i])
    requires |slots| == |fs| && fs <= all && slots <= allSlots
    ensures var ws := ToWireFields(all[k..], allSlots[k..]);
            && WellFormedFields(ws) && AgreeFields(fs, ws)
            && MeaningFields(fs, Filled(slots, k), ws) == Some(slots)
    decreases all, |all| - k + 1
  {
    if k == |all| {
      assert Filled(slots, k) == slots;
    } else {
      FieldsFaithful(fs, slots, all, allSlots, k + 1);
      assert all[k..][1..] == all[k + 1..] && allSlots[k..][1..] == allSlots[k + 1..];
      var ws, ws' := ToWireFields(all[k..], allSlots[k..]), ToWireFields(all[k + 1..], allSlots[k + 1..]);
      if k < |fs| {
        FilledNext(slots, k);
        assert slots[k] == allSlots[k] && fs[k] == all[k];
      } else {
        assert Filled(slots, k) == slots == Filled(slots, k + 1);
      }
      if allSlots[k].Some? {
        var wf := ToWireField(all[k], allSlots[k].value);
        WriteFieldIsFaithful(all[k], allSlots[k].value);
        HeadTail(wf, ws');
        if k < |fs| {
          KnownField(fs, k, slots[k].value, wf);
        } else {
          assert IndexOf(fs, wf.id).None?;
        }
      }
    }
  }

  /** The bytes the generated writer of a type emits for a value. */
  ghost function Write(ty: Ty, v: Value): (bs: seq<byte>)
    requires Typed(ty, v)
  {
    Encode(ToWire(ty, v))
  }

  /** Round trip: for every struct type and every value of it, reading what was
      written, followed by anything, returns the value, leaves exactly what
      follows, and restores the field-id stack and the last field id. */
  lemma RoundTrip(ty: Ty, v: Value, p: Prot, suffix: seq<byte>)
    requires Typed(ty, v) && p.pending == None
    ensures Read(ty, p.(buf := Write(ty, v) + suffix)) == Good(v, p.(buf := suffix))
  {
    WriteIsFaithful(ty, v);
    ReadsMeaning(ty, ToWire(ty, v), p, suffix);
  }

  /** Two values with the same bytes are the same value. */
  lemma WriteIsInjective(ty: Ty, v: Value, v': Value)
    requires Typed(ty, v) && Typed(ty, v') && Write(ty, v) == Write(ty, v')
    ensures v == v'
  {
    var p := Prot([], 0, [], None);
    RoundTrip(ty, v, p, []);
    RoundTrip(ty, v', p, []);
  }

  /** A reader of an older version of a struct reads what a newer version with
      more fields wrote as if it had only the fields the reader knows. */
  lemma OldReaderIgnoresNewFields(fs: seq<Field>, slots: seq<Option<Value>>, more: seq<Field>, moreSlots: seq<Option<Value>>,
                                  p: Prot, suffix: seq<byte>)
    requires |slots| == |fs| && p.pending == None
    requires Typed(StructTy(fs + more), StructV(slots + moreSlots))
    ensures Read(StructTy(fs), p.(buf := Write(StructTy(fs + more), StructV(slots + moreSlots)) + suffix))
         == Good(StructV(slots), p.(buf := suffix))
  {
    var all, allSlots := fs + more, slots + moreSlots;
    FieldsFaithful(fs, slots, all, allSlots, 0);
    assert all[0..] == all && allSlots[0..] == allSlots;
    assert Filled(slots, 0) == NoSlots(|fs|);
    assert RequiredPresent(fs, slots) by {
      forall i | 0 <= i < |fs| && fs[i].required ensures slots[i].Some? {
        assert all[i] == fs[i] && allSlots[i] == slots[i];
      }
    }
    ReadsMeaning(StructTy(fs), ToWire(StructTy(all), StructV(allSlots)), p, suffix);
  }
}

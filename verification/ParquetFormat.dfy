/** The page index structs of Parquet, a union, and a struct with booleans, as
    instances of the generic readers and writers. */
module ParquetFormat {
  import opened Basics
  import opened ThriftVarint
  import opened ThriftProtocol
  import opened ThriftStructs
  import opened ThriftRoundTrip

  datatype PageLocation = PageLocation(offset: int, compressedPageSize: int, firstRowIndex: int)
  datatype OffsetIndex = OffsetIndex(pageLocations: seq<PageLocation>, unencodedBytes: Option<seq<int>>)
  datatype ColumnIndex = ColumnIndex(
    nullPages: seq<bool>, minValues: seq<seq<byte>>, maxValues: seq<seq<byte>>, boundaryOrder: int,
    nullCounts: Option<seq<int>>, repetitionHistograms: Option<seq<int>>, definitionHistograms: Option<seq<int>>)
  datatype SortingColumn = SortingColumn(columnIdx: int, descending: bool, nullsFirst: bool)
  datatype TimeUnit = Millis | Micros | Nanos

  const I32_TY: Ty := IntTy(W32)
  const I64_TY: Ty := IntTy(W64)
  const I64_LIST_TY: Ty := ListTy(I64_TY)
  const EMPTY_TY: Ty := StructTy([])

  const PAGE_LOCATION_FIELDS: seq<Field> := [Field(1, I64_TY, true), Field(2, I32_TY, true), Field(3, I64_TY, true)]
  const PAGE_LOCATION_TY: Ty := StructTy(PAGE_LOCATION_FIELDS)
  const OFFSET_INDEX_TY: Ty := StructTy([Field(1, ListTy(PAGE_LOCATION_TY), true), Field(2, I64_LIST_TY, false)])
  const COLUMN_INDEX_TY: Ty := StructTy(
    [Field(1, ListTy(BoolTy), true), Field(2, ListTy(BytesTy), true), Field(3, ListTy(BytesTy), true),
     Field(4, I32_TY, true), Field(5, I64_LIST_TY, false), Field(6, I64_LIST_TY, false), Field(7, I64_LIST_TY, false)])
  const SORTING_COLUMN_TY: Ty := StructTy([Field(1, I32_TY, true), Field(2, BoolTy, true), Field(3, BoolTy, true)])
  const TIME_UNIT_TY: Ty := UnionTy([Field(1, EMPTY_TY, true), Field(2, EMPTY_TY, true), Field(3, EMPTY_TY, true)])

  // ---- Values of the structs as generic values ----

  function Map<A, B>(f: A -> B, xs: seq<A>): (ys: seq<B>)
    ensures |ys| == |xs| && forall i :: 0 <= i < |xs| ==> ys[i] == f(xs[i])
  {
    seq(|xs|, i requires 0 <= i < |xs| => f(xs[i]))
  }

  function IntsV(ns: seq<int>): (v: Value) {
    ListV(Map((n: int) => IntV(n), ns))
  }

  function OptIntsV(ns: Option<seq<int>>): (v: Option<Value>) {
    if ns.Some? then Some(IntsV(ns.value)) else None
  }

  function PageLocationV(x: PageLocation): (v: Value) {
    StructV([Some(IntV(x.offset)), Some(IntV(x.compressedPageSize)), Some(IntV(x.firstRowIndex))])
  }

  function OffsetIndexV(x: OffsetIndex): (v: Value) {
    StructV([Some(ListV(Map(PageLocationV, x.pageLocations))), OptIntsV(x.unencodedBytes)])
  }

  function ColumnIndexV(x: ColumnIndex): (v: Value) {
    StructV([Some(ListV(Map((b: bool) => BoolV(b), x.nullPages))),
             Some(ListV(Map((bs: seq<byte>) => BytesV(bs), x.minValues))),
             Some(ListV(Map((bs: seq<byte>) => BytesV(bs), x.maxValues))),
             Some(IntV(x.boundaryOrder)),
             OptIntsV(x.nullCounts), OptIntsV(x.repetitionHistograms), OptIntsV(x.definitionHistograms)])
  }

  function SortingColumnV(x: SortingColumn): (v: Value) {
    StructV([Some(IntV(x.columnIdx)), Some(BoolV(x.descending)), Some(BoolV(x.nullsFirst))])
  }

  function TimeUnitV(x: TimeUnit): (v: Value) {
    UnionV(match x case Millis => 0 case Micros => 1 case Nanos => 2, StructV([]))
  }

  // ---- Values the Rust structs can hold and the protocol can carry ----

  ghost predicate Int64s(ns: seq<int>) {
    |ns| < TWO_31 && forall i :: 0 <= i < |ns| ==> W64.Fits(ns[i])
  }

  ghost predicate OptInt64s(ns: Option<seq<int>>) {
    ns.Some? ==> Int64s(ns.value)
  }

  ghost predicate ByteStrings(bss: seq<seq<byte>>) {
    |bss| < TWO_31 && forall i :: 0 <= i < |bss| ==> |bss[i]| < TWO_32
  }

  ghost predicate IsPageLocation(x: PageLocation) {
    W64.Fits(x.offset) && W32.Fits(x.compressedPageSize) && W64.Fits(x.firstRowIndex)
  }

  ghost predicate IsOffsetIndex(x: OffsetIndex) {
    && |x.pageLocations| < TWO_31 && OptInt64s(x.unencodedBytes)
    && forall i :: 0 <= i < |x.pageLocations| ==> IsPageLocation(x.pageLocations[i])
  }

  ghost predicate IsColumnIndex(x: ColumnIndex) {
    && |x.nullPages| < TWO_31 && ByteStrings(x.minValues) && ByteStrings(x.maxValues) && W32.Fits(x.boundaryOrder)
    && OptInt64s(x.nullCounts) && OptInt64s(x.repetitionHistograms) && OptInt64s(x.definitionHistograms)
  }

  lemma IntsTyped(ns: seq<int>)
    requires Int64s(ns)
    ensures Typed(I64_LIST_TY, IntsV(ns))
  {
    forall i | 0 <= i < |ns| ensures Typed(I64_TY, IntsV(ns).items[i]) {
    }
  }

  lemma OptIntsTyped(id: int, ns: Option<seq<int>>)
    requires OptInt64s(ns)
    ensures TypedField(Field(id, I64_LIST_TY, false), OptIntsV(ns))
  {
    if ns.Some? {
      IntsTyped(ns.value);
    }
  }

  lemma BoolsTyped(bs: seq<bool>)
    requires |bs| < TWO_31
    ensures Typed(ListTy(BoolTy), ListV(Map((b: bool) => BoolV(b), bs)))
  {
    var v := ListV(Map((b: bool) => BoolV(b), bs));
    forall i | 0 <= i < |v.items| ensures Typed(BoolTy, v.items[i]) {
    }
  }

  lemma BytesTyped(bss: seq<seq<byte>>)
    requires ByteStrings(bss)
    ensures Typed(ListTy(BytesTy), ListV(Map((bs: seq<byte>) => BytesV(bs), bss)))
  {
    var v := ListV(Map((bs: seq<byte>) => BytesV(bs), bss));
    forall i | 0 <= i < |v.items| ensures Typed(BytesTy, v.items[i]) {
    }
  }

  lemma PageLocationTyped(x: PageLocation)
    requires IsPageLocation(x)
    ensures Typed(PAGE_LOCATION_TY, PageLocationV(x))
  {
    var slots := PageLocationV(x).slots;
    forall i | 0 <= i < 3 ensures TypedField(PAGE_LOCATION_FIELDS[i], slots[i]) {
    }
  }

  /** `PageLocation`: three required integers. */
  lemma PageLocationRoundTrip(x: PageLocation, p: Prot, suffix: seq<byte>)
    requires IsPageLocation(x) && p.pending == None
    ensures Typed(PAGE_LOCATION_TY, PageLocationV(x))
    ensures Read(PAGE_LOCATION_TY, p.(buf := Write(PAGE_LOCATION_TY, PageLocationV(x)) + suffix))
         == Good(PageLocationV(x), p.(buf := suffix))
  {
    PageLocationTyped(x);
    RoundTrip(PAGE_LOCATION_TY, PageLocationV(x), p, suffix);
  }

  lemma OffsetIndexTyped(x: OffsetIndex)
    requires IsOffsetIndex(x)
    ensures Typed(OFFSET_INDEX_TY, OffsetIndexV(x))
  {
    var fs, v := OFFSET_INDEX_TY.fields, OffsetIndexV(x);
    var locations := v.slots[0].value;
    forall i | 0 <= i < |locations.items| ensures Typed(PAGE_LOCATION_TY, locations.items[i]) {
      PageLocationTyped(x.pageLocations[i]);
    }
    assert TypedField(fs[0], v.slots[0]);
    OptIntsTyped(2, x.unencodedBytes);
    assert TypedField(fs[1], v.slots[1]);
    assert GoodIds(fs) && RequiredPresent(fs, v.slots);
  }

  /** `OffsetIndex`: a list of structs and an optional list. */
  lemma OffsetIndexRoundTrip(x: OffsetIndex, p: Prot, suffix: seq<byte>)
    requires IsOffsetIndex(x) && p.pending == None
    ensures Typed(OFFSET_INDEX_TY, OffsetIndexV(x))
    ensures Read(OFFSET_INDEX_TY, p.(buf := Write(OFFSET_INDEX_TY, OffsetIndexV(x)) + suffix))
         == Good(OffsetIndexV(x), p.(buf := suffix))
  {
    OffsetIndexTyped(x);
    RoundTrip(OFFSET_INDEX_TY, OffsetIndexV(x), p, suffix);
  }

  lemma ColumnIndexLists(x: ColumnIndex)
    requires IsColumnIndex(x)
    ensures var fs, v := COLUMN_INDEX_TY.fields, ColumnIndexV(x);
            TypedField(fs[0], v.slots[0]) && TypedField(fs[1], v.slots[1]) && TypedField(fs[2], v.slots[2])
  {
    BoolsTyped(x.nullPages);
    BytesTyped(x.minValues);
    BytesTyped(x.maxValues);
  }

  lemma ColumnIndexOptionals(x: ColumnIndex)
    requires IsColumnIndex(x)
    ensures var fs, v := COLUMN_INDEX_TY.fields, ColumnIndexV(x);
            TypedField(fs[4], v.slots[4]) && TypedField(fs[5], v.slots[5]) && TypedField(fs[6], v.slots[6])
  {
    OptIntsTyped(5, x.nullCounts);
    OptIntsTyped(6, x.repetitionHistograms);
    OptIntsTyped(7, x.definitionHistograms);
  }

  lemma ColumnIndexTyped(x: ColumnIndex)
    requires IsColumnIndex(x)
    ensures Typed(COLUMN_INDEX_TY, ColumnIndexV(x))
  {
    var fs, v := COLUMN_INDEX_TY.fields, ColumnIndexV(x);
    ColumnIndexLists(x);
    assert TypedField(fs[3], v.slots[3]);
    ColumnIndexOptionals(x);
    assert GoodIds(fs) && RequiredPresent(fs, v.slots);
  }

  /** `ColumnIndex`: lists of booleans and byte strings, an enum, optional lists. */
  lemma ColumnIndexRoundTrip(x: ColumnIndex, p: Prot, suffix: seq<byte>)
    requires IsColumnIndex(x) && p.pending == None
    ensures Typed(COLUMN_INDEX_TY, ColumnIndexV(x))
    ensures Read(COLUMN_INDEX_TY, p.(buf := Write(COLUMN_INDEX_TY, ColumnIndexV(x)) + suffix))
         == Good(ColumnIndexV(x), p.(buf := suffix))
  {
    ColumnIndexTyped(x);
    RoundTrip(COLUMN_INDEX_TY, ColumnIndexV(x), p, suffix);
  }

  /** `SortingColumn`: booleans whose values travel in the field headers. */
  lemma SortingColumnRoundTrip(x: SortingColumn, p: Prot, suffix: seq<byte>)
    requires W32.Fits(x.columnIdx) && p.pending == None
    ensures Typed(SORTING_COLUMN_TY, SortingColumnV(x))
    ensures Read(SORTING_COLUMN_TY, p.(buf := Write(SORTING_COLUMN_TY, SortingColumnV(x)) + suffix))
         == Good(SortingColumnV(x), p.(buf := suffix))
  {
    var fs, v := SORTING_COLUMN_TY.fields, SortingColumnV(x);
    forall i | 0 <= i < 3 ensures TypedField(fs[i], v.slots[i]) {
    }
    RoundTrip(SORTING_COLUMN_TY, v, p, suffix);
  }

  /** `TimeUnit`: a union of empty structs. */
  lemma TimeUnitRoundTrip(x: TimeUnit, p: Prot, suffix: seq<byte>)
    requires p.pending == None
    ensures Typed(TIME_UNIT_TY, TimeUnitV(x))
    ensures Read(TIME_UNIT_TY, p.(buf := Write(TIME_UNIT_TY, TimeUnitV(x)) + suffix))
         == Good(TimeUnitV(x), p.(buf := suffix))
  {
    assert Typed(EMPTY_TY, StructV([]));
    RoundTrip(TIME_UNIT_TY, TimeUnitV(x), p, suffix);
  }

  // ---- What is on the wire ----

  function BoolTrees(bs: seq<bool>): (ws: seq<Wire>) {
    seq(|bs|, i requires 0 <= i < |bs| => WBool(bs[i]))
  }

  function BytesTrees(bss: seq<seq<byte>>): (ws: seq<Wire>) {
    seq(|bss|, i requires 0 <= i < |bss| => WBytes(bss[i]))
  }

  function Int64Trees(ns: seq<int>): (ws: seq<Wire>) {
    seq(|ns|, i requires 0 <= i < |ns| => WInt(W64, ns[i]))
  }

  /** An optional list is a field or nothing. */
  function OptInt64Field(id: int, ns: Option<seq<int>>): (fs: seq<WField>) {
    if ns.Some? then [WField(id, WList(I64, Int64Trees(ns.value)))] else []
  }

  lemma {:induction false} ItemAt(elem: Ty, items: seq<Value>, k: nat)
    requires (forall i :: 0 <= i < |items| ==> Typed(elem, items[i])) && k < |items|
    ensures ToWireItems(elem, items)[k] == ToWire(elem, items[k])
  {
    if k > 0 {
      ItemAt(elem, items[1..], k - 1);
    }
  }

  /** A list is on the wire item by item. */
  lemma ListOnWire(elem: Ty, items: seq<Value>, trees: seq<Wire>)
    requires Typed(ListTy(elem), ListV(items)) && |trees| == |items|
    requires forall i :: 0 <= i < |items| ==> ToWire(elem, items[i]) == trees[i]
    ensures ToWire(ListTy(elem), ListV(items)) == WList(WireType(elem), trees)
  {
    forall k | 0 <= k < |items| ensures ToWireItems(elem, items)[k] == trees[k] {
      ItemAt(elem, items, k);
    }
  }

  ghost predicate TypedFields(fs: seq<Field>, slots: seq<Option<Value>>) {
    |slots| == |fs| && forall i :: 0 <= i < |fs| ==> TypedField(fs[i], slots[i])
  }

  ghost function Part(f: Field, slot: Option<Value>): (ws: seq<WField>)
    requires TypedField(f, slot)
  {
    if slot.Some? then [WField(f.id, ToWire(f.ty, slot.value))] else []
  }

  /** Fields are on the wire one after the other. */
  lemma FieldsOnWire(f: Field, fs: seq<Field>, slot: Option<Value>, slots: seq<Option<Value>>)
    requires TypedFields(fs, slots) && TypedField(f, slot)
    ensures TypedFields([f] + fs, [slot] + slots)
    ensures ToWireFields([f] + fs, [slot] + slots) == Part(f, slot) + ToWireFields(fs, slots)
  {
    HeadTail(f, fs);
    HeadTail(slot, slots);
  }

  lemma ThreeOnWire(fs: seq<Field>, slots: seq<Option<Value>>)
    requires |fs| == 3 && TypedFields(fs, slots)
    ensures ToWireFields(fs, slots) == Part(fs[0], slots[0]) + Part(fs[1], slots[1]) + Part(fs[2], slots[2])
  {
    TwoOnWire(fs[1..], slots[1..]);
    FieldsOnWire(fs[0], fs[1..], slots[0], slots[1..]);
    assert [fs[0]] + fs[1..] == fs && [slots[0]] + slots[1..] == slots;
  }

  lemma TwoOnWire(fs: seq<Field>, slots: seq<Option<Value>>)
    requires |fs| == 2 && TypedFields(fs, slots)
    ensures ToWireFields(fs, slots) == Part(fs[0], slots[0]) + Part(fs[1], slots[1])
  {
    FieldsOnWire(fs[1], [], slots[1], []);
    FieldsOnWire(fs[0], fs[1..], slots[0], slots[1..]);
    assert [fs[1]] + [] == fs[1..] && [slots[1]] + [] == slots[1..];
    assert [fs[0]] + fs[1..] == fs && [slots[0]] + slots[1..] == slots;
  }

  lemma {:induction false} FieldsAppend(fs: seq<Field>, gs: seq<Field>, slots: seq<Option<Value>>, ts: seq<Option<Value>>)
    requires TypedFields(fs, slots) && TypedFields(gs, ts)
    ensures TypedFields(fs + gs, slots + ts)
    ensures ToWireFields(fs + gs, slots + ts) == ToWireFields(fs, slots) + ToWireFields(gs, ts)
  {
    if fs == [] {
      assert fs + gs == gs && slots + ts == ts;
    } else {
      FieldsAppend(fs[1..], gs, slots[1..], ts);
      FieldsOnWire(fs[0], fs[1..] + gs, slots[0], slots[1..] + ts);
      FieldsOnWire(fs[0], fs[1..], slots[0], slots[1..]);
      assert [fs[0]] + fs[1..] == fs && [slots[0]] + slots[1..] == slots;
      assert [fs[0]] + (fs[1..] + gs) == fs + gs && [slots[0]] + (slots[1..] + ts) == slots + ts;
    }
  }

  /** Which member of a page location has which field number and type. */
  lemma PageLocationOnWire(x: PageLocation)
    requires IsPageLocation(x)
    ensures Typed(PAGE_LOCATION_TY, PageLocationV(x))
    ensures ToWire(PAGE_LOCATION_TY, PageLocationV(x))
         == WStruct([WField(1, WInt(W64, x.offset)), WField(2, WInt(W32, x.compressedPageSize)), WField(3, WInt(W64, x.firstRowIndex))])
  {
    PageLocationTyped(x);
    ThreeOnWire(PAGE_LOCATION_FIELDS, PageLocationV(x).slots);
  }

  lemma Int64sOnWire(ns: seq<int>)
    requires Int64s(ns)
    ensures Typed(I64_LIST_TY, IntsV(ns)) && ToWire(I64_LIST_TY, IntsV(ns)) == WList(I64, Int64Trees(ns))
  {
    IntsTyped(ns);
    ListOnWire(I64_TY, IntsV(ns).items, Int64Trees(ns));
  }

  lemma OptInt64sOnWire(id: int, ns: Option<seq<int>>)
    requires OptInt64s(ns)
    ensures TypedField(Field(id, I64_LIST_TY, false), OptIntsV(ns))
    ensures Part(Field(id, I64_LIST_TY, false), OptIntsV(ns)) == OptInt64Field(id, ns)
  {
    if ns.Some? {
      Int64sOnWire(ns.value);
    }
  }

  lemma OffsetIndexOnWire(x: OffsetIndex) returns (locations: seq<Wire>)
    requires IsOffsetIndex(x)
    ensures Typed(OFFSET_INDEX_TY, OffsetIndexV(x))
    ensures ToWire(OFFSET_INDEX_TY, OffsetIndexV(x))
         == WStruct([WField(1, WList(StructType, locations))] + OptInt64Field(2, x.unencodedBytes))
    ensures |locations| == |x.pageLocations|
    ensures forall i :: 0 <= i < |locations| ==>
              var l := x.pageLocations[i];
              locations[i] == WStruct([WField(1, WInt(W64, l.offset)), WField(2, WInt(W32, l.compressedPageSize)), WField(3, WInt(W64, l.firstRowIndex))])
  {
    OffsetIndexTyped(x);
    var items := Map(PageLocationV, x.pageLocations);
    locations := ToWireItems(PAGE_LOCATION_TY, items);
    forall i | 0 <= i < |locations| ensures locations[i] == ToWire(PAGE_LOCATION_TY, PageLocationV(x.pageLocations[i])) {
      ItemAt(PAGE_LOCATION_TY, items, i);
    }
    forall i | 0 <= i < |locations| {
      PageLocationOnWire(x.pageLocations[i]);
    }
    TwoOnWire(OFFSET_INDEX_TY.fields, OffsetIndexV(x).slots);
    OptInt64sOnWire(2, x.unencodedBytes);
  }

  lemma BytesOnWire(id: int, bss: seq<seq<byte>>)
    requires ByteStrings(bss)
    ensures Typed(ListTy(BytesTy), ListV(Map((bs: seq<byte>) => BytesV(bs), bss)))
    ensures Part(Field(id, ListTy(BytesTy), true), Some(ListV(Map((bs: seq<byte>) => BytesV(bs), bss))))
         == [WField(id, WList(StringType, BytesTrees(bss)))]
  {
    BytesTyped(bss);
    ListOnWire(BytesTy, Map((bs: seq<byte>) => BytesV(bs), bss), BytesTrees(bss));
  }

  lemma BoolsOnWire(id: int, bs: seq<bool>)
    requires |bs| < TWO_31
    ensures Typed(ListTy(BoolTy), ListV(Map((b: bool) => BoolV(b), bs)))
    ensures Part(Field(id, ListTy(BoolTy), true), Some(ListV(Map((b: bool) => BoolV(b), bs))))
         == [WField(id, WList(BoolType, BoolTrees(bs)))]
  {
    BoolsTyped(bs);
    ListOnWire(BoolTy, Map((b: bool) => BoolV(b), bs), BoolTrees(bs));
  }

  lemma IntOnWire(id: int, width: Width, n: int)
    requires width.Fits(n)
    ensures TypedField(Field(id, IntTy(width), true), Some(IntV(n)))
    ensures Part(Field(id, IntTy(width), true), Some(IntV(n))) == [WField(id, WInt(width, n))]
  {
  }

  lemma FirstTwoOnWire(x: ColumnIndex)
    requires IsColumnIndex(x)
    ensures var fs, slots := COLUMN_INDEX_TY.fields[..2], ColumnIndexV(x).slots[..2];
            && TypedFields(fs, slots)
            && ToWireFields(fs, slots) == [WField(1, WList(BoolType, BoolTrees(x.nullPages)))] + [WField(2, WList(StringType, BytesTrees(x.minValues)))]
  {
    BoolsOnWire(1, x.nullPages);
    BytesOnWire(2, x.minValues);
    TwoOnWire(COLUMN_INDEX_TY.fields[..2], ColumnIndexV(x).slots[..2]);
  }

  lemma NextTwoOnWire(x: ColumnIndex)
    requires IsColumnIndex(x)
    ensures var fs, slots := COLUMN_INDEX_TY.fields[2..4], ColumnIndexV(x).slots[2..4];
            && TypedFields(fs, slots)
            && ToWireFields(fs, slots) == [WField(3, WList(StringType, BytesTrees(x.maxValues)))] + [WField(4, WInt(W32, x.boundaryOrder))]
  {
    BytesOnWire(3, x.maxValues);
    IntOnWire(4, W32, x.boundaryOrder);
    TwoOnWire(COLUMN_INDEX_TY.fields[2..4], ColumnIndexV(x).slots[2..4]);
  }

  lemma OptionalsOnWire(x: ColumnIndex)
    requires IsColumnIndex(x)
    ensures var fs, slots := COLUMN_INDEX_TY.fields[4..], ColumnIndexV(x).slots[4..];
            && TypedFields(fs, slots)
            && ToWireFields(fs, slots)
            == OptInt64Field(5, x.nullCounts) + OptInt64Field(6, x.repetitionHistograms) + OptInt64Field(7, x.definitionHistograms)
  {
    OptInt64sOnWire(5, x.nullCounts);
    OptInt64sOnWire(6, x.repetitionHistograms);
    OptInt64sOnWire(7, x.definitionHistograms);
    ThreeOnWire(COLUMN_INDEX_TY.fields[4..], ColumnIndexV(x).slots[4..]);
  }

  lemma SplitFields(fs: seq<Field>, slots: seq<Option<Value>>)
    requires |fs| == |slots| == 7 && TypedFields(fs[..2], slots[..2]) && TypedFields(fs[2..4], slots[2..4]) && TypedFields(fs[4..], slots[4..])
    ensures TypedFields(fs, slots)
    ensures ToWireFields(fs, slots)
         == ToWireFields(fs[..2], slots[..2]) + ToWireFields(fs[2..4], slots[2..4]) + ToWireFields(fs[4..], slots[4..])
  {
    FieldsAppend(fs[..2], fs[2..4], slots[..2], slots[2..4]);
    assert fs[..2] + fs[2..4] == fs[..4] && slots[..2] + slots[2..4] == slots[..4];
    FieldsAppend(fs[..4], fs[4..], slots[..4], slots[4..]);
    assert fs[..4] + fs[4..] == fs && slots[..4] + slots[4..] == slots;
  }

  /** Which member of a column index has which field number and type. */
  lemma ColumnIndexOnWire(x: ColumnIndex)
    requires IsColumnIndex(x)
    ensures Typed(COLUMN_INDEX_TY, ColumnIndexV(x))
    ensures ToWire(COLUMN_INDEX_TY, ColumnIndexV(x))
         == WStruct([WField(1, WList(BoolType, BoolTrees(x.nullPages)))] + [WField(2, WList(StringType, BytesTrees(x.minValues)))]
                    + ([WField(3, WList(StringType, BytesTrees(x.maxValues)))] + [WField(4, WInt(W32, x.boundaryOrder))])
                    + (OptInt64Field(5, x.nullCounts) + OptInt64Field(6, x.repetitionHistograms) + OptInt64Field(7, x.definitionHistograms)))
  {
    ColumnIndexTyped(x);
    FirstTwoOnWire(x);
    NextTwoOnWire(x);
    OptionalsOnWire(x);
    SplitFields(COLUMN_INDEX_TY.fields, ColumnIndexV(x).slots);
  }

  lemma SortingColumnOnWire(x: SortingColumn)
    requires W32.Fits(x.columnIdx)
    ensures Typed(SORTING_COLUMN_TY, SortingColumnV(x))
    ensures ToWire(SORTING_COLUMN_TY, SortingColumnV(x))
         == WStruct([WField(1, WInt(W32, x.columnIdx)), WField(2, WBool(x.descending)), WField(3, WBool(x.nullsFirst))])
  {
    SortingColumnRoundTrip(x, Prot([], 0, [], None), []);
    ThreeOnWire(SORTING_COLUMN_TY.fields, SortingColumnV(x).slots);
  }

  lemma TimeUnitOnWire(x: TimeUnit)
    ensures Typed(TIME_UNIT_TY, TimeUnitV(x))
    ensures ToWire(TIME_UNIT_TY, TimeUnitV(x))
         == WStruct([WField(match x case Millis => 1 case Micros => 2 case Nanos => 3, WStruct([]))])
  {
    TimeUnitRoundTrip(x, Prot([], 0, [], None), []);
  }

  // ---- The bytes ----

  lemma FieldBytes(f: WField, fields: seq<WField>, last: int)
    ensures EncodeFields([f] + fields, last) == EncodeField(f, last) + EncodeFields(fields, f.id)
  {
    HeadTail(f, fields);
  }

  lemma ThreeFieldBytes(a: WField, b: WField, c: WField)
    ensures Encode(WStruct([a, b, c])) == EncodeField(a, 0) + (EncodeField(b, a.id) + (EncodeField(c, b.id) + [0]))
  {
    FieldBytes(c, [], b.id);
    FieldBytes(b, [c], a.id);
    FieldBytes(a, [b, c], 0);
    assert [c] + [] == [c] && [b] + [c] == [b, c] && [a] + [b, c] == [a, b, c];
  }

  /** Headers are the step to the field's number and the type code: 6 for 64 bits,
      5 for 32 bits. The stop byte is 0. */
  lemma PageLocationBytes(x: PageLocation)
    requires IsPageLocation(x)
    ensures Typed(PAGE_LOCATION_TY, PageLocationV(x))
    ensures Write(PAGE_LOCATION_TY, PageLocationV(x))
         == ([0x16] + IntBytes(x.offset)) + (([0x15] + IntBytes(x.compressedPageSize)) + (([0x16] + IntBytes(x.firstRowIndex)) + [0]))
  {
    PageLocationOnWire(x);
    ThreeFieldBytes(WField(1, WInt(W64, x.offset)), WField(2, WInt(W32, x.compressedPageSize)), WField(3, WInt(W64, x.firstRowIndex)));
  }

  /** Booleans are in their headers: 1 for true and 2 for false. */
  lemma SortingColumnBytes(x: SortingColumn)
    requires W32.Fits(x.columnIdx)
    ensures Typed(SORTING_COLUMN_TY, SortingColumnV(x))
    ensures Write(SORTING_COLUMN_TY, SortingColumnV(x))
         == ([0x15] + IntBytes(x.columnIdx)) + ([if x.descending then 0x11 else 0x12] + ([if x.nullsFirst then 0x11 else 0x12] + [0]))
  {
    SortingColumnOnWire(x);
    ThreeFieldBytes(WField(1, WInt(W32, x.columnIdx)), WField(2, WBool(x.descending)), WField(3, WBool(x.nullsFirst)));
    BoolFieldBytes(2, x.descending);
    BoolFieldBytes(3, x.nullsFirst);
  }

  lemma BoolFieldBytes(id: int, b: bool)
    ensures EncodeField(WField(id, WBool(b)), id - 1) == [if b then 0x11 else 0x12]
  {
  }

  /** The alternative is in the header, and its empty struct is a stop byte. */
  lemma TimeUnitBytes(x: TimeUnit)
    ensures Typed(TIME_UNIT_TY, TimeUnitV(x))
    ensures Write(TIME_UNIT_TY, TimeUnitV(x)) == [match x case Millis => 0x1C case Micros => 0x2C case Nanos => 0x3C, 0, 0]
  {
    TimeUnitOnWire(x);
    var f := WField(match x case Millis => 1 case Micros => 2 case Nanos => 3, WStruct([]));
    FieldBytes(f, [], 0);
    assert [f] + [] == [f];
    assert Encode(WStruct([])) == [0];
  }

  /** Booleans in lists are a byte each: 1 for true and 2 for false. */
  lemma {:induction false} BoolItemsBytes(bs: seq<bool>)
    ensures EncodeItems(BoolTrees(bs)) == seq(|bs|, i requires 0 <= i < |bs| => if bs[i] then 1 else 2)
  {
    if bs != [] {
      BoolItemsBytes(bs[1..]);
      assert BoolTrees(bs)[1..] == BoolTrees(bs[1..]);
      assert EncodeItems(BoolTrees(bs)) == [if bs[0] then 1 else 2] + EncodeItems(BoolTrees(bs[1..]));
    }
  }

  /** A list: the header of its field, type and number of its items, and the items. */
  lemma ByteStringsBytes(id: int, bss: seq<seq<byte>>)
    ensures EncodeField(WField(id, WList(StringType, BytesTrees(bss))), id - 1)
         == [0x19] + (if |bss| < 15 then [16 * |bss| + 8] else [0xF8] + VlqBytes(|bss|)) + EncodeItems(BytesTrees(bss))
  {
    Assoc<byte>([0x19], ListHeader(StringType, |bss|), EncodeItems(BytesTrees(bss)));
  }

  /** The generic value determines the struct, so no information is lost. */
  lemma ColumnIndexVInjective(x: ColumnIndex, y: ColumnIndex)
    requires ColumnIndexV(x) == ColumnIndexV(y)
    ensures x == y
  {
    var a, b := ColumnIndexV(x).slots, ColumnIndexV(y).slots;
    BoolsInjective(x.nullPages, y.nullPages);
    StringsInjective(x.minValues, y.minValues);
    StringsInjective(x.maxValues, y.maxValues);
    OptIntsInjective(x.nullCounts, y.nullCounts);
    OptIntsInjective(x.repetitionHistograms, y.repetitionHistograms);
    OptIntsInjective(x.definitionHistograms, y.definitionHistograms);
  }

  lemma BoolsInjective(a: seq<bool>, b: seq<bool>)
    ensures Map((x: bool) => BoolV(x), a) == Map((x: bool) => BoolV(x), b) ==> a == b
  {
    if Map((x: bool) => BoolV(x), a) == Map((x: bool) => BoolV(x), b) {
      forall i | 0 <= i < |a| ensures a[i] == b[i] {
        assert Map((x: bool) => BoolV(x), a)[i] == BoolV(b[i]);
      }
    }
  }

  lemma StringsInjective(a: seq<seq<byte>>, b: seq<seq<byte>>)
    ensures Map((x: seq<byte>) => BytesV(x), a) == Map((x: seq<byte>) => BytesV(x), b) ==> a == b
  {
    if Map((x: seq<byte>) => BytesV(x), a) == Map((x: seq<byte>) => BytesV(x), b) {
      forall i | 0 <= i < |a| ensures a[i] == b[i] {
        assert Map((x: seq<byte>) => BytesV(x), a)[i] == BytesV(b[i]);
      }
    }
  }

  lemma OptIntsInjective(a: Option<seq<int>>, b: Option<seq<int>>)
    requires OptIntsV(a) == OptIntsV(b)
    ensures a == b
  {
    if a.Some? {
      forall i | 0 <= i < |a.value| ensures a.value[i] == b.value[i] {
        assert IntsV(a.value).items[i] == IntV(b.value[i]);
      }
      assert |a.value| == |IntsV(a.value).items| == |IntsV(b.value).items| == |b.value|;
      assert a.value == b.value;
    }
  }
}

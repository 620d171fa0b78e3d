/**
  Schema inference for CSV files: each column starts with the narrowest type and
  is widened by the sampled values, and the first record is taken for a header
  if a column's type refuses its field there.
*/
module CsvSchema {
  import opened Basics

  datatype Candidate = Boolean | Int64 | Float64 | Timestamp | Utf8

  /** What the number parsers accept. */
  datatype Parsers = Parsers(isInt: string -> bool, isFloat: string -> bool)

  predicate IsBool(s: string) {
    s in ["t", "true", "TRUE", "T", "f", "false", "FALSE", "F"]
  }

  function UpperCase(s: string): (u: string) {
    seq(|s|, i requires 0 <= i < |s| => if 'a' <= s[i] <= 'z' then (s[i] as int - 32) as char else s[i])
  }

  /** Booleans are four words, in lower case or in upper case, and not in both mixed. */
  lemma IsBoolIff(s: string)
    ensures IsBool(s) <==> exists w :: w in ["t", "true", "f", "false"] && (s == w || s == UpperCase(w))
  {
    assert UpperCase("t") == "T" && UpperCase("true") == "TRUE" && UpperCase("f") == "F" && UpperCase("false") == "FALSE";
    if IsBool(s) {
      var w := if s in ["t", "T"] then "t" else if s in ["true", "TRUE"] then "true" else if s in ["f", "F"] then "f" else "false";
      assert w in ["t", "true", "f", "false"] && (s == w || s == UpperCase(w));
    }
  }

  /** Every integer is a float, and no boolean is. */
  ghost predicate Nested(p: Parsers) {
    && (forall s :: p.isInt(s) ==> p.isFloat(s))
    && (forall s :: IsBool(s) ==> !p.isFloat(s))
  }

  predicate IsValid(p: Parsers, c: Candidate, input: string) {
    match c
    case Boolean => IsBool(input)
    case Int64 => p.isInt(input)
    case Float64 => p.isFloat(input)
    case Timestamp => false
    case Utf8 => true
  }

  function Rank(c: Candidate): (n: nat) {
    match c
    case Boolean => 0
    case Int64 => 1
    case Float64 => 2
    case Timestamp => 3
    case Utf8 => 4
  }

  /** The narrowest type that is no narrower than `c` and accepts the input. */
  function Update(p: Parsers, c: Candidate, input: string): (r: Candidate)
    ensures input == "" ==> r == c
    ensures input != "" ==> Rank(r) >= Rank(c) && IsValid(p, r, input)
    ensures input != "" ==> forall d :: Rank(c) <= Rank(d) < Rank(r) ==> !IsValid(p, d, input)
    decreases 4 - Rank(c)
  {
    if input == "" then c
    else
      match c
      case Boolean => if IsBool(input) then c else Update(p, Int64, input)
      case Int64 => if p.isInt(input) then c else Update(p, Float64, input)
      case Float64 => if p.isFloat(input) then c else Update(p, Timestamp, input)
      case Timestamp => Utf8
      case Utf8 => c
  }

  /** The type of a column after its sampled values. */
  function Column(p: Parsers, vs: seq<string>): (c: Candidate) {
    if vs == [] then Boolean else Update(p, Column(p, vs[..|vs| - 1]), vs[|vs| - 1])
  }

  /** More values never narrow a column, and no column ends as a timestamp. */
  lemma {:induction false} ColumnOnlyWidens(p: Parsers, vs: seq<string>, n: nat)
    requires n <= |vs|
    ensures Rank(Column(p, vs[..n])) <= Rank(Column(p, vs)) && Column(p, vs) != Timestamp
  {
    if n < |vs| {
      var init := vs[..|vs| - 1];
      ColumnOnlyWidens(p, init, n);
      assert init[..n] == vs[..n];
    } else if vs != [] {
      assert vs[..n] == vs;
      ColumnOnlyWidens(p, vs[..n - 1], 0);
    }
  }

  predicate Blank(s: string) {
    s == ""
  }

  /** Empty values aside, all pass. */
  predicate All(accepts: string -> bool, vs: seq<string>) {
    forall i :: 0 <= i < |vs| ==> Blank(vs[i]) || accepts(vs[i])
  }

  /** How many values the column stays Boolean for. */
  function Lead(vs: seq<string>): (k: nat)
    ensures k <= |vs| && All(IsBool, vs[..k])
    ensures k < |vs| ==> !Blank(vs[k]) && !IsBool(vs[k])
  {
    if vs == [] then 0
    else
      var init, last := vs[..|vs| - 1], vs[|vs| - 1];
      var k := Lead(init);
      assert init[..k] == vs[..k];
      if k == |init| && (Blank(last) || IsBool(last)) then |vs| else k
  }

  /** The type that the values behind the leading Booleans decide on. */
  function TypeOf(p: Parsers, rest: seq<string>): (c: Candidate) {
    if rest == [] then Boolean
    else if All(p.isInt, rest) then Int64
    else if All(p.isFloat, rest) then Float64
    else Utf8
  }

  lemma AllSnoc(accepts: string -> bool, vs: seq<string>, v: string)
    ensures All(accepts, vs + [v]) <==> All(accepts, vs) && (Blank(v) || accepts(v))
  {
    if All(accepts, vs + [v]) {
      assert (vs + [v])[|vs|] == v;
      forall i | 0 <= i < |vs| ensures Blank(vs[i]) || accepts(vs[i]) {
        assert (vs + [v])[i] == vs[i];
      }
    }
  }

  lemma AllFloat(p: Parsers, vs: seq<string>)
    requires Nested(p) && All(p.isInt, vs)
    ensures All(p.isFloat, vs)
  {
  }

  lemma TypeOfSnoc(p: Parsers, rest: seq<string>, v: string)
    requires Nested(p) && (rest != [] || (!Blank(v) && !IsBool(v)))
    ensures TypeOf(p, rest + [v]) == Update(p, TypeOf(p, rest), v)
  {
    AllSnoc(p.isInt, rest, v);
    AllSnoc(p.isFloat, rest, v);
    if All(p.isInt, rest) {
      AllFloat(p, rest);
    }
  }

  /** A column in one look: the leading Booleans are ignored unless there is nothing else. */
  lemma {:induction false} ColumnIsTypeOf(p: Parsers, vs: seq<string>)
    requires Nested(p)
    ensures Column(p, vs) == TypeOf(p, vs[Lead(vs)..])
  {
    if vs != [] {
      var init, last := vs[..|vs| - 1], vs[|vs| - 1];
      ColumnIsTypeOf(p, init);
      var k := Lead(init);
      if Lead(vs) == |vs| {
        assert init[k..] == [];
      } else {
        assert vs[k..] == init[k..] + [last];
        TypeOfSnoc(p, init[k..], last);
      }
    }
  }

  /** From the first value that is not Boolean on, the column accepts what it has seen. */
  lemma AcceptsAfterLead(p: Parsers, vs: seq<string>)
    requires Nested(p)
    ensures forall i :: Lead(vs) <= i < |vs| && !Blank(vs[i]) ==> IsValid(p, Column(p, vs), vs[i])
  {
    var k := Lead(vs);
    ColumnIsTypeOf(p, vs);
    forall i | k <= i < |vs| && !Blank(vs[i]) ensures IsValid(p, Column(p, vs), vs[i]) {
      assert vs[k..][i - k] == vs[i];
    }
  }

  /** A column accepts everything it has seen, unless Booleans come before numbers. */
  lemma AcceptsAllIff(p: Parsers, vs: seq<string>)
    requires Nested(p)
    ensures var k := Lead(vs);
            (forall i :: 0 <= i < |vs| && !Blank(vs[i]) ==> IsValid(p, Column(p, vs), vs[i]))
            <==> (k == |vs| || !All(p.isFloat, vs[k..]) || forall i :: 0 <= i < k ==> Blank(vs[i]))
  {
    var k := Lead(vs);
    ColumnIsTypeOf(p, vs);
    AcceptsAfterLead(p, vs);
    forall i | 0 <= i < k ensures Blank(vs[i]) || IsBool(vs[i]) {
      assert vs[..k][i] == vs[i];
    }
    if All(p.isInt, vs[k..]) {
      AllFloat(p, vs[k..]);
    }
  }

  /** A Boolean before an integer: the column becomes Int64 and refuses the Boolean. */
  lemma BooleanBeforeInteger(p: Parsers)
    requires Nested(p) && p.isInt("1")
    ensures Column(p, ["true", "1"]) == Int64 && !IsValid(p, Int64, "true")
  {
    var vs := ["true", "1"];
    assert vs[..1] == ["true"] && ["true"][..0] == [];
    assert Column(p, ["true"]) == Update(p, Column(p, []), "true") == Boolean;
    assert IsBool("true");
  }

  // ---- Records ----

  type Text = seq<byte> -> Option<string>

  type Record = seq<seq<byte>>

  /** A record's fields update the columns they stand in; a field that is no text is an error. */
  ghost predicate RowUpdates(p: Parsers, utf8: Text, cs: seq<Candidate>, rec: Record, cs': seq<Candidate>) {
    && |cs'| == |cs|
    && forall j :: 0 <= j < |cs| ==>
         if j < |rec| then utf8(rec[j]).Some? && cs'[j] == Update(p, cs[j], utf8(rec[j]).value) else cs'[j] == cs[j]
  }

  /** Some field that stands in one of the first `n` columns is no text. */
  ghost predicate BadText(utf8: Text, n: nat, records: seq<Record>) {
    exists i, j {:trigger records[i][j]} :: 0 <= i < |records| && 0 <= j < n && j < |records[i]| && utf8(records[i][j]).None?
  }

  /** The values that a column has in some records. */
  function Values(utf8: Text, records: seq<Record>, j: nat): (vs: seq<string>) {
    if records == [] then []
    else
      var init, rec := records[..|records| - 1], records[|records| - 1];
      if j < |rec| && utf8(rec[j]).Some? then Values(utf8, init, j) + [utf8(rec[j]).value] else Values(utf8, init, j)
  }

  /** The columns' types after the records. */
  function Columns(p: Parsers, utf8: Text, n: nat, records: seq<Record>): (cs: seq<Candidate>) {
    seq(n, j requires j >= 0 => Column(p, Values(utf8, records, j)))
  }

  lemma ColumnsSnoc(p: Parsers, utf8: Text, n: nat, records: seq<Record>, rec: Record, cs: seq<Candidate>)
    requires RowUpdates(p, utf8, Columns(p, utf8, n, records), rec, cs)
    ensures cs == Columns(p, utf8, n, records + [rec])
  {
    assert (records + [rec])[..|records|] == records;
    forall j | 0 <= j < n ensures cs[j] == Columns(p, utf8, n, records + [rec])[j] {
      if j < |rec| {
        var vs, v := Values(utf8, records, j), utf8(rec[j]).value;
        assert (vs + [v])[..|vs|] == vs;
      }
    }
  }

  /** Types that a scan can write. */
  predicate Handled(c: Candidate) {
    c in {Boolean, Int64, Float64, Utf8}
  }

  lemma ColumnsAreHandled(p: Parsers, utf8: Text, n: nat, records: seq<Record>)
    ensures forall c <- Columns(p, utf8, n, records) :: Handled(c)
  {
    forall j | 0 <= j < n ensures Handled(Columns(p, utf8, n, records)[j]) {
      ColumnOnlyWidens(p, Values(utf8, records, j), 0);
    }
  }

  datatype Name = Header(text: string) | Generated(index: nat)

  datatype Schema = Schema(names: seq<Name>, types: seq<Candidate>, hasHeader: bool)

  function TextOrEmpty(utf8: Text, field: seq<byte>): (s: string) {
    if utf8(field).Some? then utf8(field).value else ""
  }

  /** Some column refuses its field of the first record. */
  ghost predicate FirstRefused(p: Parsers, utf8: Text, cs: seq<Candidate>, first: Record)
    requires |cs| == |first|
  {
    exists j :: 0 <= j < |first| && !IsValid(p, cs[j], TextOrEmpty(utf8, first[j]))
  }

  /** The first record is a header exactly if it would widen a column, or is empty in a
      column that does not hold text. So a file of text columns has none. */
  lemma HeaderIff(p: Parsers, utf8: Text, cs: seq<Candidate>, first: Record)
    requires |cs| == |first|
    ensures FirstRefused(p, utf8, cs, first) <==>
            exists j :: 0 <= j < |first| && cs[j] != Utf8 && var text := TextOrEmpty(utf8, first[j]);
                        if text == "" then !IsValid(p, cs[j], "") else Update(p, cs[j], text) != cs[j]
  {
    forall j | 0 <= j < |first|
      ensures !IsValid(p, cs[j], TextOrEmpty(utf8, first[j])) <==>
              cs[j] != Utf8 && var text := TextOrEmpty(utf8, first[j]);
              if text == "" then !IsValid(p, cs[j], "") else Update(p, cs[j], text) != cs[j]
    {
    }
  }

  /** The schema for some sampled records; an error if there are none, or if a
      field that is looked at is no text. */
  method InferFromRecords(p: Parsers, utf8: Text, records: seq<Record>) returns (r: Option<Schema>)
    ensures records == [] ==> r.None?
    ensures records != [] ==>
              var first, rest := records[0], records[1..];
              var cs := Columns(p, utf8, |first|, rest);
              var header := FirstRefused(p, utf8, cs, first);
              && (r.None? <==> BadText(utf8, |first|, rest) || (header && BadText(utf8, |first|, [first])))
              && (r.Some? ==> r.value.types == cs && r.value.hasHeader == header && Named(utf8, first, r.value))
              && (r.Some? ==> forall c <- r.value.types :: Handled(c))
  {
    if |records| == 0 {
      return None;
    }
    var first := records[0];
    var candidates := new Candidate[|first|](_ => Boolean);
    ghost var rest := records[1..];
    var ok := UpdateAll(p, utf8, records, candidates);
    if !ok {
      return None;
    }
    ColumnsAreHandled(p, utf8, |first|, rest);
    var hasHeader := Refuses(p, utf8, candidates[..], first);
    if !hasHeader {
      return Some(Schema(seq(|first|, j requires j >= 0 => Generated(j)), candidates[..], false));
    }
    var names := HeaderNames(utf8, first);
    if names.None? {
      return None;
    }
    r := Some(Schema(names.value, candidates[..], true));
  }

  /** Names come from the header, or from the position. */
  ghost predicate Named(utf8: Text, first: Record, schema: Schema) {
    && |schema.names| == |first|
    && forall j :: 0 <= j < |first| ==>
         if schema.hasHeader then utf8(first[j]).Some? && schema.names[j] == Header(utf8(first[j]).value)
         else schema.names[j] == Generated(j)
  }

  /** Every record but the first updates the candidates. */
  method UpdateAll(p: Parsers, utf8: Text, records: seq<Record>, candidates: array<Candidate>) returns (ok: bool)
    requires records != [] && forall j :: 0 <= j < candidates.Length ==> candidates[j] == Boolean
    modifies candidates
    ensures ok <==> !BadText(utf8, candidates.Length, records[1..])
    ensures ok ==> candidates[..] == Columns(p, utf8, candidates.Length, records[1..])
  {
    ghost var rest := records[1..];
    for i := 1 to |records|
      invariant candidates[..] == Columns(p, utf8, candidates.Length, rest[..i - 1])
      invariant !BadText(utf8, candidates.Length, rest[..i - 1])
    {
      ghost var cs := candidates[..];
      assert rest[..i] == rest[..i - 1] + [records[i]];
      ok := UpdateRow(p, utf8, records[i], candidates);
      if !ok {
        assert rest[i - 1] == records[i];
        return;
      }
      ColumnsSnoc(p, utf8, candidates.Length, rest[..i - 1], records[i], candidates[..]);
    }
    assert rest[..|records| - 1] == rest;
    ok := true;
  }

  /** One record's fields, as far as there are columns for them. */
  method UpdateRow(p: Parsers, utf8: Text, rec: Record, candidates: array<Candidate>) returns (ok: bool)
    modifies candidates
    ensures ok <==> forall j :: 0 <= j < candidates.Length && j < |rec| ==> utf8(rec[j]).Some?
    ensures ok ==> RowUpdates(p, utf8, old(candidates[..]), rec, candidates[..])
  {
    for j := 0 to Min(candidates.Length, |rec|)
      invariant forall i :: 0 <= i < j ==> utf8(rec[i]).Some? && candidates[i] == Update(p, old(candidates[i]), utf8(rec[i]).value)
      invariant forall i :: j <= i < candidates.Length ==> candidates[i] == old(candidates[i])
    {
      var field := utf8(rec[j]);
      if field.None? {
        return false;
      }
      candidates[j] := Update(p, candidates[j], field.value);
    }
    ok := true;
  }

  method Refuses(p: Parsers, utf8: Text, cs: seq<Candidate>, first: Record) returns (b: bool)
    requires |cs| == |first|
    ensures b == FirstRefused(p, utf8, cs, first)
  {
    for j := 0 to |first|
      invariant forall i :: 0 <= i < j ==> IsValid(p, cs[i], TextOrEmpty(utf8, first[i]))
    {
      if !IsValid(p, cs[j], TextOrEmpty(utf8, first[j])) {
        return true;
      }
    }
    b := false;
  }

  method HeaderNames(utf8: Text, first: Record) returns (names: Option<seq<Name>>)
    ensures names.None? <==> BadText(utf8, |first|, [first])
    ensures names.Some? ==> |names.value| == |first|
                            && forall j :: 0 <= j < |first| ==> utf8(first[j]).Some? && names.value[j] == Header(utf8(first[j]).value)
  {
    var ns := [];
    for j := 0 to |first|
      invariant |ns| == j
      invariant forall i :: 0 <= i < j ==> utf8(first[i]).Some? && ns[i] == Header(utf8(first[i]).value)
    {
      var name := utf8(first[j]);
      if name.None? {
        assert utf8([first][0][j]).None?;
        return None;
      }
      ns := ns + [Header(name.value)];
    }
    names := Some(ns);
  }
}

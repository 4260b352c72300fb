/** How a tuple is laid out in a record - null bitmap, fixed header, variable area -
    with the decoder and the fast path that reads one column from the bytes
    (src/tables.rs). */
module RecordCodec {
  import opened Bytes
  import opened Outcomes
  import opened Values
  import opened NullBitmap

  // ----- one column

  function PutI32(i: i32): Bytes {
    ToBE(if i < 0 then i + 0x1_0000_0000 else i, 4)
  }

  function GetI32(b: Bytes): i32
    requires |b| == 4
  {
    FourBytes(b);
    var n := FromBE(b);
    if n < 0x8000_0000 then n else n - 0x1_0000_0000
  }

  function GetU32(b: Bytes): u32
    requires |b| == 4
  {
    FourBytes(b);
    FromBE(b)
  }

  lemma {:induction false} FromBEBound(b: Bytes)
    ensures FromBE(b) < Pow256(|b|)
  {
    if b != [] { FromBEBound(b[..|b| - 1]); }
  }

  lemma FourBytes(b: Bytes)
    requires |b| == 4
    ensures FromBE(b) < 0x1_0000_0000
  {
    Widths();
    FromBEBound(b);
  }

  lemma IntRoundTrip(i: i32)
    ensures GetI32(PutI32(i)) == i
  {
    Widths();
    FromBEToBE(if i < 0 then i + 0x1_0000_0000 else i, 4);
  }

  lemma FloatRoundTrip(bits: u32)
    ensures GetU32(ToBE(bits, 4)) == bits
  {
    Widths();
    FromBEToBE(bits, 4);
  }

  /** The bytes a value puts into the header; `offset` is where its variable part goes. */
  function FixedPart(v: Value, t: DataType, offset: nat): (b: Bytes)
    ensures Conforms(v, t) ==> |b| == Width(t)
  {
    match v
    case Int(i) => PutI32(i)
    case Float(bits) => ToBE(bits, 4)
    case Boolean(b) => [if b then 1 else 0]
    case VarChar(s) => Put16(offset) + Put16(|s|)
    case Blob(data) => Put16(offset) + Put16(|data|)
    case Null => Zeros(Width(t))
  }

  function VarPart(v: Value): Bytes {
    match v
    case VarChar(s) => s
    case Blob(data) => data
    case _ => []
  }

  /** What `header_size` counts for a value: nothing for a Null. */
  function HeaderCost(v: Value): nat {
    match v
    case Boolean(_) => 1
    case Null => 0
    case _ => 4
  }

  /** Reading a column's bytes at `pos`; slicing past the end panics. */
  function ReadColumn(bytes: Bytes, t: DataType, pos: nat): Outcome<Value> {
    match t
    case IntType => if pos + 4 > |bytes| then Panic else Ok(Int(GetI32(bytes[pos..pos + 4])))
    case FloatType => if pos + 4 > |bytes| then Panic else Ok(Float(GetU32(bytes[pos..pos + 4])))
    case BooleanType => if pos >= |bytes| then Panic else Ok(Boolean(bytes[pos] == 1))
    case VarCharType =>
      var s :- ReadVariable(bytes, pos);
      if ValidUtf8(s) then Ok(VarChar(s)) else Err(Utf8)
    case BlobType =>
      var data :- ReadVariable(bytes, pos);
      Ok(Blob(data))
  }

  function ReadVariable(bytes: Bytes, pos: nat): Outcome<Bytes> {
    if pos + 4 > |bytes| then Panic
    else
      var offset, size := U16At(bytes, pos), U16At(bytes, pos + 2);
      if offset + size > |bytes| then Panic else Ok(bytes[offset..offset + size])
  }

  /** Two's complement. */
  lemma IntBytes(i: i32)
    ensures FromBE(PutI32(i)) == if i < 0 then i + 0x1_0000_0000 else i
  {
    Widths();
    FromBEToBE(if i < 0 then i + 0x1_0000_0000 else i, 4);
  }

  /** A column of fixed width, whatever the bytes: reading panics exactly if they end
      too early, and otherwise answers the value that is stored as these bytes; of a
      Boolean 1 is true and anything else false, or for `get_attr` refused. */
  lemma FixedReadExactly(bytes: Bytes, t: DataType, pos: nat)
    requires !t.VarCharType? && !t.BlobType?
    ensures ReadColumn(bytes, t, pos) == Panic <==> pos + Width(t) > |bytes|
    ensures pos + Width(t) <= |bytes| ==>
              var r, stored := ReadColumn(bytes, t, pos), bytes[pos..pos + Width(t)];
              && r.Ok? && TypeOf(r.value) == Some(t)
              && (t.BooleanType? ==> r == Ok(Boolean(stored == [1])))
              && (!t.BooleanType? ==> FixedPart(r.value, t, 0) == stored)
    ensures ReadAttr(bytes, t, pos) ==
              if t.BooleanType? && pos < |bytes| && bytes[pos] > 1 then Err(IntConversion)
              else ReadColumn(bytes, t, pos)
  {
    hide FromBE, ToBE;
    if pos + Width(t) <= |bytes| {
      var stored := bytes[pos..pos + Width(t)];
      if t.BooleanType? { assert stored == [bytes[pos]]; }
      else {
        FourBytes(stored);
        ToBEFromBE(stored);
      }
    }
  }

  /** A string or blob, likewise: four bytes say where it is and how long. */
  lemma VariableReadExactly(bytes: Bytes, t: DataType, pos: nat)
    requires t.VarCharType? || t.BlobType?
    ensures ReadAttr(bytes, t, pos) == ReadColumn(bytes, t, pos)
    ensures pos + 4 > |bytes| ==> ReadColumn(bytes, t, pos) == Panic
    ensures pos + 4 <= |bytes| ==>
              var offset, size := FromBE(bytes[pos..pos + 2]), FromBE(bytes[pos + 2..pos + 4]);
              ReadColumn(bytes, t, pos) ==
                if offset + size > |bytes| then Panic
                else if t.BlobType? then Ok(Blob(bytes[offset..offset + size]))
                else if ValidUtf8(bytes[offset..offset + size]) then Ok(VarChar(bytes[offset..offset + size]))
                else Err(Utf8)
  {
    hide ValidUtf8;
    if pos + 4 <= |bytes| {
      TwoBytes(bytes, pos);
      TwoBytes(bytes, pos + 2);
    }
  }

  lemma TwoBytes(bytes: Bytes, pos: nat)
    requires pos + 2 <= |bytes|
    ensures FromBE(bytes[pos..pos + 2]) == U16At(bytes, pos)
  {
    TwoDigits(bytes[pos..pos + 2]);
  }

  // ----- whole tuples

  function HeaderCosts(vals: Tuple): nat {
    if vals == [] then 0 else HeaderCost(vals[0]) + HeaderCosts(vals[1..])
  }

  function HeaderSize(vals: Tuple): nat {
    BitmapLength(|vals|) + HeaderCosts(vals)
  }

  /** The header from column i on, the next variable part going to `offset`. */
  function HeaderFrom(vals: Tuple, schema: Schema, i: nat, offset: nat): Bytes
    requires i <= |vals|
    decreases |vals| - i
  {
    if i == |vals| || i >= |schema| then []
    else FixedPart(vals[i], schema[i].dataType, offset)
         + HeaderFrom(vals, schema, i + 1, offset + |VarPart(vals[i])|)
  }

  function VariableFrom(vals: Tuple, schema: Schema, i: nat): Bytes
    requires i <= |vals|
    decreases |vals| - i
  {
    if i == |vals| || i >= |schema| then []
    else VarPart(vals[i]) + VariableFrom(vals, schema, i + 1)
  }

  function Encode(vals: Tuple, schema: Schema): Bytes {
    Bitmap(vals) + HeaderFrom(vals, schema, 0, HeaderSize(vals)) + VariableFrom(vals, schema, 0)
  }

  const EXAMPLE: Tuple := [Int(-2), VarChar([97, 98]), Boolean(true)]
  const EXAMPLE_SCHEMA: Schema := [Column([105], IntType, false), Column([115], VarCharType, true),
                                   Column([98], BooleanType, true)]

  /** The bytes of one record: no Null, -2, the string "ab" 10 bytes in, true; then "ab". */
  lemma RecordExample()
    ensures Encode(EXAMPLE, EXAMPLE_SCHEMA) == [0, 0xFF, 0xFF, 0xFF, 0xFE, 0, 10, 0, 2, 1, 97, 98]
  {
    hide Bitmap, HeaderFrom, VariableFrom, HeaderSize;
    NoNullBitmap(EXAMPLE);
    ExampleSize();
    ExampleHeader();
    ExampleVariables();
  }

  lemma ExampleSize()
    ensures HeaderSize(EXAMPLE) == 10
  {
    assert EXAMPLE[1..] == [VarChar([97, 98]), Boolean(true)] && EXAMPLE[1..][1..] == [Boolean(true)];
    assert EXAMPLE[1..][1..][1..] == [] && HeaderCosts(EXAMPLE[1..][1..][1..]) == 0;
    assert HeaderCosts(EXAMPLE[1..][1..]) == 1;
    assert HeaderCosts(EXAMPLE[1..]) == 5;
  }

  lemma ExampleHeader()
    ensures HeaderFrom(EXAMPLE, EXAMPLE_SCHEMA, 0, 10) == [0xFF, 0xFF, 0xFF, 0xFE, 0, 10, 0, 2, 1]
  {
    hide ToBE;
    MinusTwo();
    assert HeaderFrom(EXAMPLE, EXAMPLE_SCHEMA, 3, 12) == [];
    assert HeaderFrom(EXAMPLE, EXAMPLE_SCHEMA, 2, 12) == [1];
    assert HeaderFrom(EXAMPLE, EXAMPLE_SCHEMA, 1, 10) == [0, 10, 0, 2, 1];
  }

  lemma MinusTwo()
    ensures PutI32(-2) == [0xFF, 0xFF, 0xFF, 0xFE]
  {
    assert ToBE(0xFF, 1) == [0xFF] && ToBE(0xFFFF, 2) == [0xFF, 0xFF] && ToBE(0xFF_FFFF, 3) == [0xFF, 0xFF, 0xFF];
  }

  lemma ExampleVariables()
    ensures VariableFrom(EXAMPLE, EXAMPLE_SCHEMA, 0) == [97, 98]
  {
    assert VariableFrom(EXAMPLE, EXAMPLE_SCHEMA, 3) == [] && VariableFrom(EXAMPLE, EXAMPLE_SCHEMA, 2) == [];
    assert VariableFrom(EXAMPLE, EXAMPLE_SCHEMA, 1) == [97, 98];
  }

  lemma NoNullBitmap(vals: Tuple)
    requires |vals| == 3 && forall i :: 0 <= i < 3 ==> !vals[i].Null?
    ensures Bitmap(vals) == [0]
  {
    BitmapSizeIs(vals);
    forall j | 0 <= j < 8
      ensures Bitmap(vals)[0] / [128, 64, 32, 16, 8, 4, 2, 1][j] % 2 == 0
    {
      BitmapBytes(vals, j);
    }
    AllBitsClear(Bitmap(vals)[0]);
  }

  lemma BitmapSizeIs(vals: Tuple)
    ensures |Bitmap(vals)| == (|vals| + 7) / 8
  {
    hide HighBits;
  }

  lemma AllBitsClear(b: byte)
    requires forall j :: 0 <= j < 8 ==> b / [128, 64, 32, 16, 8, 4, 2, 1][j] % 2 == 0
    ensures b == 0
  {
    assert b / [128, 64, 32, 16, 8, 4, 2, 1][0] % 2 == 0 && b / [128, 64, 32, 16, 8, 4, 2, 1][1] % 2 == 0;
    assert b / [128, 64, 32, 16, 8, 4, 2, 1][2] % 2 == 0 && b / [128, 64, 32, 16, 8, 4, 2, 1][3] % 2 == 0;
    assert b / [128, 64, 32, 16, 8, 4, 2, 1][4] % 2 == 0 && b / [128, 64, 32, 16, 8, 4, 2, 1][5] % 2 == 0;
    assert b / [128, 64, 32, 16, 8, 4, 2, 1][6] % 2 == 0 && b / [128, 64, 32, 16, 8, 4, 2, 1][7] % 2 == 0;
  }

  /** `serialize`: header and variable area grow side by side. */
  method Serialize(vals: Tuple, schema: Schema) returns (record: Bytes)
    ensures record == Encode(vals, schema)
  {
    hide Bitmap, FixedPart, VarPart, HeaderSize;
    var headerSize := HeaderSize(vals);
    var header := GenNullBitmap(vals);
    var variable: Bytes := [];
    var offset := headerSize;
    var n := if |vals| < |schema| then |vals| else |schema|;
    for i := 0 to n
      invariant offset == headerSize + |variable|
      invariant header + HeaderFrom(vals, schema, i, offset) == Bitmap(vals) + HeaderFrom(vals, schema, 0, headerSize)
      invariant variable + VariableFrom(vals, schema, i) == VariableFrom(vals, schema, 0)
    {
      var fixed, part := FixedPart(vals[i], schema[i].dataType, offset), VarPart(vals[i]);
      Regroup(header, fixed, HeaderFrom(vals, schema, i + 1, offset + |part|));
      Regroup(variable, part, VariableFrom(vals, schema, i + 1));
      header, variable := header + fixed, variable + part;
      offset := offset + |part|;
    }
    record := header + variable;
  }

  function DecodeFrom(bytes: Bytes, schema: Schema, i: nat, pos: nat): Outcome<Tuple>
    requires i <= |schema| && BitmapLength(|schema|) <= |bytes|
    decreases |schema| - i
  {
    if i == |schema| then Ok([])
    else
      var v :- if NullBit(bytes, i) then Ok(Null) else ReadColumn(bytes, schema[i].dataType, pos);
      var rest :- DecodeFrom(bytes, schema, i + 1, pos + Width(schema[i].dataType));
      Ok([v] + rest)
  }

  function Decode(bytes: Bytes, schema: Schema): Outcome<Tuple> {
    if |bytes| < BitmapLength(|schema|) then Panic
    else DecodeFrom(bytes, schema, 0, BitmapLength(|schema|))
  }

  function Prepend(vals: Tuple, r: Outcome<Tuple>): Outcome<Tuple> {
    if r.Ok? then Ok(vals + r.value) else r
  }

  /** `deserialize`. */
  method Deserialize(bytes: Bytes, schema: Schema) returns (r: Outcome<Tuple>)
    ensures r == Decode(bytes, schema)
  {
    hide NullBit, ReadColumn, Width;
    if |bytes| < BitmapLength(|schema|) {
      return Panic;
    }
    var values: Tuple := [];
    var pos: nat := BitmapLength(|schema|);
    assert Decode(bytes, schema).Ok? ==> values + Decode(bytes, schema).value == Decode(bytes, schema).value;
    for i := 0 to |schema|
      invariant Prepend(values, DecodeFrom(bytes, schema, i, pos)) == Decode(bytes, schema)
    {
      var v := if NullBit(bytes, i) then Ok(Null) else ReadColumn(bytes, schema[i].dataType, pos);
      ghost var rest := DecodeFrom(bytes, schema, i + 1, pos + Width(schema[i].dataType));
      if !v.Ok? {
        return v.PropagateFailure();
      }
      assert rest.Ok? ==> values + ([v.value] + rest.value) == (values + [v.value]) + rest.value;
      values := values + [v.value];
      pos := pos + Width(schema[i].dataType);
    }
    assert values + [] == values;
    r := Ok(values);
  }

  /** `get_attr` from column i at `pos` on: only Booleans differ from the decoder, and
      the null bitmap is never looked at. */
  function GetAttrFrom(bytes: Bytes, schema: Schema, i: nat, pos: nat, idx: nat): Outcome<Value>
    requires i <= |schema|
    decreases |schema| - i
  {
    if i == |schema| then Err(Unknown)
    else if i == idx then ReadAttr(bytes, schema[i].dataType, pos)
    else GetAttrFrom(bytes, schema, i + 1, pos + Width(schema[i].dataType), idx)
  }

  function ReadAttr(bytes: Bytes, t: DataType, pos: nat): Outcome<Value> {
    if !t.BooleanType? then ReadColumn(bytes, t, pos)
    else if pos >= |bytes| then Panic
    else if bytes[pos] > 1 then Err(IntConversion)
    else Ok(Boolean(bytes[pos] == 1))
  }

  function GetAttr(bytes: Bytes, schema: Schema, idx: nat): Outcome<Value> {
    GetAttrFrom(bytes, schema, 0, BitmapLength(|schema|), idx)
  }

  /** The loop of `get_attr`. */
  method ReadAttribute(bytes: Bytes, schema: Schema, idx: nat) returns (r: Outcome<Value>)
    ensures r == GetAttr(bytes, schema, idx)
  {
    hide ReadAttr;
    var pos: nat := BitmapLength(|schema|);
    for i := 0 to |schema|
      invariant GetAttrFrom(bytes, schema, i, pos, idx) == GetAttr(bytes, schema, idx)
    {
      if i == idx {
        return ReadAttr(bytes, schema[i].dataType, pos);
      }
      pos := pos + Width(schema[i].dataType);
    }
    r := Err(Unknown);
  }

  // ----- decoding what was encoded

  /** The record is what was encoded, split where column i starts. */
  ghost predicate SplitAt(bytes: Bytes, before: Bytes, vals: Tuple, schema: Schema, i: nat, offset: nat, area: Bytes) {
    && ConformsAll(vals, schema) && i <= |vals|
    && bytes == before + HeaderFrom(vals, schema, i, offset) + area
    && |bytes| <= 0xFFFF
    && offset + |VariableFrom(vals, schema, i)| <= |bytes|
  }

  /** The fixed part of column i is where the reader looks for it. */
  lemma SplitHere(bytes: Bytes, before: Bytes, vals: Tuple, schema: Schema, i: nat, offset: nat, area: Bytes)
    requires SplitAt(bytes, before, vals, schema, i, offset, area) && i < |vals|
    ensures var fixed := FixedPart(vals[i], schema[i].dataType, offset);
            && |before| + |fixed| <= |bytes| && bytes[|before|..|before| + |fixed|] == fixed
            && |fixed| == Width(schema[i].dataType)
            && SplitAt(bytes, before + fixed, vals, schema, i + 1, offset + |VarPart(vals[i])|, area)
  {
    hide FixedPart;
    var fixed := FixedPart(vals[i], schema[i].dataType, offset);
    assert Conforms(vals[i], schema[i].dataType);
    var rest := HeaderFrom(vals, schema, i + 1, offset + |VarPart(vals[i])|);
    Regroup(before, fixed, rest);
    assert bytes == (before + fixed) + rest + area;
    assert bytes[|before|..|before| + |fixed|] == fixed;
  }

  lemma VariableReadsBack(bytes: Bytes, pos: nat, s: Bytes, offset: nat)
    requires pos + 4 <= |bytes| <= 0xFFFF && offset + |s| <= |bytes|
    requires bytes[pos..pos + 4] == Put16(offset) + Put16(|s|)
    ensures ReadVariable(bytes, pos) == Ok(bytes[offset..offset + |s|])
  {
    var fixed := Put16(offset) + Put16(|s|);
    assert forall k :: 0 <= k < 4 ==> bytes[pos + k] == fixed[k];
  }

  /** Reading back the fixed part of a value: anything of fixed width comes back, and
      a string or blob comes back exactly if its slice of the record is its bytes. */
  lemma ColumnReadsBack(bytes: Bytes, pos: nat, v: Value, t: DataType, offset: nat)
    requires Conforms(v, t) && !v.Null?
    requires var fixed := FixedPart(v, t, offset);
             pos + |fixed| <= |bytes| && bytes[pos..pos + |fixed|] == fixed
    requires |bytes| <= 0xFFFF && offset + |VarPart(v)| <= |bytes|
    ensures ReadColumn(bytes, t, pos) == Ok(v) <==> bytes[offset..offset + |VarPart(v)|] == VarPart(v)
    ensures ReadAttr(bytes, t, pos) == Ok(v) <==> bytes[offset..offset + |VarPart(v)|] == VarPart(v)
  {
    hide ReadVariable, GetI32, PutI32, GetU32, ToBE;
    match v {
      case Int(i) => IntRoundTrip(i);
      case Float(bits) => FloatRoundTrip(bits);
      case Boolean(b) => assert bytes[pos] == FixedPart(v, t, offset)[0];
      case VarChar(s) => VariableReadsBack(bytes, pos, s, offset);
      case Blob(data) => VariableReadsBack(bytes, pos, data, offset);
    }
  }

  lemma SlicesJoin(bytes: Bytes, offset: nat, a: Bytes, b: Bytes)
    requires offset + |a| + |b| <= |bytes|
    ensures bytes[offset..offset + |a + b|] == a + b
       <==> bytes[offset..offset + |a|] == a && bytes[offset + |a|..offset + |a| + |b|] == b
  {
    var whole := bytes[offset..offset + |a + b|];
    assert whole == bytes[offset..offset + |a|] + bytes[offset + |a|..offset + |a| + |b|];
    if whole == a + b {
      assert whole[..|a|] == a && whole[|a|..] == b;
    }
  }

  function Head(bytes: Bytes, t: DataType, i: nat, pos: nat): Outcome<Value>
    requires i / 8 < |bytes|
  {
    if NullBit(bytes, i) then Ok(Null) else ReadColumn(bytes, t, pos)
  }

  lemma DecodeStep(bytes: Bytes, schema: Schema, i: nat, pos: nat, vals: Tuple)
    requires i < |schema| == |vals| && BitmapLength(|schema|) <= |bytes|
    ensures DecodeFrom(bytes, schema, i, pos) == Ok(vals[i..])
       <==> && Head(bytes, schema[i].dataType, i, pos) == Ok(vals[i])
            && DecodeFrom(bytes, schema, i + 1, pos + Width(schema[i].dataType)) == Ok(vals[i + 1..])
  {
    hide NullBit, ReadColumn, Width;
    assert vals[i..] == [vals[i]] + vals[i + 1..];
    var rest := DecodeFrom(bytes, schema, i + 1, pos + Width(schema[i].dataType));
    var head := Head(bytes, schema[i].dataType, i, pos);
    if head.Ok? && rest.Ok? && [head.value] + rest.value == vals[i..] {
      assert ([head.value] + rest.value)[0] == vals[i];
      assert ([head.value] + rest.value)[1..] == vals[i..][1..];
    }
  }

  lemma {:induction false} DecodesFrom(
      bytes: Bytes, before: Bytes, vals: Tuple, schema: Schema, i: nat, offset: nat, area: Bytes)
    requires SplitAt(bytes, before, vals, schema, i, offset, area)
    requires BitmapLength(|schema|) <= |bytes|
    requires forall j :: 0 <= j < |schema| ==> (NullBit(bytes, j) <==> vals[j].Null?)
    ensures |vals| == |schema| && i <= |vals| && offset + |VariableFrom(vals, schema, i)| <= |bytes|
    ensures DecodeFrom(bytes, schema, i, |before|) == Ok(vals[i..])
       <==> bytes[offset..offset + |VariableFrom(vals, schema, i)|] == VariableFrom(vals, schema, i)
    decreases |schema| - i
  {
    hide NullBit, ReadColumn, FixedPart, HeaderFrom, SplitAt, Conforms, Width, VarPart;
    SplitGives(bytes, before, vals, schema, i, offset, area);
    if i < |vals| {
      var t := schema[i].dataType;
      var part, rest := VarPart(vals[i]), VariableFrom(vals, schema, i + 1);
      SplitHere(bytes, before, vals, schema, i, offset, area);
      DecodesFrom(bytes, before + FixedPart(vals[i], t, offset), vals, schema, i + 1, offset + |part|, area);
      DecodeStep(bytes, schema, i, |before|, vals);
      SlicesJoin(bytes, offset, part, rest);
      if vals[i].Null? {
        NoVariablePart(vals[i]);
      } else {
        ColumnReadsBack(bytes, |before|, vals[i], t, offset);
      }
    } else {
      assert vals[i..] == [] && bytes[offset..offset] == [];
    }
  }

  lemma NoVariablePart(v: Value)
    requires v.Null?
    ensures VarPart(v) == []
  {
  }

  lemma SplitGives(bytes: Bytes, before: Bytes, vals: Tuple, schema: Schema, i: nat, offset: nat, area: Bytes)
    requires SplitAt(bytes, before, vals, schema, i, offset, area)
    ensures ConformsAll(vals, schema) && i <= |vals| && |bytes| <= 0xFFFF
    ensures offset + |VariableFrom(vals, schema, i)| <= |bytes|
    ensures i < |vals| ==> Conforms(vals[i], schema[i].dataType)
  {
  }

  // ----- the round trip, exactly

  lemma {:induction false} VariableFits(vals: Tuple, schema: Schema, i: nat)
    requires ConformsAll(vals, schema) && i <= |vals|
    ensures |HeaderFrom(vals, schema, i, HeaderSize(vals))| >= HeaderCosts(vals[i..])
    ensures forall offset :: |HeaderFrom(vals, schema, i, offset)| >= HeaderCosts(vals[i..])
    ensures NullFree(vals[i..]) ==>
              forall offset :: |HeaderFrom(vals, schema, i, offset)| == HeaderCosts(vals[i..])
    decreases |vals| - i
  {
    if i < |vals| {
      VariableFits(vals, schema, i + 1);
      assert vals[i..][1..] == vals[i + 1..];
      assert Conforms(vals[i], schema[i].dataType);
    }
  }

  /** The record read from where `header_size` says the variable area starts - too
      early by the width of every Null - still shows the variable area. */
  predicate ShiftShowsVariables(vals: Tuple, schema: Schema) {
    var record, area := Encode(vals, schema), VariableFrom(vals, schema, 0);
    HeaderSize(vals) + |area| <= |record| && record[HeaderSize(vals)..HeaderSize(vals) + |area|] == area
  }

  lemma EncodedSplit(vals: Tuple, schema: Schema)
    requires ConformsAll(vals, schema) && |Encode(vals, schema)| <= 0xFFFF
    ensures SplitAt(Encode(vals, schema), Bitmap(vals), vals, schema, 0, HeaderSize(vals),
                    VariableFrom(vals, schema, 0))
    ensures HeaderSize(vals) + |VariableFrom(vals, schema, 0)| <= |Encode(vals, schema)|
  {
    hide HeaderFrom, VariableFrom, HeaderCosts, BitmapUpTo;
    VariableFits(vals, schema, 0);
    assert vals[0..] == vals;
    BitmapSize(vals);
  }

  lemma BitmapSize(vals: Tuple)
    ensures |Bitmap(vals)| == BitmapLength(|vals|)
  {
  }

  lemma EncodedBits(vals: Tuple, schema: Schema, j: nat)
    requires j < |vals|
    ensures j / 8 < |Encode(vals, schema)| && (NullBit(Encode(vals, schema), j) <==> vals[j].Null?)
  {
    hide Bit, BitmapUpTo, HeaderFrom, VariableFrom;
    BitmapBits(vals, j);
    assert Encode(vals, schema)[j / 8] == Bitmap(vals)[j / 8];
  }

  /** Decoding gives back the tuple exactly when the shift caused by its Nulls does not
      show, for every tuple of the schema's types whose record a page can hold. */
  lemma RoundTripExactly(vals: Tuple, schema: Schema)
    requires ConformsAll(vals, schema) && |Encode(vals, schema)| <= 0xFFFF
    ensures Decode(Encode(vals, schema), schema) == Ok(vals) <==> ShiftShowsVariables(vals, schema)
  {
    hide NullBit, HeaderFrom, VariableFrom, SplitAt, HeaderSize, DecodeFrom, Encode, Bitmap;
    var record := Encode(vals, schema);
    EncodedSplit(vals, schema);
    BitmapSize(vals);
    EncodedLength(vals, schema);
    forall j | 0 <= j < |schema|
      ensures NullBit(record, j) <==> vals[j].Null?
    {
      EncodedBits(vals, schema, j);
    }
    DecodesFrom(record, Bitmap(vals), vals, schema, 0, HeaderSize(vals), VariableFrom(vals, schema, 0));
    assert vals[0..] == vals;
  }

  lemma EncodedLength(vals: Tuple, schema: Schema)
    ensures |Encode(vals, schema)| >= BitmapLength(|vals|)
  {
  }

  lemma {:induction false} NoVariables(vals: Tuple, schema: Schema, i: nat)
    requires i <= |vals| && forall j :: i <= j < |vals| ==> VarPart(vals[j]) == []
    ensures VariableFrom(vals, schema, i) == []
    decreases |vals| - i
  {
    if i < |vals| { NoVariables(vals, schema, i + 1); }
  }

  lemma HeaderExact(vals: Tuple, schema: Schema)
    requires ConformsAll(vals, schema) && NullFree(vals)
    ensures |Bitmap(vals) + HeaderFrom(vals, schema, 0, HeaderSize(vals))| == HeaderSize(vals)
  {
    VariableFits(vals, schema, 0);
    assert vals[0..] == vals;
    BitmapSize(vals);
  }

  /** A tuple without a Null, or without any string or blob bytes, always comes back. */
  lemma RoundTrip(vals: Tuple, schema: Schema)
    requires ConformsAll(vals, schema) && |Encode(vals, schema)| <= 0xFFFF
    requires NullFree(vals) || forall j :: 0 <= j < |vals| ==> VarPart(vals[j]) == []
    ensures Decode(Encode(vals, schema), schema) == Ok(vals)
  {
    hide HeaderFrom, VariableFrom, DecodeFrom, Decode, Bitmap, HeaderSize, NullFree;
    RoundTripExactly(vals, schema);
    EncodedSplit(vals, schema);
    if NullFree(vals) {
      HeaderExact(vals, schema);
    } else {
      NoVariables(vals, schema, 0);
    }
  }

  /** The smallest failure: a Null INT before the string "a". */
  lemma NullBeforeString()
    ensures var schema := [Column([105], IntType, true), Column([115], VarCharType, true)];
            var vals := [Null, VarChar([97])];
            && ConformsAll(vals, schema)
            && |Encode(vals, schema)| == 10 && Decode(Encode(vals, schema), schema) != Ok(vals)
  {
    hide DecodeFrom, BitmapByte;
    var schema := [Column([105], IntType, true), Column([115], VarCharType, true)];
    var vals := [Null, VarChar([97])];
    assert ValidUtf8([97]) by { assert [97 as byte][1..] == []; }
    assert vals[1..] == [VarChar([97])] && vals[1..][1..] == [];
    assert HeaderCosts(vals) == 4 && HeaderSize(vals) == 5;
    BitmapSize(vals);
    assert VariableFrom(vals, schema, 1) == [97] by { assert VariableFrom(vals, schema, 2) == []; }
    assert VariableFrom(vals, schema, 0) == [97];
    assert HeaderFrom(vals, schema, 2, 6) == [];
    assert HeaderFrom(vals, schema, 1, 5) == Put16(5) + Put16(1);
    assert HeaderFrom(vals, schema, 0, 5) == Zeros(4) + (Put16(5) + Put16(1));
    var record := Encode(vals, schema);
    assert record[5] == 0;
    assert record[5..6][0] == 0;
    RoundTripExactly(vals, schema);
  }

  /** `get_attr` on an encoded null-free tuple reads the column. */
  lemma {:induction false} AttrReadsFrom(
      bytes: Bytes, before: Bytes, vals: Tuple, schema: Schema, i: nat, offset: nat, area: Bytes, idx: nat)
    requires SplitAt(bytes, before, vals, schema, i, offset, area)
    requires NullFree(vals) && i <= idx < |schema|
    requires |vals| == |schema| && i <= |vals| && offset + |VariableFrom(vals, schema, i)| <= |bytes|
    requires bytes[offset..offset + |VariableFrom(vals, schema, i)|] == VariableFrom(vals, schema, i)
    ensures GetAttrFrom(bytes, schema, i, |before|, idx) == Ok(vals[idx])
    decreases |schema| - i
  {
    hide FixedPart, HeaderFrom, SplitAt, Conforms, Width, VarPart, ReadAttr, ReadColumn;
    SplitGives(bytes, before, vals, schema, i, offset, area);
    var part, rest := VarPart(vals[i]), VariableFrom(vals, schema, i + 1);
    var fixed := FixedPart(vals[i], schema[i].dataType, offset);
    SplitHere(bytes, before, vals, schema, i, offset, area);
    SlicesJoin(bytes, offset, part, rest);
    if i == idx {
      ColumnReadsBack(bytes, |before|, vals[i], schema[i].dataType, offset);
    } else {
      AttrReadsFrom(bytes, before + fixed, vals, schema, i + 1, offset + |part|, area, idx);
    }
  }

  /** The fast path agrees with the decoder: for a null-free tuple `get_attr` reads
      column idx, and past the last column it answers an error. */
  lemma GetAttrReads(vals: Tuple, schema: Schema, idx: nat)
    requires ConformsAll(vals, schema) && NullFree(vals) && |Encode(vals, schema)| <= 0xFFFF
    ensures GetAttr(Encode(vals, schema), schema, idx) == if idx < |vals| then Ok(vals[idx]) else Err(Unknown)
  {
    hide HeaderFrom, VariableFrom, SplitAt, HeaderSize, Bitmap, NullFree, ReadAttr;
    if idx < |vals| {
      EncodedSplit(vals, schema);
      BitmapSize(vals);
      HeaderExact(vals, schema);
      var area := VariableFrom(vals, schema, 0);
      assert Encode(vals, schema)[HeaderSize(vals)..HeaderSize(vals) + |area|] == area;
      AttrReadsFrom(Encode(vals, schema), Bitmap(vals), vals, schema, 0, HeaderSize(vals), area, idx);
    } else {
      PastTheEnd(Encode(vals, schema), schema, 0, BitmapLength(|schema|), idx);
    }
  }

  lemma {:induction false} PastTheEnd(bytes: Bytes, schema: Schema, i: nat, pos: nat, idx: nat)
    requires i <= |schema| <= idx
    ensures GetAttrFrom(bytes, schema, i, pos, idx) == Err(Unknown)
    decreases |schema| - i
  {
    if i < |schema| { PastTheEnd(bytes, schema, i + 1, pos + Width(schema[i].dataType), idx); }
  }
}

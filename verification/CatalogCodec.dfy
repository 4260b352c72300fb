/** Schemas and catalog entries as bytes, and the map a catalog page stands for
    (src/tables.rs, src/catalog.rs). */
module CatalogCodec {
  import opened Bytes
  import opened Outcomes
  import opened Values

  // ----- strings read back leniently

  /** How many bytes one U+FFFD stands for: the longest prefix of a character. */
  function BrokenLength(b: Bytes): (n: nat)
    requires b != [] && CharLength(b) == 0
    ensures 1 <= n <= |b|
  {
    if 0xE0 <= b[0] <= 0xEF && Continues(b, 1)
       && (b[0] == 0xE0 ==> b[1] >= 0xA0) && (b[0] == 0xED ==> b[1] <= 0x9F) then 2
    else if 0xF0 <= b[0] <= 0xF4 && Continues(b, 1)
       && (b[0] == 0xF0 ==> b[1] >= 0x90) && (b[0] == 0xF4 ==> b[1] <= 0x8F) then
      if Continues(b, 2) then 3 else 2
    else 1
  }

  /** `from_utf8_lossy`. */
  function Lossy(b: Bytes): Bytes {
    if b == [] then []
    else if CharLength(b) > 0 then b[..CharLength(b)] + Lossy(b[CharLength(b)..])
    else [0xEF, 0xBF, 0xBD] + Lossy(b[BrokenLength(b)..])
  }

  lemma {:induction false} LossyKeepsValid(b: Bytes)
    requires ValidUtf8(b)
    ensures Lossy(b) == b
  {
    if b != [] { LossyKeepsValid(b[CharLength(b)..]); }
  }

  /** U+FFFD. */
  const REPLACEMENT: Bytes := EncodeChar(0xFFFD)

  /** What is read back is always a string. */
  lemma {:induction false} LossyIsText(b: Bytes)
    ensures ValidUtf8(Lossy(b))
  {
    if b != [] {
      if CharLength(b) > 0 {
        var n := CharLength(b);
        LossyIsText(b[n..]);
        var c := CharDecoded(b);
        assert EncodeText([c][1..]) == [] && EncodeText([c]) == b[..n] + [];
        TextEncoded([c]);
        ConcatValidUtf8(b[..n], Lossy(b[n..]));
      } else {
        LossyIsText(b[BrokenLength(b)..]);
        ReplacementIsText();
        ConcatValidUtf8(REPLACEMENT, Lossy(b[BrokenLength(b)..]));
      }
    }
  }

  lemma ReplacementIsText()
    ensures REPLACEMENT == [0xEF, 0xBF, 0xBD] && ValidUtf8(REPLACEMENT)
  {
    assert EncodeText([0xFFFD][1..]) == [] && EncodeText([0xFFFD]) == REPLACEMENT + [];
    TextEncoded([0xFFFD]);
  }

  /** Bytes are read back unchanged if and only if they are UTF-8. */
  lemma LossyExactly(b: Bytes)
    ensures Lossy(b) == b <==> ValidUtf8(b)
  {
    LossyIsText(b);
    if ValidUtf8(b) { LossyKeepsValid(b); }
  }

  /** `p` is the beginning of a character, and not all of it. */
  ghost predicate BeginsChar(p: Bytes) {
    exists c: Scalar :: IsBegun(p, c)
  }

  predicate IsBegun(p: Bytes, c: Scalar) {
    |p| < |EncodeChar(c)| && EncodeChar(c)[..|p|] == p
  }

  /** Bytes that begin no character are read back as U+FFFD, and what follows them as if it
      stood alone. */
  lemma LossyReplaces(b: Bytes)
    requires b != [] && CharLength(b) == 0
    ensures Lossy(b) == EncodeChar(0xFFFD) + Lossy(b[BrokenLength(b)..])
  {
    ReplacementIsText();
  }

  /** One U+FFFD stands for the longest beginning of a character there is, or for one
      byte if there is none. */
  lemma BrokenExactly(b: Bytes, k: nat)
    requires b != [] && CharLength(b) == 0 && 0 < k <= |b|
    ensures k > BrokenLength(b) ==> !BeginsChar(b[..k])
    ensures 1 < k <= BrokenLength(b) ==> BeginsChar(b[..k])
  {
    hide EncodeChar;
    if c: Scalar :| IsBegun(b[..k], c) {
      CharEncoded(c, []);
      var e := EncodeChar(c);
      assert e + [] == e;
      assert forall i :: 0 <= i < k ==> e[i] == b[..k][i] == b[i];
    }
    if 1 < k <= BrokenLength(b) {
      var whole := b[..k] + (if b[0] < 0xF0 then [0x80] else if k == 2 then [0x80, 0x80] else [0x80]);
      var c := CharDecoded(whole);
      assert CharLength(whole) == |whole|;
      assert whole[..k] == b[..k];
      assert IsBegun(b[..k], c);
    }
  }

  // ----- columns and schemas

  function TypeCode(t: DataType): byte {
    match t
    case IntType => 0
    case VarCharType => 1
    case FloatType => 2
    case BooleanType => 3
    case BlobType => 4
  }

  function TypeOfCode(code: byte): Outcome<DataType> {
    if code == 0 then Ok(IntType)
    else if code == 1 then Ok(VarCharType)
    else if code == 2 then Ok(FloatType)
    else if code == 3 then Ok(BooleanType)
    else if code == 4 then Ok(BlobType)
    else Panic
  }

  /** A name behind its length in one byte. */
  function PutName(name: Bytes): Outcome<Bytes> {
    if |name| > 255 then Err(IntConversion) else Ok([|name|] + name)
  }

  function EncodeColumn(c: Column): Outcome<Bytes> {
    var name :- PutName(c.name);
    Ok(name + [TypeCode(c.dataType), if c.nullable then 1 else 0])
  }

  function EncodeColumns(columns: seq<Column>, n: nat): Outcome<Bytes>
    requires n <= |columns|
  {
    if n == 0 then Ok([])
    else
      var before :- EncodeColumns(columns, n - 1);
      var last :- EncodeColumn(columns[n - 1]);
      Ok(before + last)
  }

  function EncodeSchema(schema: Schema): Outcome<Bytes> {
    if |schema| > 0xFFFF_FFFF then Err(IntConversion)
    else
      var columns :- EncodeColumns(schema, |schema|);
      Ok(ToBE(|schema|, 4) + columns)
  }

  /** `TableSchema::to_be_bytes`. */
  method SchemaToBytes(schema: Schema) returns (r: Outcome<Bytes>)
    ensures r == EncodeSchema(schema)
  {
    if |schema| > 0xFFFF_FFFF {
      return Err(IntConversion);
    }
    var bytes: Bytes := [];
    for i := 0 to |schema|
      invariant EncodeColumns(schema, i) == Ok(bytes)
    {
      var column := EncodeColumn(schema[i]);
      if !column.Ok? {
        PrefixFails(schema, i + 1, |schema|);
        return column.PropagateFailure();
      }
      bytes := bytes + column.value;
    }
    r := Ok(ToBE(|schema|, 4) + bytes);
  }

  lemma {:induction false} PrefixFails(columns: seq<Column>, i: nat, n: nat)
    requires i <= n <= |columns| && !EncodeColumns(columns, i).Ok?
    ensures EncodeColumns(columns, n) == EncodeColumns(columns, i)
  {
    if i < n { PrefixFails(columns, i, n - 1); }
  }

  /** A column and how many bytes it took; slicing past the end panics. */
  function DecodeColumn(data: Bytes): (r: Outcome<(Column, nat)>)
    ensures r.Ok? ==> r.value.1 <= |data|
  {
    if data == [] || |data| < data[0] as int + 3 then Panic
    else
      var n := data[0] as int;
      var t :- TypeOfCode(data[n + 1]);
      if data[n + 2] > 1 then Panic
      else Ok((Column(Lossy(data[1..n + 1]), t, data[n + 2] == 1), n + 3))
  }

  function DecodeColumns(data: Bytes, count: nat): Outcome<seq<Column>> {
    if count == 0 then Ok([])
    else
      var (first, used) :- DecodeColumn(data);
      var rest :- DecodeColumns(data[used..], count - 1);
      Ok([first] + rest)
  }

  function DecodeSchema(bytes: Bytes): Outcome<Schema> {
    if |bytes| < 4 then Panic
    else DecodeColumns(bytes[4..], FromBE(bytes[..4]))
  }

  /** `TableSchema::from_be_bytes`. */
  method SchemaFromBytes(bytes: Bytes) returns (r: Outcome<Schema>)
    ensures r == DecodeSchema(bytes)
  {
    hide DecodeColumn, FromBE;
    if |bytes| < 4 {
      return Panic;
    }
    var count := FromBE(bytes[..4]);
    var data := bytes[4..];
    var columns: seq<Column> := [];
    ghost var whole := DecodeSchema(bytes);
    assert whole.Ok? ==> columns + whole.value == whole.value;
    for i := 0 to count
      invariant whole == PrependColumns(columns, DecodeColumns(data, count - i))
    {
      var column := DecodeColumn(data);
      if !column.Ok? {
        return column.PropagateFailure();
      }
      ghost var rest := DecodeColumns(data[column.value.1..], count - i - 1);
      assert rest.Ok? ==> columns + ([column.value.0] + rest.value) == (columns + [column.value.0]) + rest.value;
      columns := columns + [column.value.0];
      data := data[column.value.1..];
    }
    assert columns + [] == columns;
    r := Ok(columns);
  }

  function PrependColumns(columns: seq<Column>, r: Outcome<seq<Column>>): Outcome<seq<Column>> {
    if r.Ok? then Ok(columns + r.value) else r
  }

  /** Column names are Rust strings. */
  predicate NamesAreText(columns: seq<Column>) {
    forall i :: 0 <= i < |columns| ==> ValidUtf8(columns[i].name)
  }

  lemma ColumnRoundTrip(c: Column, rest: Bytes)
    requires ValidUtf8(c.name) && EncodeColumn(c).Ok?
    ensures DecodeColumn(EncodeColumn(c).value + rest) == Ok((c, |EncodeColumn(c).value|))
  {
    hide ValidUtf8, Lossy;
    LossyKeepsValid(c.name);
    var data := EncodeColumn(c).value + rest;
    assert data[1..|c.name| + 1] == c.name;
  }

  /** What a column is decoded from: its name behind its length, a type code from 0 to 4,
      and 0 or 1; anything else panics. What decodes is what encodes to these bytes. */
  lemma ColumnDecodesExactly(data: Bytes)
    ensures DecodeColumn(data).Ok? <==>
              && data != [] && |data| >= data[0] as int + 3
              && data[data[0] as int + 1] <= 4 && data[data[0] as int + 2] <= 1
    ensures !DecodeColumn(data).Ok? ==> DecodeColumn(data) == Panic
    ensures DecodeColumn(data).Ok? && ValidUtf8(data[1..data[0] as int + 1]) ==>
              var (c, used) := DecodeColumn(data).value;
              used <= |data| && EncodeColumn(c) == Ok(data[..used])
  {
    hide ValidUtf8, Lossy;
    if DecodeColumn(data).Ok? && ValidUtf8(data[1..data[0] as int + 1]) {
      LossyKeepsValid(data[1..data[0] as int + 1]);
      var n := data[0] as int;
      assert data[..n + 3] == [data[0]] + data[1..n + 1] + [data[n + 1], data[n + 2]];
    }
  }

  lemma {:induction false} EncodeColumnsSplit(columns: seq<Column>, n: nat)
    requires 0 < n <= |columns| && EncodeColumns(columns, n).Ok?
    ensures EncodeColumn(columns[0]).Ok? && EncodeColumns(columns[1..], n - 1).Ok?
    ensures EncodeColumns(columns, n).value == EncodeColumn(columns[0]).value + EncodeColumns(columns[1..], n - 1).value
  {
    hide EncodeColumn;
    if n > 1 {
      EncodeColumnsSplit(columns, n - 1);
      assert columns[1..][n - 2] == columns[n - 1];
    }
  }

  lemma {:induction false} ColumnsRoundTrip(columns: seq<Column>, rest: Bytes)
    requires NamesAreText(columns) && EncodeColumns(columns, |columns|).Ok?
    ensures DecodeColumns(EncodeColumns(columns, |columns|).value + rest, |columns|) == Ok(columns)
  {
    hide EncodeColumn, DecodeColumn, ValidUtf8, EncodeColumns;
    if columns == [] {
    } else {
      EncodeColumnsSplit(columns, |columns|);
      var first, later := EncodeColumn(columns[0]).value, EncodeColumns(columns[1..], |columns| - 1).value;
      var data := EncodeColumns(columns, |columns|).value + rest;
      assert data == first + (later + rest);
      ColumnRoundTrip(columns[0], later + rest);
      assert data[|first|..] == later + rest;
      ColumnsRoundTrip(columns[1..], rest);
      assert [columns[0]] + columns[1..] == columns;
    }
  }

  /** A schema decodes to itself whatever bytes follow it. */
  lemma SchemaRoundTrip(schema: Schema, rest: Bytes)
    requires NamesAreText(schema) && EncodeSchema(schema).Ok?
    ensures DecodeSchema(EncodeSchema(schema).value + rest) == Ok(schema)
  {
    hide EncodeColumns, DecodeColumns;
    Widths();
    FromBEToBE(|schema|, 4);
    var columns := EncodeColumns(schema, |schema|).value;
    var bytes := EncodeSchema(schema).value + rest;
    assert bytes[..4] == ToBE(|schema|, 4) && bytes[4..] == columns + rest;
    ColumnsRoundTrip(schema, rest);
  }

  // ----- catalog entries

  datatype CatalogEntry = CatalogEntry(tableId: nat, tableName: Bytes, fileName: Bytes, schema: Schema)

  predicate EntryIsText(e: CatalogEntry) {
    ValidUtf8(e.tableName) && ValidUtf8(e.fileName) && NamesAreText(e.schema) && e.tableId <= 0xFFFF_FFFF
  }

  function EncodeEntry(e: CatalogEntry): Outcome<Bytes> {
    var tableName :- PutName(e.tableName);
    var fileName :- PutName(e.fileName);
    var schema :- EncodeSchema(e.schema);
    if |schema| > 0xFFFF then Err(IntConversion)
    else Ok(ToBE(e.tableId, 4) + tableName + fileName + Put16(|schema|) + schema)
  }

  // ----- what encodes, and to how many bytes

  /** No column name is longer than 255 bytes. */
  predicate NamesFit(columns: seq<Column>, n: nat)
    requires n <= |columns|
  {
    forall i :: 0 <= i < n ==> |columns[i].name| <= 255
  }

  /** A column takes its name and 3 bytes. */
  function ColumnBytes(columns: seq<Column>, n: nat): nat
    requires n <= |columns|
  {
    if n == 0 then 0 else ColumnBytes(columns, n - 1) + 3 + |columns[n - 1].name|
  }

  lemma {:induction false} ColumnsEncodeExactly(columns: seq<Column>, n: nat)
    requires n <= |columns|
    ensures EncodeColumns(columns, n).Ok? <==> NamesFit(columns, n)
    ensures EncodeColumns(columns, n).Ok? ==> |EncodeColumns(columns, n).value| == ColumnBytes(columns, n)
    ensures !EncodeColumns(columns, n).Ok? ==> EncodeColumns(columns, n) == Err(IntConversion)
    ensures ColumnBytes(columns, n) >= 3 * n
  {
    if n > 0 { ColumnsEncodeExactly(columns, n - 1); }
  }

  /** A schema encodes if and only if all its column names have at most 255 bytes and
      there are not too many of them to count; it takes 4 bytes and those of its columns. */
  lemma SchemaEncodesExactly(schema: Schema)
    ensures EncodeSchema(schema).Ok? <==> |schema| <= 0xFFFF_FFFF && NamesFit(schema, |schema|)
    ensures EncodeSchema(schema).Ok? ==> |EncodeSchema(schema).value| == 4 + ColumnBytes(schema, |schema|)
    ensures !EncodeSchema(schema).Ok? ==> EncodeSchema(schema) == Err(IntConversion)
  {
    ColumnsEncodeExactly(schema, |schema|);
  }

  /** The bytes of an entry. */
  function EntrySize(tableName: Bytes, fileName: Bytes, schema: Schema): nat {
    12 + |tableName| + |fileName| + ColumnBytes(schema, |schema|)
  }

  /** All names have at most 255 bytes, and the schema at most 65535. */
  predicate Encodable(tableName: Bytes, fileName: Bytes, schema: Schema) {
    && |tableName| <= 255 && |fileName| <= 255 && NamesFit(schema, |schema|)
    && 4 + ColumnBytes(schema, |schema|) <= 65535
  }

  /** That is exactly when an entry encodes, into so many bytes; otherwise the answer is
      an integer conversion that fails. */
  lemma EntryEncodesExactly(e: CatalogEntry)
    ensures EncodeEntry(e).Ok? <==> Encodable(e.tableName, e.fileName, e.schema)
    ensures EncodeEntry(e).Ok? ==> |EncodeEntry(e).value| == EntrySize(e.tableName, e.fileName, e.schema)
    ensures !EncodeEntry(e).Ok? ==> EncodeEntry(e) == Err(IntConversion)
  {
    hide EncodeSchema, ColumnBytes;
    SchemaEncodesExactly(e.schema);
    ColumnsEncodeExactly(e.schema, |e.schema|);
  }

  /** A name and what follows it; slicing past the end panics. */
  function GetName(data: Bytes): Outcome<(Bytes, Bytes)> {
    if data == [] || |data| < data[0] as int + 1 then Panic
    else Ok((Lossy(data[1..data[0] + 1]), data[data[0] + 1..]))
  }

  function DecodeEntry(bytes: Bytes): Outcome<CatalogEntry> {
    if |bytes| < 4 then Panic
    else
      var (tableName, afterTable) :- GetName(bytes[4..]);
      var (fileName, afterFile) :- GetName(afterTable);
      if |afterFile| < 2 || |afterFile| - 2 < U16At(afterFile, 0) then Panic
      else
        var schema :- DecodeSchema(afterFile[2..2 + U16At(afterFile, 0)]);
        Ok(CatalogEntry(FromBE(bytes[..4]), tableName, fileName, schema))
  }

  lemma NameRoundTrip(name: Bytes, rest: Bytes)
    requires ValidUtf8(name) && PutName(name).Ok?
    ensures GetName(PutName(name).value + rest) == Ok((name, rest))
  {
    hide ValidUtf8, Lossy;
    LossyKeepsValid(name);
    var data := PutName(name).value + rest;
    assert data[1..|name| + 1] == name && data[|name| + 1..] == rest;
  }

  /** An entry decodes to itself whatever bytes follow it. */
  lemma EntryRoundTrip(e: CatalogEntry, rest: Bytes)
    requires EntryIsText(e) && EncodeEntry(e).Ok?
    ensures DecodeEntry(EncodeEntry(e).value + rest) == Ok(e)
  {
    hide ValidUtf8, NamesAreText, PutName, GetName, EncodeSchema, DecodeSchema;
    Widths();
    FromBEToBE(e.tableId, 4);
    var id, tableName, fileName, schema :=
      ToBE(e.tableId, 4), PutName(e.tableName).value, PutName(e.fileName).value, EncodeSchema(e.schema).value;
    var size := Put16(|schema|);
    var bytes := EncodeEntry(e).value + rest;
    assert bytes == id + (tableName + (fileName + (size + (schema + rest))));
    assert bytes[..4] == id && bytes[4..] == tableName + (fileName + (size + (schema + rest)));
    NameRoundTrip(e.tableName, fileName + (size + (schema + rest)));
    NameRoundTrip(e.fileName, size + (schema + rest));
    var afterFile := size + (schema + rest);
    assert U16At(afterFile, 0) == |schema| && afterFile[2..2 + |schema|] == schema + [];
    SchemaRoundTrip(e.schema, []);
  }

  /** A column of every type: "i" INT, "s" VARCHAR NULL, "f" FLOAT, "t" BOOLEAN NULL, "b" BLOB. */
  const EXAMPLE_COLUMNS: Schema := [Column([105], IntType, false), Column([115], VarCharType, true),
                                    Column([102], FloatType, false), Column([116], BooleanType, true),
                                    Column([98], BlobType, false)]

  lemma OneLetterColumn(c: Column)
    requires |c.name| == 1
    ensures EncodeColumn(c).Ok?
    ensures EncodeColumn(c).value == [1, c.name[0], TypeCode(c.dataType), if c.nullable then 1 else 0]
  {
  }

  /** Its bytes. */
  lemma SchemaExample()
    ensures EncodeSchema(EXAMPLE_COLUMNS).Ok?
    ensures EncodeSchema(EXAMPLE_COLUMNS).value
         == [0, 0, 0, 5] + [1, 105, 0, 0] + [1, 115, 1, 1] + [1, 102, 2, 0] + [1, 116, 3, 1] + [1, 98, 4, 0]
  {
    hide EncodeColumn;
    var schema := EXAMPLE_COLUMNS;
    CountOfFive();
    forall i | 0 <= i < 5
      ensures EncodeColumn(schema[i]).Ok?
      ensures EncodeColumn(schema[i]).value
           == [1, schema[i].name[0], TypeCode(schema[i].dataType), if schema[i].nullable then 1 else 0]
    {
      OneLetterColumn(schema[i]);
    }
    assert EncodeColumns(schema, 0) == Ok([]);
    assert EncodeColumns(schema, 1).value == [1, 105, 0, 0];
    assert EncodeColumns(schema, 2).value == [1, 105, 0, 0] + [1, 115, 1, 1];
    assert EncodeColumns(schema, 3).value == [1, 105, 0, 0] + [1, 115, 1, 1] + [1, 102, 2, 0];
    assert EncodeColumns(schema, 4).value == [1, 105, 0, 0] + [1, 115, 1, 1] + [1, 102, 2, 0] + [1, 116, 3, 1];
  }

  lemma CountOfFive()
    ensures ToBE(5, 4) == [0, 0, 0, 5]
  {
    assert ToBE(0, 1) == [0] && ToBE(0, 2) == [0, 0] && ToBE(0, 3) == [0, 0, 0];
  }

  /** The bytes of one entry: table 2, "t" in "t.db", without columns. */
  lemma EntryExample()
    ensures EncodeEntry(CatalogEntry(2, [116], [116, 46, 100, 98], [])).Ok?
    ensures EncodeEntry(CatalogEntry(2, [116], [116, 46, 100, 98], [])).value
         == [0, 0, 0, 2] + [1, 116] + [4, 116, 46, 100, 98] + [0, 4] + [0, 0, 0, 0]
  {
    assert ToBE(0, 1) == [0] && ToBE(0, 2) == [0, 0] && ToBE(0, 3) == [0, 0, 0];
    assert ToBE(0, 4) == [0, 0, 0, 0] && ToBE(2, 4) == [0, 0, 0, 2];
    assert EncodeColumns([], 0) == Ok([]) && EncodeSchema([]).value == [0, 0, 0, 0];
    assert PutName([116]).value == [1, 116] && PutName([116, 46, 100, 98]).value == [4, 116, 46, 100, 98];
    assert Put16(4) == [0, 4];
  }

  /** Decoding never answers an error: bytes that are no entry make it panic. */
  lemma DecodesOrPanics(bytes: Bytes)
    ensures !DecodeSchema(bytes).Ok? ==> DecodeSchema(bytes) == Panic
    ensures !DecodeEntry(bytes).Ok? ==> DecodeEntry(bytes) == Panic
  {
    hide DecodeColumns, Lossy, FromBE;
    forall data: Bytes, count: nat
      ensures DecodeColumns(data, count).Ok? || DecodeColumns(data, count) == Panic
    {
      ColumnsDecodeOrPanic(data, count);
    }
  }

  lemma {:induction false} ColumnsDecodeOrPanic(data: Bytes, count: nat)
    ensures DecodeColumns(data, count).Ok? || DecodeColumns(data, count) == Panic
  {
    hide Lossy;
    if count > 0 && DecodeColumn(data).Ok? { ColumnsDecodeOrPanic(data[DecodeColumn(data).value.1..], count - 1); }
  }

  // ----- the map a catalog page stands for

  type CatalogMap = map<Bytes, CatalogEntry>

  /** `CatalogManager::load` over the first n records: later entries of a name win. */
  function Load(records: seq<Bytes>, n: nat): Outcome<CatalogMap>
    requires n <= |records|
  {
    if n == 0 then Ok(map[])
    else
      var before :- Load(records, n - 1);
      var e :- DecodeEntry(records[n - 1]);
      Ok(before[e.tableName := e])
  }

  lemma {:induction false} LoadPrefix(records: seq<Bytes>, more: seq<Bytes>, n: nat)
    requires n <= |records|
    ensures Load(records + more, n) == Load(records, n)
  {
    hide DecodeEntry;
    if n > 0 { LoadPrefix(records, more, n - 1); }
  }

  lemma {:induction false} LoadFails(records: seq<Bytes>, i: nat, n: nat)
    requires i <= n <= |records| && !Load(records, i).Ok?
    ensures Load(records, n) == Load(records, i)
  {
    hide DecodeEntry;
    if i < n { LoadFails(records, i, n - 1); }
  }

  /** Appending an encoded entry to the page is adding it to the map. */
  lemma LoadAppended(records: seq<Bytes>, e: CatalogEntry)
    requires Load(records, |records|).Ok? && EntryIsText(e) && EncodeEntry(e).Ok?
    ensures Load(records + [EncodeEntry(e).value], |records| + 1)
         == Ok(Load(records, |records|).value[e.tableName := e])
  {
    hide EncodeEntry, DecodeEntry, EntryIsText;
    LoadPrefix(records, [EncodeEntry(e).value], |records|);
    EntryRoundTrip(e, []);
    assert EncodeEntry(e).value + [] == EncodeEntry(e).value;
  }
}

/** Values, column types and schemas (src/value.rs, src/tables.rs).  Strings are
    UTF-8 byte sequences, floats are their 32 bits. */
module Values {
  import opened Bytes
  import opened Outcomes

  datatype DataType = IntType | VarCharType | FloatType | BooleanType | BlobType

  datatype Value =
    | Int(i: i32)
    | VarChar(s: Bytes)
    | Float(bits: u32)
    | Boolean(b: bool)
    | Blob(data: Bytes)
    | Null

  type Tuple = seq<Value>

  datatype Column = Column(name: Bytes, dataType: DataType, nullable: bool)
  type Schema = seq<Column>

  function Width(t: DataType): (w: nat)
    ensures 1 <= w <= 4
  {
    if t.BooleanType? then 1 else 4
  }

  function TypeOf(v: Value): Option<DataType> {
    match v
    case Int(_) => Some(IntType)
    case VarChar(_) => Some(VarCharType)
    case Float(_) => Some(FloatType)
    case Boolean(_) => Some(BooleanType)
    case Blob(_) => Some(BlobType)
    case Null => None
  }

  // ----- UTF-8, as section 4 of RFC 3629 gives it

  predicate Continues(b: Bytes, at: nat) {
    at < |b| && 0x80 <= b[at] <= 0xBF
  }

  /** The length of the character `b` starts with, or 0 if it starts with none. */
  function CharLength(b: Bytes): (n: nat)
    requires b != []
    ensures n <= |b|
  {
    if b[0] <= 0x7F then 1
    else if 0xC2 <= b[0] <= 0xDF && Continues(b, 1) then 2
    else if 0xE0 <= b[0] <= 0xEF && Continues(b, 1) && Continues(b, 2)
         && (b[0] == 0xE0 ==> b[1] >= 0xA0) && (b[0] == 0xED ==> b[1] <= 0x9F) then 3
    else if 0xF0 <= b[0] <= 0xF4 && Continues(b, 1) && Continues(b, 2) && Continues(b, 3)
         && (b[0] == 0xF0 ==> b[1] >= 0x90) && (b[0] == 0xF4 ==> b[1] <= 0x8F) then 4
    else 0
  }

  predicate ValidUtf8(b: Bytes) {
    b == [] || (CharLength(b) > 0 && ValidUtf8(b[CharLength(b)..]))
  }

  lemma {:induction false} ConcatValidUtf8(a: Bytes, b: Bytes)
    requires ValidUtf8(a) && ValidUtf8(b)
    ensures ValidUtf8(a + b)
  {
    hide CharLength;
    if a == [] {
      assert a + b == b;
    } else {
      var n := CharLength(a);
      FirstCharStays(a, b);
      ConcatValidUtf8(a[n..], b);
      assert (a + b)[n..] == a[n..] + b;
    }
  }

  lemma FirstCharStays(a: Bytes, b: Bytes)
    requires a != [] && CharLength(a) > 0
    ensures CharLength(a + b) == CharLength(a)
  {
  }

  /** A Unicode scalar value: a code point that is not a surrogate. */
  type Scalar = c: int | 0 <= c < 0x11_0000 && !(0xD800 <= c < 0xE000)

  /** Its bytes, as the table in section 3 of RFC 3629 gives them. */
  function EncodeChar(c: Scalar): (b: Bytes)
    ensures 1 <= |b| <= 4
  {
    if c < 0x80 then [c]
    else if c < 0x800 then [0xC0 + c / 0x40, 0x80 + c % 0x40]
    else if c < 0x1_0000 then [0xE0 + c / 0x1000, 0x80 + c / 0x40 % 0x40, 0x80 + c % 0x40]
    else [0xF0 + c / 0x4_0000, 0x80 + c / 0x1000 % 0x40, 0x80 + c / 0x40 % 0x40, 0x80 + c % 0x40]
  }

  function EncodeText(cs: seq<Scalar>): Bytes {
    if cs == [] then [] else EncodeChar(cs[0]) + EncodeText(cs[1..])
  }

  lemma CharEncoded(c: Scalar, rest: Bytes)
    ensures CharLength(EncodeChar(c) + rest) == |EncodeChar(c)|
  {
    var b := EncodeChar(c) + rest;
    assert forall i :: 0 <= i < |EncodeChar(c)| ==> b[i] == EncodeChar(c)[i];
  }

  /** Six more bits. */
  lemma SixBits(n: nat, w: nat)
    requires w < 0x40
    ensures (0x40 * n + w) / 0x40 == n && (0x40 * n + w) % 0x40 == w
    ensures (0x40 * n + w) / 0x1000 == n / 0x40 && (0x40 * n + w) / 0x4_0000 == n / 0x1000
  {
  }

  lemma CharDecoded(b: Bytes) returns (c: Scalar)
    requires b != [] && CharLength(b) > 0
    ensures EncodeChar(c) == b[..CharLength(b)]
  {
    var n, first: int := CharLength(b), b[0];
    if n == 1 {
      c := first;
    } else {
      var second: int := b[1] - 0x80;
      if n == 2 {
        SixBits(first - 0xC0, second);
        c := 0x40 * (first - 0xC0) + second;
      } else {
        var third: int := b[2] - 0x80;
        if n == 3 {
          SixBits(first - 0xE0, second);
          SixBits(0x40 * (first - 0xE0) + second, third);
          c := 0x40 * (0x40 * (first - 0xE0) + second) + third;
        } else {
          c := FourDecoded(b);
        }
      }
    }
  }

  lemma FourDecoded(b: Bytes) returns (c: Scalar)
    requires b != [] && CharLength(b) == 4
    ensures EncodeChar(c) == b[..4]
  {
    var first: int, second: int, third: int, fourth: int := b[0] - 0xF0, b[1] - 0x80, b[2] - 0x80, b[3] - 0x80;
    var high := 0x40 * first + second;
    SixBits(first, second);
    SixBits(high, third);
    SixBits(0x40 * high + third, fourth);
    c := 0x40 * (0x40 * high + third) + fourth;
    assert EncodeChar(c) == [b[0], b[1], b[2], b[3]];
  }

  lemma {:induction false} TextDecoded(b: Bytes) returns (cs: seq<Scalar>)
    requires ValidUtf8(b)
    ensures EncodeText(cs) == b
  {
    hide EncodeChar, CharLength;
    if b == [] {
      cs := [];
    } else {
      var n := CharLength(b);
      var c := CharDecoded(b);
      var rest := TextDecoded(b[n..]);
      cs := [c] + rest;
      assert cs[1..] == rest && b == b[..n] + b[n..];
    }
  }

  lemma {:induction false} TextEncoded(cs: seq<Scalar>)
    ensures ValidUtf8(EncodeText(cs))
  {
    hide EncodeChar, CharLength;
    if cs != [] {
      var first, rest := EncodeChar(cs[0]), EncodeText(cs[1..]);
      TextEncoded(cs[1..]);
      CharEncoded(cs[0], rest);
      assert (first + rest)[|first|..] == rest;
    }
  }

  /** Valid are exactly the encodings of sequences of scalar values. */
  lemma Utf8Exactly(b: Bytes)
    ensures ValidUtf8(b) <==> exists cs: seq<Scalar> :: EncodeText(cs) == b
  {
    hide EncodeText;
    if ValidUtf8(b) { var _ := TextDecoded(b); }
    if cs: seq<Scalar> :| EncodeText(cs) == b { TextEncoded(cs); }
  }

  /** A value Rust's types allow: its string, if any, is UTF-8. */
  predicate WellTyped(v: Value) {
    v.VarChar? ==> ValidUtf8(v.s)
  }

  /** The value is Null or of this type. */
  predicate Conforms(v: Value, t: DataType) {
    WellTyped(v) && (v.Null? || TypeOf(v) == Some(t))
  }

  predicate ConformsAll(vals: Tuple, schema: Schema) {
    |vals| == |schema| && forall i :: 0 <= i < |vals| ==> Conforms(vals[i], schema[i].dataType)
  }

  predicate NullFree(vals: Tuple) {
    forall i :: 0 <= i < |vals| ==> !vals[i].Null?
  }

  /** `is_valid_tuple`: the types are compared in order, and a Null reached on the
      way panics. */
  function IsValidTuple(schema: Schema, vals: Tuple): Outcome<bool> {
    if |schema| != |vals| then Ok(false) else TypesMatch(schema, vals)
  }

  function TypesMatch(schema: Schema, vals: Tuple): Outcome<bool>
    requires |schema| == |vals|
  {
    if vals == [] then Ok(true)
    else if vals[0].Null? then Panic
    else if TypeOf(vals[0]) != Some(schema[0].dataType) then Ok(false)
    else TypesMatch(schema[1..], vals[1..])
  }

  /** Value i is what stops the check. */
  predicate Misfit(schema: Schema, vals: Tuple, i: nat)
    requires |schema| == |vals| && i < |vals|
  {
    TypeOf(vals[i]) != Some(schema[i].dataType)
  }

  ghost predicate FirstMisfit(schema: Schema, vals: Tuple, i: nat) {
    && |schema| == |vals| && i < |vals| && Misfit(schema, vals, i)
    && forall j :: 0 <= j < i ==> !Misfit(schema, vals, j)
  }

  lemma {:induction false} TypesMatchExactly(schema: Schema, vals: Tuple)
    requires |schema| == |vals|
    ensures TypesMatch(schema, vals) == Ok(true) <==> forall i :: 0 <= i < |vals| ==> !Misfit(schema, vals, i)
    ensures forall i: nat :: FirstMisfit(schema, vals, i) ==>
              TypesMatch(schema, vals) == if vals[i].Null? then Panic else Ok(false)
  {
    if vals != [] {
      TypesMatchExactly(schema[1..], vals[1..]);
      assert forall i :: 0 <= i < |vals| - 1 ==> (Misfit(schema[1..], vals[1..], i) <==> Misfit(schema, vals, i + 1));
      assert forall i :: 0 < i < |vals| ==> (Misfit(schema, vals, i) <==> Misfit(schema[1..], vals[1..], i - 1));
      if !Misfit(schema, vals, 0) {
        forall i: nat | FirstMisfit(schema, vals, i)
          ensures i > 0 && FirstMisfit(schema[1..], vals[1..], i - 1)
        {
        }
      }
    }
  }

  /** The check, for every tuple: another number of values is refused; else the first
      value that is Null or of another type decides, a Null by a panic; and without one
      the tuple is let through. */
  lemma TupleCheckExactly(schema: Schema, vals: Tuple)
    ensures |schema| != |vals| ==> IsValidTuple(schema, vals) == Ok(false)
    ensures |schema| == |vals| && (forall i :: 0 <= i < |vals| ==> !Misfit(schema, vals, i)) ==>
              IsValidTuple(schema, vals) == Ok(true)
    ensures forall i: nat :: FirstMisfit(schema, vals, i) ==>
              IsValidTuple(schema, vals) == if vals[i].Null? then Panic else Ok(false)
  {
    if |schema| == |vals| { TypesMatchExactly(schema, vals); }
  }

  /** Some value does not fit: there is a first one. */
  lemma {:induction false} FirstOf(schema: Schema, vals: Tuple, k: nat) returns (i: nat)
    requires |schema| == |vals| && k < |vals| && Misfit(schema, vals, k)
    ensures FirstMisfit(schema, vals, i)
    decreases k
  {
    if j: nat :| j < k && Misfit(schema, vals, j) {
      i := FirstOf(schema, vals, j);
    } else {
      i := k;
    }
  }

  /** So it panics if and only if the first value that does not fit is a Null. */
  lemma CheckPanicsExactly(schema: Schema, vals: Tuple)
    ensures IsValidTuple(schema, vals) == Panic <==> exists i: nat :: FirstMisfit(schema, vals, i) && vals[i].Null?
  {
    hide IsValidTuple;
    TupleCheckExactly(schema, vals);
    if |schema| == |vals| && exists k: nat :: k < |vals| && Misfit(schema, vals, k) {
      var k: nat :| k < |vals| && Misfit(schema, vals, k);
      var _ := FirstOf(schema, vals, k);
    }
  }

  /** A tuple is let through exactly when it is null-free and fits the schema. */
  lemma ValidTuples(schema: Schema, vals: Tuple)
    requires forall i :: 0 <= i < |vals| ==> WellTyped(vals[i])
    ensures IsValidTuple(schema, vals) == Ok(true) <==> ConformsAll(vals, schema) && NullFree(vals)
  {
    if |schema| == |vals| {
      TypesMatchExactly(schema, vals);
      if ConformsAll(vals, schema) && NullFree(vals) {
        forall i | 0 <= i < |vals|
          ensures !Misfit(schema, vals, i)
        {
          assert Conforms(vals[i], schema[i].dataType);
        }
      }
      if forall i :: 0 <= i < |vals| ==> !Misfit(schema, vals, i) {
        forall i | 0 <= i < |vals|
          ensures Conforms(vals[i], schema[i].dataType) && !vals[i].Null?
        {
          assert !Misfit(schema, vals, i);
        }
      }
    }
  }
}

/** The ordering and equality of values across types (src/value.rs): a total
    comparison that is not a transitive one. */
module ValueOrder {
  import opened Bytes
  import opened Values
  import opened Expressions

  datatype Ordering = Below | Same | Above

  function Flip(o: Ordering): Ordering {
    match o
    case Below => Above
    case Same => Same
    case Above => Below
  }

  function OrderInts(a: int, b: int): Ordering {
    if a < b then Below else if a == b then Same else Above
  }

  function OrderBytes(a: Bytes, b: Bytes): Ordering {
    if LexLess(a, b) then Below else if a == b then Same else Above
  }

  /** Where `total_cmp` puts a float: totalOrder, section 5.10 of IEEE 754-2008. */
  function TotalKey(bits: u32): (key: int)
    ensures -0x8000_0000 <= key < 0x8000_0000
  {
    if bits < 0x8000_0000 then bits else 0x7FFF_FFFF - bits
  }

  predicate IsNaN(bits: u32) {
    bits % 0x8000_0000 > 0x7F80_0000
  }

  /** `Value::cmp`. */
  function Compare(ops: FloatOps, a: Value, b: Value): Ordering {
    match (a, b)
    case (Blob(x), Blob(y)) => OrderBytes(x, y)
    case (Boolean(x), Boolean(y)) => OrderInts(if x then 1 else 0, if y then 1 else 0)
    case (Int(x), Int(y)) => OrderInts(x, y)
    case (Float(x), Float(y)) => OrderInts(TotalKey(x), TotalKey(y))
    case (Int(x), Float(y)) => OrderInts(TotalKey(ops.ofInt(x)), TotalKey(y))
    case (Float(x), Int(y)) => OrderInts(TotalKey(x), TotalKey(ops.ofInt(y)))
    case (VarChar(x), VarChar(y)) => OrderBytes(x, y)
    case (Null, Null) => Same
    case (Null, _) => Below
    case (_, Null) => Above
    case (Boolean(_), _) => Below
    case (_, Boolean(_)) => Above
    case (Float(_), _) => Below
    case (_, Float(_)) => Above
    case (Int(_), _) => Below
    case (_, Int(_)) => Above
    case (VarChar(_), _) => Below
    case (_, VarChar(_)) => Above
  }

  /** `Value::eq`, with the floats' own equality. */
  predicate Equals(ops: FloatOps, a: Value, b: Value) {
    match (a, b)
    case (Float(x), Float(y)) => ops.eq(x, y)
    case (Float(x), Int(y)) => ops.eq(x, ops.ofInt(y))
    case (Int(x), Float(y)) => ops.eq(ops.ofInt(x), y)
    case _ => a == b
  }

  // ----- what holds of all values

  /** Any two values are comparable, and swapping them flips the answer. */
  lemma CompareFlips(ops: FloatOps, a: Value, b: Value)
    ensures Compare(ops, a, b) == Flip(Compare(ops, b, a))
    ensures Compare(ops, a, a) == Same
  {
    hide LexLess;
    if a.VarChar? {
      LexTrichotomy(a.s, a.s);
      if b.VarChar? { LexTrichotomy(a.s, b.s); }
    }
    if a.Blob? {
      LexTrichotomy(a.data, a.data);
      if b.Blob? { LexTrichotomy(a.data, b.data); }
    }
  }

  /** The types in order; ints and floats share a place. */
  function Rank(v: Value): nat {
    match v
    case Null => 0
    case Boolean(_) => 1
    case Float(_) => 2
    case Int(_) => 2
    case VarChar(_) => 3
    case Blob(_) => 4
  }

  /** A number as a float's bits. */
  function FloatBits(ops: FloatOps, v: Value): u32
    requires Rank(v) == 2
  {
    if v.Int? then ops.ofInt(v.i) else v.bits
  }

  /** The order of floats: by sign, and then by magnitude, away from zero. */
  predicate FloatBelow(x: u32, y: u32) {
    if x < 0x8000_0000 then y < 0x8000_0000 && x < y
    else y < 0x8000_0000 || x % 0x8000_0000 > y % 0x8000_0000
  }

  /** `cmp` for any two values: by type first, and within a type false before true, ints
      by value, numbers of which one is a float as floats, bytes by the first difference. */
  lemma CompareExactly(ops: FloatOps, a: Value, b: Value)
    ensures Rank(a) < Rank(b) ==> Compare(ops, a, b) == Below
    ensures Rank(a) == Rank(b) ==>
              (Compare(ops, a, b) == Below <==>
                 match (a, b)
                 case (Boolean(x), Boolean(y)) => !x && y
                 case (Int(x), Int(y)) => x < y
                 case (VarChar(x), VarChar(y)) => Precedes(x, y)
                 case (Blob(x), Blob(y)) => Precedes(x, y)
                 case _ => Rank(a) == 2 && FloatBelow(FloatBits(ops, a), FloatBits(ops, b)))
  {
    hide LexLess, Precedes;
    match (a, b) {
      case (VarChar(x), VarChar(y)) => LexLessExactly(x, y); LexTrichotomy(x, y);
      case (Blob(x), Blob(y)) => LexLessExactly(x, y); LexTrichotomy(x, y);
      case _ =>
    }
  }

  // ----- where == and cmp part

  predicate IsZero(bits: u32) {
    bits % 0x8000_0000 == 0
  }

  /** f32 equality: NaN equals nothing, and the two zeros are equal. */
  ghost predicate IeeeEquality(ops: FloatOps) {
    forall x: u32, y: u32 {:trigger ops.eq(x, y)} ::
      ops.eq(x, y) <==> !IsNaN(x) && !IsNaN(y) && (x == y || (IsZero(x) && IsZero(y)))
  }

  /** Numbers, not both ints, that as floats are one and the same NaN, or 0.0 and -0.0. */
  predicate Differs(ops: FloatOps, a: Value, b: Value) {
    && Rank(a) == Rank(b) == 2 && (a.Float? || b.Float?)
    && var x, y := FloatBits(ops, a), FloatBits(ops, b);
       (x == y && IsNaN(x)) || (x != y && IsZero(x) && IsZero(y))
  }

  /** `==` and `cmp` agree on two values exactly if they do not differ in that way. */
  lemma EqualityAgreesExactly(ops: FloatOps, a: Value, b: Value)
    requires IeeeEquality(ops)
    ensures (Equals(ops, a, b) <==> Compare(ops, a, b) == Same) <==> !Differs(ops, a, b)
  {
    hide LexLess;
    if a.VarChar? && b.VarChar? { LexTrichotomy(a.s, b.s); }
    if a.Blob? && b.Blob? { LexTrichotomy(a.data, b.data); }
  }

  /** A NaN compares the same as itself but is not equal to itself. */
  lemma NaNIsNotItself(ops: FloatOps)
    requires IeeeEquality(ops)
    ensures Compare(ops, Float(0x7FC0_0000), Float(0x7FC0_0000)) == Same
    ensures !Equals(ops, Float(0x7FC0_0000), Float(0x7FC0_0000))
  {
  }

  /** 0.0 and -0.0 are equal but do not compare the same. */
  lemma ZerosAreApart(ops: FloatOps)
    requires IeeeEquality(ops)
    ensures Equals(ops, Float(0), Float(0x8000_0000)) && Compare(ops, Float(0), Float(0x8000_0000)) == Above
  {
  }

  // ----- transitivity

  /** The value's int, if it is one, lies in this range. */
  predicate Within(v: Value, lo: int, hi: int) {
    v.Int? ==> lo <= v.i < hi
  }

  predicate AtMost(ops: FloatOps, a: Value, b: Value) {
    Compare(ops, a, b) != Above
  }

  ghost predicate TransitiveWithin(ops: FloatOps, lo: int, hi: int) {
    forall a, b, c {:trigger AtMost(ops, a, b), AtMost(ops, b, c)} ::
      Within(a, lo, hi) && Within(b, lo, hi) && Within(c, lo, hi) && AtMost(ops, a, b) && AtMost(ops, b, c) ==>
        AtMost(ops, a, c)
  }

  /** Larger ints become larger floats. */
  ghost predicate IncreasingWithin(ops: FloatOps, lo: int, hi: int) {
    forall i: i32, j: i32 {:trigger ops.ofInt(i), ops.ofInt(j)} ::
      lo <= i < j < hi ==> TotalKey(ops.ofInt(i)) < TotalKey(ops.ofInt(j))
  }

  lemma {:induction false} LexTransitive(a: Bytes, b: Bytes, c: Bytes)
    requires !LexLess(b, a) && !LexLess(c, b)
    ensures !LexLess(c, a)
  {
    if a != [] && b != [] && c != [] && a[0] == b[0] == c[0] { LexTransitive(a[1..], b[1..], c[1..]); }
  }

  /** Not above means not below the other way round. */
  lemma BytesAtMost(a: Bytes, b: Bytes)
    ensures OrderBytes(a, b) != Above <==> !LexLess(b, a)
  {
    hide LexLess;
    LexTrichotomy(a, b);
  }

  function NumberKey(ops: FloatOps, v: Value): int
    requires Rank(v) == 2
  {
    TotalKey(FloatBits(ops, v))
  }

  /** Different types compare by rank; numbers by where they lie among the floats. */
  lemma CompareByRank(ops: FloatOps, lo: int, hi: int, a: Value, b: Value)
    requires IncreasingWithin(ops, lo, hi) && Within(a, lo, hi) && Within(b, lo, hi)
    ensures Rank(a) != Rank(b) ==> (AtMost(ops, a, b) <==> Rank(a) < Rank(b))
    ensures Rank(a) == Rank(b) == 2 ==> (AtMost(ops, a, b) <==> NumberKey(ops, a) <= NumberKey(ops, b))
  {
    hide LexLess;
    if a.Int? && b.Int? {
      assert a.i < b.i ==> TotalKey(ops.ofInt(a.i)) < TotalKey(ops.ofInt(b.i));
      assert b.i < a.i ==> TotalKey(ops.ofInt(b.i)) < TotalKey(ops.ofInt(a.i));
    }
  }

  lemma AtMostTransitive(ops: FloatOps, lo: int, hi: int, a: Value, b: Value, c: Value)
    requires IncreasingWithin(ops, lo, hi) && Within(a, lo, hi) && Within(b, lo, hi) && Within(c, lo, hi)
    requires AtMost(ops, a, b) && AtMost(ops, b, c)
    ensures AtMost(ops, a, c)
  {
    hide LexLess, TotalKey;
    CompareByRank(ops, lo, hi, a, b);
    CompareByRank(ops, lo, hi, b, c);
    CompareByRank(ops, lo, hi, a, c);
    if a.VarChar? && b.VarChar? && c.VarChar? {
      BytesAtMost(a.s, b.s);
      BytesAtMost(b.s, c.s);
      BytesAtMost(a.s, c.s);
      LexTransitive(a.s, b.s, c.s);
    } else if a.Blob? && b.Blob? && c.Blob? {
      BytesAtMost(a.data, b.data);
      BytesAtMost(b.data, c.data);
      BytesAtMost(a.data, c.data);
      LexTransitive(a.data, b.data, c.data);
    }
  }

  /** On the values whose ints lie in a range, `cmp` is transitive exactly if the
      conversion to float is strictly increasing there. */
  lemma TransitiveExactly(ops: FloatOps, lo: int, hi: int)
    ensures TransitiveWithin(ops, lo, hi) <==> IncreasingWithin(ops, lo, hi)
  {
    hide LexLess, TotalKey;
    if IncreasingWithin(ops, lo, hi) {
      forall a, b, c {:trigger AtMost(ops, a, b), AtMost(ops, b, c)}
        | Within(a, lo, hi) && Within(b, lo, hi) && Within(c, lo, hi) && AtMost(ops, a, b) && AtMost(ops, b, c)
        ensures AtMost(ops, a, c)
      {
        AtMostTransitive(ops, lo, hi, a, b, c);
      }
    }
    if TransitiveWithin(ops, lo, hi) {
      forall i: i32, j: i32 {:trigger ops.ofInt(i), ops.ofInt(j)} | lo <= i < j < hi
        ensures TotalKey(ops.ofInt(i)) < TotalKey(ops.ofInt(j))
      {
        var between := Float(ops.ofInt(i));
        assert AtMost(ops, between, Int(i)) && !AtMost(ops, Int(j), Int(i));
        assert !AtMost(ops, Int(j), between);
      }
    }
  }

  lemma {:induction false} KeysClimb(ops: FloatOps, i: i32)
    requires IncreasingWithin(ops, -0x8000_0000, 0x8000_0000)
    ensures TotalKey(ops.ofInt(i)) >= i
    decreases i + 0x8000_0000
  {
    hide TotalKey;
    if i > -0x8000_0000 {
      KeysClimb(ops, i - 1);
      assert TotalKey(ops.ofInt(i - 1)) < TotalKey(ops.ofInt(i));
    }
  }

  /** There are not enough floats: whatever the conversion, unless it makes the
      largest int a NaN, `cmp` on all values is not transitive. */
  lemma NeverTransitive(ops: FloatOps)
    requires !IsNaN(ops.ofInt(0x7FFF_FFFF))
    ensures !TransitiveWithin(ops, -0x8000_0000, 0x8000_0000)
  {
    TransitiveExactly(ops, -0x8000_0000, 0x8000_0000);
    if IncreasingWithin(ops, -0x8000_0000, 0x8000_0000) { KeysClimb(ops, 0x7FFF_FFFF); }
  }

  /** The first ints that round to one float, 2^24 and 2^24 + 1, show it. */
  lemma RoundingBreaksOrder(ops: FloatOps)
    requires ops.ofInt(0x100_0000) == 0x4B80_0000 && ops.ofInt(0x100_0001) == 0x4B80_0000
    ensures var middle := Float(0x4B80_0000);
            && Compare(ops, Int(0x100_0001), middle) == Same && Compare(ops, middle, Int(0x100_0000)) == Same
            && Compare(ops, Int(0x100_0001), Int(0x100_0000)) == Above
  {
  }
}

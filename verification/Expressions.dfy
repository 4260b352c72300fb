/** Bound expressions and the engine's two evaluators: over tuples, and over the
    bytes of a record (src/expr.rs). */
module Expressions {
  import opened Bytes
  import opened Outcomes
  import opened Values
  import opened RecordCodec

  /** f32 arithmetic on bit patterns: any functions at all. */
  datatype FloatOps = FloatOps(
    add: (u32, u32) -> u32,
    sub: (u32, u32) -> u32,
    mul: (u32, u32) -> u32,
    div: (u32, u32) -> u32,
    eq: (u32, u32) -> bool,
    lt: (u32, u32) -> bool,
    gt: (u32, u32) -> bool,
    ofInt: i32 -> u32)

  datatype BinOp =
    | And | Or | Equal | GreaterThan | LessThan
    | Add | Subtract | Multiply | Divide

  datatype Expr =
    | AttrRef(idx: nat)
    | Constant(v: Value)
    | Binary(op: BinOp, l: Expr, r: Expr)
    | Like(l: Expr, r: Expr)
    | Not(e: Expr)
    | IsNull(e: Expr)
    | IsNotNull(e: Expr)

  // ----- what the operators mean, by the types of the operands

  /** Byte order, which is Rust's order on strings and on byte slices. */
  predicate LexLess(a: Bytes, b: Bytes) {
    b != [] && (a == [] || a[0] < b[0] || (a[0] == b[0] && LexLess(a[1..], b[1..])))
  }

  /** Of two byte strings exactly one is below the other, or they are equal. */
  lemma {:induction false} LexTrichotomy(a: Bytes, b: Bytes)
    ensures !LexLess(a, b) <==> LexLess(b, a) || a == b
    ensures !(LexLess(a, b) && LexLess(b, a)) && !LexLess(a, a)
  {
    if a != [] && b != [] {
      LexTrichotomy(a[1..], b[1..]);
      LexTrichotomy(a[1..], a[1..]);
      assert a == [a[0]] + a[1..] && b == [b[0]] + b[1..];
    } else if a != [] {
      LexTrichotomy(a[1..], a[1..]);
    }
  }

  /** `a` is a proper prefix of `b`, or has the smaller byte where they first differ. */
  ghost predicate Precedes(a: Bytes, b: Bytes) {
    exists k: nat :: PartsAt(a, b, k)
  }

  predicate PartsAt(a: Bytes, b: Bytes, k: nat) {
    k <= |a| && k < |b| && a[..k] == b[..k] && (k == |a| || a[k] < b[k])
  }

  lemma {:induction false} LexLessExactly(a: Bytes, b: Bytes)
    ensures LexLess(a, b) <==> Precedes(a, b)
  {
    if a == [] || b == [] {
      assert b != [] ==> PartsAt(a, b, 0) && a[..0] == b[..0];
    } else {
      LexLessExactly(a[1..], b[1..]);
      if LexLess(a, b) {
        if a[0] < b[0] {
          assert a[..0] == b[..0] && PartsAt(a, b, 0);
        } else {
          var k: nat :| PartsAt(a[1..], b[1..], k);
          assert a[..k + 1] == [a[0]] + a[1..][..k] && b[..k + 1] == [b[0]] + b[1..][..k];
          assert PartsAt(a, b, k + 1);
        }
      }
      if Precedes(a, b) {
        var k: nat :| PartsAt(a, b, k);
        if k > 0 {
          assert a[..k][0] == b[..k][0] && a[..k][1..] == a[1..][..k - 1] && b[..k][1..] == b[1..][..k - 1];
          assert PartsAt(a[1..], b[1..], k - 1);
        }
      }
    }
  }

  /** Debug-profile i32 arithmetic: overflow panics. */
  function IntResult(n: int): Outcome<Value> {
    if -0x8000_0000 <= n < 0x8000_0000 then Ok(Int(n)) else Panic
  }

  /** Rust's division truncates toward zero. */
  function Truncated(a: int, b: int): int
    requires b != 0
  {
    var q := (if a < 0 then -a else a) / (if b < 0 then -b else b);
    if (a < 0) == (b < 0) then q else -q
  }

  /** What is left of a is smaller than b, and has the sign of a. */
  predicate IsQuotient(a: int, b: int, q: int) {
    var r := a - b * q;
    && (if r < 0 then -r else r) < (if b < 0 then -b else b)
    && (r == 0 || (r < 0 <==> a < 0))
  }

  lemma TruncatedExactly(a: int, b: int)
    requires b != 0
    ensures IsQuotient(a, b, Truncated(a, b))
  {
    var x, y := if a < 0 then -a else a, if b < 0 then -b else b;
    var q := x / y;
    assert x == y * q + x % y;
    assert b * q == if b < 0 then -(y * q) else y * q;
    assert b * (-q) == -(b * q);
  }

  function IntOp(op: BinOp, a: i32, b: i32): Outcome<Value> {
    match op
    case Add => IntResult(a + b)
    case Subtract => IntResult(a - b)
    case Multiply => IntResult(a * b)
    case Divide => if b == 0 then Panic else IntResult(Truncated(a, b))
    case Equal => Ok(Boolean(a == b))
    case GreaterThan => Ok(Boolean(a > b))
    case LessThan => Ok(Boolean(a < b))
    case _ => Err(InvalidComparison)
  }

  function FloatOp(ops: FloatOps, op: BinOp, a: u32, b: u32): Outcome<Value> {
    match op
    case Add => Ok(Float(ops.add(a, b)))
    case Subtract => Ok(Float(ops.sub(a, b)))
    case Multiply => Ok(Float(ops.mul(a, b)))
    case Divide => Ok(Float(ops.div(a, b)))
    case Equal => Ok(Boolean(ops.eq(a, b)))
    case GreaterThan => Ok(Boolean(ops.gt(a, b)))
    case LessThan => Ok(Boolean(ops.lt(a, b)))
    case _ => Err(InvalidComparison)
  }

  function BytesOp(op: BinOp, a: Bytes, b: Bytes): Outcome<Value> {
    match op
    case Equal => Ok(Boolean(a == b))
    case GreaterThan => Ok(Boolean(LexLess(b, a)))
    case LessThan => Ok(Boolean(LexLess(a, b)))
    case _ => Err(InvalidComparison)
  }

  function BooleanOp(op: BinOp, a: bool, b: bool): Outcome<Value> {
    match op
    case And => Ok(Boolean(a && b))
    case Or => Ok(Boolean(a || b))
    case Equal => Ok(Boolean(a == b))
    case GreaterThan => Ok(Boolean(a && !b))
    case LessThan => Ok(Boolean(!a && b))
    case _ => Err(InvalidComparison)
  }

  /** With a Null: AND and OR look at the other side, the rest is Null. */
  function NullOp(op: BinOp, other: Value): Outcome<Value> {
    match op
    case And => if other.Null? || other == Boolean(true) then Ok(Null)
                else if other == Boolean(false) then Ok(Boolean(false)) else Err(InvalidComparison)
    case Or => if other.Null? || other == Boolean(false) then Ok(Null)
               else if other == Boolean(true) then Ok(Boolean(true)) else Err(InvalidComparison)
    case _ => Ok(Null)
  }

  function Apply(ops: FloatOps, op: BinOp, l: Value, r: Value): Outcome<Value> {
    match (l, r)
    case (Null, _) => NullOp(op, r)
    case (_, Null) => NullOp(op, l)
    case (Boolean(a), Boolean(b)) => BooleanOp(op, a, b)
    case (Int(a), Int(b)) => IntOp(op, a, b)
    case (Float(a), Float(b)) => FloatOp(ops, op, a, b)
    case (Int(a), Float(b)) => FloatOp(ops, op, ops.ofInt(a), b)
    case (Float(a), Int(b)) => FloatOp(ops, op, a, ops.ofInt(b))
    case (VarChar(a), VarChar(b)) => if op.Add? then Ok(VarChar(a + b)) else BytesOp(op, a, b)
    case (Blob(a), Blob(b)) => BytesOp(op, a, b)
    case _ => Err(InvalidComparison)
  }

  // ----- the evaluators' own arms, operator by operator

  function AndValues(l: Value, r: Value): Outcome<Value> {
    match (l, r)
    case (Boolean(a), Boolean(b)) => Ok(Boolean(a && b))
    case (Boolean(b), Null) => Ok(if b then Null else Boolean(b))
    case (Null, Boolean(b)) => Ok(if b then Null else Boolean(b))
    case (Null, Null) => Ok(Null)
    case _ => Err(InvalidComparison)
  }

  function OrValues(l: Value, r: Value): Outcome<Value> {
    match (l, r)
    case (Boolean(a), Boolean(b)) => Ok(Boolean(a || b))
    case (Boolean(b), Null) => Ok(if b then Boolean(b) else Null)
    case (Null, Boolean(b)) => Ok(if b then Boolean(b) else Null)
    case (Null, Null) => Ok(Null)
    case _ => Err(InvalidComparison)
  }

  function EqualValues(ops: FloatOps, l: Value, r: Value): Outcome<Value> {
    match (l, r)
    case (Boolean(a), Boolean(b)) => Ok(Boolean(a == b))
    case (Int(a), Int(b)) => Ok(Boolean(a == b))
    case (Float(a), Float(b)) => Ok(Boolean(ops.eq(a, b)))
    case (Int(a), Float(b)) => Ok(Boolean(ops.eq(ops.ofInt(a), b)))
    case (Float(a), Int(b)) => Ok(Boolean(ops.eq(a, ops.ofInt(b))))
    case (VarChar(a), VarChar(b)) => Ok(Boolean(a == b))
    case (Blob(a), Blob(b)) => Ok(Boolean(a == b))
    case (Null, _) => Ok(Null)
    case (_, Null) => Ok(Null)
    case _ => Err(InvalidComparison)
  }

  function GreaterValues(ops: FloatOps, l: Value, r: Value): Outcome<Value> {
    match (l, r)
    case (Boolean(a), Boolean(b)) => Ok(Boolean(a && !b))
    case (Int(a), Int(b)) => Ok(Boolean(a > b))
    case (Float(a), Float(b)) => Ok(Boolean(ops.gt(a, b)))
    case (Int(a), Float(b)) => Ok(Boolean(ops.gt(ops.ofInt(a), b)))
    case (Float(a), Int(b)) => Ok(Boolean(ops.gt(a, ops.ofInt(b))))
    case (VarChar(a), VarChar(b)) => Ok(Boolean(LexLess(b, a)))
    case (Blob(a), Blob(b)) => Ok(Boolean(LexLess(b, a)))
    case (Null, _) => Ok(Null)
    case (_, Null) => Ok(Null)
    case _ => Err(InvalidComparison)
  }

  function LessValues(ops: FloatOps, l: Value, r: Value): Outcome<Value> {
    match (l, r)
    case (Boolean(a), Boolean(b)) => Ok(Boolean(!a && b))
    case (Int(a), Int(b)) => Ok(Boolean(a < b))
    case (Float(a), Float(b)) => Ok(Boolean(ops.lt(a, b)))
    case (Int(a), Float(b)) => Ok(Boolean(ops.lt(ops.ofInt(a), b)))
    case (Float(a), Int(b)) => Ok(Boolean(ops.lt(a, ops.ofInt(b))))
    case (VarChar(a), VarChar(b)) => Ok(Boolean(LexLess(a, b)))
    case (Blob(a), Blob(b)) => Ok(Boolean(LexLess(a, b)))
    case (Null, _) => Ok(Null)
    case (_, Null) => Ok(Null)
    case _ => Err(InvalidComparison)
  }

  function AddValues(ops: FloatOps, l: Value, r: Value): Outcome<Value> {
    match (l, r)
    case (Int(a), Int(b)) => IntResult(a + b)
    case (Float(a), Float(b)) => Ok(Float(ops.add(a, b)))
    case (Int(a), Float(b)) => Ok(Float(ops.add(ops.ofInt(a), b)))
    case (Float(a), Int(b)) => Ok(Float(ops.add(a, ops.ofInt(b))))
    case (VarChar(a), VarChar(b)) => Ok(VarChar(a + b))
    case (Null, _) => Ok(Null)
    case (_, Null) => Ok(Null)
    case _ => Err(InvalidComparison)
  }

  /** Subtraction, multiplication and division have the same arms. */
  function NumberValues(ops: FloatOps, ints: (i32, i32) -> Outcome<Value>, floats: (u32, u32) -> u32,
                        l: Value, r: Value)
    : Outcome<Value>
  {
    match (l, r)
    case (Int(a), Int(b)) => ints(a, b)
    case (Float(a), Float(b)) => Ok(Float(floats(a, b)))
    case (Int(a), Float(b)) => Ok(Float(floats(ops.ofInt(a), b)))
    case (Float(a), Int(b)) => Ok(Float(floats(a, ops.ofInt(b))))
    case (Null, _) => Ok(Null)
    case (_, Null) => Ok(Null)
    case _ => Err(InvalidComparison)
  }

  function ApplyByOperator(ops: FloatOps, op: BinOp, l: Value, r: Value): Outcome<Value> {
    match op
    case And => AndValues(l, r)
    case Or => OrValues(l, r)
    case Equal => EqualValues(ops, l, r)
    case GreaterThan => GreaterValues(ops, l, r)
    case LessThan => LessValues(ops, l, r)
    case Add => AddValues(ops, l, r)
    case Subtract => NumberValues(ops, (a: i32, b: i32) => IntResult(a - b), ops.sub, l, r)
    case Multiply => NumberValues(ops, (a: i32, b: i32) => IntResult(a * b), ops.mul, l, r)
    case Divide =>
      NumberValues(ops, (a: i32, b: i32) => if b == 0 then Panic else IntResult(Truncated(a, b)), ops.div, l, r)
  }

  /** The arms give, for every operator and every pair of values, what the operator
      means on operands of those types. */
  lemma TablesAgree(ops: FloatOps, op: BinOp, l: Value, r: Value)
    ensures ApplyByOperator(ops, op, l, r) == Apply(ops, op, l, r)
  {
    hide LexLess, Truncated, IntResult;
  }

  function Negate(v: Value): Outcome<Value> {
    match v
    case Boolean(b) => Ok(Boolean(!b))
    case Null => Ok(Null)
    case _ => Err(InvalidComparison)
  }

  // ----- what the arms answer, in terms of numbers and bytes

  function InRange(n: int): Outcome<Value> {
    if n < -0x8000_0000 || n > 0x7FFF_FFFF then Panic else Ok(Int(n))
  }

  lemma SameRange(n: int)
    ensures IntResult(n) == InRange(n)
  {
  }

  /** Ints: the mathematical result if it is an i32, and a panic if not; division
      truncates toward zero, and by zero it panics. */
  lemma IntArithmetic(ops: FloatOps, a: i32, b: i32)
    ensures ApplyByOperator(ops, Add, Int(a), Int(b)) == InRange(a + b)
    ensures ApplyByOperator(ops, Subtract, Int(a), Int(b)) == InRange(a - b)
    ensures ApplyByOperator(ops, Multiply, Int(a), Int(b)) == InRange(a * b)
    ensures b == 0 ==> ApplyByOperator(ops, Divide, Int(a), Int(b)) == Panic
    ensures b != 0 ==>
              exists q :: IsQuotient(a, b, q) && ApplyByOperator(ops, Divide, Int(a), Int(b)) == InRange(q)
  {
    hide Truncated, IsQuotient;
    if b != 0 {
      TruncatedExactly(a, b);
      assert IsQuotient(a, b, Truncated(a, b));
      SameRange(Truncated(a, b));
    }
    SameRange(a + b);
    SameRange(a - b);
    SameRange(a * b);
  }

  predicate IsNumber(v: Value) {
    v.Int? || v.Float?
  }

  /** Which operands, neither of them Null, an operator takes. */
  predicate Takes(op: BinOp, l: Value, r: Value) {
    match op
    case And => l.Boolean? && r.Boolean?
    case Or => l.Boolean? && r.Boolean?
    case Equal => TypeOf(l) == TypeOf(r) || (IsNumber(l) && IsNumber(r))
    case GreaterThan => TypeOf(l) == TypeOf(r) || (IsNumber(l) && IsNumber(r))
    case LessThan => TypeOf(l) == TypeOf(r) || (IsNumber(l) && IsNumber(r))
    case Add => (l.VarChar? && r.VarChar?) || (IsNumber(l) && IsNumber(r))
    case _ => IsNumber(l) && IsNumber(r)
  }

  /** Operands of other types are refused, and only they are; a Null makes everything but
      AND and OR Null, whatever the other operand is. */
  lemma OperandsExactly(ops: FloatOps, op: BinOp, l: Value, r: Value)
    ensures !l.Null? && !r.Null? ==>
              (ApplyByOperator(ops, op, l, r) == Err(InvalidComparison) <==> !Takes(op, l, r))
    ensures (l.Null? || r.Null?) && !op.And? && !op.Or? ==> ApplyByOperator(ops, op, l, r) == Ok(Null)
  {
    hide LexLess, Truncated, ApplyByOperator;
    TablesAgree(ops, op, l, r);
    match op {
      case And =>
      case Or =>
      case _ =>
    }
  }

  /** Ints are compared by value, and false is below true. */
  lemma OrderedComparison(ops: FloatOps, a: i32, b: i32, p: bool, q: bool)
    ensures ApplyByOperator(ops, Equal, Int(a), Int(b)) == Ok(Boolean(a == b))
    ensures ApplyByOperator(ops, LessThan, Int(a), Int(b)) == Ok(Boolean(a < b))
    ensures ApplyByOperator(ops, GreaterThan, Int(a), Int(b)) == Ok(Boolean(b < a))
    ensures ApplyByOperator(ops, Equal, Boolean(p), Boolean(q)) == Ok(Boolean(p <==> q))
    ensures ApplyByOperator(ops, LessThan, Boolean(p), Boolean(q)) == Ok(Boolean(!p && q))
    ensures ApplyByOperator(ops, GreaterThan, Boolean(p), Boolean(q)) == Ok(Boolean(p && !q))
  {
  }

  /** For example, 7 by 2 in all four signs, and the one quotient that is no i32. */
  lemma DivisionExamples(ops: FloatOps)
    ensures ApplyByOperator(ops, Divide, Int(7), Int(2)) == Ok(Int(3))
    ensures ApplyByOperator(ops, Divide, Int(-7), Int(2)) == Ok(Int(-3))
    ensures ApplyByOperator(ops, Divide, Int(7), Int(-2)) == Ok(Int(-3))
    ensures ApplyByOperator(ops, Divide, Int(-7), Int(-2)) == Ok(Int(3))
    ensures ApplyByOperator(ops, Divide, Int(-0x8000_0000), Int(-1)) == Panic
  {
  }

  /** Strings and blobs: by the first byte in which they differ. */
  lemma ByteComparison(ops: FloatOps, a: Bytes, b: Bytes)
    ensures ApplyByOperator(ops, LessThan, VarChar(a), VarChar(b)) == Ok(Boolean(Precedes(a, b)))
    ensures ApplyByOperator(ops, GreaterThan, VarChar(a), VarChar(b)) == Ok(Boolean(Precedes(b, a)))
    ensures ApplyByOperator(ops, Equal, VarChar(a), VarChar(b)) == Ok(Boolean(a == b))
    ensures ApplyByOperator(ops, LessThan, Blob(a), Blob(b)) == Ok(Boolean(Precedes(a, b)))
    ensures ApplyByOperator(ops, GreaterThan, Blob(a), Blob(b)) == Ok(Boolean(Precedes(b, a)))
    ensures ApplyByOperator(ops, Equal, Blob(a), Blob(b)) == Ok(Boolean(a == b))
  {
    hide LexLess, Precedes;
    LexLessExactly(a, b);
    LexLessExactly(b, a);
  }

  // ----- the two evaluators

  /** `evaluate`: a column that is not there panics. */
  function Evaluate(ops: FloatOps, e: Expr, tuple: Option<Tuple>): Outcome<Value> {
    match e
    case AttrRef(idx) =>
      if tuple.Some? && idx < |tuple.value| then Ok(tuple.value[idx]) else Panic
    case Constant(v) => Ok(v)
    case Binary(op, l, r) =>
      var a :- Evaluate(ops, l, tuple);
      var b :- Evaluate(ops, r, tuple);
      ApplyByOperator(ops, op, a, b)
    case Like(_, _) => Panic
    case Not(x) =>
      var v :- Evaluate(ops, x, tuple);
      Negate(v)
    case IsNull(x) =>
      var v :- Evaluate(ops, x, tuple);
      Ok(Boolean(v.Null?))
    case IsNotNull(x) =>
      var v :- Evaluate(ops, x, tuple);
      Ok(Boolean(!v.Null?))
  }

  /** A record and the schema to read it with. */
  datatype TupleRef = TupleRef(bytes: Bytes, schema: Schema)

  /** `evaluate_ref`: columns are read from the record's bytes. */
  function EvaluateRef(ops: FloatOps, e: Expr, tuple: Option<TupleRef>): Outcome<Value> {
    match e
    case AttrRef(idx) =>
      if tuple.None? then Panic else GetAttr(tuple.value.bytes, tuple.value.schema, idx)
    case Constant(v) => Ok(v)
    case Binary(op, l, r) =>
      var a :- EvaluateRef(ops, l, tuple);
      var b :- EvaluateRef(ops, r, tuple);
      ApplyByOperator(ops, op, a, b)
    case Like(_, _) => Panic
    case Not(x) =>
      var v :- EvaluateRef(ops, x, tuple);
      Negate(v)
    case IsNull(x) =>
      var v :- EvaluateRef(ops, x, tuple);
      Ok(Boolean(v.Null?))
    case IsNotNull(x) =>
      var v :- EvaluateRef(ops, x, tuple);
      Ok(Boolean(!v.Null?))
  }

  predicate AttrsBelow(e: Expr, n: nat) {
    match e
    case AttrRef(idx) => idx < n
    case Constant(_) => true
    case Binary(_, l, r) => AttrsBelow(l, n) && AttrsBelow(r, n)
    case Like(l, r) => AttrsBelow(l, n) && AttrsBelow(r, n)
    case Not(x) => AttrsBelow(x, n)
    case IsNull(x) => AttrsBelow(x, n)
    case IsNotNull(x) => AttrsBelow(x, n)
  }

  /** A tuple as `insert` stores it: null-free, of the schema's types, in a record. */
  ghost predicate Storable(vals: Tuple, schema: Schema) {
    ConformsAll(vals, schema) && NullFree(vals) && |Encode(vals, schema)| <= 0xFFFF
  }

  lemma SameLength(vals: Tuple, schema: Schema)
    requires ConformsAll(vals, schema)
    ensures |vals| == |schema|
  {
  }

  /** Evaluation reaches a column that is not there. */
  predicate Missing(ops: FloatOps, e: Expr, vals: Tuple) {
    match e
    case AttrRef(idx) => idx >= |vals|
    case Constant(_) => false
    case Binary(_, l, r) => Missing(ops, l, vals) || (Evaluate(ops, l, Some(vals)).Ok? && Missing(ops, r, vals))
    case Like(_, _) => false
    case Not(x) => Missing(ops, x, vals)
    case IsNull(x) => Missing(ops, x, vals)
    case IsNotNull(x) => Missing(ops, x, vals)
  }

  /** The evaluators agree on an expression exactly if evaluation never reaches a
      column that is not there; then one panics and the other answers an error. */
  lemma {:induction false} EvaluatorsAgreeExactly(ops: FloatOps, e: Expr, vals: Tuple, schema: Schema)
    requires Storable(vals, schema)
    ensures var overBytes := EvaluateRef(ops, e, Some(TupleRef(Encode(vals, schema), schema)));
            if Missing(ops, e, vals) then overBytes == Err(Unknown) && Evaluate(ops, e, Some(vals)) == Panic
            else overBytes == Evaluate(ops, e, Some(vals))
  {
    hide Encode, GetAttr, ConformsAll, NullFree, ApplyByOperator, Negate;
    match e {
      case AttrRef(idx) =>
        SameLength(vals, schema);
        GetAttrReads(vals, schema, idx);
      case Constant(_) =>
      case Binary(_, l, r) =>
        EvaluatorsAgreeExactly(ops, l, vals, schema);
        EvaluatorsAgreeExactly(ops, r, vals, schema);
      case Like(_, _) =>
      case Not(x) => EvaluatorsAgreeExactly(ops, x, vals, schema);
      case IsNull(x) => EvaluatorsAgreeExactly(ops, x, vals, schema);
      case IsNotNull(x) => EvaluatorsAgreeExactly(ops, x, vals, schema);
    }
  }

  /** Whatever binds has its columns in range, so for it they agree. */
  lemma {:induction false} InRangeIsNotMissing(ops: FloatOps, e: Expr, vals: Tuple)
    requires AttrsBelow(e, |vals|)
    ensures !Missing(ops, e, vals)
  {
    match e {
      case Binary(_, l, r) => InRangeIsNotMissing(ops, l, vals); InRangeIsNotMissing(ops, r, vals);
      case Not(x) => InRangeIsNotMissing(ops, x, vals);
      case IsNull(x) => InRangeIsNotMissing(ops, x, vals);
      case IsNotNull(x) => InRangeIsNotMissing(ops, x, vals);
      case _ =>
    }
  }

  /** Evaluating over a stored record's bytes gives the value, error or panic that
      evaluating over the tuple gives. */
  lemma EvaluatorsAgree(ops: FloatOps, e: Expr, vals: Tuple, schema: Schema)
    requires Storable(vals, schema) && AttrsBelow(e, |schema|)
    ensures EvaluateRef(ops, e, Some(TupleRef(Encode(vals, schema), schema))) == Evaluate(ops, e, Some(vals))
  {
    hide Encode, GetAttr, ConformsAll, NullFree, Evaluate, EvaluateRef;
    SameLength(vals, schema);
    InRangeIsNotMissing(ops, e, vals);
    EvaluatorsAgreeExactly(ops, e, vals, schema);
  }

  /** For a bare column that is: exactly if it is in range. */
  lemma AttrAgreesExactly(ops: FloatOps, idx: nat, vals: Tuple, schema: Schema)
    requires Storable(vals, schema)
    ensures EvaluateRef(ops, AttrRef(idx), Some(TupleRef(Encode(vals, schema), schema)))
         == Evaluate(ops, AttrRef(idx), Some(vals))
       <==> idx < |schema|
  {
    hide Encode, GetAttr, NullFree, ConformsAll, Evaluate, EvaluateRef;
    SameLength(vals, schema);
    EvaluatorsAgreeExactly(ops, AttrRef(idx), vals, schema);
  }

  // ----- three-valued logic

  predicate IsTruth(v: Value) {
    v.Boolean? || v.Null?
  }

  /** false, Null, true as 0, 1, 2. */
  function Truth(v: Value): nat
    requires IsTruth(v)
  {
    if v.Null? then 1 else if v.b then 2 else 0
  }

  /** AND, OR and NOT are the minimum, the maximum and the complement of three truth
      values, and refuse anything else. */
  lemma ThreeValuedLogic(ops: FloatOps, l: Value, r: Value)
    ensures Apply(ops, And, l, r).Ok? <==> IsTruth(l) && IsTruth(r)
    ensures Apply(ops, Or, l, r).Ok? <==> IsTruth(l) && IsTruth(r)
    ensures Negate(l).Ok? <==> IsTruth(l)
    ensures !IsTruth(l) ==> Negate(l) == Err(InvalidComparison)
    ensures !(IsTruth(l) && IsTruth(r)) ==>
              Apply(ops, And, l, r) == Err(InvalidComparison) && Apply(ops, Or, l, r) == Err(InvalidComparison)
    ensures IsTruth(l) && IsTruth(r) ==>
              && IsTruth(Apply(ops, And, l, r).value) && IsTruth(Apply(ops, Or, l, r).value)
              && Truth(Apply(ops, And, l, r).value) == (if Truth(l) <= Truth(r) then Truth(l) else Truth(r))
              && Truth(Apply(ops, Or, l, r).value) == (if Truth(l) <= Truth(r) then Truth(r) else Truth(l))
    ensures IsTruth(l) ==> IsTruth(Negate(l).value) && Truth(Negate(l).value) == 2 - Truth(l)
  {
  }

  /** `more` is `less` with some Nulls replaced by values. */
  predicate Fills(less: Tuple, more: Tuple) {
    |less| == |more| && forall i :: 0 <= i < |less| ==> less[i].Null? || less[i] == more[i]
  }

  predicate NoNullTests(e: Expr) {
    match e
    case AttrRef(_) => true
    case Constant(_) => true
    case Binary(_, l, r) => NoNullTests(l) && NoNullTests(r)
    case Like(_, _) => true
    case Not(x) => NoNullTests(x)
    case IsNull(_) => false
    case IsNotNull(_) => false
  }

  lemma ApplyMonotone(ops: FloatOps, op: BinOp, a: Value, b: Value, a': Value, b': Value)
    requires (a.Null? || a == a') && (b.Null? || b == b')
    requires Apply(ops, op, a, b).Ok? && Apply(ops, op, a', b').Ok?
    ensures Apply(ops, op, a, b).value.Null? || Apply(ops, op, a', b') == Apply(ops, op, a, b)
  {
  }

  /** Replacing Nulls by values never changes an answer that was not Null: without the
      null tests, a Null only stands for "not known yet". */
  lemma {:induction false} NullMonotone(ops: FloatOps, e: Expr, less: Tuple, more: Tuple)
    requires Fills(less, more) && NoNullTests(e)
    requires Evaluate(ops, e, Some(less)).Ok? && Evaluate(ops, e, Some(more)).Ok?
    ensures Evaluate(ops, e, Some(less)).value.Null? || Evaluate(ops, e, Some(more)) == Evaluate(ops, e, Some(less))
  {
    hide Apply, ApplyByOperator;
    match e {
      case AttrRef(_) =>
      case Constant(_) =>
      case Binary(op, l, r) =>
        NullMonotone(ops, l, less, more);
        NullMonotone(ops, r, less, more);
        TablesAgree(ops, op, Evaluate(ops, l, Some(less)).value, Evaluate(ops, r, Some(less)).value);
        TablesAgree(ops, op, Evaluate(ops, l, Some(more)).value, Evaluate(ops, r, Some(more)).value);
        ApplyMonotone(ops, op,
          Evaluate(ops, l, Some(less)).value, Evaluate(ops, r, Some(less)).value,
          Evaluate(ops, l, Some(more)).value, Evaluate(ops, r, Some(more)).value);
      case Like(_, _) =>
      case Not(x) => NullMonotone(ops, x, less, more);
      case IsNull(_) =>
      case IsNotNull(_) =>
    }
  }

  /** With a null test the answer can change. */
  lemma NullTestsAreNotMonotone(ops: FloatOps)
    ensures Fills([Null], [Int(0)])
    ensures Evaluate(ops, IsNull(AttrRef(0)), Some([Null])) == Ok(Boolean(true))
    ensures Evaluate(ops, IsNull(AttrRef(0)), Some([Int(0)])) == Ok(Boolean(false))
  {
  }

  // ----- strings stay strings

  predicate WellTypedExpr(e: Expr) {
    match e
    case AttrRef(_) => true
    case Constant(v) => WellTyped(v)
    case Binary(_, l, r) => WellTypedExpr(l) && WellTypedExpr(r)
    case Like(l, r) => WellTypedExpr(l) && WellTypedExpr(r)
    case Not(x) => WellTypedExpr(x)
    case IsNull(x) => WellTypedExpr(x)
    case IsNotNull(x) => WellTypedExpr(x)
  }

  /** Evaluation never makes a string that is not UTF-8. */
  lemma {:induction false} EvaluateWellTyped(ops: FloatOps, e: Expr, tuple: Option<Tuple>)
    requires WellTypedExpr(e) && Evaluate(ops, e, tuple).Ok?
    requires tuple.Some? ==> forall i :: 0 <= i < |tuple.value| ==> WellTyped(tuple.value[i])
    ensures WellTyped(Evaluate(ops, e, tuple).value)
  {
    hide ValidUtf8;
    match e {
      case Binary(op, l, r) =>
        EvaluateWellTyped(ops, l, tuple);
        EvaluateWellTyped(ops, r, tuple);
        var a, b := Evaluate(ops, l, tuple).value, Evaluate(ops, r, tuple).value;
        if a.VarChar? && b.VarChar? { ConcatValidUtf8(a.s, b.s); }
      case _ =>
    }
  }
}

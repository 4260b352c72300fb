/** Binding: SQL expressions become the engine's smaller expression language
    (src/planner/binder.rs). */
module Binding {
  import opened Bytes
  import opened Outcomes
  import opened Values
  import opened Expressions

  /** A table as the binder sees it. */
  datatype NamedSchema = NamedSchema(name: Bytes, schema: Schema)

  datatype Literal =
    BooleanLit(b: bool) | StringLit(s: Bytes) | NullLit | IntLit(i: i32) | FloatLit(bits: u32) | OtherLit

  datatype SqlOp =
    | AndOp | OrOp | EqOp | NotEqOp | GtOp | GtEqOp | LtOp | LtEqOp
    | PlusOp | MinusOp | MultiplyOp | DivideOp | OtherOp

  datatype SqlUnary = NotOp | NegateOp | PositiveOp | OtherUnary

  datatype SqlExpr =
    | Identifier(name: Bytes)
    | CompoundIdentifier(names: seq<Bytes>)
    | SqlIsNull(e: SqlExpr)
    | SqlIsNotNull(e: SqlExpr)
    | Nested(e: SqlExpr)
    | UnaryOp(unary: SqlUnary, e: SqlExpr)
    | BinaryOp(l: SqlExpr, op: SqlOp, r: SqlExpr)
    | LiteralValue(literal: Literal)
    | Unsupported

  // ----- columns

  /** The first n columns of that name, as their positions. */
  function ColumnsNamed(schema: Schema, name: Bytes, n: nat): seq<nat>
    requires n <= |schema|
  {
    if n == 0 then []
    else ColumnsNamed(schema, name, n - 1) + if schema[n - 1].name == name then [n - 1] else []
  }

  /** All columns of that name in the first n tables the qualifier allows. */
  function Matches(table: Option<Bytes>, name: Bytes, tables: seq<NamedSchema>, n: nat): seq<nat>
    requires n <= |tables|
  {
    if n == 0 then []
    else
      Matches(table, name, tables, n - 1)
      + if table.Some? && table.value != tables[n - 1].name then []
        else ColumnsNamed(tables[n - 1].schema, name, |tables[n - 1].schema|)
  }

  /** A name stands for a column if exactly one column matches. */
  function ColumnOf(table: Option<Bytes>, name: Bytes, tables: seq<NamedSchema>): Outcome<nat> {
    var matches := Matches(table, name, tables, |tables|);
    if |matches| == 1 then Ok(matches[0]) else Err(ParseError)
  }

  lemma {:induction false} MatchesGrow(table: Option<Bytes>, name: Bytes, tables: seq<NamedSchema>, n: nat, m: nat)
    requires n <= m <= |tables|
    ensures |Matches(table, name, tables, n)| <= |Matches(table, name, tables, m)|
  {
    if n < m { MatchesGrow(table, name, tables, n, m - 1); }
  }

  lemma {:induction false} ColumnsGrow(schema: Schema, name: Bytes, n: nat, m: nat)
    requires n <= m <= |schema|
    ensures |ColumnsNamed(schema, name, n)| <= |ColumnsNamed(schema, name, m)|
  {
    if n < m { ColumnsGrow(schema, name, n, m - 1); }
  }

  lemma NoTables(table: Option<Bytes>, name: Bytes, tables: seq<NamedSchema>)
    ensures Matches(table, name, tables, 0) == []
  {
  }

  lemma NoColumns(schema: Schema, name: Bytes)
    ensures ColumnsNamed(schema, name, 0) == []
  {
  }

  lemma MatchesStep(table: Option<Bytes>, name: Bytes, tables: seq<NamedSchema>, k: nat)
    requires k < |tables|
    ensures Matches(table, name, tables, k + 1)
         == Matches(table, name, tables, k)
            + if table.Some? && table.value != tables[k].name then []
              else ColumnsNamed(tables[k].schema, name, |tables[k].schema|)
  {
  }

  lemma ColumnsStep(schema: Schema, name: Bytes, i: nat)
    requires i < |schema|
    ensures ColumnsNamed(schema, name, i + 1)
         == ColumnsNamed(schema, name, i) + if schema[i].name == name then [i] else []
  {
  }

  /** Column i of table k has that name, in a table the qualifier allows. */
  predicate Refers(table: Option<Bytes>, name: Bytes, tables: seq<NamedSchema>, k: nat, i: nat) {
    && k < |tables| && (table.Some? ==> table.value == tables[k].name)
    && i < |tables[k].schema| && tables[k].schema[i].name == name
  }

  lemma {:induction false} ColumnsListed(schema: Schema, name: Bytes, n: nat)
    requires n <= |schema|
    ensures forall c :: c in ColumnsNamed(schema, name, n) <==> 0 <= c < n && schema[c].name == name
    ensures forall p, q :: 0 <= p < q < |ColumnsNamed(schema, name, n)| ==>
              ColumnsNamed(schema, name, n)[p] < ColumnsNamed(schema, name, n)[q]
  {
    if n > 0 {
      ColumnsListed(schema, name, n - 1);
      var before := ColumnsNamed(schema, name, n - 1);
      assert forall p :: 0 <= p < |before| ==> before[p] in before;
    }
  }

  function MatchesIn(table: Option<Bytes>, name: Bytes, t: NamedSchema): seq<nat> {
    if table.Some? && table.value != t.name then [] else ColumnsNamed(t.schema, name, |t.schema|)
  }

  lemma {:induction false} MatchesListed(table: Option<Bytes>, name: Bytes, tables: seq<NamedSchema>, n: nat, k: nat)
    requires k < n <= |tables|
    ensures forall c :: c in MatchesIn(table, name, tables[k]) ==> c in Matches(table, name, tables, n)
    ensures |MatchesIn(table, name, tables[k])| <= |Matches(table, name, tables, n)|
    ensures forall j :: k < j < n ==>
              |MatchesIn(table, name, tables[k])| + |MatchesIn(table, name, tables[j])|
                <= |Matches(table, name, tables, n)|
  {
    hide ColumnsNamed;
    MatchesStep(table, name, tables, n - 1);
    if k < n - 1 { MatchesListed(table, name, tables, n - 1, k); }
  }

  lemma {:induction false} MatchesComeFrom(table: Option<Bytes>, name: Bytes, tables: seq<NamedSchema>, n: nat, c: nat)
    returns (k: nat)
    requires n <= |tables| && c in Matches(table, name, tables, n)
    ensures k < n && Refers(table, name, tables, k, c)
  {
    hide ColumnsNamed;
    NoTables(table, name, tables);
    MatchesStep(table, name, tables, n - 1);
    if c in Matches(table, name, tables, n - 1) {
      k := MatchesComeFrom(table, name, tables, n - 1, c);
    } else {
      k := n - 1;
      ColumnsListed(tables[k].schema, name, |tables[k].schema|);
    }
  }

  lemma RefersIsListed(table: Option<Bytes>, name: Bytes, tables: seq<NamedSchema>, k: nat, i: nat)
    requires Refers(table, name, tables, k, i)
    ensures i in MatchesIn(table, name, tables[k]) && |MatchesIn(table, name, tables[k])| >= 1
  {
    hide ColumnsNamed;
    ColumnsListed(tables[k].schema, name, |tables[k].schema|);
  }

  /** Two columns of that name in reach, in one table or in two. */
  lemma TwoMatches(table: Option<Bytes>, name: Bytes, tables: seq<NamedSchema>, k: nat, i: nat, k': nat, i': nat)
    requires Refers(table, name, tables, k, i) && Refers(table, name, tables, k', i') && (k != k' || i != i')
    ensures |Matches(table, name, tables, |tables|)| >= 2
  {
    hide MatchesIn, Matches;
    RefersIsListed(table, name, tables, k, i);
    RefersIsListed(table, name, tables, k', i');
    MatchesListed(table, name, tables, |tables|, if k < k' then k else k');
    if k == k' { TwoListed(MatchesIn(table, name, tables[k]), i, i'); }
  }

  lemma TwoListed(s: seq<nat>, i: nat, j: nat)
    requires i in s && j in s && i != j
    ensures |s| >= 2
  {
    var p :| 0 <= p < |s| && s[p] == i;
    var q :| 0 <= q < |s| && s[q] == j;
  }

  /** The only column of that name in reach. */
  ghost predicate OnlyColumn(table: Option<Bytes>, name: Bytes, tables: seq<NamedSchema>, k: nat, i: nat) {
    && Refers(table, name, tables, k, i)
    && forall k': nat, i': nat :: Refers(table, name, tables, k', i') ==> k' == k && i' == i
  }

  /** A name resolves to column i if and only if that is the only column of that name in
      the tables the qualifier allows; otherwise it is a parse error. */
  lemma ColumnOfExactly(table: Option<Bytes>, name: Bytes, tables: seq<NamedSchema>, i: nat)
    ensures ColumnOf(table, name, tables) == Ok(i) <==> exists k: nat :: OnlyColumn(table, name, tables, k, i)
    ensures !ColumnOf(table, name, tables).Ok? ==> ColumnOf(table, name, tables) == Err(ParseError)
  {
    hide Matches, MatchesIn, Refers;
    var matches := Matches(table, name, tables, |tables|);
    if ColumnOf(table, name, tables) == Ok(i) {
      assert i in matches;
      var k := MatchesComeFrom(table, name, tables, |tables|, i);
      forall k': nat, i': nat | Refers(table, name, tables, k', i')
        ensures k' == k && i' == i
      {
        if k' != k || i' != i { TwoMatches(table, name, tables, k, i, k', i'); }
      }
      assert OnlyColumn(table, name, tables, k, i);
    }
    if k: nat :| OnlyColumn(table, name, tables, k, i) { OnlyMatch(table, name, tables, k, i); }
  }

  lemma OnlyMatch(table: Option<Bytes>, name: Bytes, tables: seq<NamedSchema>, k: nat, i: nat)
    requires OnlyColumn(table, name, tables, k, i)
    ensures Matches(table, name, tables, |tables|) == [i]
  {
    hide Matches, MatchesIn;
    var matches := Matches(table, name, tables, |tables|);
    RefersIsListed(table, name, tables, k, i);
    MatchesListed(table, name, tables, |tables|, k);
    assert i in matches;
    forall c | c in matches
      ensures c == i
    {
      var k' := MatchesComeFrom(table, name, tables, |tables|, c);
    }
    AllMatchesOnce(table, name, tables, |tables|);
  }

  /** If only one column is meant, it is listed once. */
  lemma {:induction false} AllMatchesOnce(table: Option<Bytes>, name: Bytes, tables: seq<NamedSchema>, n: nat)
    requires n <= |tables|
    requires forall k: nat, j: nat, k': nat, j': nat ::
               Refers(table, name, tables, k, j) && Refers(table, name, tables, k', j') ==> k == k' && j == j'
    ensures |Matches(table, name, tables, n)| <= 1
  {
    hide ColumnsNamed, Refers;
    NoTables(table, name, tables);
    if n > 0 {
      MatchesStep(table, name, tables, n - 1);
      AllMatchesOnce(table, name, tables, n - 1);
      var before, here := Matches(table, name, tables, n - 1), MatchesIn(table, name, tables[n - 1]);
      if |here| >= 2 { TwoHere(table, name, tables, n - 1, 0, 1); }
      if |here| >= 1 && |before| >= 1 {
        OneHere(table, name, tables, n - 1, 0);
        assert before[0] in before;
        var k := MatchesComeFrom(table, name, tables, n - 1, before[0]);
      }
    }
  }

  lemma OneHere(table: Option<Bytes>, name: Bytes, tables: seq<NamedSchema>, k: nat, p: nat)
    requires k < |tables| && p < |MatchesIn(table, name, tables[k])|
    ensures Refers(table, name, tables, k, MatchesIn(table, name, tables[k])[p])
  {
    hide ColumnsNamed;
    ColumnsListed(tables[k].schema, name, |tables[k].schema|);
    assert MatchesIn(table, name, tables[k])[p] in MatchesIn(table, name, tables[k]);
  }

  lemma TwoHere(table: Option<Bytes>, name: Bytes, tables: seq<NamedSchema>, k: nat, p: nat, q: nat)
    requires k < |tables| && p < q < |MatchesIn(table, name, tables[k])|
    ensures var here := MatchesIn(table, name, tables[k]);
            Refers(table, name, tables, k, here[p]) && Refers(table, name, tables, k, here[q]) && here[p] != here[q]
  {
    hide ColumnsNamed, Refers;
    OneHere(table, name, tables, k, p);
    OneHere(table, name, tables, k, q);
    ColumnsListed(tables[k].schema, name, |tables[k].schema|);
  }

  /** `resolve_column`: stops at the second match. */
  method ResolveColumn(table: Option<Bytes>, name: Bytes, tables: seq<NamedSchema>) returns (r: Outcome<Expr>)
    ensures r == var column := ColumnOf(table, name, tables);
                 if column.Ok? then Ok(AttrRef(column.value)) else Err(ParseError)
  {
    hide Matches, ColumnsNamed;
    var matched: Option<nat> := None;
    NoTables(table, name, tables);
    for k := 0 to |tables|
      invariant Matches(table, name, tables, k) == if matched.Some? then [matched.value] else []
    {
      ghost var before := Matches(table, name, tables, k);
      MatchesStep(table, name, tables, k);
      if table.Some? && table.value != tables[k].name {
        continue;
      }
      var schema := tables[k].schema;
      NoColumns(schema, name);
      for i := 0 to |schema|
        invariant before + ColumnsNamed(schema, name, i) == if matched.Some? then [matched.value] else []
      {
        ColumnsStep(schema, name, i);
        if schema[i].name == name {
          if matched.Some? {
            ColumnsGrow(schema, name, i + 1, |schema|);
            MatchesGrow(table, name, tables, k + 1, |tables|);
            return Err(ParseError);
          }
          matched := Some(i);
        }
      }
    }
    r := if matched.Some? then Ok(AttrRef(matched.value)) else Err(ParseError);
  }

  // ----- binding

  function BindColumn(table: Option<Bytes>, name: Bytes, tables: seq<NamedSchema>): Outcome<Expr> {
    var idx :- ColumnOf(table, name, tables);
    Ok(AttrRef(idx))
  }

  function BindLiteral(literal: Literal): Outcome<Expr> {
    match literal
    case BooleanLit(b) => Ok(Constant(Boolean(b)))
    case StringLit(s) => Ok(Constant(VarChar(s)))
    case NullLit => Ok(Constant(Null))
    case IntLit(i) => Ok(Constant(Int(i)))
    case FloatLit(bits) => Ok(Constant(Float(bits)))
    case OtherLit => Err(ParseError)
  }

  function BindBinary(op: SqlOp, l: Expr, r: Expr): Outcome<Expr> {
    match op
    case AndOp => Ok(Binary(And, l, r))
    case OrOp => Ok(Binary(Or, l, r))
    case EqOp => Ok(Binary(Equal, l, r))
    case NotEqOp => Ok(Not(Binary(Equal, l, r)))
    case GtOp => Ok(Binary(GreaterThan, l, r))
    case GtEqOp => Ok(Binary(Or, Binary(GreaterThan, l, r), Binary(Equal, l, r)))
    case LtOp => Ok(Binary(LessThan, l, r))
    case LtEqOp => Ok(Binary(Or, Binary(LessThan, l, r), Binary(Equal, l, r)))
    case PlusOp => Ok(Binary(Add, l, r))
    case MinusOp => Ok(Binary(Subtract, l, r))
    case MultiplyOp => Ok(Binary(Multiply, l, r))
    case DivideOp => Ok(Binary(Divide, l, r))
    case OtherOp => Err(ParseError)
  }

  function BindUnary(op: SqlUnary, e: Expr): Outcome<Expr> {
    match op
    case NotOp => Ok(Not(e))
    case NegateOp => Ok(Binary(Subtract, Constant(Int(0)), e))
    case PositiveOp => Ok(e)
    case OtherUnary => Err(ParseError)
  }

  /** `parse_expr`. */
  function Bind(e: SqlExpr, tables: seq<NamedSchema>): Outcome<Expr> {
    match e
    case Identifier(name) => BindColumn(None, name, tables)
    case CompoundIdentifier(names) =>
      if |names| == 1 then BindColumn(None, names[0], tables)
      else if |names| == 2 then BindColumn(Some(names[0]), names[1], tables)
      else Err(ParseError)
    case SqlIsNull(x) =>
      var b :- Bind(x, tables);
      Ok(IsNull(b))
    case SqlIsNotNull(x) =>
      var b :- Bind(x, tables);
      Ok(IsNotNull(b))
    case Nested(x) => Bind(x, tables)
    case UnaryOp(op, x) =>
      var b :- Bind(x, tables);
      BindUnary(op, b)
    case BinaryOp(l, op, r) =>
      var a :- Bind(l, tables);
      var b :- Bind(r, tables);
      BindBinary(op, a, b)
    case LiteralValue(literal) => BindLiteral(literal)
    case Unsupported => Err(ParseError)
  }

  // ----- what the SQL expression means, with every operator native

  function NotEqual(ops: FloatOps, l: Value, r: Value): Outcome<Value> {
    match (l, r)
    case (Null, _) => Ok(Null)
    case (_, Null) => Ok(Null)
    case (Boolean(a), Boolean(b)) => Ok(Boolean(a != b))
    case (Int(a), Int(b)) => Ok(Boolean(a != b))
    case (Float(a), Float(b)) => Ok(Boolean(!ops.eq(a, b)))
    case (Int(a), Float(b)) => Ok(Boolean(!ops.eq(ops.ofInt(a), b)))
    case (Float(a), Int(b)) => Ok(Boolean(!ops.eq(a, ops.ofInt(b))))
    case (VarChar(a), VarChar(b)) => Ok(Boolean(a != b))
    case (Blob(a), Blob(b)) => Ok(Boolean(a != b))
    case _ => Err(InvalidComparison)
  }

  /** l >= r: not below, for everything totally ordered; for floats above or equal. */
  function AtLeast(ops: FloatOps, l: Value, r: Value): Outcome<Value> {
    match (l, r)
    case (Null, _) => Ok(Null)
    case (_, Null) => Ok(Null)
    case (Boolean(a), Boolean(b)) => Ok(Boolean(a || !b))
    case (Int(a), Int(b)) => Ok(Boolean(a >= b))
    case (Float(a), Float(b)) => Ok(Boolean(ops.gt(a, b) || ops.eq(a, b)))
    case (Int(a), Float(b)) => Ok(Boolean(ops.gt(ops.ofInt(a), b) || ops.eq(ops.ofInt(a), b)))
    case (Float(a), Int(b)) => Ok(Boolean(ops.gt(a, ops.ofInt(b)) || ops.eq(a, ops.ofInt(b))))
    case (VarChar(a), VarChar(b)) => Ok(Boolean(!LexLess(a, b)))
    case (Blob(a), Blob(b)) => Ok(Boolean(!LexLess(a, b)))
    case _ => Err(InvalidComparison)
  }

  /** l <= r, likewise. */
  function AtMost(ops: FloatOps, l: Value, r: Value): Outcome<Value> {
    match (l, r)
    case (Null, _) => Ok(Null)
    case (_, Null) => Ok(Null)
    case (Boolean(a), Boolean(b)) => Ok(Boolean(!a || b))
    case (Int(a), Int(b)) => Ok(Boolean(a <= b))
    case (Float(a), Float(b)) => Ok(Boolean(ops.lt(a, b) || ops.eq(a, b)))
    case (Int(a), Float(b)) => Ok(Boolean(ops.lt(ops.ofInt(a), b) || ops.eq(ops.ofInt(a), b)))
    case (Float(a), Int(b)) => Ok(Boolean(ops.lt(a, ops.ofInt(b)) || ops.eq(a, ops.ofInt(b))))
    case (VarChar(a), VarChar(b)) => Ok(Boolean(!LexLess(b, a)))
    case (Blob(a), Blob(b)) => Ok(Boolean(!LexLess(b, a)))
    case _ => Err(InvalidComparison)
  }

  /** Unary minus; on a float it is 0 minus the float. */
  function Minus(ops: FloatOps, v: Value): Outcome<Value> {
    match v
    case Int(i) => if i == -0x8000_0000 then Panic else Ok(Int(-i))
    case Float(bits) => Ok(Float(ops.sub(ops.ofInt(0), bits)))
    case Null => Ok(Null)
    case _ => Err(InvalidComparison)
  }

  function SqlApply(ops: FloatOps, op: SqlOp, l: Value, r: Value): Outcome<Value> {
    match op
    case AndOp => Apply(ops, And, l, r)
    case OrOp => Apply(ops, Or, l, r)
    case EqOp => Apply(ops, Equal, l, r)
    case NotEqOp => NotEqual(ops, l, r)
    case GtOp => Apply(ops, GreaterThan, l, r)
    case GtEqOp => AtLeast(ops, l, r)
    case LtOp => Apply(ops, LessThan, l, r)
    case LtEqOp => AtMost(ops, l, r)
    case PlusOp => Apply(ops, Add, l, r)
    case MinusOp => Apply(ops, Subtract, l, r)
    case MultiplyOp => Apply(ops, Multiply, l, r)
    case DivideOp => Apply(ops, Divide, l, r)
    case OtherOp => Err(ParseError)
  }

  function SqlApplyUnary(ops: FloatOps, op: SqlUnary, v: Value): Outcome<Value> {
    match op
    case NotOp => Negate(v)
    case NegateOp => Minus(ops, v)
    case PositiveOp => Ok(v)
    case OtherUnary => Err(ParseError)
  }

  /** The value under a column name; with no row at hand a column panics. */
  function ColumnValue(table: Option<Bytes>, name: Bytes, tables: seq<NamedSchema>,
                       row: Option<Tuple>): Outcome<Value> {
    var idx :- ColumnOf(table, name, tables);
    if row.Some? && idx < |row.value| then Ok(row.value[idx]) else Panic
  }

  function SqlEval(ops: FloatOps, e: SqlExpr, tables: seq<NamedSchema>, row: Option<Tuple>): Outcome<Value> {
    match e
    case Identifier(name) => ColumnValue(None, name, tables, row)
    case CompoundIdentifier(names) =>
      if |names| == 1 then ColumnValue(None, names[0], tables, row)
      else if |names| == 2 then ColumnValue(Some(names[0]), names[1], tables, row)
      else Err(ParseError)
    case SqlIsNull(x) =>
      var v :- SqlEval(ops, x, tables, row);
      Ok(Boolean(v.Null?))
    case SqlIsNotNull(x) =>
      var v :- SqlEval(ops, x, tables, row);
      Ok(Boolean(!v.Null?))
    case Nested(x) => SqlEval(ops, x, tables, row)
    case UnaryOp(op, x) =>
      var v :- SqlEval(ops, x, tables, row);
      SqlApplyUnary(ops, op, v)
    case BinaryOp(l, op, r) =>
      var a :- SqlEval(ops, l, tables, row);
      var b :- SqlEval(ops, r, tables, row);
      SqlApply(ops, op, a, b)
    case LiteralValue(literal) =>
      (match literal
       case BooleanLit(b) => Ok(Boolean(b))
       case StringLit(s) => Ok(VarChar(s))
       case NullLit => Ok(Null)
       case IntLit(i) => Ok(Int(i))
       case FloatLit(bits) => Ok(Float(bits))
       case OtherLit => Err(ParseError))
    case Unsupported => Err(ParseError)
  }

  // ----- binding keeps the meaning

  /** `Or(GreaterThan, Equal)` is a native >=, and so on, Nulls and errors included. */
  lemma BinaryMeaning(ops: FloatOps, op: SqlOp, l: Expr, r: Expr, row: Option<Tuple>)
    requires BindBinary(op, l, r).Ok?
    ensures Evaluate(ops, BindBinary(op, l, r).value, row)
         == (var a :- Evaluate(ops, l, row);
             var b :- Evaluate(ops, r, row);
             SqlApply(ops, op, a, b))
  {
    var a, b := Evaluate(ops, l, row), Evaluate(ops, r, row);
    hide Apply, ApplyByOperator, LexLess;
    forall o, x, y ensures ApplyByOperator(ops, o, x, y) == Apply(ops, o, x, y) { TablesAgree(ops, o, x, y); }
    if a.Ok? && b.Ok? {
      ComparisonMeaning(ops, a.value, b.value);
    }
  }

  lemma ComparisonMeaning(ops: FloatOps, a: Value, b: Value)
    ensures NotEqual(ops, a, b) == (var eq :- Apply(ops, Equal, a, b); Negate(eq))
    ensures AtLeast(ops, a, b)
         == (var gt :- Apply(ops, GreaterThan, a, b);
             var eq :- Apply(ops, Equal, a, b);
             Apply(ops, Or, gt, eq))
    ensures AtMost(ops, a, b)
         == (var lt :- Apply(ops, LessThan, a, b);
             var eq :- Apply(ops, Equal, a, b);
             Apply(ops, Or, lt, eq))
  {
    match (a, b) {
      case (VarChar(s), VarChar(t)) => LexTrichotomy(s, t); LexTrichotomy(t, s);
      case (Blob(s), Blob(t)) => LexTrichotomy(s, t); LexTrichotomy(t, s);
      case _ =>
    }
  }

  /** The SQL comparisons of strings and of blobs, by the first byte in which they differ. */
  lemma SqlByteOrder(ops: FloatOps, a: Bytes, b: Bytes)
    ensures SqlApply(ops, LtOp, VarChar(a), VarChar(b)) == Ok(Boolean(Precedes(a, b)))
    ensures SqlApply(ops, GtOp, VarChar(a), VarChar(b)) == Ok(Boolean(Precedes(b, a)))
    ensures SqlApply(ops, LtEqOp, VarChar(a), VarChar(b)) == Ok(Boolean(!Precedes(b, a)))
    ensures SqlApply(ops, GtEqOp, VarChar(a), VarChar(b)) == Ok(Boolean(!Precedes(a, b)))
    ensures SqlApply(ops, LtOp, Blob(a), Blob(b)) == Ok(Boolean(Precedes(a, b)))
    ensures SqlApply(ops, GtOp, Blob(a), Blob(b)) == Ok(Boolean(Precedes(b, a)))
    ensures SqlApply(ops, LtEqOp, Blob(a), Blob(b)) == Ok(Boolean(!Precedes(b, a)))
    ensures SqlApply(ops, GtEqOp, Blob(a), Blob(b)) == Ok(Boolean(!Precedes(a, b)))
  {
    hide LexLess, Precedes;
    LexLessExactly(a, b);
    LexLessExactly(b, a);
  }

  lemma UnaryMeaning(ops: FloatOps, op: SqlUnary, e: Expr, row: Option<Tuple>)
    requires BindUnary(op, e).Ok?
    ensures Evaluate(ops, BindUnary(op, e).value, row)
         == (var v :- Evaluate(ops, e, row); SqlApplyUnary(ops, op, v))
  {
    hide ApplyByOperator;
    var v := Evaluate(ops, e, row);
    if v.Ok? { TablesAgree(ops, Subtract, Int(0), v.value); }
  }

  /** Binding keeps the meaning: whatever binds evaluates to what the SQL expression
      means, for every row, with the same errors and the same panics. */
  lemma {:induction false} BindingKeepsMeaning(ops: FloatOps, e: SqlExpr, tables: seq<NamedSchema>, row: Option<Tuple>)
    requires Bind(e, tables).Ok?
    ensures Evaluate(ops, Bind(e, tables).value, row) == SqlEval(ops, e, tables, row)
  {
    hide ColumnOf, Apply, ApplyByOperator, SqlApply, SqlApplyUnary, BindBinary, BindUnary;
    match e {
      case SqlIsNull(x) => BindingKeepsMeaning(ops, x, tables, row);
      case SqlIsNotNull(x) => BindingKeepsMeaning(ops, x, tables, row);
      case Nested(x) => BindingKeepsMeaning(ops, x, tables, row);
      case UnaryOp(op, x) =>
        BindingKeepsMeaning(ops, x, tables, row);
        UnaryMeaning(ops, op, Bind(x, tables).value, row);
      case BinaryOp(l, op, r) =>
        BindingKeepsMeaning(ops, l, tables, row);
        BindingKeepsMeaning(ops, r, tables, row);
        BinaryMeaning(ops, op, Bind(l, tables).value, Bind(r, tables).value, row);
      case _ =>
    }
  }

  // ----- what binds, and what the bound expression refers to

  predicate Supported(e: SqlExpr, tables: seq<NamedSchema>) {
    match e
    case Identifier(name) => |Matches(None, name, tables, |tables|)| == 1
    case CompoundIdentifier(names) =>
      if |names| == 1 then |Matches(None, names[0], tables, |tables|)| == 1
      else |names| == 2 && |Matches(Some(names[0]), names[1], tables, |tables|)| == 1
    case SqlIsNull(x) => Supported(x, tables)
    case SqlIsNotNull(x) => Supported(x, tables)
    case Nested(x) => Supported(x, tables)
    case UnaryOp(op, x) => !op.OtherUnary? && Supported(x, tables)
    case BinaryOp(l, op, r) => !op.OtherOp? && Supported(l, tables) && Supported(r, tables)
    case LiteralValue(literal) => !literal.OtherLit?
    case Unsupported => false
  }

  /** An expression binds exactly when its operators and literals are supported and
      every column name matches exactly one column; otherwise it is a parse error. */
  lemma {:induction false} BindsExactly(e: SqlExpr, tables: seq<NamedSchema>)
    ensures Bind(e, tables).Ok? <==> Supported(e, tables)
    ensures !Supported(e, tables) ==> Bind(e, tables) == Err(ParseError)
  {
    hide Matches;
    match e {
      case SqlIsNull(x) => BindsExactly(x, tables);
      case SqlIsNotNull(x) => BindsExactly(x, tables);
      case Nested(x) => BindsExactly(x, tables);
      case UnaryOp(_, x) => BindsExactly(x, tables);
      case BinaryOp(l, _, r) => BindsExactly(l, tables); BindsExactly(r, tables);
      case _ =>
    }
  }

  lemma {:induction false} ColumnsNamedInRange(schema: Schema, name: Bytes, n: nat)
    requires n <= |schema|
    ensures forall k :: 0 <= k < |ColumnsNamed(schema, name, n)| ==>
              var i := ColumnsNamed(schema, name, n)[k]; i < n && schema[i].name == name
  {
    if n > 0 { ColumnsNamedInRange(schema, name, n - 1); }
  }

  /** With one table, a resolved name is a column of that table with that name. */
  lemma ColumnInRange(table: Option<Bytes>, name: Bytes, t: NamedSchema)
    requires ColumnOf(table, name, [t]).Ok?
    ensures ColumnOf(table, name, [t]).value < |t.schema|
    ensures t.schema[ColumnOf(table, name, [t]).value].name == name
  {
    ColumnsNamedInRange(t.schema, name, |t.schema|);
    assert Matches(table, name, [t], 0) == [];
  }

  /** The binder makes every attribute refer to a column of the table. */
  lemma {:induction false} BoundAttrsInRange(e: SqlExpr, t: NamedSchema)
    requires Bind(e, [t]).Ok?
    ensures AttrsBelow(Bind(e, [t]).value, |t.schema|)
  {
    hide ColumnOf;
    match e {
      case Identifier(name) => ColumnInRange(None, name, t);
      case CompoundIdentifier(names) =>
        if |names| == 1 { ColumnInRange(None, names[0], t); } else { ColumnInRange(Some(names[0]), names[1], t); }
      case SqlIsNull(x) => BoundAttrsInRange(x, t);
      case SqlIsNotNull(x) => BoundAttrsInRange(x, t);
      case Nested(x) => BoundAttrsInRange(x, t);
      case UnaryOp(_, x) => BoundAttrsInRange(x, t);
      case BinaryOp(l, _, r) => BoundAttrsInRange(l, t); BoundAttrsInRange(r, t);
      case _ =>
    }
  }

  // ----- lists of expressions

  datatype SelectItem = Wildcard | Item(e: SqlExpr)

  /** `parse_projection` from item i on: a wildcard stands for all columns, and what
      was bound before it is dropped.  None is the empty list, meaning all. */
  function BindItems(items: seq<SelectItem>, i: nat, tables: seq<NamedSchema>): Outcome<Option<seq<Expr>>>
    requires i <= |items|
    decreases |items| - i
  {
    if i == |items| then Ok(Some([]))
    else if items[i].Wildcard? then Ok(None)
    else
      var first :- Bind(items[i].e, tables);
      var rest :- BindItems(items, i + 1, tables);
      Ok(if rest.Some? then Some([first] + rest.value) else None)
  }

  method ParseProjection(items: seq<SelectItem>, tables: seq<NamedSchema>) returns (r: Outcome<seq<Expr>>)
    ensures r == var bound := BindItems(items, 0, tables);
                 if !bound.Ok? then bound.PropagateFailure()
                 else Ok(if bound.value.Some? then bound.value.value else [])
  {
    hide Bind;
    var exprs: seq<Expr> := [];
    ghost var whole := BindItems(items, 0, tables);
    assert whole.Ok? && whole.value.Some? ==> exprs + whole.value.value == whole.value.value;
    for i := 0 to |items|
      invariant whole == Continued(exprs, BindItems(items, i, tables))
    {
      if items[i].Wildcard? {
        return Ok([]);
      }
      var first := Bind(items[i].e, tables);
      if !first.Ok? {
        return first.PropagateFailure();
      }
      ghost var rest := BindItems(items, i + 1, tables);
      if rest.Ok? && rest.value.Some? {
        assert exprs + ([first.value] + rest.value.value) == (exprs + [first.value]) + rest.value.value;
      }
      exprs := exprs + [first.value];
    }
    assert exprs + [] == exprs;
    r := Ok(exprs);
  }

  function Continued(exprs: seq<Expr>, r: Outcome<Option<seq<Expr>>>): Outcome<Option<seq<Expr>>> {
    if r.Ok? && r.value.Some? then Ok(Some(exprs + r.value.value)) else r
  }

  /** Several expressions in order, the values of an INSERT for example. */
  function BindAll(es: seq<SqlExpr>, tables: seq<NamedSchema>): Outcome<seq<Expr>> {
    if es == [] then Ok([])
    else
      var first :- Bind(es[0], tables);
      var rest :- BindAll(es[1..], tables);
      Ok([first] + rest)
  }

  function EvaluateAll(ops: FloatOps, es: seq<Expr>, row: Option<Tuple>): Outcome<Tuple> {
    if es == [] then Ok([])
    else
      var v :- Evaluate(ops, es[0], row);
      var rest :- EvaluateAll(ops, es[1..], row);
      Ok([v] + rest)
  }

  function SqlEvalAll(ops: FloatOps, es: seq<SqlExpr>, tables: seq<NamedSchema>, row: Option<Tuple>): Outcome<Tuple> {
    if es == [] then Ok([])
    else
      var v :- SqlEval(ops, es[0], tables, row);
      var rest :- SqlEvalAll(ops, es[1..], tables, row);
      Ok([v] + rest)
  }

  lemma {:induction false} BoundListKeepsMeaning(ops: FloatOps, es: seq<SqlExpr>, tables: seq<NamedSchema>,
                                                 row: Option<Tuple>)
    requires BindAll(es, tables).Ok?
    ensures EvaluateAll(ops, BindAll(es, tables).value, row) == SqlEvalAll(ops, es, tables, row)
  {
    hide Bind, Evaluate, SqlEval;
    if es != [] {
      BindingKeepsMeaning(ops, es[0], tables, row);
      BoundListKeepsMeaning(ops, es[1..], tables, row);
    }
  }

  lemma {:induction false} ListFailsToParse(es: seq<SqlExpr>, tables: seq<NamedSchema>)
    requires !BindAll(es, tables).Ok?
    ensures BindAll(es, tables) == Err(ParseError)
  {
    hide Bind;
    BindsExactly(es[0], tables);
    if Bind(es[0], tables).Ok? { ListFailsToParse(es[1..], tables); }
  }

  /** The expressions of a projection without a wildcard. */
  function ItemsOf(items: seq<SelectItem>): seq<SqlExpr>
    requires forall i :: 0 <= i < |items| ==> items[i].Item?
  {
    seq(|items|, i requires 0 <= i < |items| => items[i].e)
  }

  lemma {:induction false} BoundItems(items: seq<SelectItem>, i: nat, tables: seq<NamedSchema>)
    requires i <= |items| && forall k :: 0 <= k < |items| ==> items[k].Item?
    ensures BindItems(items, i, tables)
         == (var bound :- BindAll(ItemsOf(items)[i..], tables); Ok(Some(bound)))
    decreases |items| - i
  {
    hide Bind;
    var es := ItemsOf(items)[i..];
    if i < |items| {
      assert es[0] == items[i].e && es[1..] == ItemsOf(items)[i + 1..];
      BoundItems(items, i + 1, tables);
    }
  }

  lemma {:induction false} BoundListInRange(es: seq<SqlExpr>, t: NamedSchema)
    requires BindAll(es, [t]).Ok?
    ensures |BindAll(es, [t]).value| == |es|
    ensures forall i :: 0 <= i < |es| ==> AttrsBelow(BindAll(es, [t]).value[i], |t.schema|)
  {
    hide Bind, AttrsBelow;
    if es != [] {
      BoundAttrsInRange(es[0], t);
      BoundListInRange(es[1..], t);
    }
  }

  // ----- string literals are text

  predicate IsText(e: SqlExpr) {
    match e
    case SqlIsNull(x) => IsText(x)
    case SqlIsNotNull(x) => IsText(x)
    case Nested(x) => IsText(x)
    case UnaryOp(_, x) => IsText(x)
    case BinaryOp(l, _, r) => IsText(l) && IsText(r)
    case LiteralValue(literal) => literal.StringLit? ==> ValidUtf8(literal.s)
    case _ => true
  }

  lemma {:induction false} BoundIsWellTyped(e: SqlExpr, tables: seq<NamedSchema>)
    requires IsText(e) && Bind(e, tables).Ok?
    ensures WellTypedExpr(Bind(e, tables).value)
  {
    hide ValidUtf8, ColumnOf;
    match e {
      case SqlIsNull(x) => BoundIsWellTyped(x, tables);
      case SqlIsNotNull(x) => BoundIsWellTyped(x, tables);
      case Nested(x) => BoundIsWellTyped(x, tables);
      case UnaryOp(_, x) => BoundIsWellTyped(x, tables);
      case BinaryOp(l, _, r) => BoundIsWellTyped(l, tables); BoundIsWellTyped(r, tables);
      case _ =>
    }
  }

  lemma {:induction false} ValuesAreWellTyped(ops: FloatOps, es: seq<SqlExpr>, tables: seq<NamedSchema>)
    requires (forall i :: 0 <= i < |es| ==> IsText(es[i]))
    requires BindAll(es, tables).Ok? && EvaluateAll(ops, BindAll(es, tables).value, None).Ok?
    ensures var t := EvaluateAll(ops, BindAll(es, tables).value, None).value;
            forall i :: 0 <= i < |t| ==> WellTyped(t[i])
  {
    hide Bind, Evaluate, IsText, WellTyped, WellTypedExpr;
    if es != [] {
      BoundIsWellTyped(es[0], tables);
      EvaluateWellTyped(ops, Bind(es[0], tables).value, None);
      ValuesAreWellTyped(ops, es[1..], tables);
    }
  }
}

/** Administration statements: what a visitor collects from a syntax tree, and the rows its lists stand for. */
module SqlParse {
  import opened Bytes

  datatype Server = Server(user: string, password: string)

  datatype Op = NoOp | EQ | OtherOp(code: nat)

  /** `Group` is any node the visitor does not look at: parentheses, a column reference, an assignment and so on. */
  datatype Node =
    | Statement(kind: string, parts: seq<Node>)
    | TableName(name: string)
    | ColumnName(name: string)
    | Literal(text: string)
    | Binary(op: Op, left: Node, right: Node)
    | Group(parts: seq<Node>)

  datatype Query = Query(statement: string, tableName: string, columns: seq<string>, values: seq<string>,
                         currentType: string, whereColumns: seq<string>, whereValues: seq<string>, whereOp: Op)

  const WHERE: string := "Where"
  const USER: string := "User"
  const PASSWORD: string := "Password"

  datatype ReshapeError = ShortValues | UnknownColumn(column: string) | OnlyEqual

  datatype Result<+T> = Ok(value: T) | Err(error: ReshapeError)

  // The visitor, as functions on its state

  function Entered(q: Query, n: Node): Query {
    match n
    case Statement(kind, _) => q.(statement := kind)
    case TableName(name) => q.(tableName := name)
    case Binary(op, _, _) => q.(currentType := WHERE, whereOp := op)
    case ColumnName(name) =>
      if q.currentType == WHERE then q.(whereColumns := q.whereColumns + [name]) else q.(columns := q.columns + [name])
    case Literal(text) =>
      if q.currentType == WHERE then q.(whereValues := q.whereValues + [text]) else q.(values := q.values + [text])
    case Group(_) => q
  }

  function Left(q: Query, n: Node): Query {
    if n.Binary? then q.(currentType := "") else q
  }

  function Children(n: Node): (ns: seq<Node>)
    ensures forall i :: 0 <= i < |ns| ==> ns[i] < n
  {
    match n
    case Statement(_, parts) => parts
    case Group(parts) => parts
    case Binary(_, l, r) => [l, r]
    case _ => []
  }

  function Visit(q: Query, n: Node): Query
    decreases n
  {
    Left(match n
         case Statement(_, parts) => VisitAll(Entered(q, n), parts)
         case Group(parts) => VisitAll(Entered(q, n), parts)
         case Binary(_, l, r) => Visit(Visit(Entered(q, n), l), r)
         case _ => Entered(q, n), n)
  }

  function VisitAll(q: Query, ns: seq<Node>): Query
    decreases ns
  {
    if ns == [] then q else VisitAll(Visit(q, ns[0]), ns[1..])
  }

  // What a tree says, without a visitor: its leaves in order

  function ColumnsIn(n: Node): seq<string>
    decreases n
  {
    match n
    case ColumnName(name) => [name]
    case Binary(_, l, r) => ColumnsIn(l) + ColumnsIn(r)
    case Statement(_, parts) => AllColumnsIn(parts)
    case Group(parts) => AllColumnsIn(parts)
    case _ => []
  }

  function AllColumnsIn(ns: seq<Node>): seq<string>
    decreases ns
  {
    if ns == [] then [] else ColumnsIn(ns[0]) + AllColumnsIn(ns[1..])
  }

  function LiteralsIn(n: Node): seq<string>
    decreases n
  {
    match n
    case Literal(text) => [text]
    case Binary(_, l, r) => LiteralsIn(l) + LiteralsIn(r)
    case Statement(_, parts) => AllLiteralsIn(parts)
    case Group(parts) => AllLiteralsIn(parts)
    case _ => []
  }

  function AllLiteralsIn(ns: seq<Node>): seq<string>
    decreases ns
  {
    if ns == [] then [] else LiteralsIn(ns[0]) + AllLiteralsIn(ns[1..])
  }

  function StatementsIn(n: Node): seq<string>
    decreases n
  {
    match n
    case Statement(kind, parts) => [kind] + AllStatementsIn(parts)
    case Binary(_, l, r) => StatementsIn(l) + StatementsIn(r)
    case Group(parts) => AllStatementsIn(parts)
    case _ => []
  }

  function AllStatementsIn(ns: seq<Node>): seq<string>
    decreases ns
  {
    if ns == [] then [] else StatementsIn(ns[0]) + AllStatementsIn(ns[1..])
  }

  function TablesIn(n: Node): seq<string>
    decreases n
  {
    match n
    case TableName(name) => [name]
    case Binary(_, l, r) => TablesIn(l) + TablesIn(r)
    case Statement(_, parts) => AllTablesIn(parts)
    case Group(parts) => AllTablesIn(parts)
    case _ => []
  }

  function AllTablesIn(ns: seq<Node>): seq<string>
    decreases ns
  {
    if ns == [] then [] else TablesIn(ns[0]) + AllTablesIn(ns[1..])
  }

  predicate HasBinary(n: Node)
    decreases n
  {
    match n
    case Binary(_, _, _) => true
    case Statement(_, parts) => AnyBinary(parts)
    case Group(parts) => AnyBinary(parts)
    case _ => false
  }

  predicate AnyBinary(ns: seq<Node>)
    decreases ns
  {
    ns != [] && (HasBinary(ns[0]) || AnyBinary(ns[1..]))
  }

  // Conditions: comparisons of a column with a literal, joined by binary connectives, with parentheses anywhere

  predicate IsColumn(n: Node)
    decreases n
  {
    match n
    case ColumnName(_) => true
    case Group(parts) => |parts| == 1 && IsColumn(parts[0])
    case _ => false
  }

  predicate IsLiteral(n: Node)
    decreases n
  {
    match n
    case Literal(_) => true
    case Group(parts) => |parts| == 1 && IsLiteral(parts[0])
    case _ => false
  }

  predicate IsCondition(n: Node)
    decreases n
  {
    match n
    case Binary(_, l, r) => (IsColumn(l) && IsLiteral(r)) || (IsCondition(l) && IsCondition(r))
    case Group(parts) => |parts| == 1 && IsCondition(parts[0])
    case _ => false
  }

  datatype Comparison = Comparison(column: string, op: Op, value: string)

  function Comparisons(n: Node): (cs: seq<Comparison>)
    requires IsCondition(n)
    ensures cs != []
    decreases n
  {
    match n
    case Binary(op, l, r) =>
      if IsColumn(l) && IsLiteral(r) then
        OneColumn(l);
        OneLiteral(r);
        [Comparison(ColumnsIn(l)[0], op, LiteralsIn(r)[0])]
      else Comparisons(l) + Comparisons(r)
    case Group(parts) => Comparisons(parts[0])
  }

  function ColumnsOf(cs: seq<Comparison>): seq<string> {
    seq(|cs|, i requires 0 <= i < |cs| => cs[i].column)
  }

  function ValuesOf(cs: seq<Comparison>): seq<string> {
    seq(|cs|, i requires 0 <= i < |cs| => cs[i].value)
  }

  lemma VisitOne(q: Query, n: Node)
    ensures VisitAll(q, [n]) == Visit(q, n)
  {
    assert [n][1..] == [];
  }

  lemma OnePart(ns: seq<Node>)
    requires |ns| == 1
    ensures AllColumnsIn(ns) == ColumnsIn(ns[0]) && AllLiteralsIn(ns) == LiteralsIn(ns[0])
    ensures AnyBinary(ns) == HasBinary(ns[0])
  {
    assert ns[1..] == [];
    assert AllColumnsIn([]) == [] && AllLiteralsIn([]) == [] && !AnyBinary([]);
  }

  lemma {:induction false} OneColumn(n: Node)
    requires IsColumn(n)
    ensures |ColumnsIn(n)| == 1 && LiteralsIn(n) == [] && !HasBinary(n)
    decreases n
  {
    if n.Group? {
      OneColumn(n.parts[0]);
      OnePart(n.parts);
    }
  }

  lemma {:induction false} OneLiteral(n: Node)
    requires IsLiteral(n)
    ensures |LiteralsIn(n)| == 1 && ColumnsIn(n) == [] && !HasBinary(n)
    decreases n
  {
    if n.Group? {
      OneLiteral(n.parts[0]);
      OnePart(n.parts);
    }
  }

  /** The columns and values collected outside of conditions, or in them. */
  function Collect(q: Query, columns: seq<string>, values: seq<string>): Query {
    if q.currentType == WHERE
    then q.(whereColumns := q.whereColumns + columns, whereValues := q.whereValues + values)
    else q.(columns := q.columns + columns, values := q.values + values)
  }

  lemma CollectTwice(q: Query, c1: seq<string>, v1: seq<string>, c2: seq<string>, v2: seq<string>)
    ensures Collect(Collect(q, c1, v1), c2, v2) == Collect(q, c1 + c2, v1 + v2)
    ensures Collect(q, [], []) == q
  {
    assert q.columns + [] == q.columns && q.values + [] == q.values;
    assert q.whereColumns + [] == q.whereColumns && q.whereValues + [] == q.whereValues;
    if q.currentType == WHERE {
      assert q.whereColumns + c1 + c2 == q.whereColumns + (c1 + c2);
      assert q.whereValues + v1 + v2 == q.whereValues + (v1 + v2);
    } else {
      assert q.columns + c1 + c2 == q.columns + (c1 + c2);
      assert q.values + v1 + v2 == q.values + (v1 + v2);
    }
  }

  /** Statements and tables named on the way. */
  predicate SameLists(q: Query, q': Query) {
    q' == q.(statement := q'.statement, tableName := q'.tableName)
  }

  /** Without a binary operator inside, everything goes to the lists in use. */
  lemma {:induction false} VisitPlain(q: Query, n: Node)
    requires !HasBinary(n)
    ensures SameLists(Collect(q, ColumnsIn(n), LiteralsIn(n)), Visit(q, n))
    decreases n
  {
    CollectTwice(q, [], [], [], []);
    match n
    case Statement(_, parts) => VisitPlainParts(Entered(q, n), parts);
    case Group(parts) => VisitPlainParts(q, parts);
    case ColumnName(name) => assert q.values + [] == q.values && q.whereValues + [] == q.whereValues;
    case Literal(text) => assert q.columns + [] == q.columns && q.whereColumns + [] == q.whereColumns;
    case TableName(_) =>
  }

  lemma {:induction false} VisitPlainParts(q: Query, ns: seq<Node>)
    requires !AnyBinary(ns)
    ensures SameLists(Collect(q, AllColumnsIn(ns), AllLiteralsIn(ns)), VisitAll(q, ns))
    decreases ns
  {
    CollectTwice(q, [], [], [], []);
    if ns != [] {
      VisitPlain(q, ns[0]);
      VisitPlainParts(Visit(q, ns[0]), ns[1..]);
      CollectTwice(q, ColumnsIn(ns[0]), LiteralsIn(ns[0]), AllColumnsIn(ns[1..]), AllLiteralsIn(ns[1..]));
    }
  }

  /** The state after a condition whose comparisons are `cs`. */
  function WithCondition(q: Query, cs: seq<Comparison>): Query
    requires cs != []
  {
    q.(currentType := "", whereOp := cs[|cs| - 1].op,
       whereColumns := q.whereColumns + ColumnsOf(cs), whereValues := q.whereValues + ValuesOf(cs))
  }

  lemma WithConditionTwice(q: Query, op: Op, a: seq<Comparison>, b: seq<Comparison>)
    requires a != [] && b != []
    ensures WithCondition(WithCondition(q.(currentType := WHERE, whereOp := op), a), b) == WithCondition(q, a + b)
  {
    assert ColumnsOf(a + b) == ColumnsOf(a) + ColumnsOf(b);
    assert ValuesOf(a + b) == ValuesOf(a) + ValuesOf(b);
    assert q.whereColumns + ColumnsOf(a) + ColumnsOf(b) == q.whereColumns + (ColumnsOf(a) + ColumnsOf(b));
    assert q.whereValues + ValuesOf(a) + ValuesOf(b) == q.whereValues + (ValuesOf(a) + ValuesOf(b));
  }

  lemma VisitComparison(q: Query, n: Node)
    requires n.Binary? && IsColumn(n.left) && IsLiteral(n.right)
    ensures Visit(q, n) == WithCondition(q, Comparisons(n))
  {
    OneColumn(n.left);
    OneLiteral(n.right);
    VisitColumn(Entered(q, n), n.left);
    var q1 := Visit(Entered(q, n), n.left);
    VisitLiteral(q1, n.right);
    var c := Comparisons(n);
    assert ColumnsOf(c) == [ColumnsIn(n.left)[0]] == ColumnsIn(n.left);
    assert ValuesOf(c) == [LiteralsIn(n.right)[0]] == LiteralsIn(n.right);
  }

  lemma {:induction false} VisitColumn(q: Query, n: Node)
    requires IsColumn(n) && q.currentType == WHERE
    ensures Visit(q, n) == q.(whereColumns := q.whereColumns + ColumnsIn(n))
    decreases n
  {
    if n.Group? {
      VisitColumn(q, n.parts[0]);
      VisitOne(q, n.parts[0]);
      assert n.parts == [n.parts[0]];
      OnePart(n.parts);
    }
  }

  lemma {:induction false} VisitLiteral(q: Query, n: Node)
    requires IsLiteral(n) && q.currentType == WHERE
    ensures Visit(q, n) == q.(whereValues := q.whereValues + LiteralsIn(n))
    decreases n
  {
    if n.Group? {
      VisitLiteral(q, n.parts[0]);
      VisitOne(q, n.parts[0]);
      assert n.parts == [n.parts[0]];
      OnePart(n.parts);
    }
  }

  /**
   * From any state, a condition adds exactly its columns and values, in order and in step, to the lists of
   * conditions, touches no other list, and leaves the operator of its last comparison.
   */
  lemma {:induction false} VisitCondition(q: Query, n: Node)
    requires IsCondition(n)
    ensures Visit(q, n) == WithCondition(q, Comparisons(n))
    decreases n
  {
    match n
    case Group(parts) =>
      VisitCondition(q, parts[0]);
      VisitOne(q, parts[0]);
      assert parts == [parts[0]];
    case Binary(op, l, r) =>
      if IsColumn(l) && IsLiteral(r) {
        VisitComparison(q, n);
      } else {
        VisitCondition(Entered(q, n), l);
        VisitCondition(Visit(Entered(q, n), l), r);
        WithConditionTwice(q, op, Comparisons(l), Comparisons(r));
      }
  }

  // Whole statements: conditions, and parts without binary operators, in any order

  predicate Regular(parts: seq<Node>) {
    forall i :: 0 <= i < |parts| ==> IsCondition(parts[i]) || !HasBinary(parts[i])
  }

  /** The conditions' comparisons, and the columns and values of the other parts. */
  function PartComparisons(parts: seq<Node>): seq<Comparison>
  {
    if parts == [] then []
    else (if IsCondition(parts[0]) then Comparisons(parts[0]) else []) + PartComparisons(parts[1..])
  }

  function PartColumns(parts: seq<Node>): seq<string> {
    if parts == [] then [] else (if IsCondition(parts[0]) then [] else ColumnsIn(parts[0])) + PartColumns(parts[1..])
  }

  function PartValues(parts: seq<Node>): seq<string> {
    if parts == [] then [] else (if IsCondition(parts[0]) then [] else LiteralsIn(parts[0])) + PartValues(parts[1..])
  }

  ghost predicate Collected(q: Query, q': Query, columns: seq<string>, values: seq<string>, cs: seq<Comparison>) {
    && q'.columns == q.columns + columns && q'.values == q.values + values
    && q'.whereColumns == q.whereColumns + ColumnsOf(cs) && q'.whereValues == q.whereValues + ValuesOf(cs)
    && q'.whereOp == (if cs == [] then q.whereOp else cs[|cs| - 1].op)
    && q'.currentType != WHERE
  }

  lemma CollectedTwice(q: Query, q1: Query, q2: Query, c1: seq<string>, v1: seq<string>, cs1: seq<Comparison>,
                       c2: seq<string>, v2: seq<string>, cs2: seq<Comparison>)
    requires Collected(q, q1, c1, v1, cs1) && Collected(q1, q2, c2, v2, cs2)
    ensures Collected(q, q2, c1 + c2, v1 + v2, cs1 + cs2)
  {
    assert q.columns + c1 + c2 == q.columns + (c1 + c2) && q.values + v1 + v2 == q.values + (v1 + v2);
    assert ColumnsOf(cs1 + cs2) == ColumnsOf(cs1) + ColumnsOf(cs2);
    assert ValuesOf(cs1 + cs2) == ValuesOf(cs1) + ValuesOf(cs2);
    assert q.whereColumns + ColumnsOf(cs1) + ColumnsOf(cs2) == q.whereColumns + (ColumnsOf(cs1) + ColumnsOf(cs2));
    assert q.whereValues + ValuesOf(cs1) + ValuesOf(cs2) == q.whereValues + (ValuesOf(cs1) + ValuesOf(cs2));
    if cs2 == [] {
      assert cs1 + cs2 == cs1;
    }
  }

  lemma NothingCollected(q: Query)
    requires q.currentType != WHERE
    ensures Collected(q, q, [], [], [])
  {
    assert ColumnsOf([]) == [] && ValuesOf([]) == [];
    assert q.columns + [] == q.columns && q.values + [] == q.values;
    assert q.whereColumns + [] == q.whereColumns && q.whereValues + [] == q.whereValues;
  }

  /** Wherever the condition stands among the parts, what it names is kept apart from what the other parts name. */
  lemma {:induction false} VisitParts(q: Query, parts: seq<Node>)
    requires q.currentType != WHERE && Regular(parts)
    ensures Collected(q, VisitAll(q, parts), PartColumns(parts), PartValues(parts), PartComparisons(parts))
    decreases parts
  {
    NothingCollected(q);
    if parts != [] {
      var n, rest := parts[0], parts[1..];
      var q1 := Visit(q, n);
      var cs := if IsCondition(n) then Comparisons(n) else [];
      if IsCondition(n) {
        VisitCondition(q, n);
      } else {
        VisitPlain(q, n);
      }
      VisitParts(q1, rest);
      hide Visit, IsCondition, HasBinary, Comparisons, ColumnsOf, ValuesOf;
      if IsCondition(n) {
        CollectedTwice(q, q1, VisitAll(q1, rest), [], [], cs,
                       PartColumns(rest), PartValues(rest), PartComparisons(rest));
      } else {
        CollectedTwice(q, q1, VisitAll(q1, rest), ColumnsIn(n), LiteralsIn(n), [],
                       PartColumns(rest), PartValues(rest), PartComparisons(rest));
      }
    }
  }

  // Trees of any shape

  /** No leaf of `n` comes behind a binary operator in it that is over, other than inside another. */
  predicate Scoped(n: Node)
    decreases n
  {
    match n
    case Binary(_, l, r) => Scoped(l) && if HasBinary(l) then Bare(r) else Scoped(r)
    case Statement(_, parts) => AllScoped(parts)
    case Group(parts) => AllScoped(parts)
    case _ => true
  }

  predicate AllScoped(ns: seq<Node>)
    decreases ns
  {
    ns != [] ==> Scoped(ns[0]) && if HasBinary(ns[0]) then AllBare(ns[1..]) else AllScoped(ns[1..])
  }

  /** Every leaf is inside a binary operator, and those are scoped. */
  predicate Bare(n: Node)
    decreases n
  {
    match n
    case Binary(_, l, r) => Scoped(l) && if HasBinary(l) then Bare(r) else Scoped(r)
    case Statement(_, parts) => AllBare(parts)
    case Group(parts) => AllBare(parts)
    case TableName(_) => true
    case _ => false
  }

  predicate AllBare(ns: seq<Node>)
    decreases ns
  {
    ns != [] ==> Bare(ns[0]) && AllBare(ns[1..])
  }

  predicate Untouched(q: Query, q': Query) {
    q'.columns == q.columns && q'.values == q.values
  }

  predicate Grown(q: Query, q': Query) {
    q.columns <= q'.columns && q.values <= q'.values
  }

  lemma GrownTwice(q: Query, q1: Query, q2: Query)
    requires Grown(q, q1) && Grown(q1, q2)
    ensures Grown(q, q2) && (Untouched(q, q2) <==> Untouched(q, q1) && Untouched(q1, q2))
  {
  }

  /**
   * The lists outside of conditions stay untouched for exactly the trees that are scoped, or bare when no condition
   * is open; and a condition is closed behind every tree with a binary operator.
   */
  lemma {:induction false} VisitStrays(q: Query, n: Node)
    ensures var q' := Visit(q, n);
            && Grown(q, q')
            && q'.currentType == (if HasBinary(n) then "" else q.currentType)
            && (Untouched(q, q') <==> if q.currentType == WHERE then Scoped(n) else Bare(n))
    decreases n
  {
    match n
    case Binary(_, l, r) =>
      var q0 := Entered(q, n);
      var q1 := Visit(q0, l);
      VisitStrays(q0, l);
      VisitStrays(q1, r);
      GrownTwice(q0, q1, Visit(q1, r));
    case Statement(_, parts) => VisitAllStrays(Entered(q, n), parts);
    case Group(parts) => VisitAllStrays(q, parts);
    case ColumnName(name) => assert |q.columns + [name]| > |q.columns|;
    case Literal(text) => assert |q.values + [text]| > |q.values|;
    case TableName(_) =>
  }

  lemma {:induction false} VisitAllStrays(q: Query, ns: seq<Node>)
    ensures var q' := VisitAll(q, ns);
            && Grown(q, q')
            && q'.currentType == (if AnyBinary(ns) then "" else q.currentType)
            && (Untouched(q, q') <==> if q.currentType == WHERE then AllScoped(ns) else AllBare(ns))
    decreases ns
  {
    if ns != [] {
      var q1 := Visit(q, ns[0]);
      VisitStrays(q, ns[0]);
      VisitAllStrays(q1, ns[1..]);
      GrownTwice(q, q1, VisitAll(q1, ns[1..]));
    }
  }

  /** A comparison of two comparisons with a plain value between them loses the value to the other list. */
  lemma StrayValue(q: Query)
    ensures
      var a := Binary(EQ, ColumnName("a"), Literal("1"));
      Visit(q, Binary(EQ, a, Literal("2"))).values == q.values + ["2"]
  {
    var a := Binary(EQ, ColumnName("a"), Literal("1"));
    VisitComparison(Entered(q, Binary(EQ, a, Literal("2"))), a);
  }

  /** The statement and the table are those named last, from outside in and left to right. */
  ghost predicate NamedLast(q: Query, q': Query, statements: seq<string>, tables: seq<string>) {
    && q'.statement == (if statements == [] then q.statement else statements[|statements| - 1])
    && q'.tableName == (if tables == [] then q.tableName else tables[|tables| - 1])
  }

  lemma NamedTwice(q: Query, q1: Query, q2: Query, s1: seq<string>, t1: seq<string>, s2: seq<string>, t2: seq<string>)
    requires NamedLast(q, q1, s1, t1) && NamedLast(q1, q2, s2, t2)
    ensures NamedLast(q, q2, s1 + s2, t1 + t2)
  {
    assert s2 == [] ==> s1 + s2 == s1;
    assert t2 == [] ==> t1 + t2 == t1;
  }

  lemma {:induction false} VisitNames(q: Query, n: Node)
    ensures NamedLast(q, Visit(q, n), StatementsIn(n), TablesIn(n))
    decreases n
  {
    match n
    case Binary(_, l, r) =>
      var q0 := Entered(q, n);
      var q1 := Visit(q0, l);
      VisitNames(q0, l);
      VisitNames(q1, r);
      NamedTwice(q, q1, Visit(q1, r), StatementsIn(l), TablesIn(l), StatementsIn(r), TablesIn(r));
    case Statement(kind, parts) =>
      var q0 := Entered(q, n);
      VisitAllNames(q0, parts);
      NamedTwice(q, q0, VisitAll(q0, parts), [kind], [], AllStatementsIn(parts), AllTablesIn(parts));
      assert [] + AllTablesIn(parts) == AllTablesIn(parts);
    case Group(parts) => VisitAllNames(q, parts);
    case _ =>
  }

  lemma {:induction false} VisitAllNames(q: Query, ns: seq<Node>)
    ensures NamedLast(q, VisitAll(q, ns), AllStatementsIn(ns), AllTablesIn(ns))
    decreases ns
  {
    if ns != [] {
      var n, rest := ns[0], ns[1..];
      var q1 := Visit(q, n);
      VisitNames(q, n);
      VisitAllNames(q1, rest);
      NamedTwice(q, q1, VisitAll(q1, rest), StatementsIn(n), TablesIn(n), AllStatementsIn(rest), AllTablesIn(rest));
    }
  }

  // Rows from flat lists

  function LowerChar(c: char): char {
    if 'A' <= c <= 'Z' then (c as int + 32) as char else c
  }

  /** No letter outside of ASCII has a lower case in the names that are compared. */
  function ToLower(s: string): (l: string)
    ensures |l| == |s|
  {
    seq(|s|, i requires 0 <= i < |s| => LowerChar(s[i]))
  }

  const LUSER: string := ToLower(USER)
  const LPASSWORD: string := ToLower(PASSWORD)

  predicate Known(column: string) {
    ToLower(column) == LUSER || ToLower(column) == LPASSWORD
  }

  /** The columns a query without any stands for. */
  function Defaulted(columns: seq<string>): (cs: seq<string>)
    ensures cs != []
  {
    if columns == [] then [USER, PASSWORD] else columns
  }

  function Set(s: Server, column: string, value: string): Server {
    if ToLower(column) == LUSER then s.(user := value)
    else if ToLower(column) == LPASSWORD then s.(password := value)
    else s
  }

  /** The columns set one after the other, from the values at the same places. */
  function Fill(columns: seq<string>, values: seq<string>, s: Server): Result<Server> {
    if columns == [] then Ok(s)
    else
      var i := |columns| - 1;
      match Fill(columns[..i], values, s)
      case Err(e) => Err(e)
      case Ok(s) =>
        if |values| <= i then Err(ShortValues)
        else if Known(columns[i]) then Ok(Set(s, columns[i], values[i]))
        else Err(UnknownColumn(columns[i]))
  }

  function Prepend(first: seq<Server>, rest: Result<seq<Server>>): Result<seq<Server>> {
    match rest
    case Err(e) => Err(e)
    case Ok(ss) => Ok(first + ss)
  }

  function Rows(columns: seq<string>, values: seq<string>): Result<seq<Server>>
    requires columns != []
    decreases |values|
  {
    if values == [] then Ok([])
    else
      match Fill(columns, values, Server("", ""))
      case Err(e) => Err(e)
      case Ok(s) => Prepend([s], Rows(columns, if |columns| < |values| then values[|columns|..] else []))
  }

  predicate AllKnown(columns: seq<string>) {
    forall i :: 0 <= i < |columns| ==> Known(columns[i])
  }

  /** The place of the last column of the given name. */
  function LastOf(columns: seq<string>, name: string): (r: Option<nat>)
    ensures r.Some? ==> r.value < |columns| && ToLower(columns[r.value]) == name
    ensures forall i :: 0 <= i < |columns| && (r.Some? ==> r.value < i) ==> ToLower(columns[i]) != name
  {
    if columns == [] then None
    else
      var i := |columns| - 1;
      if ToLower(columns[i]) == name then Some(i) else LastOf(columns[..i], name)
  }

  function Pick(columns: seq<string>, name: string, values: seq<string>, otherwise: string): string {
    match LastOf(columns, name)
    case None => otherwise
    case Some(i) => if i < |values| then values[i] else otherwise
  }

  lemma NamesDiffer()
    ensures LUSER != LPASSWORD
  {
    assert |LUSER| != |LPASSWORD|;
  }

  predicate SpellsUser(c: string) {
    |c| == 4 && c[0] in {'u', 'U'} && c[1] in {'s', 'S'} && c[2] in {'e', 'E'} && c[3] in {'r', 'R'}
  }

  predicate SpellsPassword(c: string) {
    && |c| == 8 && c[0] in {'p', 'P'} && c[1] in {'a', 'A'} && c[2] in {'s', 'S'} && c[3] in {'s', 'S'}
    && c[4] in {'w', 'W'} && c[5] in {'o', 'O'} && c[6] in {'r', 'R'} && c[7] in {'d', 'D'}
  }

  lemma SameLetters(a: string, b: string)
    ensures ToLower(a) == ToLower(b) <==>
            |a| == |b| && forall i :: 0 <= i < |a| ==> LowerChar(a[i]) == LowerChar(b[i])
  {
    var l, m := ToLower(a), ToLower(b);
    assert forall i :: 0 <= i < |a| ==> l[i] == LowerChar(a[i]);
    assert forall i :: 0 <= i < |b| ==> m[i] == LowerChar(b[i]);
    if |a| == |b| && forall i :: 0 <= i < |a| ==> LowerChar(a[i]) == LowerChar(b[i]) {
      assert l == m;
    }
    hide LowerChar;
  }

  /** The two columns there are, in letters of either case. */
  lemma NamesAre(c: string)
    ensures ToLower(c) == LUSER <==> SpellsUser(c)
    ensures ToLower(c) == LPASSWORD <==> SpellsPassword(c)
  {
    SameLetters(c, "User");
    SameLetters(c, "Password");
    hide ToLower;
  }

  /** Which names are known, and which column each sets. */
  lemma KnownNames(c: string, value: string, s: Server)
    ensures Known(c) <==> SpellsUser(c) || SpellsPassword(c)
    ensures SpellsUser(c) ==> Set(s, c, value) == Server(value, s.password)
    ensures SpellsPassword(c) ==> Set(s, c, value) == Server(s.user, value)
    ensures SpellsUser(c) ==> (Matches(c, value, s) <==> s.user == value)
    ensures SpellsPassword(c) ==> (Matches(c, value, s) <==> s.password == value)
  {
    NamesAre(c);
    hide ToLower;
  }

  /** Setting succeeds exactly when no value is missing and every column is known; the last of equal columns wins. */
  lemma {:induction false} FillIs(columns: seq<string>, values: seq<string>, s: Server)
    ensures Fill(columns, values, s).Ok? <==> |columns| <= |values| && AllKnown(columns)
    ensures Fill(columns, values, s).Ok? ==>
              Fill(columns, values, s).value ==
              Server(Pick(columns, LUSER, values, s.user), Pick(columns, LPASSWORD, values, s.password))
  {
    NamesDiffer();
    hide ToLower;
    if columns != [] {
      var i := |columns| - 1;
      FillIs(columns[..i], values, s);
      assert columns == columns[..i] + [columns[i]];
    }
  }

  /** A column there is. */
  predicate Named(c: string) {
    SpellsUser(c) || SpellsPassword(c)
  }

  predicate AllNamed(columns: seq<string>) {
    forall i :: 0 <= i < |columns| ==> Named(columns[i])
  }

  ghost predicate LastSpelled(columns: seq<string>, spells: string -> bool, i: int) {
    0 <= i < |columns| && spells(columns[i]) && forall j :: i < j < |columns| ==> !spells(columns[j])
  }

  /** `x` is the value of the last column of a name; without one it is as before. */
  ghost predicate Gives(columns: seq<string>, spells: string -> bool, values: seq<string>, before: string, x: string) {
    && (forall i :: LastSpelled(columns, spells, i) ==> i < |values| && x == values[i])
    && ((forall i :: 0 <= i < |columns| ==> !spells(columns[i])) ==> x == before)
  }

  lemma PickGives(columns: seq<string>, name: string, spells: string -> bool, values: seq<string>, before: string)
    requires |columns| <= |values| && forall c :: ToLower(c) == name <==> spells(c)
    ensures Gives(columns, spells, values, before, Pick(columns, name, values, before))
  {
    hide ToLower;
    var r := LastOf(columns, name);
    forall i | LastSpelled(columns, spells, i)
      ensures r == Some(i)
    {
      assert ToLower(columns[i]) == name;
    }
  }

  lemma PicksGive(columns: seq<string>, values: seq<string>, s: Server)
    requires |columns| <= |values|
    ensures Gives(columns, SpellsUser, values, s.user, Pick(columns, LUSER, values, s.user))
    ensures Gives(columns, SpellsPassword, values, s.password, Pick(columns, LPASSWORD, values, s.password))
  {
    forall c {
      NamesAre(c);
    }
    hide Gives, ToLower, SpellsUser, SpellsPassword;
    PickGives(columns, LUSER, SpellsUser, values, s.user);
    PickGives(columns, LPASSWORD, SpellsPassword, values, s.password);
  }

  lemma AllNamedIff(columns: seq<string>)
    ensures AllKnown(columns) <==> AllNamed(columns)
  {
    forall c {
      KnownNames(c, "", Server("", ""));
    }
    hide Known, SpellsUser, SpellsPassword;
  }

  /**
   * Setting succeeds exactly when no value is missing and every column spells one of the two names; each field is then
   * the value of the last column that spells its name, or as before.
   */
  lemma FillSets(columns: seq<string>, values: seq<string>, s: Server)
    ensures Fill(columns, values, s).Ok? <==> |columns| <= |values| && AllNamed(columns)
    ensures Fill(columns, values, s).Ok? ==>
              && Gives(columns, SpellsUser, values, s.user, Fill(columns, values, s).value.user)
              && Gives(columns, SpellsPassword, values, s.password, Fill(columns, values, s).value.password)
  {
    FillIs(columns, values, s);
    AllNamedIff(columns);
    hide Fill, Gives, AllKnown, AllNamed, Pick;
    if |columns| <= |values| {
      PicksGive(columns, values, s);
    }
  }

  /** The error is that of the first column that has no value or is unknown. */
  lemma {:induction false} FillFails(columns: seq<string>, values: seq<string>, s: Server, k: nat)
    requires k < |columns| && k <= |values| && AllKnown(columns[..k])
    requires k == |values| || !Known(columns[k])
    ensures Fill(columns, values, s) == Err(if k == |values| then ShortValues else UnknownColumn(columns[k]))
  {
    var i := |columns| - 1;
    if k == i {
      FillIs(columns[..i], values, s);
    } else {
      FillFails(columns[..i], values, s, k);
      assert columns[..i][..k] == columns[..k];
    }
  }

  lemma {:induction false} AtLeastOnce(d: int, k: int)
    requires d >= 1 && k > 0
    ensures d * k >= k
  {
    if d > 1 {
      AtLeastOnce(d - 1, k);
      assert d * k == (d - 1) * k + k;
    }
  }

  /** Taking one stride off leaves the remainder. */
  lemma DivStep(n: int, k: int)
    requires 0 < k <= n
    ensures n % k == (n - k) % k
  {
    var a, r, b, t := n / k, n % k, (n - k) / k, (n - k) % k;
    assert n == k * a + r && n - k == k * b + t;
    var d := a - 1 - b;
    assert d * k == k * a - k - k * b;
    if d >= 1 {
      AtLeastOnce(d, k);
    } else if d <= -1 {
      AtLeastOnce(-d, k);
    }
  }

  lemma Stride(i: int, k: int)
    ensures k + i * k == (i + 1) * k
  {
  }

  /**
   * There are rows exactly when there are no values, or the columns are known and divide the values evenly; row `i`
   * holds the `i`-th stride of the values.
   */
  lemma {:induction false} RowsAre(columns: seq<string>, values: seq<string>)
    requires columns != []
    ensures Rows(columns, values).Ok? <==> values == [] || (|values| % |columns| == 0 && AllKnown(columns))
    ensures Rows(columns, values).Ok? ==> RowsMatch(columns, values, Rows(columns, values).value)
    decreases |values|
  {
    if values == [] {
      ZeroRows(columns);
    } else {
      var k := |columns|;
      FillIs(columns, values, Server("", ""));
      hide Fill, Known, ToLower, Pick;
      if k <= |values| {
        DivStep(|values|, k);
        assert |values| == k ==> values[k..] == [];
        RowsAre(columns, values[k..]);
        if Rows(columns, values).Ok? {
          PickPrefix(columns, LUSER, values);
          PickPrefix(columns, LPASSWORD, values);
          RowsMatchMore(columns, values, Rows(columns, values[k..]).value);
        }
      } else {
        assert |values| % k == |values|;
      }
    }
  }

  ghost predicate RowsMatch(columns: seq<string>, values: seq<string>, ss: seq<Server>)
    requires columns != []
  {
    && |values| == |ss| * |columns|
    && forall i :: 0 <= i < |ss| ==> ss[i] == RowAt(columns, values, i)
  }

  /** Row `i`: what the columns pick from values `i * k` to `(i + 1) * k`. */
  function RowAt(columns: seq<string>, values: seq<string>, i: nat): Server
    requires columns != []
  {
    var from, to := i * |columns|, (i + 1) * |columns|;
    var row := if 0 <= from <= to <= |values| then values[from..to] else [];
    Server(Pick(columns, LUSER, row, ""), Pick(columns, LPASSWORD, row, ""))
  }

  /** Row `i` in the letters of the columns. */
  ghost predicate RowGives(columns: seq<string>, values: seq<string>, i: nat, s: Server) {
    var (from, to) := (i * |columns|, (i + 1) * |columns|);
    && 0 <= from <= to <= |values|
    && Gives(columns, SpellsUser, values[from..to], "", s.user)
    && Gives(columns, SpellsPassword, values[from..to], "", s.password)
  }

  /**
   * There are rows exactly when there are no values, or every column spells one of the two names and they divide the
   * values evenly; each stride of values gives one row, in order.
   */
  lemma RowsGive(columns: seq<string>, values: seq<string>)
    requires columns != []
    ensures Rows(columns, values).Ok? <==> values == [] || (|values| % |columns| == 0 && AllNamed(columns))
    ensures Rows(columns, values).Ok? ==>
              && |values| == |Rows(columns, values).value| * |columns|
              && forall i :: 0 <= i < |Rows(columns, values).value| ==>
                   RowGives(columns, values, i, Rows(columns, values).value[i])
  {
    RowsAre(columns, values);
    AllNamedIff(columns);
    hide Rows, Pick, Gives, AllKnown, AllNamed;
    if Rows(columns, values).Ok? {
      var rows := Rows(columns, values).value;
      forall i | 0 <= i < |rows|
        ensures RowGives(columns, values, i, rows[i])
      {
        var k := |columns|;
        InStride(i, k, |rows|);
        Stride(i, k);
        assert rows[i] == RowAt(columns, values, i);
        PicksGive(columns, values[i * k..(i + 1) * k], Server("", ""));
      }
    }
  }

  /** Values without columns are pairs of a user and a password. */
  lemma DefaultColumns(values: seq<string>)
    ensures Rows(Defaulted([]), values).Ok? <==> |values| % 2 == 0
    ensures |values| % 2 == 0 ==>
              && |values| == 2 * |Rows(Defaulted([]), values).value|
              && forall i :: 0 <= i < |values| / 2 ==>
                   Rows(Defaulted([]), values).value[i] == Server(values[2 * i], values[2 * i + 1])
  {
    var columns := ["User", "Password"];
    assert Defaulted([]) == columns;
    RowsGive(columns, values);
    assert AllNamed(columns);
    hide Rows, Gives, Defaulted;
    if |values| % 2 == 0 {
      var rows := Rows(columns, values).value;
      forall i | 0 <= i < |rows|
        ensures rows[i] == Server(values[2 * i], values[2 * i + 1])
      {
        assert RowGives(columns, values, i, rows[i]);
        GivesPair(columns, values[2 * i..2 * i + 2], rows[i]);
      }
    }
  }

  lemma GivesPair(columns: seq<string>, row: seq<string>, s: Server)
    requires |columns| == |row| == 2 && SpellsUser(columns[0]) && SpellsPassword(columns[1])
    requires Gives(columns, SpellsUser, row, "", s.user) && Gives(columns, SpellsPassword, row, "", s.password)
    ensures s == Server(row[0], row[1])
  {
    assert LastSpelled(columns, SpellsUser, 0);
    assert LastSpelled(columns, SpellsPassword, 1);
  }

  lemma ZeroRows(columns: seq<string>)
    requires columns != []
    ensures RowsMatch(columns, [], [])
  {
  }

  lemma PickPrefix(columns: seq<string>, name: string, values: seq<string>)
    requires |columns| <= |values|
    ensures Pick(columns, name, values, "") == Pick(columns, name, values[..|columns|], "")
  {
  }

  lemma {:induction false} InStride(i: nat, k: nat, n: nat)
    requires i < n
    ensures (i + 1) * k <= n * k && 0 <= i * k <= (i + 1) * k
    decreases n
  {
    Stride(i, k);
    if i + 1 < n {
      InStride(i, k, n - 1);
      Stride(n - 1, k);
    } else if i > 0 {
      InStride(i - 1, k, i);
      Stride(i - 1, k);
    }
  }

  lemma RowsMatchMore(columns: seq<string>, values: seq<string>, ss: seq<Server>)
    requires columns != [] && |columns| <= |values| && RowsMatch(columns, values[|columns|..], ss)
    ensures
      var row := values[..|columns|];
      RowsMatch(columns, values, [Server(Pick(columns, LUSER, row, ""), Pick(columns, LPASSWORD, row, ""))] + ss)
  {
    hide Pick;
    var k, rest := |columns|, values[|columns|..];
    var all := [Server(Pick(columns, LUSER, values[..k], ""), Pick(columns, LPASSWORD, values[..k], ""))] + ss;
    Stride(|ss|, k);
    forall i | 0 <= i < |all|
      ensures all[i] == RowAt(columns, values, i)
    {
      if i == 0 {
        assert 0 * k == 0 && 1 * k == k;
        assert values[0..k] == values[..k];
      } else {
        Stride(i - 1, k);
        Stride(i, k);
        InStride(i - 1, k, |ss|);
        var from, to := (i - 1) * k, i * k;
        assert rest[from..to] == values[k + from..k + to];
        assert all[i] == ss[i - 1] == RowAt(columns, rest, i - 1);
      }
    }
  }

  // Result rows, and the way back to flat lists

  function RowOf(columns: seq<string>, s: Server): seq<string> {
    if columns == [] then []
    else
      var column := columns[|columns| - 1];
      RowOf(columns[..|columns| - 1], s) +
      if ToLower(column) == LUSER then [s.user] else if ToLower(column) == LPASSWORD then [s.password] else []
  }

  function Header(columns: seq<string>): seq<string> {
    if columns == [] then []
    else
      var column := columns[|columns| - 1];
      Header(columns[..|columns| - 1]) +
      if ToLower(column) == LUSER then [USER] else if ToLower(column) == LPASSWORD then [PASSWORD] else []
  }

  function NamedOnly(columns: seq<string>): seq<string> {
    if columns == [] then []
    else
      var column := columns[|columns| - 1];
      NamedOnly(columns[..|columns| - 1]) + if Named(column) then [column] else []
  }

  /** A row has a value for each column that spells a name, and the header calls it by that name. */
  lemma {:induction false} HeaderNames(columns: seq<string>, s: Server)
    ensures var named := NamedOnly(columns);
            && |Header(columns)| == |RowOf(columns, s)| == |named|
            && forall j :: 0 <= j < |named| ==>
                 if SpellsUser(named[j]) then Header(columns)[j] == "User" && RowOf(columns, s)[j] == s.user
                 else Header(columns)[j] == "Password" && RowOf(columns, s)[j] == s.password
  {
    if columns != [] {
      var n := |columns| - 1;
      HeaderNames(columns[..n], s);
      NamesAre(columns[n]);
      hide ToLower, SpellsUser, SpellsPassword;
    }
  }

  function ResultRows(columns: seq<string>, ss: seq<Server>): seq<seq<string>> {
    seq(|ss|, i requires 0 <= i < |ss| => RowOf(columns, ss[i]))
  }

  function Flat(rows: seq<seq<string>>): seq<string> {
    if rows == [] then [] else rows[0] + Flat(rows[1..])
  }

  lemma {:induction false} RowOfKnown(columns: seq<string>, s: Server)
    requires AllKnown(columns)
    ensures |RowOf(columns, s)| == |columns|
    ensures forall j :: 0 <= j < |columns| ==>
              RowOf(columns, s)[j] == if ToLower(columns[j]) == LUSER then s.user else s.password
  {
    NamesDiffer();
    hide ToLower;
    if columns != [] {
      RowOfKnown(columns[..|columns| - 1], s);
    }
  }

  /** Columns of the same name have the same value. */
  ghost predicate ConsistentRow(columns: seq<string>, row: seq<string>)
    requires |row| == |columns|
  {
    forall i, j :: 0 <= i < j < |columns| && ToLower(columns[i]) == ToLower(columns[j]) ==> row[i] == row[j]
  }

  /** They do in every row of the values. */
  ghost predicate Consistent(columns: seq<string>, values: seq<string>)
    requires columns != []
    decreases |values|
  {
    if |values| < |columns| then true
    else ConsistentRow(columns, values[..|columns|]) && Consistent(columns, values[|columns|..])
  }

  lemma RowComesBack(columns: seq<string>, row: seq<string>, s: Server)
    requires AllKnown(columns) && |row| == |columns|
    requires s == Server(Pick(columns, LUSER, row, ""), Pick(columns, LPASSWORD, row, ""))
    ensures RowOf(columns, s) == row <==> ConsistentRow(columns, row)
  {
    RowOfKnown(columns, s);
    NamesDiffer();
    hide ToLower;
  }

  lemma FlatMore(row: seq<string>, rows: seq<seq<string>>, values: seq<string>)
    requires |row| <= |values|
    ensures Flat([row] + rows) == values <==> row == values[..|row|] && Flat(rows) == values[|row|..]
  {
    assert ([row] + rows)[1..] == rows;
    assert (row + Flat(rows))[..|row|] == row && (row + Flat(rows))[|row|..] == Flat(rows);
    assert values == values[..|row|] + values[|row|..];
  }

  lemma RowsOfMore(columns: seq<string>, values: seq<string>)
    requires columns != [] && values != [] && Rows(columns, values).Ok?
    ensures |columns| <= |values| && AllKnown(columns)
    ensures
      var (row, rest) := (values[..|columns|], values[|columns|..]);
      && Rows(columns, rest).Ok?
      && Rows(columns, values).value ==
         [Server(Pick(columns, LUSER, row, ""), Pick(columns, LPASSWORD, row, ""))] + Rows(columns, rest).value
  {
    FillIs(columns, values, Server("", ""));
    PickPrefix(columns, LUSER, values);
    PickPrefix(columns, LPASSWORD, values);
    hide Fill, Pick, Known;
    assert |values| == |columns| ==> values[|columns|..] == [];
  }

  lemma ResultRowsMore(columns: seq<string>, s: Server, ss: seq<Server>)
    ensures ResultRows(columns, [s] + ss) == [RowOf(columns, s)] + ResultRows(columns, ss)
  {
    hide RowOf;
  }

  /** Reading the rows back in the same columns gives the values, exactly when no row contradicts itself. */
  lemma {:induction false} RoundTripIff(columns: seq<string>, values: seq<string>)
    requires columns != [] && AllKnown(columns) && Rows(columns, values).Ok?
    ensures Flat(ResultRows(columns, Rows(columns, values).value)) == values <==> Consistent(columns, values)
    decreases |values|
  {
    var k := |columns|;
    if values != [] {
      RowsOfMore(columns, values);
      var row, rest := values[..k], values[k..];
      var s := Server(Pick(columns, LUSER, row, ""), Pick(columns, LPASSWORD, row, ""));
      var ss := Rows(columns, rest).value;
      hide Rows, Pick, RowOf, ConsistentRow, ResultRows, Flat;
      RoundTripIff(columns, rest);
      RowComesBack(columns, row, s);
      RowOfKnown(columns, s);
      ResultRowsMore(columns, s, ss);
      FlatMore(RowOf(columns, s), ResultRows(columns, ss), values);
    }
  }

  predicate Distinct(columns: seq<string>) {
    forall i, j :: 0 <= i < j < |columns| ==> ToLower(columns[i]) != ToLower(columns[j])
  }

  /** So without duplicate columns all values come back, and with duplicates not all do. */
  lemma {:induction false} DistinctColumnsRoundTrip(columns: seq<string>, values: seq<string>)
    requires columns != [] && Distinct(columns)
    ensures Consistent(columns, values)
    decreases |values|
  {
    if |values| >= |columns| {
      DistinctColumnsRoundTrip(columns, values[|columns|..]);
    }
  }

  lemma DuplicateColumnsLoseValues(columns: seq<string>) returns (values: seq<string>)
    requires columns != [] && AllKnown(columns) && !Distinct(columns)
    ensures |values| == |columns| && !Consistent(columns, values)
  {
    var i, j :| 0 <= i < j < |columns| && ToLower(columns[i]) == ToLower(columns[j]);
    values := seq(|columns|, k => if k == i then "x" else "");
    assert values[..|columns|] == values;
    assert values[i] != values[j];
  }

  // Conditions on rows

  function LastKnown(columns: seq<string>): (r: Option<nat>)
    ensures r.Some? ==> r.value < |columns| && Known(columns[r.value])
    ensures forall i :: 0 <= i < |columns| && (r.Some? ==> r.value < i) ==> !Known(columns[i])
  {
    if columns == [] then None
    else if Known(columns[|columns| - 1]) then Some(|columns| - 1)
    else LastKnown(columns[..|columns| - 1])
  }

  function GetString(s: seq<string>, i: nat): string {
    if i < |s| then s[i] else ""
  }

  predicate Matches(column: string, value: string, s: Server) {
    if ToLower(column) == LUSER then s.user == value else s.password == value
  }

  /** Without a condition every row is selected; otherwise the last known column alone decides. */
  predicate Picks(columns: seq<string>, values: seq<string>, s: Server) {
    columns == [] ||
    match LastKnown(columns)
    case None => false
    case Some(i) => Matches(columns[i], GetString(values, i), s)
  }

  function Filter(f: Server -> bool, ss: seq<Server>): seq<Server> {
    if ss == [] then []
    else
      var s := ss[|ss| - 1];
      Filter(f, ss[..|ss| - 1]) + (if f(s) then [s] else [])
  }

  lemma {:induction false} FilterSame(f: Server -> bool, g: Server -> bool, ss: seq<Server>)
    requires forall s :: f(s) == g(s)
    ensures Filter(f, ss) == Filter(g, ss)
  {
    if ss != [] {
      FilterSame(f, g, ss[..|ss| - 1]);
    }
  }

  function Selected(columns: seq<string>, values: seq<string>, ss: seq<Server>): seq<Server> {
    Filter(s => Picks(columns, values, s), ss)
  }

  lemma {:induction false} FilterAll(f: Server -> bool, ss: seq<Server>)
    requires forall s :: f(s)
    ensures Filter(f, ss) == ss
  {
    if ss != [] {
      FilterAll(f, ss[..|ss| - 1]);
    }
  }

  lemma SelectedAll(values: seq<string>, ss: seq<Server>)
    ensures Selected([], values, ss) == ss
  {
    FilterAll(s => Picks([], values, s), ss);
  }

  /** Of the comparisons, the `i`-th is the last on a known column. */
  predicate LastOnKnown(cs: seq<Comparison>, i: int) {
    0 <= i < |cs| && Known(cs[i].column) && forall j :: i < j < |cs| ==> !Known(cs[j].column)
  }

  lemma PicksByLast(cs: seq<Comparison>, s: Server)
    requires cs != []
    ensures Picks(ColumnsOf(cs), ValuesOf(cs), s) <==>
            exists i :: LastOnKnown(cs, i) && Matches(cs[i].column, cs[i].value, s)
  {
    hide Known, Matches;
    match LastKnown(ColumnsOf(cs))
    case None =>
      assert forall j :: 0 <= j < |cs| ==> ColumnsOf(cs)[j] == cs[j].column;
    case Some(i) =>
      assert forall j :: 0 <= j < |cs| ==> ColumnsOf(cs)[j] == cs[j].column;
      assert LastOnKnown(cs, i);
      assert forall j :: LastOnKnown(cs, j) ==> j == i;
  }

  lemma FreshCondition(q: Query, n: Node)
    requires IsCondition(n) && q.whereColumns == [] && q.whereValues == []
    ensures
      var (q', cs) := (Visit(q, n), Comparisons(n));
      q'.whereColumns == ColumnsOf(cs) && q'.whereValues == ValuesOf(cs) && q'.whereOp == cs[|cs| - 1].op
  {
    VisitCondition(q, n);
    hide Visit, IsCondition, Comparisons, ColumnsOf, ValuesOf;
    var cs := Comparisons(n);
    assert [] + ColumnsOf(cs) == ColumnsOf(cs) && [] + ValuesOf(cs) == ValuesOf(cs);
  }

  /** What a column that spells a name holds in a row. */
  function FieldOf(column: string, s: Server): string {
    if SpellsUser(column) then s.user else s.password
  }

  /** The last column that spells a name alone selects; a value that is missing is empty. */
  lemma PicksWords(columns: seq<string>, values: seq<string>, s: Server)
    requires columns != []
    ensures Picks(columns, values, s) <==>
            exists i :: LastSpelled(columns, Named, i)
                        && FieldOf(columns[i], s) == if i < |values| then values[i] else ""
  {
    forall c, v {
      KnownNames(c, v, s);
    }
    hide Known, Matches, SpellsUser, SpellsPassword;
    match LastKnown(columns)
    case None =>
    case Some(i) =>
      assert LastSpelled(columns, Named, i);
      assert forall j :: LastSpelled(columns, Named, j) ==> j == i;
  }

  /** A single comparison selects the rows that meet it, and of several the last one on a known column does alone. */
  lemma ConditionSelects(q: Query, n: Node, s: Server)
    requires IsCondition(n) && q.whereColumns == [] && q.whereValues == []
    ensures
      var (q', cs) := (Visit(q, n), Comparisons(n));
      && (q'.whereOp == EQ <==> cs[|cs| - 1].op == EQ)
      && (Picks(q'.whereColumns, q'.whereValues, s) <==>
          exists i :: LastSpelled(ColumnsOf(cs), Named, i) && FieldOf(cs[i].column, s) == cs[i].value)
  {
    FreshCondition(q, n);
    var cs := Comparisons(n);
    PicksWords(ColumnsOf(cs), ValuesOf(cs), s);
    hide Visit, Comparisons, Picks, IsCondition, FieldOf, Named;
  }

  // When several conditions select what their conjunction does

  predicate SameTest(a: Comparison, b: Comparison) {
    ToLower(a.column) == ToLower(b.column) && a.value == b.value
  }

  /** The row meets every comparison on a known column. */
  predicate MeetsAll(cs: seq<Comparison>, s: Server) {
    forall i :: 0 <= i < |cs| && Known(cs[i].column) ==> Matches(cs[i].column, cs[i].value, s)
  }

  /** A row that meets one test but not another. */
  lemma Separates(a: Comparison, b: Comparison) returns (s: Server)
    requires Known(a.column) && Known(b.column) && !SameTest(a, b)
    ensures Matches(a.column, a.value, s) && !Matches(b.column, b.value, s)
  {
    NamesDiffer();
    assert |b.value + "x"| > |b.value|;
    if ToLower(a.column) == LUSER {
      s := Server(a.value, b.value + "x");
    } else {
      s := Server(b.value + "x", a.value);
    }
  }

  /**
   * The rows selected are those that meet all comparisons on known columns, whatever the table, exactly when all of
   * these make the same test as the last of them.
   */
  lemma SelectsConjunctionIff(cs: seq<Comparison>)
    requires cs != []
    ensures (forall s :: Picks(ColumnsOf(cs), ValuesOf(cs), s) <==> MeetsAll(cs, s)) <==>
            exists l :: LastOnKnown(cs, l) &&
                        forall i :: 0 <= i < |cs| && Known(cs[i].column) ==> SameTest(cs[i], cs[l])
  {
    forall s
      ensures Picks(ColumnsOf(cs), ValuesOf(cs), s) <==>
              exists i :: LastOnKnown(cs, i) && Matches(cs[i].column, cs[i].value, s)
    {
      PicksByLast(cs, s);
    }
    hide Picks, Known;
    if l :| LastOnKnown(cs, l) {
      if i :| 0 <= i < |cs| && Known(cs[i].column) && !SameTest(cs[i], cs[l]) {
        var s := Separates(cs[l], cs[i]);
        assert !MeetsAll(cs, s);
      }
    } else {
      NoneKnown(cs);
      assert MeetsAll(cs, Server("", ""));
    }
  }

  lemma {:induction false} NoneKnown(cs: seq<Comparison>)
    requires forall l :: !LastOnKnown(cs, l)
    ensures forall i :: 0 <= i < |cs| ==> !Known(cs[i].column)
  {
    hide Known;
    if cs != [] {
      var n := |cs| - 1;
      assert !LastOnKnown(cs, n);
      forall l
        ensures !LastOnKnown(cs[..n], l)
      {
        assert !LastOnKnown(cs, l);
      }
      NoneKnown(cs[..n]);
      assert forall i :: 0 <= i < n ==> cs[..n][i] == cs[i];
    }
  }

  /** `User = "a" AND Password = "b"` selects a row of another user. */
  lemma ConjunctionIgnored()
    ensures
      var cs := [Comparison(USER, EQ, "a"), Comparison(PASSWORD, EQ, "b")];
      var s := Server("z", "b");
      Picks(ColumnsOf(cs), ValuesOf(cs), s) && !MeetsAll(cs, s)
  {
    var cs := [Comparison(USER, EQ, "a"), Comparison(PASSWORD, EQ, "b")];
    NamesDiffer();
    assert LastOnKnown(cs, 1);
    PicksByLast(cs, Server("z", "b"));
    assert !Matches(cs[0].column, cs[0].value, Server("z", "b"));
  }

  // The source's objects and loops

  class ParsedQuery {
    var statement: string
    var tableName: string
    var columns: seq<string>
    var values: seq<string>
    var currentType: string
    var whereColumns: seq<string>
    var whereValues: seq<string>
    var whereOp: Op

    constructor ()
      ensures View() == Query("", "", [], [], "", [], [], NoOp)
    {
      statement, tableName, currentType := "", "", "";
      columns, values, whereColumns, whereValues, whereOp := [], [], [], [], NoOp;
    }

    /** What a finished visit has left. */
    constructor Of(q: Query)
      ensures View() == q
    {
      statement, tableName, currentType := q.statement, q.tableName, q.currentType;
      columns, values := q.columns, q.values;
      whereColumns, whereValues, whereOp := q.whereColumns, q.whereValues, q.whereOp;
    }

    ghost function View(): Query
      reads this
    {
      Query(statement, tableName, columns, values, currentType, whereColumns, whereValues, whereOp)
    }

    method Enter(n: Node)
      modifies this
      ensures View() == Entered(old(View()), n)
    {
      match n
      case Statement(kind, _) => statement := kind;
      case TableName(name) => tableName := name;
      case Binary(op, _, _) => currentType, whereOp := WHERE, op;
      case ColumnName(name) =>
        if currentType == WHERE {
          whereColumns := whereColumns + [name];
        } else {
          columns := columns + [name];
        }
      case Literal(text) =>
        if currentType == WHERE {
          whereValues := whereValues + [text];
        } else {
          values := values + [text];
        }
      case Group(_) =>
    }

    method Leave(n: Node)
      modifies this
      ensures View() == Left(old(View()), n)
    {
      if n.Binary? {
        currentType := "";
      }
    }

    /** How a parsed tree has itself visited: Enter, the children in order, Leave. */
    method Accept(n: Node)
      modifies this
      ensures View() == Visit(old(View()), n)
      decreases n
    {
      Enter(n);
      if n.Binary? {
        Accept(n.left);
        Accept(n.right);
      } else {
        ghost var q := View();
        var parts := Children(n);
        var i := 0;
        while i < |parts|
          invariant 0 <= i <= |parts|
          invariant VisitAll(q, parts) == VisitAll(View(), parts[i..])
        {
          Accept(parts[i]);
          assert parts[i..][1..] == parts[i + 1..];
          i := i + 1;
        }
      }
      Leave(n);
    }

    /** The loop over the columns, as it stands in columnsToConfig and in updateColumns. */
    method SetColumns(values: seq<string>, s0: Server) returns (s: Server, error: Option<ReshapeError>)
      ensures Fill(columns, values, s0) == if error == None then Ok(s) else Err(error.value)
    {
      s, error := s0, None;
      var i := 0;
      FillOf(columns, values, s0, 0);
      while i < |columns|
        invariant 0 <= i <= |columns|
        invariant Fill(columns[..i], values, s0) == Ok(s)
      {
        FillOf(columns, values, s0, i);
        if |values| <= i {
          FillStays(columns, values, s0, i + 1);
          return s, Some(ShortValues);
        }
        if ToLower(columns[i]) == LUSER {
          s := s.(user := values[i]);
        } else if ToLower(columns[i]) == LPASSWORD {
          s := s.(password := values[i]);
        } else {
          FillStays(columns, values, s0, i + 1);
          return s, Some(UnknownColumn(columns[i]));
        }
        i := i + 1;
      }
      assert columns[..i] == columns;
    }

    method ColumnsToConfig() returns (res: seq<Server>, error: Option<ReshapeError>)
      modifies this`columns
      ensures columns == Defaulted(old(columns))
      ensures Rows(columns, values) == if error == None then Ok(res) else Err(error.value)
    {
      res, error := [], None;
      if |columns| == 0 {
        columns := [USER, PASSWORD];
      }
      var col := 0;
      PrependNothing(Rows(columns, values));
      while col < |values|
        invariant 0 <= col <= |values| && columns == Defaulted(old(columns)) && error == None
        invariant Rows(columns, values) == Prepend(res, Rows(columns, values[col..]))
      {
        var s;
        FillIs(columns, values[col..], Server("", ""));
        s, error := SetColumns(values[col..], Server("", ""));
        hide Fill, AllKnown;
        if error.Some? {
          return;
        }
        PrependTwice(res, s, Rows(columns, values[col + |columns|..]));
        assert |columns| < |values[col..]| ==> values[col..][|columns|..] == values[col + |columns|..];
        res := res + [s];
        col := col + |columns|;
      }
      assert res + [] == res;
    }

    /** The known columns of one row, and what they are called. */
    method ResultRow(s: Server) returns (row: seq<string>, col: seq<string>)
      ensures row == RowOf(columns, s) && col == Header(columns)
    {
      hide ToLower;
      row, col := [], [];
      var i := 0;
      while i < |columns|
        invariant 0 <= i <= |columns| && row == RowOf(columns[..i], s) && col == Header(columns[..i])
      {
        assert columns[..i + 1][..i] == columns[..i];
        if ToLower(columns[i]) == LUSER {
          row, col := row + [s.user], col + [USER];
        } else if ToLower(columns[i]) == LPASSWORD {
          row, col := row + [s.password], col + [PASSWORD];
        }
        i := i + 1;
      }
      assert columns[..i] == columns;
    }

    method SelectResultset(servers: array<Server>) returns (header: seq<string>, rows: seq<seq<string>>)
      modifies this`columns
      ensures columns == Defaulted(old(columns))
      ensures header == if servers.Length == 0 then [] else Header(columns)
      ensures rows == ResultRows(columns, servers[..])
    {
      hide RowOf, Header;
      if |columns| == 0 {
        columns := [USER, PASSWORD];
      }
      header, rows := [], [];
      var k := 0;
      while k < servers.Length
        invariant 0 <= k <= servers.Length
        invariant columns == Defaulted(old(columns))
        invariant header == if k == 0 then [] else Header(columns)
        invariant |rows| == k && forall i :: 0 <= i < k ==> rows[i] == RowOf(columns, servers[i])
      {
        var row, col := ResultRow(servers[k]);
        header, rows, k := col, rows + [row], k + 1;
      }
    }

    method UpdateColumns(s0: Server) returns (s: Server, error: Option<ReshapeError>)
      modifies this`columns
      ensures columns == Defaulted(old(columns))
      ensures Fill(columns, values, s0) == if error == None then Ok(s) else Err(error.value)
    {
      if |columns| == 0 {
        columns := [USER, PASSWORD];
      }
      s, error := SetColumns(values, s0);
    }

    /** Without conditions the rows are the servers' own array, not a copy. */
    method WhereColumnsToConfig(servers: array<Server>) returns (rows: array<Server>, error: Option<ReshapeError>)
      ensures error == if whereColumns != [] && whereOp != EQ then Some(OnlyEqual) else None
      ensures error == None ==> rows[..] == Selected(whereColumns, whereValues, servers[..])
      ensures if whereColumns == [] then rows == servers else fresh(rows)
    {
      if |whereColumns| == 0 {
        SelectedAll(whereValues, servers[..]);
        return servers, None;
      }
      rows, error := new Server[0], None;
      if whereOp != EQ {
        return rows, Some(OnlyEqual);
      }
      ghost var ss := servers[..];
      UpToNone(whereColumns, whereValues, ss);
      var i := 0;
      while i < |whereColumns|
        invariant 0 <= i <= |whereColumns| && fresh(rows)
        invariant rows[..] == UpTo(whereColumns, whereValues, i, ss)
      {
        var value := GetString(whereValues, i);
        if ToLower(whereColumns[i]) == LUSER {
          var f := (s: Server) => s.user == value;
          UpToMore(whereColumns, whereValues, i, f, ss);
          rows := Selection(f, servers);
        } else if ToLower(whereColumns[i]) == LPASSWORD {
          var f := (s: Server) => s.password == value;
          UpToMore(whereColumns, whereValues, i, f, ss);
          rows := Selection(f, servers);
        } else {
          UpToMore(whereColumns, whereValues, i, s => true, ss);
        }
        i := i + 1;
      }
      UpToAll(whereColumns, whereValues, ss);
    }
  }

  method Selection(f: Server -> bool, servers: array<Server>) returns (res: array<Server>)
    ensures fresh(res) && res[..] == Filter(f, servers[..])
  {
    var found: seq<Server> := [];
    var i := 0;
    while i < servers.Length
      invariant 0 <= i <= servers.Length && found == Filter(f, servers[..i])
    {
      assert servers[..i + 1][..i] == servers[..i];
      if f(servers[i]) {
        found := found + [servers[i]];
      }
      i := i + 1;
    }
    assert servers[..i] == servers[..];
    res := new Server[|found|](k requires 0 <= k < |found| => found[k]);
    assert res[..] == found;
  }

  /** What the first `n` columns alone would select, none by default. */
  predicate PicksUpTo(columns: seq<string>, values: seq<string>, n: nat, s: Server)
    requires n <= |columns|
  {
    match LastKnown(columns[..n])
    case None => false
    case Some(i) => Matches(columns[i], GetString(values, i), s)
  }

  function UpTo(columns: seq<string>, values: seq<string>, n: nat, ss: seq<Server>): seq<Server>
    requires n <= |columns|
  {
    Filter(s => PicksUpTo(columns, values, n, s), ss)
  }

  lemma {:induction false} UpToNone(columns: seq<string>, values: seq<string>, ss: seq<Server>)
    ensures UpTo(columns, values, 0, ss) == []
  {
    if ss != [] {
      UpToNone(columns, values, ss[..|ss| - 1]);
    }
  }

  lemma UpToMore(columns: seq<string>, values: seq<string>, n: nat, f: Server -> bool, ss: seq<Server>)
    requires n < |columns|
    requires Known(columns[n]) ==> forall s :: f(s) == Matches(columns[n], GetString(values, n), s)
    ensures UpTo(columns, values, n + 1, ss) ==
            if Known(columns[n]) then Filter(f, ss) else UpTo(columns, values, n, ss)
  {
    assert columns[..n + 1][..n] == columns[..n];
    var next := s => PicksUpTo(columns, values, n + 1, s);
    if Known(columns[n]) {
      FilterSame(next, f, ss);
    } else {
      FilterSame(next, s => PicksUpTo(columns, values, n, s), ss);
    }
  }

  lemma UpToAll(columns: seq<string>, values: seq<string>, ss: seq<Server>)
    requires columns != []
    ensures UpTo(columns, values, |columns|, ss) == Selected(columns, values, ss)
  {
    assert columns[..|columns|] == columns;
    FilterSame(s => PicksUpTo(columns, values, |columns|, s), s => Picks(columns, values, s), ss);
  }

  lemma FillOf(columns: seq<string>, values: seq<string>, s0: Server, i: nat)
    requires i <= |columns|
    ensures columns[..0] == [] && Fill([], values, s0) == Ok(s0)
    ensures i < |columns| ==> columns[..i + 1][..i] == columns[..i] && columns[..i + 1][i] == columns[i]
  {
  }

  /** The first error stays the error. */
  lemma {:induction false} FillStays(columns: seq<string>, values: seq<string>, s0: Server, i: nat)
    requires i <= |columns| && Fill(columns[..i], values, s0).Err?
    ensures Fill(columns, values, s0) == Fill(columns[..i], values, s0)
    decreases |columns| - i
  {
    if i == |columns| {
      assert columns[..i] == columns;
    } else {
      assert columns[..i + 1][..i] == columns[..i];
      FillStays(columns, values, s0, i + 1);
    }
  }

  lemma PrependNothing(r: Result<seq<Server>>)
    ensures Prepend([], r) == r
  {
    if r.Ok? {
      assert [] + r.value == r.value;
    }
  }

  lemma PrependTwice(res: seq<Server>, s: Server, r: Result<seq<Server>>)
    ensures Prepend(res, Prepend([s], r)) == Prepend(res + [s], r)
  {
    if r.Ok? {
      assert res + ([s] + r.value) == (res + [s]) + r.value;
    }
  }
}

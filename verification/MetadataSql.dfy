/** The generated metadata queries: as many parameters as arguments, and each argument in its own clause. */
module MetadataSql {
  import opened Prelude
  import opened SqlScanner
  import opened SqlText
  import opened MetadataText
  import opened ObjectTree
  import opened ObjectQuery
  import opened Conditions

  // ---------- Where parameters stand ----------

  /** The byte offsets of the parameters in the rendered tokens. */
  function Offsets(ts: seq<Token>): seq<nat> {
    if ts == [] then [] else
    var front := ts[..|ts| - 1];
    Offsets(front) + if ts[|ts| - 1].Param? then [|Render(front)|] else []
  }

  predicate EndsWith(s: string, clause: string) {
    |clause| <= |s| && s[|s| - |clause|..] == clause
  }

  /** A parameter: the text that must stand right before it, and the value it is bound to. */
  datatype Binding = Binding(clause: string, value: string)

  /** The query scans to one parameter per argument, and the i-th argument is the value of the i-th binding, whose
      clause ends exactly where the i-th parameter stands. */
  ghost predicate Bound(sql: string, args: seq<string>, binds: seq<Binding>) {
    var offsets := Offsets(Lex(sql));
    && ParamCount(Lex(sql)) == |args| == |binds| == |offsets|
    && forall i :: 0 <= i < |binds| ==>
         args[i] == binds[i].value && offsets[i] < |sql| && EndsWith(sql[..offsets[i]], binds[i].clause)
  }

  // ---------- Drafting a query from left to right ----------

  ghost predicate Drafted(sql: string, args: seq<string>, ts: seq<Token>, binds: seq<Binding>) {
    Splits(sql, ts) && Bound(sql, args, binds)
  }

  lemma {:induction false} RenderAppend(ts: seq<Token>, us: seq<Token>)
    ensures Render(ts + us) == Render(ts) + Render(us)
  {
    hide RenderToken;
    if ts == [] {
      assert ts + us == us;
    } else {
      assert (ts + us)[1..] == ts[1..] + us;
      var t, rest, more := RenderToken(ts[0]), Render(ts[1..]), Render(us);
      assert Render(ts + us) == t + Render(ts[1..] + us) && Render(ts) == t + rest;
      hide Render;
      RenderAppend(ts[1..], us);
      assert t + (rest + more) == t + rest + more;
    }
  }

  lemma {:induction false} CountAppend(ts: seq<Token>, us: seq<Token>)
    ensures ParamCount(ts + us) == ParamCount(ts) + ParamCount(us)
  {
    if ts == [] {
      assert ts + us == us;
    } else {
      CountAppend(ts[1..], us);
      assert (ts + us)[1..] == ts[1..] + us;
    }
  }

  lemma {:induction false} QuietOffsets(ts: seq<Token>, us: seq<Token>)
    requires forall u <- us :: !u.Param?
    ensures Offsets(ts + us) == Offsets(ts) && ParamCount(ts + us) == ParamCount(ts)
  {
    if us == [] {
      assert ts + us == ts;
    } else {
      var front := us[..|us| - 1];
      assert forall u <- front :: u in us;
      assert us[|us| - 1] in us;
      QuietOffsets(ts, front);
      assert (ts + us)[..|ts + us| - 1] == ts + front;
      assert ts + us == (ts + front) + [us[|us| - 1]];
      CountAppend(ts + front, [us[|us| - 1]]);
    }
  }

  /** Appending tokens other than parameters keeps every binding. */
  lemma BoundQuiet(sql: string, args: seq<string>, ts: seq<Token>, binds: seq<Binding>, more: string, us: seq<Token>)
    requires Drafted(sql, args, ts, binds) && Splits(sql + more, ts + us) && forall u <- us :: !u.Param?
    ensures Drafted(sql + more, args, ts + us, binds)
  {
    hide Splits, Lex;
    SplitsWhole(sql, ts);
    SplitsWhole(sql + more, ts + us);
    QuietOffsets(ts, us);
    assert forall i :: 0 <= i < |binds| ==> (sql + more)[..Offsets(ts)[i]] == sql[..Offsets(ts)[i]];
  }

  lemma DraftText(sql: string, args: seq<string>, ts: seq<Token>, binds: seq<Binding>, s: string) returns (us: seq<Token>)
    requires Drafted(sql, args, ts, binds) && Inert(s)
    ensures Drafted(sql + s, args, us, binds)
  {
    hide Splits, Bound, Inert;
    InertCalm(s);
    SplitsText(sql, ts, s);
    BoundQuiet(sql, args, ts, binds, s, Plains(s));
    us := ts + Plains(s);
  }

  /** A parameter right after its clause. */
  lemma DraftParam(sql: string, args: seq<string>, ts: seq<Token>, binds: seq<Binding>, b: Binding)
    requires Drafted(sql, args, ts, binds) && EndsWith(sql, b.clause)
    ensures Drafted(sql + "?", args + [b.value], ts + [Param], binds + [b])
  {
    hide Splits, EndsWith, Lex, Offsets, Render, ParamCount;
    SplitsParam(sql, ts);
    SplitsWhole(sql, ts);
    SplitsWhole(sql + "?", ts + [Param]);
    LexSound(sql);
    OffsetsParam(ts);
    assert (sql + "?")[..|sql|] == sql;
    assert forall i :: 0 <= i < |binds| ==> (sql + "?")[..Offsets(ts)[i]] == sql[..Offsets(ts)[i]];
  }

  lemma OffsetsParam(ts: seq<Token>)
    ensures Offsets(ts + [Param]) == Offsets(ts) + [|Render(ts)|]
    ensures ParamCount(ts + [Param]) == ParamCount(ts) + 1
  {
    CountAppend(ts, [Param]);
    assert (ts + [Param])[..|ts|] == ts;
    assert ParamCount([Param]) == 1;
  }

  lemma SplitsParam(sql: string, ts: seq<Token>)
    requires Splits(sql, ts)
    ensures Splits(sql + "?", ts + [Param])
  {
    hide Lex;
    forall t
      ensures Lex(sql + "?" + t) == ts + [Param] + Lex(t)
    {
      assert sql + "?" + t == sql + (RenderToken(Param) + t);
      LexToken(Param, t);
    }
  }

  function LiteralToken(x: string): Token {
    Quoted(Single, AsWritten(x), true)
  }

  lemma LiteralTokenProper(x: string, s: string)
    requires s != "" && InertChar(s[0]) && forall c <- x :: c != '\'' && c != '\\'
    ensures RenderToken(LiteralToken(x)) == "'" + x + "'"
    ensures forall t :: ProperToken(LiteralToken(x), s + t)
  {
    AsWrittenBody(Single, x, true);
    hide RenderBody, ProperBody;
    assert forall t :: (s + t)[0] == s[0];
    assert RenderToken(LiteralToken(x)) == "'" + (x + "'");
  }

  /** A quoted literal between two fixed texts. */
  lemma DraftQuoted(sql: string, args: seq<string>, ts: seq<Token>, binds: seq<Binding>, x: string, s: string)
    returns (us: seq<Token>)
    requires Drafted(sql, args, ts, binds) && Inert(s) && s != ""
    requires forall c <- x :: c != '\'' && c != '\\'
    ensures Drafted(sql + "'" + x + "'" + s, args, us, binds)
  {
    hide Bound, Splits, LiteralToken, RenderToken, ProperToken;
    var u, more := LiteralToken(x), "'" + x + "'" + s;
    LiteralTokenProper(x, s);
    InertCalm(s);
    hide Inert, Calm;
    SplitsToken(sql, ts, u, s);
    us := ts + ([u] + Plains(s));
    assert ts + [u] + Plains(s) == us;
    assert sql + RenderToken(u) + s == sql + more;
    assert u.Quoted? by { LiteralIsQuoted(x); }
    BoundQuiet(sql, args, ts, binds, more, [u] + Plains(s));
    assert sql + more == sql + "'" + x + "'" + s;
  }

  lemma LiteralIsQuoted(x: string)
    ensures LiteralToken(x).Quoted?
  {
  }

  /** Text ending in a clause, then its parameter. */
  lemma DraftClause(sql: string, args: seq<string>, ts: seq<Token>, binds: seq<Binding>, clause: string, value: string)
    returns (us: seq<Token>)
    requires Drafted(sql, args, ts, binds) && Inert(clause)
    ensures Drafted(sql + clause + "?", args + [value], us, binds + [Binding(clause, value)])
  {
    hide Drafted, Inert;
    var vs := DraftText(sql, args, ts, binds, clause);
    assert EndsWith(sql + clause, clause);
    DraftParam(sql + clause, args, vs, binds, Binding(clause, value));
    us := vs + [Param];
  }

  // ---------- Lists of placeholders ----------

  /** The i-th placeholder of an IN list stands after the opening text and i placeholders. */
  function ListBindings(clause: string, values: seq<string>, n: nat): seq<Binding>
    requires n <= |values|
  {
    if n == 0 then [] else ListBindings(clause, values, n - 1) + [Binding(clause + Repeat(n - 1), values[n - 1])]
  }

  lemma {:induction false} DraftRepeat(sql: string, args: seq<string>, ts: seq<Token>, binds: seq<Binding>, clause: string,
                                       values: seq<string>, n: nat) returns (us: seq<Token>)
    requires Drafted(sql, args, ts, binds) && EndsWith(sql, clause) && n <= |values|
    ensures Drafted(sql + Repeat(n), args + values[..n], us, binds + ListBindings(clause, values, n))
    ensures EndsWith(sql + Repeat(n), clause + Repeat(n))
    decreases n
  {
    hide Drafted;
    if n == 0 {
      us := ts;
      assert sql + "" == sql && args + values[..0] == args && binds + [] == binds && clause + "" == clause;
    } else {
      var vs := DraftRepeat(sql, args, ts, binds, clause, values, n - 1);
      var b := Binding(clause + Repeat(n - 1), values[n - 1]);
      var before := sql + Repeat(n - 1);
      DraftParam(before, args + values[..n - 1], vs, binds + ListBindings(clause, values, n - 1), b);
      us := DraftText(before + "?", args + values[..n - 1] + [values[n - 1]], vs + [Param],
                      binds + ListBindings(clause, values, n - 1) + [b], ",");
      assert before + "?" + "," == sql + Repeat(n);
      assert args + values[..n - 1] + [values[n - 1]] == args + values[..n];
      assert binds + ListBindings(clause, values, n - 1) + [b] == binds + ListBindings(clause, values, n);
      EndsLonger(before, clause + Repeat(n - 1), "?,");
      assert clause + Repeat(n - 1) + "?," == clause + Repeat(n);
      assert before + "?," == sql + Repeat(n);
    }
  }

  lemma EndsLonger(s: string, clause: string, more: string)
    requires EndsWith(s, clause)
    ensures EndsWith(s + more, clause + more)
  {
  }

  /** An IN list over a non-empty list of values. */
  lemma DraftList(sql: string, args: seq<string>, ts: seq<Token>, binds: seq<Binding>, clause: string, values: seq<string>)
    returns (us: seq<Token>)
    requires Drafted(sql, args, ts, binds) && Inert(clause) && values != []
    ensures Drafted(sql + (clause + Placeholders(|values|) + ")"), args + values, us, binds + ListBindings(clause, values, |values|))
  {
    hide Drafted;
    var n := |values|;
    var vs := DraftText(sql, args, ts, binds, clause);
    var ws := DraftRepeat(sql + clause, args, vs, binds, clause, values, n - 1);
    var before := sql + clause + Repeat(n - 1);
    var b := Binding(clause + Repeat(n - 1), values[n - 1]);
    var most := binds + ListBindings(clause, values, n - 1);
    DraftParam(before, args + values[..n - 1], ws, most, b);
    us := DraftText(before + "?", args + values[..n - 1] + [values[n - 1]], ws + [Param], most + [b], ")");
    assert Repeat(n - 1) + "?" == Placeholders(n);
    assert before + "?" + ")" == sql + (clause + Placeholders(n) + ")");
    assert args + values[..n - 1] + [values[n - 1]] == args + values;
    assert most + [b] == binds + ListBindings(clause, values, n);
  }

  // ---------- The three queries ----------

  const NOTHING: InertText := " AND 1=0"
  const SCHEMA_LIKE: InertText := " AND sch.DB_SCHEMA_NAME LIKE "
  const TABLE_LIKE: InertText := " AND t.TABLE_NAME LIKE "
  const KIND_IN: InertText := " AND t.TABLE_TYPE IN ("
  const COLUMN_LIKE: InertText := " AND c.COLUMN_NAME LIKE "
  const CATALOG_LIKE: InertText := " WHERE s.SCHEMA_NAME LIKE "
  const CONSTRAINT_CATALOG_LIKE: InertText := " AND tc.CONSTRAINT_SCHEMA LIKE "
  const CONSTRAINT_TABLE_LIKE: InertText := " AND tc.TABLE_NAME LIKE "
  const STATISTICS_CATALOG_LIKE: InertText := " AND TABLE_SCHEMA LIKE "
  const STATISTICS_TABLE_LIKE: InertText := " AND TABLE_NAME LIKE "

  function When(b: bool, clause: string, value: Option<string>): seq<Binding> {
    if b && value.Some? then [Binding(clause, value.value)] else []
  }

  function WhenListed(b: bool, clause: string, values: seq<string>): seq<Binding> {
    if b then ListBindings(clause, values, |values|) else []
  }

  /** The parameters GetObjects must bind: each filter in its own clause, and none for a level the depth disables. */
  function ObjectsBindings(q: Request): seq<Binding> {
    When(IncludeSchemas(q.depth), SCHEMA_LIKE, q.schema)
    + When(IncludeTables(q.depth), TABLE_LIKE, q.table)
    + WhenListed(IncludeTables(q.depth), KIND_IN, q.kinds)
    + When(IncludeColumns(q.depth), COLUMN_LIKE, q.column)
    + When(true, CATALOG_LIKE, q.catalog)
  }

  function LikeText(clause: string, value: Option<string>): string {
    if value.Some? then clause + "?" else ""
  }

  function InText(clause: string, values: seq<string>): string {
    if values == [] then "" else clause + Placeholders(|values|) + ")"
  }

  /** The join condition of a level: switched off below the requested depth, or its filters. */
  function OnText(included: bool, filters: string): string {
    if included then filters else NOTHING
  }

  /** The text of the GetObjects query. */
  function ObjectsText(q: Request): string {
    Cat(OBJECTS_SELECT) + Cat(SCHEMA_JOIN_OPEN) + "''" + Cat(SCHEMA_JOIN_CLOSE)
    + OnText(IncludeSchemas(q.depth), LikeText(SCHEMA_LIKE, q.schema)) + Cat(TABLE_JOIN)
    + OnText(IncludeTables(q.depth), LikeText(TABLE_LIKE, q.table) + InText(KIND_IN, q.kinds)) + Cat(COLUMN_JOIN)
    + OnText(IncludeColumns(q.depth), LikeText(COLUMN_LIKE, q.column)) + LikeText(CATALOG_LIKE, q.catalog) + Cat(OBJECTS_ORDER)
  }

  // ---------- The texts and arguments as conditions ----------

  function ValuesOf(binds: seq<Binding>): (args: seq<string>)
    ensures |args| == |binds| && forall i | 0 <= i < |args| :: args[i] == binds[i].value
  {
    seq(|binds|, i requires 0 <= i < |binds| => binds[i].value)
  }

  lemma BoundValues(sql: string, args: seq<string>, binds: seq<Binding>)
    requires Bound(sql, args, binds)
    ensures args == ValuesOf(binds)
  {
    hide Lex, Offsets, EndsWith;
  }

  lemma ValuesAppend(a: seq<Binding>, b: seq<Binding>)
    ensures ValuesOf(a + b) == ValuesOf(a) + ValuesOf(b)
  {
  }

  lemma {:induction false} ListValues(clause: string, values: seq<string>, n: nat)
    requires n <= |values|
    ensures ValuesOf(ListBindings(clause, values, n)) == values[..n]
  {
    if n > 0 {
      ListValues(clause, values, n - 1);
      ValuesAppend(ListBindings(clause, values, n - 1), [Binding(clause + Repeat(n - 1), values[n - 1])]);
    }
  }

  lemma LikeWritten(clause: string, column: string, value: Option<string>)
    requires clause == " AND " + column + " LIKE "
    ensures LikeText(clause, value) == WrittenAfter(Optional(column, value))
    ensures ValuesOf(When(true, clause, value)) == GivenAll(Optional(column, value))
  {
    if value.Some? {
      var c := Likes(column, value.value);
      assert [c][1..] == [] && WrittenAfter([]) == "" && GivenAll([]) == [];
      assert " AND " + Written(c) + "" == clause + "?";
      assert Given(c) + [] == Given(c);
    }
  }

  lemma ListWritten(clause: string, column: string, values: seq<string>)
    requires clause == " AND " + column + " IN ("
    ensures InText(clause, values) == WrittenAfter(OptionalList(column, values))
    ensures ValuesOf(WhenListed(true, clause, values)) == GivenAll(OptionalList(column, values))
  {
    hide WrittenAfter, GivenAll, ListBindings, Placeholders;
    ListValues(clause, values, |values|);
    assert values[..|values|] == values;
    if values == [] {
      NothingWritten();
    } else {
      AmongAlone(column, values);
      Regrouped(" AND ", column, " IN (", Placeholders(|values|), ")");
    }
  }

  lemma NothingWritten()
    ensures WrittenAfter([]) == "" && GivenAll([]) == []
  {
  }

  lemma Regrouped(a: string, b: string, c: string, d: string, e: string)
    ensures a + (b + c + d + e) == a + b + c + d + e
  {
  }

  lemma AmongAlone(column: string, values: seq<string>)
    ensures WrittenAfter([Among(column, values)]) == " AND " + (column + " IN (" + Placeholders(|values|) + ")")
    ensures GivenAll([Among(column, values)]) == values
  {
    var c := Among(column, values);
    assert [c][1..] == [] && WrittenAfter([]) == "" && GivenAll([]) == [];
    assert " AND " + Written(c) + "" == " AND " + Written(c) && Given(c) + [] == values;
  }

  lemma NeverWritten()
    ensures NOTHING == WrittenAfter(NEVER) && GivenAll(NEVER) == []
  {
    assert NEVER[1..] == [] && WrittenAfter([]) == "" && GivenAll([]) == [];
    assert Written(Compare(1, 0)) == "1=0";
  }

  /** What GetObjects asks, by the conditions of each join. */
  function ObjectsAsked(q: Request): string {
    Cat(OBJECTS_SELECT) + Cat(SCHEMA_JOIN_OPEN) + "''" + Cat(SCHEMA_JOIN_CLOSE) + WrittenAfter(SchemaConditions(q))
    + Cat(TABLE_JOIN) + WrittenAfter(TableConditions(q)) + Cat(COLUMN_JOIN) + WrittenAfter(ColumnConditions(q))
    + (if q.catalog.Some? then " WHERE " + Written(Likes("s.SCHEMA_NAME", q.catalog.value)) else "") + Cat(OBJECTS_ORDER)
  }

  function ObjectsGiven(q: Request): seq<string> {
    GivenAll(SchemaConditions(q)) + GivenAll(TableConditions(q)) + GivenAll(ColumnConditions(q)) + GivenAll(CatalogConditions(q))
  }

  lemma SchemaAsked(q: Request)
    ensures OnText(IncludeSchemas(q.depth), LikeText(SCHEMA_LIKE, q.schema)) == WrittenAfter(SchemaConditions(q))
    ensures ValuesOf(When(IncludeSchemas(q.depth), SCHEMA_LIKE, q.schema)) == GivenAll(SchemaConditions(q))
  {
    NeverWritten();
    hide WrittenAfter, GivenAll;
    assert SCHEMA_LIKE == " AND " + "sch.DB_SCHEMA_NAME" + " LIKE ";
    LikeWritten(SCHEMA_LIKE, "sch.DB_SCHEMA_NAME", q.schema);
  }

  lemma TableLikeAsked(table: Option<string>)
    ensures LikeText(TABLE_LIKE, table) == WrittenAfter(Optional("t.TABLE_NAME", table))
    ensures ValuesOf(When(true, TABLE_LIKE, table)) == GivenAll(Optional("t.TABLE_NAME", table))
  {
    hide WrittenAfter, GivenAll;
    LikeWritten(TABLE_LIKE, "t.TABLE_NAME", table);
  }

  lemma KindsAsked(kinds: seq<string>)
    ensures InText(KIND_IN, kinds) == WrittenAfter(OptionalList("t.TABLE_TYPE", kinds))
    ensures ValuesOf(WhenListed(true, KIND_IN, kinds)) == GivenAll(OptionalList("t.TABLE_TYPE", kinds))
  {
    hide WrittenAfter, GivenAll;
    ListWritten(KIND_IN, "t.TABLE_TYPE", kinds);
  }

  lemma TableAsked(q: Request)
    ensures OnText(IncludeTables(q.depth), LikeText(TABLE_LIKE, q.table) + InText(KIND_IN, q.kinds))
         == WrittenAfter(TableConditions(q))
    ensures ValuesOf(When(IncludeTables(q.depth), TABLE_LIKE, q.table))
            + ValuesOf(WhenListed(IncludeTables(q.depth), KIND_IN, q.kinds))
         == GivenAll(TableConditions(q))
  {
    NeverWritten();
    TableLikeAsked(q.table);
    KindsAsked(q.kinds);
    AppendTwo(Optional("t.TABLE_NAME", q.table), OptionalList("t.TABLE_TYPE", q.kinds));
    hide WrittenAfter, GivenAll, LikeText, InText, Optional, OptionalList;
  }

  lemma ColumnAsked(q: Request)
    ensures OnText(IncludeColumns(q.depth), LikeText(COLUMN_LIKE, q.column)) == WrittenAfter(ColumnConditions(q))
    ensures ValuesOf(When(IncludeColumns(q.depth), COLUMN_LIKE, q.column)) == GivenAll(ColumnConditions(q))
  {
    NeverWritten();
    hide WrittenAfter, GivenAll;
    assert COLUMN_LIKE == " AND " + "c.COLUMN_NAME" + " LIKE ";
    LikeWritten(COLUMN_LIKE, "c.COLUMN_NAME", q.column);
  }

  lemma CatalogAsked(q: Request)
    ensures LikeText(CATALOG_LIKE, q.catalog)
         == if q.catalog.Some? then " WHERE " + Written(Likes("s.SCHEMA_NAME", q.catalog.value)) else ""
    ensures ValuesOf(When(true, CATALOG_LIKE, q.catalog)) == GivenAll(CatalogConditions(q))
  {
    if q.catalog.Some? {
      CatalogWritten(q.catalog.value);
    }
  }

  lemma CatalogWritten(pattern: string)
    ensures CATALOG_LIKE + "?" == " WHERE " + Written(Likes("s.SCHEMA_NAME", pattern))
    ensures GivenAll([Likes("s.SCHEMA_NAME", pattern)]) == [pattern]
  {
    var c := Likes("s.SCHEMA_NAME", pattern);
    assert " WHERE " + "s.SCHEMA_NAME" + " LIKE " == CATALOG_LIKE;
    assert " LIKE " + "?" == " LIKE ?";
    assert [c][1..] == [] && GivenAll([]) == [] && Given(c) + [] == Given(c);
  }

  /** The text and the arguments are those of the conditions. */
  lemma ObjectsMeant(q: Request)
    ensures ObjectsText(q) == ObjectsAsked(q) && ValuesOf(ObjectsBindings(q)) == ObjectsGiven(q)
  {
    SchemaAsked(q);
    TableAsked(q);
    ColumnAsked(q);
    CatalogAsked(q);
    hide WrittenAfter, GivenAll, Cat, OnText, When, WhenListed, LikeText, InText, Written, SchemaConditions, TableConditions,
      ColumnConditions, CatalogConditions;
    var a, b, c := When(IncludeSchemas(q.depth), SCHEMA_LIKE, q.schema), When(IncludeTables(q.depth), TABLE_LIKE, q.table),
                   WhenListed(IncludeTables(q.depth), KIND_IN, q.kinds);
    var d, e := When(IncludeColumns(q.depth), COLUMN_LIKE, q.column), When(true, CATALOG_LIKE, q.catalog);
    ValuesAppend(a, b);
    ValuesAppend(a + b, c);
    ValuesAppend(a + b + c, d);
    ValuesAppend(a + b + c + d, e);
    assert ValuesOf(a) + ValuesOf(b) + ValuesOf(c) == ValuesOf(a) + (ValuesOf(b) + ValuesOf(c));
  }

  lemma DraftOptional(sql: string, args: seq<string>, ts: seq<Token>, binds: seq<Binding>, clause: InertText, value: Option<string>)
    returns (us: seq<Token>)
    requires Drafted(sql, args, ts, binds)
    ensures Drafted(sql + LikeText(clause, value), args + (if value.Some? then [value.value] else []),
                    us, binds + When(true, clause, value))
  {
    hide Drafted, Inert;
    us := ts;
    if value.Some? {
      us := DraftClause(sql, args, ts, binds, clause, value.value);
      assert sql + clause + "?" == sql + (clause + "?");
    } else {
      assert sql + "" == sql && args + [] == args && binds + [] == binds;
    }
  }

  /** An optional LIKE clause with its argument. */
  method AppendLike(sql0: string, args0: seq<string>, ghost ts0: seq<Token>, ghost binds0: seq<Binding>,
                    clause: InertText, value: Option<string>)
    returns (sql: string, args: seq<string>, ghost ts: seq<Token>, ghost binds: seq<Binding>)
    requires Drafted(sql0, args0, ts0, binds0)
    ensures Drafted(sql, args, ts, binds) && binds == binds0 + When(true, clause, value)
    ensures sql == sql0 + LikeText(clause, value)
  {
    hide Drafted, Inert;
    sql, args, binds := sql0, args0, binds0 + When(true, clause, value);
    ts := DraftOptional(sql0, args0, ts0, binds0, clause, value);
    assert sql0 + "" == sql0 && args0 + [] == args0;
    if value.Some? {
      sql := sql + clause + "?";
      args := args + [value.value];
      assert sql == sql0 + (clause + "?");
    }
  }

  /** An optional IN clause with its arguments. */
  method AppendIn(sql0: string, args0: seq<string>, ghost ts0: seq<Token>, ghost binds0: seq<Binding>,
                  clause: InertText, values: seq<string>)
    returns (sql: string, args: seq<string>, ghost ts: seq<Token>, ghost binds: seq<Binding>)
    requires Drafted(sql0, args0, ts0, binds0)
    ensures Drafted(sql, args, ts, binds) && binds == binds0 + WhenListed(true, clause, values)
    ensures sql == sql0 + InText(clause, values)
  {
    hide Drafted, Inert;
    sql, args, ts, binds := sql0, args0, ts0, binds0 + WhenListed(true, clause, values);
    assert binds0 + [] == binds0 && sql0 + "" == sql0;
    if |values| > 0 {
      sql := sql + (clause + Placeholders(|values|) + ")");
      for i := 0 to |values|
        invariant args == args0 + values[..i]
      {
        args := args + [values[i]];
      }
      assert values[..|values|] == values;
      ts := DraftList(sql0, args0, ts0, binds0, clause, values);
    }
  }

  method AppendText(sql0: string, args: seq<string>, ghost ts0: seq<Token>, ghost binds: seq<Binding>, text: InertText)
    returns (sql: string, ghost ts: seq<Token>)
    requires Drafted(sql0, args, ts0, binds)
    ensures Drafted(sql, args, ts, binds) && sql == sql0 + text
  {
    hide Drafted, Inert;
    ts := DraftText(sql0, args, ts0, binds, text);
    sql := sql0 + text;
  }

  lemma DraftNothing()
    ensures Drafted("", [], [], [])
  {
    SplitsNothing();
  }

  /** The join condition of the schema or the column level: its optional LIKE, or nothing but AND 1=0. */
  method AppendOn(sql0: string, args0: seq<string>, ghost ts0: seq<Token>, ghost binds0: seq<Binding>, included: bool,
                  clause: InertText, value: Option<string>)
    returns (sql: string, args: seq<string>, ghost ts: seq<Token>, ghost binds: seq<Binding>)
    requires Drafted(sql0, args0, ts0, binds0)
    ensures Drafted(sql, args, ts, binds) && binds == binds0 + When(included, clause, value)
    ensures sql == sql0 + OnText(included, LikeText(clause, value))
  {
    hide Drafted, Inert, LikeText;
    args, ts, binds := args0, ts0, binds0;
    assert binds0 + [] == binds0;
    if !included {
      sql, ts := AppendText(sql0, args, ts, binds, NOTHING);
    } else {
      sql, args, ts, binds := AppendLike(sql0, args, ts, binds, clause, value);
    }
  }

  /** The join condition of the table level, with its two filters. */
  method AppendTableOn(sql0: string, args0: seq<string>, ghost ts0: seq<Token>, ghost binds0: seq<Binding>, included: bool,
                       value: Option<string>, kinds: seq<string>)
    returns (sql: string, args: seq<string>, ghost ts: seq<Token>, ghost binds: seq<Binding>)
    requires Drafted(sql0, args0, ts0, binds0)
    ensures Drafted(sql, args, ts, binds)
    ensures binds == binds0 + When(included, TABLE_LIKE, value) + WhenListed(included, KIND_IN, kinds)
    ensures sql == sql0 + OnText(included, LikeText(TABLE_LIKE, value) + InText(KIND_IN, kinds))
  {
    hide Drafted, Inert, LikeText, InText, ListBindings;
    args, ts, binds := args0, ts0, binds0;
    assert binds0 + [] + [] == binds0;
    if !included {
      sql, ts := AppendText(sql0, args, ts, binds, NOTHING);
    } else {
      sql, args, ts, binds := AppendLike(sql0, args, ts, binds, TABLE_LIKE, value);
      sql, args, ts, binds := AppendIn(sql, args, ts, binds, KIND_IN, kinds);
      assert sql == sql0 + (LikeText(TABLE_LIKE, value) + InText(KIND_IN, kinds));
    }
  }

  /** The query text and argument list of GetObjects, for every request. */
  method BuildObjectsQuery(q: Request) returns (sql: string, args: seq<string>)
    ensures Bound(sql, args, ObjectsBindings(q)) && sql == ObjectsText(q)
    ensures sql == ObjectsAsked(q) && args == ObjectsGiven(q)
  {
    ObjectsMeant(q);
    ghost var ts: seq<Token>;
    ghost var binds: seq<Binding>;
    sql, ts := ObjectsHead();
    hide Splits, Bound, Inert, ListBindings, LikeText, InText, OnText, Cat, When, WhenListed;
    sql, args, ts, binds := AppendOn(sql, [], ts, [], IncludeSchemas(q.depth), SCHEMA_LIKE, q.schema);
    sql, ts := AppendText(sql, args, ts, binds, Cat(TABLE_JOIN));
    sql, args, ts, binds := AppendTableOn(sql, args, ts, binds, IncludeTables(q.depth), q.table, q.kinds);
    sql, ts := AppendText(sql, args, ts, binds, Cat(COLUMN_JOIN));
    sql, args, ts, binds := AppendOn(sql, args, ts, binds, IncludeColumns(q.depth), COLUMN_LIKE, q.column);
    sql, args, ts, binds := AppendLike(sql, args, ts, binds, CATALOG_LIKE, q.catalog);
    sql, ts := AppendText(sql, args, ts, binds, Cat(OBJECTS_ORDER));
    assert [] + When(IncludeSchemas(q.depth), SCHEMA_LIKE, q.schema) == When(IncludeSchemas(q.depth), SCHEMA_LIKE, q.schema);
    assert binds == ObjectsBindings(q);
    hide ObjectsBindings, ObjectsText, ObjectsAsked, ObjectsGiven;
    BoundValues(sql, args, binds);
  }

  /** The fixed start of the query, up to the condition of the schema join. */
  method ObjectsHead() returns (sql: string, ghost ts: seq<Token>)
    ensures Drafted(sql, [], ts, []) && sql == Cat(OBJECTS_SELECT) + Cat(SCHEMA_JOIN_OPEN) + "''" + Cat(SCHEMA_JOIN_CLOSE)
  {
    CloseNonempty();
    DraftNothing();
    hide Drafted, Inert, Cat;
    sql, ts := AppendText("", [], [], [], Cat(OBJECTS_SELECT));
    assert "" + Cat(OBJECTS_SELECT) == Cat(OBJECTS_SELECT);
    sql, ts := AppendText(sql, [], ts, [], Cat(SCHEMA_JOIN_OPEN));
    ts := DraftQuoted(sql, [], ts, [], "", Cat(SCHEMA_JOIN_CLOSE));
    assert sql + "'" + "" + "'" == sql + "''";
    sql := sql + "'" + "" + "'" + Cat(SCHEMA_JOIN_CLOSE);
  }

  function ConstraintsBindings(catalog: Option<string>, table: Option<string>, kinds: seq<string>): seq<Binding> {
    When(true, CONSTRAINT_CATALOG_LIKE, catalog) + When(true, CONSTRAINT_TABLE_LIKE, table) + WhenListed(true, KIND_IN, kinds)
  }

  function ConstraintsText(catalog: Option<string>, table: Option<string>, kinds: seq<string>): string {
    Cat(CONSTRAINTS_SELECT) + LikeText(CONSTRAINT_CATALOG_LIKE, catalog) + LikeText(CONSTRAINT_TABLE_LIKE, table)
    + InText(KIND_IN, kinds) + Cat(CONSTRAINTS_ORDER)
  }

  method BuildConstraintsQuery(catalog: Option<string>, table: Option<string>, kinds: seq<string>)
    returns (sql: string, args: seq<string>)
    ensures Bound(sql, args, ConstraintsBindings(catalog, table, kinds)) && sql == ConstraintsText(catalog, table, kinds)
    ensures sql == Cat(CONSTRAINTS_SELECT) + WrittenAfter(ConstraintConditions(catalog, table, kinds)) + Cat(CONSTRAINTS_ORDER)
    ensures args == GivenAll(ConstraintConditions(catalog, table, kinds))
  {
    ConstraintsMeant(catalog, table, kinds);
    hide Splits, Bound, Inert, ListBindings, LikeText, InText, Cat;
    DraftNothing();
    ghost var ts: seq<Token> := [];
    ghost var binds: seq<Binding> := [];
    args := [];
    sql, ts := AppendText("", args, ts, binds, Cat(CONSTRAINTS_SELECT));
    assert "" + Cat(CONSTRAINTS_SELECT) == Cat(CONSTRAINTS_SELECT);
    sql, args, ts, binds := AppendLike(sql, args, ts, binds, CONSTRAINT_CATALOG_LIKE, catalog);
    sql, args, ts, binds := AppendLike(sql, args, ts, binds, CONSTRAINT_TABLE_LIKE, table);
    sql, args, ts, binds := AppendIn(sql, args, ts, binds, KIND_IN, kinds);
    sql, ts := AppendText(sql, args, ts, binds, Cat(CONSTRAINTS_ORDER));
    assert binds == ConstraintsBindings(catalog, table, kinds);
    hide ConstraintsBindings, ConstraintsText, ConstraintConditions, WrittenAfter, GivenAll;
    BoundValues(sql, args, binds);
  }

  lemma ConstraintsMeant(catalog: Option<string>, table: Option<string>, kinds: seq<string>)
    ensures ConstraintsText(catalog, table, kinds)
         == Cat(CONSTRAINTS_SELECT) + WrittenAfter(ConstraintConditions(catalog, table, kinds)) + Cat(CONSTRAINTS_ORDER)
    ensures ValuesOf(ConstraintsBindings(catalog, table, kinds)) == GivenAll(ConstraintConditions(catalog, table, kinds))
  {
    hide WrittenAfter, GivenAll, Cat, LikeText, InText, When, WhenListed, Optional, OptionalList, ValuesOf;
    ConstraintCatalogAsked(catalog);
    ConstraintTableAsked(table);
    KindsAsked(kinds);
    var a, b := When(true, CONSTRAINT_CATALOG_LIKE, catalog), When(true, CONSTRAINT_TABLE_LIKE, table);
    var c := WhenListed(true, KIND_IN, kinds);
    ValuesAppend(a, b);
    ValuesAppend(a + b, c);
    var d, e, f := Optional("tc.CONSTRAINT_SCHEMA", catalog), Optional("tc.TABLE_NAME", table), OptionalList("t.TABLE_TYPE", kinds);
    AppendTwo(d, e);
    AppendTwo(d + e, f);
    FiveParts(Cat(CONSTRAINTS_SELECT), WrittenAfter(d), WrittenAfter(e), WrittenAfter(f), Cat(CONSTRAINTS_ORDER));
  }

  lemma FiveParts(a: string, b: string, c: string, d: string, e: string)
    ensures a + b + c + d + e == a + (b + c + d) + e
  {
  }

  lemma ConstraintCatalogAsked(catalog: Option<string>)
    ensures LikeText(CONSTRAINT_CATALOG_LIKE, catalog) == WrittenAfter(Optional("tc.CONSTRAINT_SCHEMA", catalog))
    ensures ValuesOf(When(true, CONSTRAINT_CATALOG_LIKE, catalog)) == GivenAll(Optional("tc.CONSTRAINT_SCHEMA", catalog))
  {
    hide WrittenAfter, GivenAll;
    LikeWritten(CONSTRAINT_CATALOG_LIKE, "tc.CONSTRAINT_SCHEMA", catalog);
  }

  lemma ConstraintTableAsked(table: Option<string>)
    ensures LikeText(CONSTRAINT_TABLE_LIKE, table) == WrittenAfter(Optional("tc.TABLE_NAME", table))
    ensures ValuesOf(When(true, CONSTRAINT_TABLE_LIKE, table)) == GivenAll(Optional("tc.TABLE_NAME", table))
  {
    hide WrittenAfter, GivenAll;
    LikeWritten(CONSTRAINT_TABLE_LIKE, "tc.TABLE_NAME", table);
  }

  lemma AppendTwo(a: seq<Condition>, b: seq<Condition>)
    ensures WrittenAfter(a + b) == WrittenAfter(a) + WrittenAfter(b) && GivenAll(a + b) == GivenAll(a) + GivenAll(b)
  {
    WrittenAppend(a, b);
    GivenAppend(a, b);
  }

  function StatisticsBindings(catalog: Option<string>, table: Option<string>): seq<Binding> {
    When(true, STATISTICS_CATALOG_LIKE, catalog) + When(true, STATISTICS_TABLE_LIKE, table)
  }

  /** statisticsFilter: the shared filter text and its arguments. */
  method StatisticsFilter(catalog: Option<string>, table: Option<string>) returns (where: string, args: seq<string>)
    ensures where == Where(catalog, table) && args == WhereArgs(catalog, table)
    ensures where == WrittenAfter(StatisticsConditions(catalog, table)) && args == GivenAll(StatisticsConditions(catalog, table))
  {
    StatisticsMeant(catalog, table);
    hide WrittenAfter, GivenAll, StatisticsConditions;
    where, args := "", [];
    if catalog.Some? {
      where := where + STATISTICS_CATALOG_LIKE + "?";
      args := args + [catalog.value];
    }
    if table.Some? {
      where := where + STATISTICS_TABLE_LIKE + "?";
      args := args + [table.value];
    }
  }

  lemma StatisticsMeant(catalog: Option<string>, table: Option<string>)
    ensures Where(catalog, table) == WrittenAfter(StatisticsConditions(catalog, table))
    ensures WhereArgs(catalog, table) == GivenAll(StatisticsConditions(catalog, table))
  {
    hide WrittenAfter, GivenAll, LikeText, Optional;
    StatisticsCatalogAsked(catalog);
    StatisticsTableAsked(table);
    AppendTwo(Optional("TABLE_SCHEMA", catalog), Optional("TABLE_NAME", table));
    GivenOptional("TABLE_SCHEMA", catalog);
    GivenOptional("TABLE_NAME", table);
  }

  lemma StatisticsCatalogAsked(catalog: Option<string>)
    ensures LikeText(STATISTICS_CATALOG_LIKE, catalog) == WrittenAfter(Optional("TABLE_SCHEMA", catalog))
  {
    hide WrittenAfter, GivenAll;
    LikeWritten(STATISTICS_CATALOG_LIKE, "TABLE_SCHEMA", catalog);
  }

  lemma StatisticsTableAsked(table: Option<string>)
    ensures LikeText(STATISTICS_TABLE_LIKE, table) == WrittenAfter(Optional("TABLE_NAME", table))
  {
    hide WrittenAfter, GivenAll;
    LikeWritten(STATISTICS_TABLE_LIKE, "TABLE_NAME", table);
  }

  lemma GivenOptional(column: string, value: Option<string>)
    ensures GivenAll(Optional(column, value)) == if value.Some? then [value.value] else []
  {
    if value.Some? {
      var c := Likes(column, value.value);
      assert [c][1..] == [] && GivenAll([]) == [] && Given(c) + [] == [value.value];
    }
  }

  function Where(catalog: Option<string>, table: Option<string>): string {
    LikeText(STATISTICS_CATALOG_LIKE, catalog) + LikeText(STATISTICS_TABLE_LIKE, table)
  }

  function WhereArgs(catalog: Option<string>, table: Option<string>): seq<string> {
    (if catalog.Some? then [catalog.value] else []) + (if table.Some? then [table.value] else [])
  }

  /** The filter and the closing text, after a finished query start. */
  lemma DraftWhere(sql: string, ts: seq<Token>, catalog: Option<string>, table: Option<string>, order: InertText)
    requires Drafted(sql, [], ts, [])
    ensures Bound(sql + Where(catalog, table) + order, WhereArgs(catalog, table), StatisticsBindings(catalog, table))
  {
    hide Splits, Bound, Inert, When;
    var first := if catalog.Some? then STATISTICS_CATALOG_LIKE + "?" else "";
    var us := DraftOptional(sql, [], ts, [], STATISTICS_CATALOG_LIKE, catalog);
    var args := [] + if catalog.Some? then [catalog.value] else [];
    var binds := [] + When(true, STATISTICS_CATALOG_LIKE, catalog);
    var vs := DraftOptional(sql + first, args, us, binds, STATISTICS_TABLE_LIKE, table);
    assert args + (if table.Some? then [table.value] else []) == WhereArgs(catalog, table);
    assert binds + When(true, STATISTICS_TABLE_LIKE, table) == StatisticsBindings(catalog, table);
    var second := if table.Some? then STATISTICS_TABLE_LIKE + "?" else "";
    assert sql + first + second == sql + Where(catalog, table);
    var ws := DraftText(sql + Where(catalog, table), WhereArgs(catalog, table), vs, StatisticsBindings(catalog, table), order);
  }

  /** The same after a quoted literal. */
  lemma DraftQuotedWhere(sql: string, ts: seq<Token>, x: string, catalog: Option<string>, table: Option<string>, order: InertText)
    requires Drafted(sql, [], ts, []) && order != "" && forall c <- x :: c != '\'' && c != '\\'
    ensures Bound(sql + "'" + x + "'" + Where(catalog, table) + order, WhereArgs(catalog, table), StatisticsBindings(catalog, table))
  {
    hide Splits, Bound, Inert, EndsWith;
    var start := sql + "'" + x + "'";
    if catalog.None? && table.None? {
      var us := DraftQuoted(sql, [], ts, [], x, order);
      assert start + Where(catalog, table) + order == start + order;
    } else {
      var clause := if catalog.Some? then STATISTICS_CATALOG_LIKE else STATISTICS_TABLE_LIKE;
      var value := if catalog.Some? then catalog.value else table.value;
      var rest := if catalog.Some? then table else None;
      DraftQuotedFilter(sql, ts, x, clause, value, rest, order);
      assert [value] + (if rest.Some? then [rest.value] else []) == WhereArgs(catalog, table);
      assert [Binding(clause, value)] + When(true, STATISTICS_TABLE_LIKE, rest) == StatisticsBindings(catalog, table);
      assert start + clause + "?" + LikeText(STATISTICS_TABLE_LIKE, rest) == start + Where(catalog, table);
    }
  }

  /** One filter right after the literal, and perhaps one more. */
  lemma DraftQuotedFilter(sql: string, ts: seq<Token>, x: string, clause: InertText, value: string, rest: Option<string>,
                          order: InertText)
    requires Drafted(sql, [], ts, []) && clause != "" && forall c <- x :: c != '\'' && c != '\\'
    ensures Bound(sql + "'" + x + "'" + clause + "?" + LikeText(STATISTICS_TABLE_LIKE, rest) + order,
                  [value] + (if rest.Some? then [rest.value] else []),
                  [Binding(clause, value)] + When(true, STATISTICS_TABLE_LIKE, rest))
  {
    hide Splits, Bound, Inert, EndsWith, When;
    var start, b := sql + "'" + x + "'" + clause, Binding(clause, value);
    var us := DraftQuoted(sql, [], ts, [], x, clause);
    assert EndsWith(start, clause) by { Ends(sql + "'" + x + "'", clause); }
    DraftParam(start, [], us, [], b);
    assert [] + [b.value] == [value] && [] + [b] == [b];
    var vs := DraftOptional(start + "?", [value], us + [Param], [b], STATISTICS_TABLE_LIKE, rest);
    var args, binds := [value] + (if rest.Some? then [rest.value] else []), [b] + When(true, STATISTICS_TABLE_LIKE, rest);
    var ws := DraftText(start + "?" + LikeText(STATISTICS_TABLE_LIKE, rest), args, vs, binds, order);
  }

  lemma Ends(s: string, clause: string)
    ensures EndsWith(s + clause, clause)
  {
  }

  /** One filter serves both statistics queries, each with the same arguments. */
  method BuildStatisticsQueries(catalog: Option<string>, table: Option<string>)
    returns (query: string, indexQuery: string, args: seq<string>)
    ensures Bound(query, args, StatisticsBindings(catalog, table))
    ensures Bound(indexQuery, args, StatisticsBindings(catalog, table))
    ensures query == Cat(STATISTICS_SELECT) + "'BASE TABLE'" + Where(catalog, table) + Cat(STATISTICS_ORDER)
    ensures indexQuery == Cat(INDEX_SELECT) + Where(catalog, table) + Cat(INDEX_ORDER)
    ensures query == Cat(STATISTICS_SELECT) + "'BASE TABLE'" + WrittenAfter(StatisticsConditions(catalog, table))
                     + Cat(STATISTICS_ORDER)
    ensures indexQuery == Cat(INDEX_SELECT) + WrittenAfter(StatisticsConditions(catalog, table)) + Cat(INDEX_ORDER)
    ensures args == GivenAll(StatisticsConditions(catalog, table))
  {
    hide Splits, Bound, Inert, Where, WhereArgs, Cat, WrittenAfter, GivenAll, StatisticsConditions;
    var where;
    where, args := StatisticsFilter(catalog, table);
    query := Cat(STATISTICS_SELECT) + "'" + "BASE TABLE" + "'" + where + Cat(STATISTICS_ORDER);
    indexQuery := Cat(INDEX_SELECT) + where + Cat(INDEX_ORDER);
    DraftNothing();
    var ts := DraftText("", [], [], [], Cat(STATISTICS_SELECT));
    assert "" + Cat(STATISTICS_SELECT) == Cat(STATISTICS_SELECT);
    OrderNonempty();
    assert Cat(STATISTICS_SELECT) + "'" + "BASE TABLE" + "'" == Cat(STATISTICS_SELECT) + "'BASE TABLE'";
    DraftQuotedWhere(Cat(STATISTICS_SELECT), ts, "BASE TABLE", catalog, table, Cat(STATISTICS_ORDER));
    var us := DraftText("", [], [], [], Cat(INDEX_SELECT));
    assert "" + Cat(INDEX_SELECT) == Cat(INDEX_SELECT);
    DraftWhere(Cat(INDEX_SELECT), us, catalog, table, Cat(INDEX_ORDER));
  }

  lemma CloseNonempty()
    ensures Cat(SCHEMA_JOIN_CLOSE) != ""
  {
  }

  lemma OrderNonempty()
    ensures Cat(STATISTICS_ORDER) != ""
  {
  }
}

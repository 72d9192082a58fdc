/** The GetObjects query as relational algebra, and the theorem that folding its ordered result gives exactly the
    nested catalog, schema, table and column specification. LIKE is an arbitrary relation. The collation is an arbitrary
    strict weak order on names: ORDER BY follows it, and names it ties are equal to = and IN. */
module ObjectQuery {
  import opened Prelude
  import opened Grouping
  import opened ObjectTree

  // ---------- The server's metadata and the request ----------

  datatype TableDef = TableDef(catalog: string, name: string, kind: string)
  datatype ColumnDef = ColumnDef(catalog: string, table: string, column: Column)
  predicate SameColumnKey(c: ColumnDef, d: ColumnDef) {
    c.catalog == d.catalog && c.table == d.table && c.column.ordinal == d.column.ordinal
  }

  datatype Server = Server(schemata: set<string>, tables: set<TableDef>, columns: set<ColumnDef>) {
    /** The keys of the three metadata tables. */
    ghost predicate Valid() {
      && (forall t, u :: t in tables && u in tables && t.catalog == u.catalog && t.name == u.name ==> t == u)
      && (forall c, d :: c in columns && d in columns && SameColumnKey(c, d) ==> c == d)
    }
  }

  datatype Request = Request(depth: int, catalog: Option<string>, schema: Option<string>, table: Option<string>,
                             column: Option<string>, kinds: seq<string>)

  type Like = (string, string) -> bool

  predicate Matches(like: Like, name: string, pattern: Option<string>) {
    pattern.None? || like(name, pattern.value)
  }

  // ---------- The collation ----------

  type Before = (string, string) -> bool

  /** A collation: a strict order in which distinct names may tie, as "a" and "A" do when case is ignored. */
  ghost predicate StrictWeak(before: Before) {
    && (forall a :: !before(a, a))
    && (forall a, b, c :: before(a, b) && before(b, c) ==> before(a, c))
    && (forall a, b, c :: before(a, b) ==> before(a, c) || before(c, b))
  }

  /** What = answers on two names. */
  predicate Tied(before: Before, a: string, b: string) {
    !before(a, b) && !before(b, a)
  }

  /** A collation that ties no two names. */
  ghost predicate StrictTotal(before: Before) {
    && (forall a :: !before(a, a))
    && (forall a, b, c :: before(a, b) && before(b, c) ==> before(a, c))
    && (forall a, b :: a == b || before(a, b) || before(b, a))
  }

  // ---------- The query ----------

  ghost function LeftJoin<A, B>(left: set<A>, right: set<B>, on: (A, B) -> bool): set<(A, Option<B>)> {
    (set a, b | a in left && b in right && on(a, b) :: (a, Some(b))) +
    (set a | a in left && (forall b :: b in right ==> !on(a, b)) :: (a, None))
  }

  type SchemaJoin = (string, Option<string>)
  type TableJoin = (SchemaJoin, Option<TableDef>)
  type ColumnJoin = (TableJoin, Option<ColumnDef>)

  predicate OnSchema(q: Request, like: Like, s: string, name: string) {
    IncludeSchemas(q.depth) && Matches(like, name, q.schema)
  }

  /** IN, or no filter. */
  predicate KindListed(before: Before, q: Request, kind: string) {
    q.kinds == [] || exists k <- q.kinds :: Tied(before, kind, k)
  }

  predicate OnTable(q: Request, like: Like, before: Before, left: SchemaJoin, t: TableDef) {
    Tied(before, left.0, t.catalog) && left.1.Some? && IncludeTables(q.depth)
    && Matches(like, t.name, q.table) && KindListed(before, q, t.kind)
  }

  predicate OnColumn(q: Request, like: Like, before: Before, left: TableJoin, c: ColumnDef) {
    left.1.Some? && Tied(before, left.1.value.catalog, c.catalog) && Tied(before, left.1.value.name, c.table)
    && IncludeColumns(q.depth) && Matches(like, c.column.name, q.column)
  }

  function RowOf(j: ColumnJoin): Row {
    var (left, c) := j;
    Row(left.0.0, left.0.1,
        if left.1.Some? then Some(left.1.value.name) else None,
        if left.1.Some? then Some(left.1.value.kind) else None,
        if c.Some? then Some(c.value.column.name) else None,
        if c.Some? then Some(c.value.column.ordinal) else None,
        if c.Some? then Some(c.value.column.dataType) else None)
  }

  ghost function Joined(server: Server, q: Request, like: Like, before: Before): set<ColumnJoin> {
    var withSchema := LeftJoin(server.schemata, {""}, (s, name) => OnSchema(q, like, s, name));
    var withTable := LeftJoin(withSchema, server.tables, (left, t) => OnTable(q, like, before, left, t));
    var withColumn := LeftJoin(withTable, server.columns, (left, c) => OnColumn(q, like, before, left, c));
    set j | j in withColumn && Matches(like, j.0.0.0, q.catalog)
  }

  /** Two different names in an order the collation allows. */
  predicate NameLt(before: Before, a: string, b: string) {
    a != b && !before(b, a)
  }

  predicate OrdinalLe(a: Row, b: Row) {
    a.ordinal.None? || (b.ordinal.Some? && a.ordinal.value <= b.ordinal.value)
  }

  predicate TableLe(before: Before, a: Row, b: Row) {
    a.table.None? ||
    (b.table.Some? &&
     (before(a.table.value, b.table.value) || (Tied(before, a.table.value, b.table.value) && OrdinalLe(a, b))))
  }

  /** ORDER BY s.SCHEMA_NAME, t.TABLE_NAME, c.ORDINAL_POSITION, NULL first. */
  predicate RowLe(before: Before, a: Row, b: Row) {
    before(a.catalog, b.catalog) || (Tied(before, a.catalog, b.catalog) && TableLe(before, a, b))
  }

  ghost function RowOrder(before: Before): (Row, Row) -> bool {
    (a, b) => RowLe(before, a, b)
  }

  /** Everything that was joined, once each. */
  ghost predicate Lists(js: seq<ColumnJoin>, server: Server, q: Request, like: Like, before: Before) {
    NoRepeat(js) && forall j :: j in js <==> j in Joined(server, q, like, before)
  }

  /** What the server may answer: one row for everything that was joined, in the order asked for. Tied names can make
      rows repeat. */
  ghost predicate Answers(rows: seq<Row>, server: Server, q: Request, like: Like, before: Before) {
    Ordered(rows, RowOrder(before)) && exists js :: Lists(js, server, q, like, before) && rows == Map(js, RowOf)
  }

  // ---------- The nested specification ----------

  predicate CatalogWanted(server: Server, q: Request, like: Like, name: string) {
    name in server.schemata && Matches(like, name, q.catalog)
  }

  /** The empty-named schema is present at schema depth and below, when the schema filter admits it. */
  predicate SchemaWanted(q: Request, like: Like) {
    IncludeSchemas(q.depth) && Matches(like, "", q.schema)
  }

  predicate TableWanted(server: Server, q: Request, like: Like, t: TableDef) {
    t in server.tables && SchemaWanted(q, like) && IncludeTables(q.depth)
    && Matches(like, t.name, q.table) && (q.kinds == [] || t.kind in q.kinds)
  }

  predicate ColumnWanted(server: Server, q: Request, like: Like, c: ColumnDef) {
    c in server.columns && IncludeColumns(q.depth) && Matches(like, c.column.name, q.column)
  }

  ghost predicate NestedColumns(columns: Option<seq<Column>>, server: Server, q: Request, like: Like, t: TableDef) {
    (columns.Some? <==> IncludeColumns(q.depth)) &&
    (columns.Some? ==>
       && Ordered(columns.value, (a: Column, b: Column) => a.ordinal < b.ordinal)
       && forall c :: c in columns.value <==> ColumnWanted(server, q, like, ColumnDef(t.catalog, t.name, c)))
  }

  ghost predicate NestedTable(t: Table, server: Server, q: Request, like: Like, catalog: string) {
    var def := TableDef(catalog, t.name, t.kind);
    TableWanted(server, q, like, def) && t.constraints == [] && NestedColumns(t.columns, server, q, like, def)
  }

  ghost predicate Named(ts: seq<Table>, name: string) {
    exists i :: 0 <= i < |ts| && ts[i].name == name
  }

  ghost predicate NestedTables(tables: Option<seq<Table>>, server: Server, q: Request, like: Like, before: Before, catalog: string) {
    (tables.Some? <==> IncludeTables(q.depth)) &&
    (tables.Some? ==>
       && Ordered(tables.value, (a: Table, b: Table) => NameLt(before, a.name, b.name))
       && (forall i :: 0 <= i < |tables.value| ==> NestedTable(tables.value[i], server, q, like, catalog))
       && (forall def :: TableWanted(server, q, like, def) && def.catalog == catalog ==> Named(tables.value, def.name)))
  }

  /** The ADBC shape: every matching catalog once and in order; its schema list absent, empty, or the one schema;
      the table list absent or every matching table of that catalog once; the column list absent or every matching
      column in ordinal order. */
  ghost predicate Nested(cs: seq<Catalog>, server: Server, q: Request, like: Like, before: Before) {
    && Ordered(cs, (a: Catalog, b: Catalog) => NameLt(before, a.name, b.name))
    && (forall i :: 0 <= i < |cs| ==>
          && CatalogWanted(server, q, like, cs[i].name)
          && (if SchemaWanted(q, like) then
                && cs[i].schemas.Some? && |cs[i].schemas.value| == 1 && cs[i].schemas.value[0].name == ""
                && NestedTables(cs[i].schemas.value[0].tables, server, q, like, before, cs[i].name)
              else cs[i].schemas == if IncludeSchemas(q.depth) then Some([]) else None))
    && (forall name :: CatalogWanted(server, q, like, name) ==> exists i :: 0 <= i < |cs| && cs[i].name == name)
  }

  // ---------- Membership in the join ----------

  function SchemaCell(q: Request, like: Like): Option<string> {
    if SchemaWanted(q, like) then Some("") else None
  }

  /** The rows of the join, described directly. */
  ghost predicate IsRow(server: Server, q: Request, like: Like, r: Row) {
    && CatalogWanted(server, q, like, r.catalog)
    && r.schema == SchemaCell(q, like)
    && (if r.table.None? then
          && (forall t :: TableWanted(server, q, like, t) ==> t.catalog != r.catalog)
          && r.kind.None? && r.column.None? && r.ordinal.None? && r.dataType.None?
        else
          && r.kind.Some?
          && TableWanted(server, q, like, TableDef(r.catalog, r.table.value, r.kind.value))
          && (if r.column.None? then
                && (forall c :: ColumnWanted(server, q, like, c) ==> c.catalog != r.catalog || c.table != r.table.value)
                && r.ordinal.None? && r.dataType.None?
              else
                && r.ordinal.Some? && r.dataType.Some?
                && ColumnWanted(server, q, like, ColumnDef(r.catalog, r.table.value, ColumnOf(r)))))
  }

  lemma JoinMember<A, B>(left: set<A>, right: set<B>, on: (A, B) -> bool, a: A, b: Option<B>)
    ensures (a, b) in LeftJoin(left, right, on) <==>
      a in left && if b.Some? then b.value in right && on(a, b.value) else forall x :: x in right ==> !on(a, x)
  {
  }

  predicate TableMet(server: Server, q: Request, like: Like, before: Before, catalog: string, t: TableDef) {
    t in server.tables && SchemaWanted(q, like) && IncludeTables(q.depth) && Tied(before, catalog, t.catalog)
    && Matches(like, t.name, q.table) && KindListed(before, q, t.kind)
  }

  predicate ColumnMet(server: Server, q: Request, like: Like, before: Before, t: TableDef, c: ColumnDef) {
    ColumnWanted(server, q, like, c) && Tied(before, t.catalog, c.catalog) && Tied(before, t.name, c.table)
  }

  /** What the three joins put together, described directly. */
  ghost predicate Met(server: Server, q: Request, like: Like, before: Before, j: ColumnJoin) {
    var s, d, t, c := j.0.0.0, j.0.0.1, j.0.1, j.1;
    && CatalogWanted(server, q, like, s) && d == SchemaCell(q, like)
    && (if t.Some? then TableMet(server, q, like, before, s, t.value) else forall x :: !TableMet(server, q, like, before, s, x))
    && (if c.Some? then t.Some? && ColumnMet(server, q, like, before, t.value, c.value)
        else t.Some? ==> forall x :: !ColumnMet(server, q, like, before, t.value, x))
  }

  lemma ResultMember(server: Server, q: Request, like: Like, before: Before, j: ColumnJoin)
    ensures j in Joined(server, q, like, before) <==> Met(server, q, like, before, j)
  {
    var onSchema := (s, name) => OnSchema(q, like, s, name);
    var onTable := (left, t) => OnTable(q, like, before, left, t);
    var onColumn := (left, c) => OnColumn(q, like, before, left, c);
    var withSchema := LeftJoin(server.schemata, {""}, onSchema);
    var withTable := LeftJoin(withSchema, server.tables, onTable);
    var withColumn := LeftJoin(withTable, server.columns, onColumn);
    var s, d, t, c := j.0.0.0, j.0.0.1, j.0.1, j.1;
    JoinMember(server.schemata, {""}, onSchema, s, d);
    JoinMember(withSchema, server.tables, onTable, (s, d), t);
    JoinMember(withTable, server.columns, onColumn, ((s, d), t), c);
    hide LeftJoin, Matches, Tied, KindListed;
    assert j in withColumn && Matches(like, s, q.catalog) <==> j in Joined(server, q, like, before);
    assert s in server.schemata ==> ((s, d) in withSchema <==> d == SchemaCell(q, like));
    assert forall x :: x in server.tables && OnTable(q, like, before, (s, SchemaCell(q, like)), x)
                       <==> TableMet(server, q, like, before, s, x);
    if t.Some? {
      assert forall x :: x in server.columns && OnColumn(q, like, before, ((s, d), t), x)
                         <==> ColumnMet(server, q, like, before, t.value, x);
    }
  }

  // ---------- When joined names are the same names ----------

  /** The catalog has the table itself, and a column is one of exactly that table. */
  predicate SameNames(server: Server, q: Request, like: Like, j: ColumnJoin) {
    var s, t, c := j.0.0.0, j.0.1, j.1;
    && (t.Some? ==> TableWanted(server, q, like, TableDef(s, t.value.name, t.value.kind)))
    && (t.Some? && c.Some? ==> s == t.value.catalog == c.value.catalog && t.value.name == c.value.table)
  }

  /** No tie in a join brings a table or a column where it does not belong. */
  ghost predicate TiesAgree(server: Server, q: Request, like: Like, before: Before) {
    forall j :: Met(server, q, like, before, j) ==> SameNames(server, q, like, j)
  }

  lemma SomeTableMet(server: Server, q: Request, like: Like, before: Before, s: string, t: TableDef) returns (j: ColumnJoin)
    requires CatalogWanted(server, q, like, s) && TableMet(server, q, like, before, s, t)
    ensures Met(server, q, like, before, j) && j.0 == ((s, SchemaCell(q, like)), Some(t))
  {
    if c :| ColumnMet(server, q, like, before, t, c) {
      j := (((s, SchemaCell(q, like)), Some(t)), Some(c));
    } else {
      j := (((s, SchemaCell(q, like)), Some(t)), None);
    }
  }

  lemma WantedIsMet(server: Server, q: Request, like: Like, before: Before, t: TableDef)
    requires StrictWeak(before) && TableWanted(server, q, like, t)
    ensures TableMet(server, q, like, before, t.catalog, t)
  {
    assert q.kinds == [] || Tied(before, t.kind, t.kind);
  }

  lemma MetIsRow(server: Server, q: Request, like: Like, before: Before, j: ColumnJoin)
    requires StrictWeak(before) && Met(server, q, like, before, j) && SameNames(server, q, like, j)
    ensures IsRow(server, q, like, RowOf(j))
  {
    var r := RowOf(j);
    var s, d, t, c := j.0.0.0, j.0.0.1, j.0.1, j.1;
    if t.None? {
      forall x | TableWanted(server, q, like, x)
        ensures x.catalog != s
      {
        WantedIsMet(server, q, like, before, x);
      }
    } else if c.None? {
      forall x | ColumnWanted(server, q, like, x)
        ensures x.catalog != s || x.table != t.value.name
      {
        assert !ColumnMet(server, q, like, before, t.value, x);
      }
    } else {
      assert c.value == ColumnDef(r.catalog, r.table.value, ColumnOf(r));
    }
  }

  lemma RowIsMet(server: Server, q: Request, like: Like, before: Before, r: Row) returns (j: ColumnJoin)
    requires StrictWeak(before) && TiesAgree(server, q, like, before) && IsRow(server, q, like, r)
    ensures Met(server, q, like, before, j) && RowOf(j) == r
  {
    var left := (r.catalog, r.schema);
    hide StrictWeak, Tied;
    if r.table.None? {
      forall x
        ensures !TableMet(server, q, like, before, r.catalog, x)
      {
        if TableMet(server, q, like, before, r.catalog, x) {
          var other := SomeTableMet(server, q, like, before, r.catalog, x);
        }
      }
      j := ((left, None), None);
    } else {
      var t := TableDef(r.catalog, r.table.value, r.kind.value);
      WantedIsMet(server, q, like, before, t);
      if r.column.None? {
        forall x
          ensures !ColumnMet(server, q, like, before, t, x)
        {
          var other := ((left, Some(t)), Some(x));
          assert Met(server, q, like, before, other) ==> SameNames(server, q, like, other);
        }
        j := ((left, Some(t)), None);
      } else {
        var c := ColumnDef(r.catalog, r.table.value, ColumnOf(r));
        Reflexive(before, c.catalog);
        Reflexive(before, c.table);
        j := ((left, Some(t)), Some(c));
      }
    }
    assert RowOf(j) == r;
  }

  lemma Reflexive(before: Before, a: string)
    requires StrictWeak(before)
    ensures Tied(before, a, a)
  {
  }

  /** Two different things joined give this row. */
  ghost predicate Twice(server: Server, q: Request, like: Like, before: Before, r: Row) {
    exists x, y :: Met(server, q, like, before, x) && Met(server, q, like, before, y) && x != y
                   && RowOf(x) == r && RowOf(y) == r
  }

  /** Only rows without a column repeat. */
  lemma TwiceBare(server: Server, q: Request, like: Like, before: Before, r: Row)
    requires TiesAgree(server, q, like, before) && Twice(server, q, like, before, r)
    ensures r.column.None?
  {
    var x, y :| Met(server, q, like, before, x) && Met(server, q, like, before, y) && x != y && RowOf(x) == r && RowOf(y) == r;
    assert SameNames(server, q, like, x) && SameNames(server, q, like, y);
    hide Tied, KindListed, Matches;
  }

  // ---------- Every wanted catalog, table and column has a row ----------

  lemma CatalogHasRow(server: Server, q: Request, like: Like, name: string) returns (r: Row)
    requires CatalogWanted(server, q, like, name)
    ensures IsRow(server, q, like, r) && r.catalog == name
  {
    if t :| TableWanted(server, q, like, t) && t.catalog == name {
      r := TableHasRow(server, q, like, t);
    } else {
      r := Row(name, SchemaCell(q, like), None, None, None, None, None);
    }
  }

  lemma TableHasRow(server: Server, q: Request, like: Like, t: TableDef) returns (r: Row)
    requires TableWanted(server, q, like, t) && CatalogWanted(server, q, like, t.catalog)
    ensures IsRow(server, q, like, r) && r.catalog == t.catalog && r.table == Some(t.name)
  {
    assert t == TableDef(t.catalog, t.name, t.kind);
    if c :| ColumnWanted(server, q, like, c) && c.catalog == t.catalog && c.table == t.name {
      r := ColumnRow(server, q, like, t, c);
    } else {
      r := Row(t.catalog, SchemaCell(q, like), Some(t.name), Some(t.kind), None, None, None);
    }
  }

  lemma ColumnRow(server: Server, q: Request, like: Like, t: TableDef, c: ColumnDef) returns (r: Row)
    requires TableWanted(server, q, like, t) && CatalogWanted(server, q, like, t.catalog)
    requires ColumnWanted(server, q, like, c) && c.catalog == t.catalog && c.table == t.name
    ensures IsRow(server, q, like, r) && r.catalog == t.catalog && r.table == Some(t.name)
    ensures r.column.Some? && ColumnOf(r) == c.column
  {
    r := Row(t.catalog, SchemaCell(q, like), Some(t.name), Some(t.kind),
             Some(c.column.name), Some(c.column.ordinal), Some(c.column.dataType));
    assert ColumnOf(r) == c.column;
    assert c == ColumnDef(t.catalog, t.name, c.column) && t == TableDef(t.catalog, t.name, t.kind);
  }

  // ---------- When the order makes the rows contiguous ----------

  /** z may come between x and y, which belong together. */
  predicate Parts(before: Before, x: Row, z: Row, y: Row) {
    RowLe(before, x, z) && RowLe(before, z, y) && (PartsCatalog(x, z, y) || PartsTable(x, z, y))
  }

  predicate PartsCatalog(x: Row, z: Row, y: Row) {
    x.catalog == y.catalog && z.catalog != x.catalog
  }

  predicate PartsTable(x: Row, z: Row, y: Row) {
    x.catalog == y.catalog == z.catalog && x.table == y.table && x.table.Some? && z.table.Some? && z.table != x.table
  }

  /** Two tied names let their rows interleave: some row of one catalog may come between two of another, or some row of
      one table between two of another table of its catalog. */
  ghost predicate TiesInterleave(server: Server, q: Request, like: Like, before: Before) {
    exists x, z, y :: Met(server, q, like, before, x) && Met(server, q, like, before, z) && Met(server, q, like, before, y)
                      && x != y && Parts(before, RowOf(x), RowOf(z), RowOf(y))
  }

  /** The ties among the server's names do no harm: what a join brings together belongs together, and the order keeps it
      together. */
  ghost predicate TiesHarmless(server: Server, q: Request, like: Like, before: Before) {
    TiesAgree(server, q, like, before) && !TiesInterleave(server, q, like, before)
  }

  /** Two rows of a harmless answer, or one that repeats, are never parted. */
  lemma RowsParted(server: Server, q: Request, like: Like, before: Before, x: Row, z: Row, y: Row)
    requires StrictWeak(before) && TiesHarmless(server, q, like, before)
    requires IsRow(server, q, like, x) && IsRow(server, q, like, z) && IsRow(server, q, like, y)
    requires x == y ==> Twice(server, q, like, before, x)
    ensures !Parts(before, x, z, y)
  {
    hide IsRow, Met, RowLe, StrictWeak, TiesAgree, RowOf;
    var a := RowIsMet(server, q, like, before, x);
    var b := RowIsMet(server, q, like, before, z);
    var c := RowIsMet(server, q, like, before, y);
    if x == y {
      a, c :| Met(server, q, like, before, a) && Met(server, q, like, before, c) && a != c && RowOf(a) == x && RowOf(c) == x;
    }
  }

  /** Only tied names interleave, so a collation without ties never does. */
  lemma PartsTied(before: Before, x: Row, z: Row, y: Row)
    requires StrictWeak(before) && Parts(before, x, z, y)
    ensures if x.catalog != z.catalog then Tied(before, x.catalog, z.catalog)
            else x.table.Some? && z.table.Some? && x.table != z.table && Tied(before, x.table.value, z.table.value)
  {
  }

  /** Where a name stands; names meet only names of their own sort. */
  datatype Sort = CatalogSort | TableSort | KindSort

  ghost predicate Mentions(server: Server, q: Request, sort: Sort, name: string) {
    match sort
    case CatalogSort =>
      name in server.schemata || (exists t <- server.tables :: t.catalog == name) || (exists c <- server.columns :: c.catalog == name)
    case TableSort =>
      (exists t <- server.tables :: t.name == name) || (exists c <- server.columns :: c.table == name)
    case KindSort =>
      name in q.kinds || (exists t <- server.tables :: t.kind == name)
  }

  /** No two distinct catalogs, tables or kinds of the server and the request tie. */
  ghost predicate NamesApart(server: Server, q: Request, before: Before) {
    forall sort, a, b :: Mentions(server, q, sort, a) && Mentions(server, q, sort, b) && Tied(before, a, b) ==> a == b
  }

  lemma ApartTablesAgree(server: Server, q: Request, like: Like, before: Before, s: string, t: TableDef)
    requires NamesApart(server, q, before) && CatalogWanted(server, q, like, s) && TableMet(server, q, like, before, s, t)
    ensures s == t.catalog && TableWanted(server, q, like, t)
  {
    assert Mentions(server, q, CatalogSort, s) && Mentions(server, q, CatalogSort, t.catalog) && Mentions(server, q, KindSort, t.kind);
    hide Mentions, Tied;
    if q.kinds != [] {
      var k :| k in q.kinds && Tied(before, t.kind, k);
      MentionsKind(server, q, k);
    }
  }

  lemma MentionsKind(server: Server, q: Request, k: string)
    requires k in q.kinds
    ensures Mentions(server, q, KindSort, k)
  {
  }

  lemma MentionsTable(server: Server, q: Request, t: TableDef)
    requires t in server.tables
    ensures Mentions(server, q, CatalogSort, t.catalog) && Mentions(server, q, TableSort, t.name)
  {
  }

  lemma MentionsColumn(server: Server, q: Request, c: ColumnDef)
    requires c in server.columns
    ensures Mentions(server, q, CatalogSort, c.catalog) && Mentions(server, q, TableSort, c.table)
  {
  }

  /** If no two of its names tie, nothing is confused and nothing interleaves. */
  lemma ApartHarmless(server: Server, q: Request, like: Like, before: Before)
    requires StrictWeak(before) && NamesApart(server, q, before)
    ensures TiesHarmless(server, q, like, before)
  {
    hide StrictWeak, NamesApart, Mentions, Tied, KindListed, Matches, Parts;
    forall j: ColumnJoin | Met(server, q, like, before, j)
      ensures SameNames(server, q, like, j)
    {
      var s, d, t, c := j.0.0.0, j.0.0.1, j.0.1, j.1;
      if t.Some? {
        ApartTablesAgree(server, q, like, before, s, t.value);
        if c.Some? {
          ApartNames(server, q, before, t.value, c.value);
        }
      }
    }
    hide SameNames, TableMet, ColumnMet;
    forall x, z, y | Met(server, q, like, before, x) && Met(server, q, like, before, z) && Met(server, q, like, before, y)
      ensures !Parts(before, RowOf(x), RowOf(z), RowOf(y))
    {
      if Parts(before, RowOf(x), RowOf(z), RowOf(y)) {
        ApartNotParted(server, q, like, before, x, z, y);
      }
    }
  }

  lemma ApartNames(server: Server, q: Request, before: Before, t: TableDef, c: ColumnDef)
    requires NamesApart(server, q, before) && t in server.tables && c in server.columns
    requires Tied(before, t.catalog, c.catalog) && Tied(before, t.name, c.table)
    ensures t.catalog == c.catalog && t.name == c.table
  {
    MentionsTable(server, q, t);
    MentionsColumn(server, q, c);
  }

  lemma RowMentioned(server: Server, q: Request, like: Like, before: Before, j: ColumnJoin)
    requires Met(server, q, like, before, j)
    ensures Mentions(server, q, CatalogSort, RowOf(j).catalog)
    ensures RowOf(j).table.Some? ==> Mentions(server, q, TableSort, RowOf(j).table.value)
  {
    if j.0.1.Some? {
      MentionsTable(server, q, j.0.1.value);
    }
  }

  lemma ApartNotParted(server: Server, q: Request, like: Like, before: Before, x: ColumnJoin, z: ColumnJoin, y: ColumnJoin)
    requires StrictWeak(before) && NamesApart(server, q, before)
    requires Met(server, q, like, before, x) && Met(server, q, like, before, z)
    ensures !Parts(before, RowOf(x), RowOf(z), RowOf(y))
  {
    RowMentioned(server, q, like, before, x);
    RowMentioned(server, q, like, before, z);
    hide Met, Mentions, RowOf, StrictWeak, Parts;
    if Parts(before, RowOf(x), RowOf(z), RowOf(y)) {
      PartsTied(before, RowOf(x), RowOf(z), RowOf(y));
    }
  }

  /** A collation without ties ties no names of any server. */
  lemma TotalOrder(server: Server, q: Request, like: Like, before: Before)
    requires StrictTotal(before)
    ensures StrictWeak(before) && NamesApart(server, q, before) && TiesHarmless(server, q, like, before)
    ensures forall a, b :: (Tied(before, a, b) <==> a == b) && (NameLt(before, a, b) <==> before(a, b))
  {
    hide Mentions, TiesHarmless;
    ApartHarmless(server, q, like, before);
  }

  /** The order of an answer in which only rows joined twice repeat. */
  ghost function Follows(server: Server, q: Request, like: Like, before: Before): (Row, Row) -> bool {
    (a, b) => RowLe(before, a, b) && (a == b ==> Twice(server, q, like, before, a))
  }

  ghost predicate Sorted(ks: seq<string>, before: Before) {
    forall i, j :: 0 <= i < j < |ks| ==> !before(ks[j], ks[i])
  }

  ghost function NameOrder(before: Before): (string, string) -> bool {
    (a, b) => NameLt(before, a, b)
  }

  lemma {:induction false} DedupSorted(ks: seq<string>, before: Before)
    requires Sorted(ks, before) && Contiguous(ks)
    ensures Ordered(Dedup(ks), NameOrder(before))
  {
    if ks != [] {
      var front, k := ks[..|ks| - 1], Last(ks);
      var d := Dedup(front);
      assert ks == front + [k];
      ContiguousSnoc(front, k);
      DedupSorted(front, before);
      DedupDistinct(ks);
      forall i | 0 <= i < |d| && Last(d) != k
        ensures NameLt(before, d[i], k)
      {
        assert Dedup(ks)[i] == d[i] && Dedup(ks)[|d|] == k;
        DedupMembers(front, d[i]);
        var j :| 0 <= j < |front| && front[j] == d[i];
        assert ks[j] == d[i];
      }
    }
  }

  /** Sorted and contiguous by a key, a sequence has runs whose keys differ and are in order. */
  lemma SortedRuns<T>(s: seq<T>, key: T -> string, before: Before)
    requires Sorted(Map(s, key), before) && Contiguous(Map(s, key))
    ensures Ordered(Heads(Runs(s, key), key), NameOrder(before))
  {
    hide Runs, Dedup;
    RunHeads(s, key);
    DedupSorted(Map(s, key), before);
  }

  lemma CatalogsSorted(rows: seq<Row>, before: Before)
    requires StrictWeak(before) && Ordered(rows, RowOrder(before)) && Contiguous(Map(rows, CatalogKey))
    ensures Ordered(Heads(CatalogRuns(rows), CatalogKey), NameOrder(before))
  {
    forall i, j | 0 <= i < j < |rows|
      ensures !before(rows[j].catalog, rows[i].catalog)
    {
      assert RowOrder(before)(rows[i], rows[j]);
    }
    SortedRuns(rows, CatalogKey, before);
  }

  lemma TableNotBefore(before: Before, x: Row, y: Row)
    requires StrictWeak(before) && RowLe(before, x, y) && x.catalog == y.catalog && HasTable(x) && HasTable(y)
    ensures !before(TableName(y), TableName(x))
  {
  }

  lemma TablesSorted(run: seq<Row>, catalog: string, before: Before)
    requires StrictWeak(before) && Ordered(run, RowOrder(before))
    requires forall r :: r in run ==> r.catalog == catalog
    requires Contiguous(Map(Filter(run, HasTable), TableName))
    ensures Ordered(Heads(TableRuns(run), TableName), NameOrder(before))
  {
    var rows := Filter(run, HasTable);
    FilterOrdered(run, HasTable, RowOrder(before));
    forall i, j | 0 <= i < j < |rows|
      ensures !before(TableName(rows[j]), TableName(rows[i]))
    {
      hide Filter, StrictWeak, RowLe, Contiguous;
      assert rows[i] in run && rows[j] in run && HasTable(rows[i]) && HasTable(rows[j]);
      assert RowOrder(before)(rows[i], rows[j]);
      TableNotBefore(before, rows[i], rows[j]);
    }
    hide Filter, StrictWeak, RowLe, Ordered, Contiguous;
    SortedRuns(rows, TableName, before);
  }

  lemma CatalogsTogether(rows: seq<Row>, server: Server, q: Request, like: Like, before: Before)
    requires StrictWeak(before) && TiesHarmless(server, q, like, before)
    requires Group(rows, (r: Row) => true, server, q, like, before)
    ensures Contiguous(Map(rows, CatalogKey))
  {
    hide IsRow, RowLe, TiesHarmless, Twice, StrictWeak;
    forall i, j, k | 0 <= i < j < k < |rows| && rows[i].catalog == rows[k].catalog
      ensures rows[j].catalog == rows[i].catalog
    {
      var x, z, y := rows[i], rows[j], rows[k];
      assert x in rows && z in rows && y in rows;
      var follows := Follows(server, q, like, before);
      assert follows(x, z) && follows(z, y) && follows(x, y);
      RowsParted(server, q, like, before, x, z, y);
    }
  }

  lemma TablesTogether(g: seq<Row>, catalog: string, server: Server, q: Request, like: Like, before: Before)
    requires StrictWeak(before) && TiesHarmless(server, q, like, before)
    requires Group(g, (r: Row) => r.catalog == catalog, server, q, like, before)
    ensures Contiguous(Map(Filter(g, HasTable), TableName))
  {
    var rows := Filter(g, HasTable);
    FilterOrdered(g, HasTable, Follows(server, q, like, before));
    hide IsRow, RowLe, Filter, TiesHarmless, Twice, StrictWeak;
    forall i, j, k | 0 <= i < j < k < |rows| && TableName(rows[i]) == TableName(rows[k])
      ensures TableName(rows[j]) == TableName(rows[i])
    {
      var x, z, y := rows[i], rows[j], rows[k];
      assert x in g && z in g && y in g;
      assert HasTable(x) && HasTable(z) && HasTable(y);
      var follows := Follows(server, q, like, before);
      assert follows(x, z) && follows(z, y) && follows(x, y);
      RowsParted(server, q, like, before, x, z, y);
    }
  }

  lemma GroupOrdered(g: seq<Row>, server: Server, q: Request, like: Like, before: Before)
    requires Ordered(g, Follows(server, q, like, before))
    ensures Ordered(g, RowOrder(before))
  {
    hide RowLe, Twice;
    assert forall i, j | 0 <= i < j < |g| :: Follows(server, q, like, before)(g[i], g[j]);
  }

  // ---------- The theorem, from columns up to catalogs ----------

  ghost predicate Group(g: seq<Row>, member: Row -> bool, server: Server, q: Request, like: Like, before: Before) {
    && Ordered(g, Follows(server, q, like, before))
    && (forall r :: r in g <==> IsRow(server, q, like, r) && member(r))
  }

  lemma ColumnsOrdered(g: seq<Row>, catalog: string, table: string, server: Server, q: Request, like: Like, before: Before)
    requires StrictWeak(before) && server.Valid() && TiesHarmless(server, q, like, before)
    requires Group(g, (r: Row) => r.catalog == catalog && r.table == Some(table), server, q, like, before)
    ensures Ordered(Map(Filter(g, HasColumn), ColumnOf), (a: Column, b: Column) => a.ordinal < b.ordinal)
  {
    var rows := Filter(g, HasColumn);
    var columns := Map(rows, ColumnOf);
    FilterOrdered(g, HasColumn, Follows(server, q, like, before));
    hide Filter, Twice, TiesInterleave, TiesAgree;
    forall i, j | 0 <= i < j < |columns|
      ensures columns[i].ordinal < columns[j].ordinal
    {
      assert rows[i] in g && rows[j] in g;
      assert Follows(server, q, like, before)(rows[i], rows[j]);
      if rows[i] == rows[j] {
        TwiceBare(server, q, like, before, rows[i]);
      }
      SameOrdinal(rows[i], rows[j], server, q, like);
    }
  }

  lemma ColumnMembers(g: seq<Row>, def: TableDef, server: Server, q: Request, like: Like, before: Before, c: Column)
    requires Group(g, (r: Row) => r.catalog == def.catalog && r.table == Some(def.name), server, q, like, before)
    requires TableWanted(server, q, like, def) && CatalogWanted(server, q, like, def.catalog)
    ensures c in Map(Filter(g, HasColumn), ColumnOf) <==> ColumnWanted(server, q, like, ColumnDef(def.catalog, def.name, c))
  {
    var rows := Filter(g, HasColumn);
    var columns := Map(rows, ColumnOf);
    hide TableWanted, CatalogWanted, ColumnWanted, Filter;
    if c in columns {
      var i :| 0 <= i < |columns| && columns[i] == c;
      assert rows[i] in g;
    }
    if ColumnWanted(server, q, like, ColumnDef(def.catalog, def.name, c)) {
      var r := ColumnRow(server, q, like, def, ColumnDef(def.catalog, def.name, c));
      assert r in g && HasColumn(r) && r in rows;
      var i :| 0 <= i < |rows| && rows[i] == r;
      assert columns[i] == c;
    }
  }

  lemma ColumnsNested(g: seq<Row>, catalog: string, table: string, server: Server, q: Request, like: Like, before: Before)
    requires StrictWeak(before) && server.Valid() && TiesHarmless(server, q, like, before) && g != []
    requires Group(g, (r: Row) => r.catalog == catalog && r.table == Some(table), server, q, like, before)
    ensures var t := TableOf(g, q.depth);
      var def := TableDef(catalog, t.name, t.kind);
      && t.name == table && t.constraints == []
      && TableWanted(server, q, like, def) && NestedColumns(t.columns, server, q, like, def)
  {
    var t := TableOf(g, q.depth);
    var def := TableDef(catalog, t.name, t.kind);
    var columns := Map(Filter(g, HasColumn), ColumnOf);
    assert g[0] in g && IsRow(server, q, like, g[0]);
    ColumnsOrdered(g, catalog, table, server, q, like, before);
    hide TableWanted, CatalogWanted, Filter, Ordered, StrictWeak;
    forall c: Column
      ensures c in columns <==> ColumnWanted(server, q, like, ColumnDef(catalog, table, c))
    {
      ColumnMembers(g, def, server, q, like, before, c);
    }
    if columns != [] {
      assert columns[0] in columns;
    }
  }

  lemma SameOrdinal(a: Row, b: Row, server: Server, q: Request, like: Like)
    requires server.Valid() && IsRow(server, q, like, a) && IsRow(server, q, like, b) && a != b
    requires a.catalog == b.catalog && a.table == b.table && a.column.Some? && b.column.Some? && a.table.Some?
    ensures a.ordinal.value != b.ordinal.value
  {
    var t, u := TableDef(a.catalog, a.table.value, a.kind.value), TableDef(b.catalog, b.table.value, b.kind.value);
    var c, d := ColumnDef(a.catalog, a.table.value, ColumnOf(a)), ColumnDef(b.catalog, b.table.value, ColumnOf(b));
    assert t in server.tables && u in server.tables;
    if a.ordinal.value == b.ordinal.value {
      assert SameColumnKey(c, d);
    }
  }

  lemma TablesNested(g: seq<Row>, catalog: string, server: Server, q: Request, like: Like, before: Before)
    requires StrictWeak(before) && server.Valid() && TiesHarmless(server, q, like, before)
    requires CatalogWanted(server, q, like, catalog)
    requires Group(g, (r: Row) => r.catalog == catalog, server, q, like, before)
    ensures var tables := TablesOf(g, q.depth);
      NestedTables(if IncludeTables(q.depth) || tables != [] then Some(tables) else None, server, q, like, before, catalog)
  {
    hide Runs, TableOf, NestedColumns, IsRow, TiesHarmless, Twice;
    var rows, groups, tables := Filter(g, HasTable), TableRuns(g), TablesOf(g, q.depth);
    TablesTogether(g, catalog, server, q, like, before);
    GroupOrdered(g, server, q, like, before);
    TablesSorted(g, catalog, before);
    forall a | 0 <= a < |tables|
      ensures tables[a].name == Heads(groups, TableName)[a] && NestedTable(tables[a], server, q, like, catalog)
    {
      TableGroup(g, catalog, a, server, q, like, before);
      ColumnsNested(groups[a], catalog, TableName(groups[a][0]), server, q, like, before);
    }
    forall def | TableWanted(server, q, like, def) && def.catalog == catalog
      ensures Named(tables, def.name)
    {
      var r := TableHasRow(server, q, like, def);
      assert r in g && HasTable(r) && r in rows;
      var a := RunOfKey(rows, TableName, r);
      assert tables[a].name == def.name;
    }
    if tables != [] {
      assert NestedTable(tables[0], server, q, like, catalog);
    }
  }

  lemma RunOfKey(rows: seq<Row>, key: Row -> string, r: Row) returns (a: nat)
    requires r in rows
    ensures a < |Runs(rows, key)| && key(Runs(rows, key)[a][0]) == key(r)
  {
    RunHeads(rows, key);
    DedupMembers(Map(rows, key), key(r));
    var i :| 0 <= i < |rows| && rows[i] == r;
    assert Map(rows, key)[i] == key(r);
    a :| 0 <= a < |Heads(Runs(rows, key), key)| && Heads(Runs(rows, key), key)[a] == key(r);
  }

  lemma TableGroup(g: seq<Row>, catalog: string, a: nat, server: Server, q: Request, like: Like, before: Before)
    requires Contiguous(Map(Filter(g, HasTable), TableName))
    requires Group(g, (r: Row) => r.catalog == catalog, server, q, like, before)
    requires a < |TableRuns(g)|
    ensures var table := TableName(TableRuns(g)[a][0]);
      Group(TableRuns(g)[a], (r: Row) => r.catalog == catalog && r.table == Some(table), server, q, like, before)
  {
    hide Runs, IsRow;
    var rows, groups := Filter(g, HasTable), TableRuns(g);
    var table := TableName(groups[a][0]);
    FilterOrdered(g, HasTable, Follows(server, q, like, before));
    RunsSound(rows, TableName);
    FlattenOrdered(groups, Follows(server, q, like, before));
    forall r
      ensures r in groups[a] <==> IsRow(server, q, like, r) && r.catalog == catalog && r.table == Some(table)
    {
      RunComplete(rows, TableName, a, r);
    }
  }

  lemma CatalogGroup(rows: seq<Row>, a: nat, server: Server, q: Request, like: Like, before: Before)
    requires Contiguous(Map(rows, CatalogKey))
    requires Group(rows, (r: Row) => true, server, q, like, before)
    requires a < |CatalogRuns(rows)|
    ensures var catalog := CatalogKey(CatalogRuns(rows)[a][0]);
      Group(CatalogRuns(rows)[a], (r: Row) => r.catalog == catalog, server, q, like, before)
  {
    hide Runs, IsRow;
    var groups := CatalogRuns(rows);
    RunsSound(rows, CatalogKey);
    FlattenOrdered(groups, Follows(server, q, like, before));
    forall r
      ensures r in groups[a] <==> IsRow(server, q, like, r) && r.catalog == CatalogKey(groups[a][0])
    {
      RunComplete(rows, CatalogKey, a, r);
    }
  }

  lemma CatalogNested(g: seq<Row>, server: Server, q: Request, like: Like, before: Before)
    requires StrictWeak(before) && server.Valid() && TiesHarmless(server, q, like, before) && g != []
    requires var catalog := CatalogKey(g[0]); Group(g, (r: Row) => r.catalog == catalog, server, q, like, before)
    ensures !MissingSchema(g)
    ensures var c := CatalogOf(g, q.depth);
      && c.name == g[0].catalog && CatalogWanted(server, q, like, c.name)
      && (if SchemaWanted(q, like) then
            && c.schemas.Some? && |c.schemas.value| == 1 && c.schemas.value[0].name == ""
            && NestedTables(c.schemas.value[0].tables, server, q, like, before, c.name)
          else c.schemas == if IncludeSchemas(q.depth) then Some([]) else None)
  {
    hide NestedTables, TablesOf;
    assert g[0] in g && IsRow(server, q, like, g[0]);
    TablesNested(g, g[0].catalog, server, q, like, before);
    if !SchemaWanted(q, like) {
      forall r | r in g
        ensures !HasTable(r)
      {
        assert IsRow(server, q, like, r);
      }
      FilterNone(g, HasTable);
    }
  }

  /** The rows of a harmless answer are those that belong, and only a row joined twice repeats. */
  lemma AnswerGroup(rows: seq<Row>, server: Server, q: Request, like: Like, before: Before)
    requires StrictWeak(before) && TiesAgree(server, q, like, before) && Answers(rows, server, q, like, before)
    ensures Group(rows, (r: Row) => true, server, q, like, before) && Ordered(rows, RowOrder(before))
  {
    var js :| Lists(js, server, q, like, before) && rows == Map(js, RowOf);
    hide IsRow, Joined, Met, RowLe, RowOf, StrictWeak, SameNames;
    forall j
      ensures j in js <==> Met(server, q, like, before, j)
    {
      ResultMember(server, q, like, before, j);
    }
    forall r
      ensures r in rows <==> IsRow(server, q, like, r)
    {
      if r in rows {
        var i :| 0 <= i < |rows| && rows[i] == r;
        MetIsRow(server, q, like, before, js[i]);
      }
      if IsRow(server, q, like, r) {
        var j := RowIsMet(server, q, like, before, r);
        var i :| 0 <= i < |js| && js[i] == j;
        assert rows[i] == r;
      }
    }
    forall i, j | 0 <= i < j < |rows|
      ensures Follows(server, q, like, before)(rows[i], rows[j])
    {
      assert RowOrder(before)(rows[i], rows[j]) && js[i] != js[j] && js[i] in js && js[j] in js;
    }
  }

  /** Folding the ordered LEFT JOIN answers exactly the nested specification: for every content of the metadata
      tables, every depth, every filter, every LIKE and every collation whose ties do no harm, the loop neither
      panics nor builds anything else. */
  lemma ObjectsNested(rows: seq<Row>, server: Server, q: Request, like: Like, before: Before)
    requires StrictWeak(before) && server.Valid() && Answers(rows, server, q, like, before)
    requires TiesHarmless(server, q, like, before)
    ensures !Panics(rows)
    ensures Nested(Tree(rows, q.depth), server, q, like, before)
  {
    hide Runs, IsRow, CatalogOf, MissingSchema, NestedTables, Answers, Twice, TiesAgree, TiesInterleave;
    var groups, cs := CatalogRuns(rows), Tree(rows, q.depth);
    AnswerGroup(rows, server, q, like, before);
    CatalogsTogether(rows, server, q, like, before);
    CatalogsSorted(rows, before);
    forall a | 0 <= a < |groups|
      ensures !MissingSchema(groups[a])
      ensures cs[a].name == Heads(groups, CatalogKey)[a] && CatalogWanted(server, q, like, cs[a].name)
      ensures if SchemaWanted(q, like) then
          && cs[a].schemas.Some? && |cs[a].schemas.value| == 1 && cs[a].schemas.value[0].name == ""
          && NestedTables(cs[a].schemas.value[0].tables, server, q, like, before, cs[a].name)
        else cs[a].schemas == if IncludeSchemas(q.depth) then Some([]) else None
    {
      CatalogGroup(rows, a, server, q, like, before);
      CatalogNested(groups[a], server, q, like, before);
    }
    forall name | CatalogWanted(server, q, like, name)
      ensures exists i :: 0 <= i < |cs| && cs[i].name == name
    {
      var r := CatalogHasRow(server, q, like, name);
      var a := RunOfKey(rows, CatalogKey, r);
      assert cs[a].name == name;
    }
  }

  // ---------- The specification leaves no choice ----------

  ghost predicate Asymmetric<T(!new)>(lt: (T, T) -> bool) {
    forall a, b :: lt(a, b) ==> !lt(b, a)
  }

  lemma NamesAsymmetric(before: Before)
    requires StrictTotal(before)
    ensures Asymmetric(NameOrder(before))
  {
    assert forall a, b :: NameOrder(before)(a, b) ==> before(a, b);
  }

  /** Two strictly ordered sequences with the same members are equal. */
  lemma {:induction false} OrderedUnique<T(!new)>(s: seq<T>, t: seq<T>, lt: (T, T) -> bool)
    requires Asymmetric(lt) && Ordered(s, lt) && Ordered(t, lt)
    requires forall x :: x in s <==> x in t
    ensures s == t
    decreases |s|
  {
    if s == [] {
      assert forall i :: 0 <= i < |t| ==> t[i] in t;
    } else {
      assert s[0] in t;
      assert t[0] in t && t[0] in s;
      assert s[0] == t[0] by {
        assert forall i :: 0 < i < |t| ==> lt(t[0], t[i]);
        assert forall j :: 0 < j < |s| ==> lt(s[0], s[j]);
      }
      forall x
        ensures x in s[1..] <==> x in t[1..]
      {
        TailMember(s, x, lt);
        TailMember(t, x, lt);
      }
      OrderedUnique(s[1..], t[1..], lt);
      assert s == [s[0]] + s[1..] && t == [t[0]] + t[1..];
    }
  }

  lemma TailMember<T(!new)>(s: seq<T>, x: T, lt: (T, T) -> bool)
    requires s != [] && Asymmetric(lt) && Ordered(s, lt)
    ensures x in s[1..] <==> x in s && x != s[0]
  {
    if x in s && x != s[0] {
      var i :| 0 <= i < |s| && s[i] == x;
      assert s[1..][i - 1] == x;
    }
  }

  lemma ColumnsUnique(c: Option<seq<Column>>, d: Option<seq<Column>>, server: Server, q: Request, like: Like, t: TableDef)
    requires NestedColumns(c, server, q, like, t) && NestedColumns(d, server, q, like, t)
    ensures c == d
  {
    if c.Some? {
      var s, t := c.value, d.value;
      OrderedUnique(s, t, (a: Column, b: Column) => a.ordinal < b.ordinal);
      assert s == t;
      assert c == Some(s) && d == Some(s);
    } else {
      assert !IncludeColumns(q.depth);
      assert d.None?;
    }
  }

  lemma TablesUnique(c: Option<seq<Table>>, d: Option<seq<Table>>, server: Server, q: Request, like: Like, before: Before, catalog: string)
    requires StrictTotal(before) && server.Valid()
    requires NestedTables(c, server, q, like, before, catalog) && NestedTables(d, server, q, like, before, catalog)
    ensures c == d
  {
    if c.Some? {
      var s, t := c.value, d.value;
      hide NestedColumns, Named;
      TableNames(s, t, server, q, like, before, catalog);
      TableNames(t, s, server, q, like, before, catalog);
      NamesAsymmetric(before);
      OrderedUnique(Map(s, NameOf), Map(t, NameOf), NameOrder(before));
      forall i | 0 <= i < |s|
        ensures s[i] == t[i]
      {
        assert Map(s, NameOf)[i] == Map(t, NameOf)[i];
        var a, b := TableDef(catalog, s[i].name, s[i].kind), TableDef(catalog, t[i].name, t[i].kind);
        assert NestedTable(s[i], server, q, like, catalog) && NestedTable(t[i], server, q, like, catalog);
        assert a in server.tables && b in server.tables && a == b;
        ColumnsUnique(s[i].columns, t[i].columns, server, q, like, a);
      }
      assert s == t;
      assert c == Some(s) && d == Some(s);
    } else {
      assert d.None?;
    }
  }

  lemma TableNames(s: seq<Table>, t: seq<Table>, server: Server, q: Request, like: Like, before: Before, catalog: string)
    requires NestedTables(Some(s), server, q, like, before, catalog) && NestedTables(Some(t), server, q, like, before, catalog)
    ensures forall name :: name in Map(s, NameOf) ==> name in Map(t, NameOf)
    ensures Ordered(Map(s, NameOf), NameOrder(before))
  {
    hide NestedColumns, TableWanted, SchemaWanted;
    forall name | name in Map(s, NameOf)
      ensures name in Map(t, NameOf)
    {
      var i :| 0 <= i < |s| && s[i].name == name;
      assert NestedTable(s[i], server, q, like, catalog);
      assert Named(t, TableDef(catalog, name, s[i].kind).name);
      var j :| 0 <= j < |t| && t[j].name == name;
      assert Map(t, NameOf)[j] == name;
    }
  }

  /** Under a collation without ties at most one tree meets the specification, so the loop's result is the only right
      answer. */
  lemma NestedUnique(c: seq<Catalog>, d: seq<Catalog>, server: Server, q: Request, like: Like, before: Before)
    requires StrictTotal(before) && server.Valid()
    requires Nested(c, server, q, like, before) && Nested(d, server, q, like, before)
    ensures c == d
  {
    hide NestedTables;
    CatalogNames(c, d, server, q, like, before);
    CatalogNames(d, c, server, q, like, before);
    NamesAsymmetric(before);
    OrderedUnique(Map(c, CatalogName), Map(d, CatalogName), NameOrder(before));
    forall i | 0 <= i < |c|
      ensures c[i] == d[i]
    {
      assert Map(c, CatalogName)[i] == Map(d, CatalogName)[i];
      if SchemaWanted(q, like) {
        var s, t := c[i].schemas.value, d[i].schemas.value;
        TablesUnique(s[0].tables, t[0].tables, server, q, like, before, c[i].name);
        assert s == [s[0]] && t == [t[0]];
      }
    }
  }

  lemma CatalogNames(c: seq<Catalog>, d: seq<Catalog>, server: Server, q: Request, like: Like, before: Before)
    requires Nested(c, server, q, like, before) && Nested(d, server, q, like, before)
    ensures forall name :: name in Map(c, CatalogName) ==> name in Map(d, CatalogName)
    ensures Ordered(Map(c, CatalogName), NameOrder(before))
  {
    hide NestedTables;
    forall name | name in Map(c, CatalogName)
      ensures name in Map(d, CatalogName)
    {
      var i :| 0 <= i < |c| && c[i].name == name;
      assert CatalogWanted(server, q, like, name);
      var j :| 0 <= j < |d| && d[j].name == name;
      assert Map(d, CatalogName)[j] == name;
    }
  }
}

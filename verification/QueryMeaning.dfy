/** The conditions written into the metadata queries mean what the joins and filters of the relational model ask. */
module QueryMeaning {
  import opened Prelude
  import opened ObjectQuery
  import opened ConstraintQuery
  import opened Conditions

  /** The text in the columns that the conditions of each level look at. */
  function SchemaRow(name: string): string -> string {
    column => if column == "sch.DB_SCHEMA_NAME" then name else ""
  }

  function TableRow(t: TableDef): string -> string {
    column => if column == "t.TABLE_NAME" then t.name else if column == "t.TABLE_TYPE" then t.kind else ""
  }

  function ColumnRow(c: ColumnDef): string -> string {
    column => if column == "c.COLUMN_NAME" then c.column.name else ""
  }

  function CatalogRow(s: string): string -> string {
    column => if column == "s.SCHEMA_NAME" then s else ""
  }

  function ConstraintRow(c: ConstraintDef, t: TableDef): string -> string {
    column =>
      if column == "tc.CONSTRAINT_SCHEMA" then c.schema
      else if column == "tc.TABLE_NAME" then c.table
      else if column == "t.TABLE_TYPE" then t.kind else ""
  }

  lemma OptionalHolds(column: string, pattern: Option<string>, like: Like, before: Before, row: string -> string)
    ensures HoldAll(Optional(column, pattern), like, before, row) <==> Matches(like, row(column), pattern)
  {
    if pattern.Some? {
      assert Likes(column, pattern.value) in Optional(column, pattern);
    }
  }

  lemma ListHolds(column: string, values: seq<string>, like: Like, before: Before, row: string -> string)
    ensures HoldAll(OptionalList(column, values), like, before, row)
       <==> values == [] || exists v <- values :: Tied(before, row(column), v)
  {
    if values != [] {
      assert Among(column, values) in OptionalList(column, values);
    }
  }

  lemma NeverHolds(like: Like, before: Before, row: string -> string)
    ensures !HoldAll(NEVER, like, before, row)
  {
    assert Compare(1, 0) in NEVER;
  }

  lemma BothHold(a: seq<Condition>, b: seq<Condition>, like: Like, before: Before, row: string -> string)
    ensures HoldAll(a + b, like, before, row) <==> HoldAll(a, like, before, row) && HoldAll(b, like, before, row)
  {
    assert forall c :: c in a + b <==> c in a || c in b;
  }

  /** The schema join. */
  lemma SchemaMeaning(q: Request, like: Like, before: Before, s: string, name: string)
    ensures OnSchema(q, like, s, name) <==> HoldAll(SchemaConditions(q), like, before, SchemaRow(name))
  {
    NeverHolds(like, before, SchemaRow(name));
    OptionalHolds("sch.DB_SCHEMA_NAME", q.schema, like, before, SchemaRow(name));
  }

  /** The table join, besides its fixed part. */
  lemma TableMeaning(q: Request, like: Like, before: Before, left: SchemaJoin, t: TableDef)
    ensures OnTable(q, like, before, left, t) <==>
            Tied(before, left.0, t.catalog) && left.1.Some? && HoldAll(TableConditions(q), like, before, TableRow(t))
  {
    NeverHolds(like, before, TableRow(t));
    OptionalHolds("t.TABLE_NAME", q.table, like, before, TableRow(t));
    ListHolds("t.TABLE_TYPE", q.kinds, like, before, TableRow(t));
    BothHold(Optional("t.TABLE_NAME", q.table), OptionalList("t.TABLE_TYPE", q.kinds), like, before, TableRow(t));
    hide HoldAll, Tied;
  }

  /** The column join, besides its fixed part. */
  lemma ColumnMeaning(q: Request, like: Like, before: Before, left: TableJoin, c: ColumnDef)
    ensures OnColumn(q, like, before, left, c) <==>
            && left.1.Some? && Tied(before, left.1.value.catalog, c.catalog) && Tied(before, left.1.value.name, c.table)
            && HoldAll(ColumnConditions(q), like, before, ColumnRow(c))
  {
    NeverHolds(like, before, ColumnRow(c));
    OptionalHolds("c.COLUMN_NAME", q.column, like, before, ColumnRow(c));
    hide HoldAll, Tied;
  }

  /** WHERE. */
  lemma CatalogMeaning(q: Request, like: Like, before: Before, s: string)
    ensures Matches(like, s, q.catalog) <==> HoldAll(CatalogConditions(q), like, before, CatalogRow(s))
  {
    OptionalHolds("s.SCHEMA_NAME", q.catalog, like, before, CatalogRow(s));
  }

  /** The filters of the constraints query. */
  lemma ConstraintMeaning(q: Request, like: Like, before: Before, c: ConstraintDef, t: TableDef)
    ensures KeyFilter(q, like, before, c, t) <==>
            HoldAll(ConstraintConditions(q.catalog, q.table, q.kinds), like, before, ConstraintRow(c, t))
  {
    var row := ConstraintRow(c, t);
    var a, b := Optional("tc.CONSTRAINT_SCHEMA", q.catalog), Optional("tc.TABLE_NAME", q.table);
    var d := OptionalList("t.TABLE_TYPE", q.kinds);
    OptionalHolds("tc.CONSTRAINT_SCHEMA", q.catalog, like, before, row);
    OptionalHolds("tc.TABLE_NAME", q.table, like, before, row);
    ListHolds("t.TABLE_TYPE", q.kinds, like, before, row);
    BothHold(a, b, like, before, row);
    BothHold(a + b, d, like, before, row);
    hide HoldAll, Tied;
  }
}

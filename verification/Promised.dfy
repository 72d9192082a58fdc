/** What GetObjects promises, spelled out on the server's own rows, with the depths as the numbers C passes. */
module Promised {
  import opened Prelude
  import opened Grouping
  import opened ObjectTree
  import opened ObjectQuery

  /** The column list is there exactly at depth 0: the table's columns that the filter admits, by ordinal. */
  ghost predicate ColumnsPromised(columns: Option<seq<Column>>, server: Server, q: Request, like: Like, catalog: string,
                                  table: string) {
    && (columns.Some? <==> q.depth == 0)
    && (columns.Some? ==>
          && (forall i, j | 0 <= i < j < |columns.value| :: columns.value[i].ordinal < columns.value[j].ordinal)
          && (forall c :: c in columns.value <==>
                ColumnDef(catalog, table, c) in server.columns && (q.column.None? || like(c.name, q.column.value))))
  }

  ghost predicate ListsTable(ts: seq<Table>, name: string, kind: string) {
    exists i :: 0 <= i < |ts| && ts[i].name == name && ts[i].kind == kind
  }

  /** The table list is there exactly at depths 0 and 3: the catalog's tables that both filters admit, each once. */
  ghost predicate TablesPromised(tables: Option<seq<Table>>, server: Server, q: Request, like: Like, before: Before, catalog: string) {
    && (tables.Some? <==> q.depth == 0 || q.depth == 3)
    && (tables.Some? ==>
          && (forall i, j | 0 <= i < j < |tables.value| ::
                tables.value[i].name != tables.value[j].name && !before(tables.value[j].name, tables.value[i].name))
          && (forall name, kind :: ListsTable(tables.value, name, kind) <==>
                && TableDef(catalog, name, kind) in server.tables
                && (q.table.None? || like(name, q.table.value)) && (q.kinds == [] || kind in q.kinds))
          && (forall i | 0 <= i < |tables.value| ::
                ColumnsPromised(tables.value[i].columns, server, q, like, catalog, tables.value[i].name)))
  }

  /** The schema list is absent exactly at depth 1; it holds the one schema, of empty name, if the filter admits that. */
  ghost predicate SchemasPromised(schemas: Option<seq<Schema>>, server: Server, q: Request, like: Like, before: Before,
                                  catalog: string) {
    && (schemas.None? <==> q.depth == 1)
    && (schemas.Some? ==>
          if q.schema.None? || like("", q.schema.value) then
            |schemas.value| == 1 && schemas.value[0].name == ""
            && TablesPromised(schemas.value[0].tables, server, q, like, before, catalog)
          else schemas.value == [])
  }

  ghost predicate ListsCatalog(cs: seq<Catalog>, name: string) {
    exists i :: 0 <= i < |cs| && cs[i].name == name
  }

  ghost predicate ObjectsPromised(cs: seq<Catalog>, server: Server, q: Request, like: Like, before: Before) {
    && (forall i, j | 0 <= i < j < |cs| :: cs[i].name != cs[j].name && !before(cs[j].name, cs[i].name))
    && (forall name :: ListsCatalog(cs, name) <==>
          name in server.schemata && (q.catalog.None? || like(name, q.catalog.value)))
    && (forall i | 0 <= i < |cs| :: SchemasPromised(cs[i].schemas, server, q, like, before, cs[i].name))
  }

  // ---------- The nested specification keeps the promise ----------

  lemma ColumnsKept(columns: Option<seq<Column>>, server: Server, q: Request, like: Like, t: TableDef)
    requires NestedColumns(columns, server, q, like, t)
    ensures ColumnsPromised(columns, server, q, like, t.catalog, t.name)
  {
  }

  lemma TablesKept(tables: Option<seq<Table>>, server: Server, q: Request, like: Like, before: Before, catalog: string)
    requires server.Valid() && NestedTables(tables, server, q, like, before, catalog)
    requires q.depth != 1 && (q.schema.None? || like("", q.schema.value))
    ensures TablesPromised(tables, server, q, like, before, catalog)
  {
    hide NestedColumns, ColumnsPromised;
    if tables.Some? {
      var ts := tables.value;
      forall i | 0 <= i < |ts|
        ensures ColumnsPromised(ts[i].columns, server, q, like, catalog, ts[i].name)
        ensures TableWanted(server, q, like, TableDef(catalog, ts[i].name, ts[i].kind))
      {
        assert NestedTable(ts[i], server, q, like, catalog);
        ColumnsKept(ts[i].columns, server, q, like, TableDef(catalog, ts[i].name, ts[i].kind));
      }
      forall name, kind
        ensures ListsTable(ts, name, kind) <==> TableWanted(server, q, like, TableDef(catalog, name, kind))
      {
        if TableWanted(server, q, like, TableDef(catalog, name, kind)) {
          assert Named(ts, TableDef(catalog, name, kind).name);
          var i :| 0 <= i < |ts| && ts[i].name == name;
          assert TableWanted(server, q, like, TableDef(catalog, ts[i].name, ts[i].kind));
          assert ts[i].kind == kind;
        }
      }
    }
  }

  lemma NestedKept(cs: seq<Catalog>, server: Server, q: Request, like: Like, before: Before)
    requires server.Valid() && Nested(cs, server, q, like, before)
    ensures ObjectsPromised(cs, server, q, like, before)
  {
    hide NestedTables, TablesPromised;
    forall i | 0 <= i < |cs|
      ensures SchemasPromised(cs[i].schemas, server, q, like, before, cs[i].name)
    {
      if SchemaWanted(q, like) {
        TablesKept(cs[i].schemas.value[0].tables, server, q, like, before, cs[i].name);
      }
    }
    forall i, j | 0 <= i < j < |cs|
      ensures cs[i].name != cs[j].name && !before(cs[j].name, cs[i].name)
    {
      assert NameLt(before, cs[i].name, cs[j].name);
    }
    forall name
      ensures ListsCatalog(cs, name) <==>
              name in server.schemata && (q.catalog.None? || like(name, q.catalog.value))
    {
      assert CatalogWanted(server, q, like, name) <==> name in server.schemata && (q.catalog.None? || like(name, q.catalog.value));
    }
  }
}

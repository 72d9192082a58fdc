/** The GetObjects loop: one ordered row stream folded back into a catalog, schema, table and column tree
    through "current" pointers into growing slices. */
module ObjectTree {
  import opened Prelude
  import opened Grouping

  datatype Column = Column(name: string, ordinal: int, dataType: string)
  datatype Usage = Usage(catalog: Option<string>, schema: string, table: string, column: string)
  datatype Constraint = Constraint(name: string, kind: string, columns: seq<string>, usage: seq<Usage>)

  // A Go slice that is nil is None, an empty one Some([]).
  datatype Table = Table(name: string, kind: string, columns: Option<seq<Column>>, constraints: seq<Constraint>)
  datatype Schema = Schema(name: string, tables: Option<seq<Table>>)
  datatype Catalog = Catalog(name: string, schemas: Option<seq<Schema>>)

  datatype Row = Row(catalog: string, schema: Option<string>, table: Option<string>, kind: Option<string>,
                     column: Option<string>, ordinal: Option<int>, dataType: Option<string>)

  // adbc.ObjectDepth; any other value is passed on from C unchecked.
  const DEPTH_ALL: int := 0
  const DEPTH_CATALOGS: int := 1
  const DEPTH_TABLES: int := 3

  predicate IncludeSchemas(depth: int) { depth != DEPTH_CATALOGS }
  predicate IncludeTables(depth: int) { depth == DEPTH_TABLES || depth == DEPTH_ALL }
  predicate IncludeColumns(depth: int) { depth == DEPTH_ALL }

  /** Go's append, on a slice that may be nil. */
  function Append<T>(s: Option<seq<T>>, x: T): Option<seq<T>> {
    Some(s.GetOr([]) + [x])
  }

  // ---------- The tree that a row sequence describes ----------

  function CatalogKey(r: Row): string { r.catalog }
  function TableName(r: Row): string { r.table.GetOr("") }
  predicate HasTable(r: Row) { r.table.Some? }
  predicate HasColumn(r: Row) { r.column.Some? }

  function ColumnOf(r: Row): Column {
    Column(r.column.GetOr(""), r.ordinal.GetOr(0), r.dataType.GetOr(""))
  }

  function TableOf(run: seq<Row>, depth: int): Table
    requires run != []
  {
    var columns := Map(Filter(run, HasColumn), ColumnOf);
    Table(TableName(run[0]), run[0].kind.GetOr(""),
          if IncludeColumns(depth) || columns != [] then Some(columns) else None, [])
  }

  function TableRuns(run: seq<Row>): (groups: seq<seq<Row>>)
    ensures forall a :: 0 <= a < |groups| ==> groups[a] != []
  {
    Runs(Filter(run, HasTable), TableName)
  }

  function TablesFrom(groups: seq<seq<Row>>, depth: int): (ts: seq<Table>)
    requires forall a :: 0 <= a < |groups| ==> groups[a] != []
    ensures |ts| == |groups| && forall a :: 0 <= a < |ts| ==> ts[a] == TableOf(groups[a], depth)
  {
    seq(|groups|, a requires 0 <= a < |groups| => TableOf(groups[a], depth))
  }

  function TablesOf(run: seq<Row>, depth: int): seq<Table> {
    TablesFrom(TableRuns(run), depth)
  }

  /** One catalog from a non-empty run of its rows. The first row alone decides whether there is a schema. */
  function CatalogOf(run: seq<Row>, depth: int): Catalog
    requires run != []
  {
    var tables := TablesOf(run, depth);
    Catalog(run[0].catalog,
            if run[0].schema.Some? then
              Some([Schema(run[0].schema.value, if IncludeTables(depth) || tables != [] then Some(tables) else None)])
            else if IncludeSchemas(depth) then Some([])
            else None)
  }

  function CatalogRuns(rows: seq<Row>): (groups: seq<seq<Row>>)
    ensures forall a :: 0 <= a < |groups| ==> groups[a] != []
  {
    Runs(rows, CatalogKey)
  }

  function CatalogsFrom(groups: seq<seq<Row>>, depth: int): (cs: seq<Catalog>)
    requires forall a :: 0 <= a < |groups| ==> groups[a] != []
    ensures |cs| == |groups| && forall a :: 0 <= a < |cs| ==> cs[a] == CatalogOf(groups[a], depth)
  {
    seq(|groups|, a requires 0 <= a < |groups| => CatalogOf(groups[a], depth))
  }

  function Tree(rows: seq<Row>, depth: int): seq<Catalog> {
    CatalogsFrom(CatalogRuns(rows), depth)
  }

  predicate MissingSchema(run: seq<Row>)
    requires run != []
  {
    run[0].schema.None? && Filter(run, HasTable) != []
  }

  ghost predicate AnyMissing(groups: seq<seq<Row>>)
    requires forall a :: 0 <= a < |groups| ==> groups[a] != []
  {
    exists a :: 0 <= a < |groups| && MissingSchema(groups[a])
  }

  /** Some catalog run has a table although its first row has no schema: the loop would index an empty list. */
  ghost predicate Panics(rows: seq<Row>) {
    AnyMissing(CatalogRuns(rows))
  }

  // ---------- One more row ----------

  function AddColumn(t: Table, r: Row): Table {
    if r.column.None? then t else t.(columns := Append(t.columns, ColumnOf(r)))
  }

  function NewTable(r: Row, depth: int): Table {
    Table(TableName(r), r.kind.GetOr(""), if IncludeColumns(depth) then Some([]) else None, [])
  }

  function AddTable(ts: seq<Table>, r: Row, depth: int): seq<Table> {
    if r.table.None? then ts
    else if ts != [] && Last(ts).name == r.table.value then ts[..|ts| - 1] + [AddColumn(Last(ts), r)]
    else ts + [AddColumn(NewTable(r, depth), r)]
  }

  lemma TableSnoc(run: seq<Row>, r: Row, depth: int)
    requires run != []
    ensures TableOf(run + [r], depth) == AddColumn(TableOf(run, depth), r)
  {
    FilterSnoc(run, r, HasColumn);
    var before := Filter(run, HasColumn);
    if HasColumn(r) {
      MapSnoc(before, r, ColumnOf);
    } else {
      assert before + [] == before;
    }
  }

  lemma TableSingle(r: Row, depth: int)
    ensures TableOf([r], depth) == AddColumn(NewTable(r, depth), r)
  {
    FilterSnoc([], r, HasColumn);
    assert [] + [r] == [r];
    if HasColumn(r) {
      assert Filter([r], HasColumn) == [r];
      assert Map([r], ColumnOf) == [ColumnOf(r)];
      assert [] + [ColumnOf(r)] == [ColumnOf(r)];
    } else {
      assert Filter([r], HasColumn) == [];
    }
  }

  lemma TablesFromSnoc(groups: seq<seq<Row>>, r: Row, depth: int)
    requires forall a :: 0 <= a < |groups| ==> groups[a] != []
    ensures TablesFrom(groups + [[r]], depth) == TablesFrom(groups, depth) + [AddColumn(NewTable(r, depth), r)]
    ensures groups != [] ==>
      TablesFrom(groups[..|groups| - 1] + [Last(groups) + [r]], depth)
      == TablesFrom(groups, depth)[..|groups| - 1] + [AddColumn(TableOf(Last(groups), depth), r)]
  {
    TableSingle(r, depth);
    if groups != [] {
      TableSnoc(Last(groups), r, depth);
    }
  }

  lemma TablesSnoc(run: seq<Row>, r: Row, depth: int)
    ensures TablesOf(run + [r], depth) == AddTable(TablesOf(run, depth), r, depth)
  {
    hide Filter, Runs, TablesFrom;
    FilterSnoc(run, r, HasTable);
    var before, groups := Filter(run, HasTable), TableRuns(run);
    if HasTable(r) {
      RunsSnoc(before, r, TableName);
      TablesFromSnoc(groups, r, depth);
    } else {
      assert before + [] == before;
    }
  }

  lemma AnyMissingSnoc(groups: seq<seq<Row>>, g: seq<Row>)
    requires g != [] && forall a :: 0 <= a < |groups| ==> groups[a] != []
    ensures AnyMissing(groups + [g]) <==> AnyMissing(groups) || MissingSchema(g)
  {
    var more := groups + [g];
    assert more[|groups|] == g && forall a :: 0 <= a < |groups| ==> more[a] == groups[a];
    if AnyMissing(groups) {
      var a :| 0 <= a < |groups| && MissingSchema(groups[a]);
      assert MissingSchema(more[a]);
    }
    if MissingSchema(g) {
      assert MissingSchema(more[|groups|]);
    }
  }

  lemma MissingSnoc(run: seq<Row>, r: Row)
    requires run != []
    ensures MissingSchema(run) ==> MissingSchema(run + [r])
  {
    FilterSnoc(run, r, HasTable);
  }

  /** The rows of the catalog that one more row belongs to, before that row. */
  function OpenRun(rows: seq<Row>, r: Row): seq<Row> {
    var groups := CatalogRuns(rows);
    if groups != [] && CatalogKey(Last(groups)[0]) == r.catalog then Last(groups) else []
  }

  lemma RowSnoc(rows: seq<Row>, r: Row, depth: int)
    ensures var groups, run := CatalogRuns(rows), OpenRun(rows, r);
      var kept := if run == [] then groups else groups[..|groups| - 1];
      CatalogRuns(rows + [r]) == kept + [run + [r]]
    ensures var run := OpenRun(rows, r);
      var kept := if run == [] then Tree(rows, depth) else Tree(rows, depth)[..|Tree(rows, depth)| - 1];
      Tree(rows + [r], depth) == kept + [CatalogOf(run + [r], depth)]
    ensures Panics(rows + [r]) <==> Panics(rows) || MissingSchema(OpenRun(rows, r) + [r])
  {
    hide Runs, CatalogOf, MissingSchema, Filter, AnyMissing;
    var groups, run := CatalogRuns(rows), OpenRun(rows, r);
    RunsSnoc(rows, r, CatalogKey);
    var kept := if run == [] then groups else groups[..|groups| - 1];
    AnyMissingSnoc(kept, run + [r]);
    if run != [] {
      AnyMissingSnoc(kept, run);
      assert groups == kept + [run];
      MissingSnoc(run, r);
    } else {
      assert [] + [r] == [r];
    }
  }

  lemma {:induction false} PanicsPersist(rows: seq<Row>, n: nat)
    requires n <= |rows| && Panics(rows[..n])
    ensures Panics(rows)
    decreases |rows| - n
  {
    hide *;
    if n == |rows| {
      assert rows[..n] == rows;
    } else {
      RowSnoc(rows[..n], rows[n], DEPTH_ALL);
      assert rows[..n] + [rows[n]] == rows[..n + 1];
      PanicsPersist(rows, n + 1);
    }
  }

  /** The entry made for a catalog at its first row. */
  function NewCatalog(r: Row, depth: int): Catalog {
    Catalog(r.catalog,
            if r.schema.Some? then Some([Schema(r.schema.value, if IncludeTables(depth) then Some([]) else None)])
            else if IncludeSchemas(depth) then Some([])
            else None)
  }

  predicate HasSchema(c: Catalog) {
    c.schemas.Some? && c.schemas.value != []
  }

  lemma CatalogSnoc(run: seq<Row>, r: Row, depth: int)
    requires run != [] ==> run[0].catalog == r.catalog && !MissingSchema(run)
    ensures var base := if run == [] then NewCatalog(r, depth) else CatalogOf(run, depth);
      && (HasSchema(base) ==> base.schemas.value[0].tables.GetOr([]) == TablesOf(run, depth))
      && (MissingSchema(run + [r]) <==> r.table.Some? && !HasSchema(base))
      && (MissingSchema(run + [r]) || CatalogOf(run + [r], depth) ==
          if r.table.Some? then SetTables(base, AddTable(TablesOf(run, depth), r, depth)) else base)
  {
    hide Filter, Runs, TablesFrom;
    TablesSnoc(run, r, depth);
    FilterSnoc(run, r, HasTable);
    assert (run + [r])[0] == if run == [] then r else run[0];
    if run == [] {
      EmptyRun(depth);
    }
    TablesNonempty(run + [r], depth);
    TablesNonempty(run, depth);
    var base := if run == [] then NewCatalog(r, depth) else CatalogOf(run, depth);
    if HasSchema(base) && r.table.Some? {
      var tables := AddTable(TablesOf(run, depth), r, depth);
      assert |base.schemas.value| == 1;
      assert SetTables(base, tables).schemas.value == [base.schemas.value[0].(tables := Some(tables))];
    }
  }

  lemma EmptyRun(depth: int)
    ensures TablesOf([], depth) == []
  {
    assert Filter<Row>([], HasTable) == [];
  }

  lemma TablesNonempty(run: seq<Row>, depth: int)
    ensures TablesOf(run, depth) == [] <==> Filter(run, HasTable) == []
  {
    NonemptyRuns(Filter(run, HasTable), TableName);
  }

  // ---------- The loop ----------

  datatype Outcome = Panicked | Built(infos: seq<Catalog>)

  /** A Go pointer to a slice element: the backing array it was taken from and the position in it. */
  datatype Pointer = Nil | Pointer(backing: nat, index: nat)

  /** A store through a pointer into the slice whose backing array is now home: a pointer taken before the slice
      moved only changes the old array. */
  function Store<T>(slice: seq<T>, home: nat, p: Pointer, x: T): seq<T>
    requires p.Pointer? && p.index < |slice|
  {
    if p.backing == home then slice[p.index := x] else slice
  }

  function SetTables(c: Catalog, tables: seq<Table>): Catalog
    requires c.schemas.Some? && c.schemas.value != []
  {
    c.(schemas := Some(c.schemas.value[0 := c.schemas.value[0].(tables := Some(tables))]))
  }

  /** What the current pointers must denote after the given rows: the last catalog and its last table. */
  ghost predicate PointersCurrent(rows: seq<Row>, depth: int, info: Pointer, infosHome: nat, table: Pointer, tablesHome: nat) {
    var groups := CatalogRuns(rows);
    && info == (if groups == [] then Nil else Pointer(infosHome, |groups| - 1))
    && table == if groups == [] then Nil else LastElement(TablesOf(Last(groups), depth), tablesHome)
  }

  function LastElement<T>(slice: seq<T>, home: nat): Pointer {
    if slice == [] then Nil else Pointer(home, |slice| - 1)
  }

  /** The part of the loop body below the catalog: open the row's table unless it is the current one, then add the
      row's column through the current pointer. */
  method AttachRow(slice: Option<seq<Table>>, row: Row, depth: int, current: Pointer, home: nat, nextArray: nat)
    returns (tables: seq<Table>, currentTable: Pointer, tablesHome: nat, next: nat)
    requires row.table.Some? && current == LastElement(slice.GetOr([]), home)
    ensures tables == AddTable(slice.GetOr([]), row, depth)
    ensures currentTable == LastElement(tables, tablesHome) && next >= nextArray
  {
    tables, currentTable, tablesHome, next := slice.GetOr([]), current, home, nextArray;
    if currentTable.Nil? || tables[currentTable.index].name != row.table.value {
      var moved: bool := *;
      if moved {
        tablesHome, next := next, next + 1;
      }
      tables := tables + [NewTable(row, depth)];
      currentTable := Pointer(tablesHome, |tables| - 1);
    }
    if row.column.Some? {
      var table := tables[currentTable.index];
      table := table.(columns := Append(table.columns, ColumnOf(row)));
      tables := Store(tables, tablesHome, currentTable, table);
    }
  }

  /** The loop of GetObjects. Each append may move its slice to a new backing array. The result is the tree of the
      runs, or an index panic exactly when a catalog run has a table but starts without a schema. */
  method Regroup(rows: seq<Row>, depth: int) returns (result: Outcome)
    ensures result.Panicked? <==> Panics(rows)
    ensures result.Built? ==> result.infos == Tree(rows, depth)
  {
    hide Runs, TablesFrom, CatalogsFrom, Filter, CatalogOf, AnyMissing, MissingSchema, Tree, Panics, TableRuns,
      TablesOf, PointersCurrent, OpenRun, AddTable, CatalogRuns, NewCatalog;
    var infos: seq<Catalog> := [];
    var currentInfo, currentTable := Nil, Nil;
    var infosHome, tablesHome, nextArray := 0, 1, 2;
    assert rows[..0] == [];
    NoRows(depth, infosHome, tablesHome);
    for i := 0 to |rows|
      invariant !Panics(rows[..i])
      invariant infos == Tree(rows[..i], depth)
      invariant PointersCurrent(rows[..i], depth, currentInfo, infosHome, currentTable, tablesHome)
    {
      var row := rows[i];
      ghost var run := OpenRun(rows[..i], row);
      assert rows[..i + 1] == rows[..i] + [row];
      RowSnoc(rows[..i], row, depth);
      OpenRunFacts(rows[..i], row, depth);
      PointersOpen(rows[..i], row, depth, currentInfo, infosHome, currentTable, tablesHome);
      CatalogSnoc(run, row, depth);
      ghost var base := if run == [] then NewCatalog(row, depth) else CatalogOf(run, depth);

      if currentInfo.Nil? || infos[currentInfo.index].name != row.catalog {
        var moved: bool := *;
        if moved {
          infosHome, nextArray := nextArray, nextArray + 1;
        }
        infos := infos + [NewCatalog(row, depth)];
        currentInfo := Pointer(infosHome, |infos| - 1);
        tablesHome, nextArray := nextArray, nextArray + 1;
        currentTable := Nil;
      }
      ghost var kept := infos[..|infos| - 1];
      assert infos == kept + [base];
      AddNothing(TablesOf(run, depth), row, depth);
      if row.table.None? {
        PointersSnoc(rows[..i], row, depth, currentInfo, infosHome, currentTable, tablesHome);
        continue;
      }
      if !HasSchema(infos[currentInfo.index]) {
        PanicsPersist(rows, i + 1);
        return Panicked;
      }
      var tables;
      tables, currentTable, tablesHome, nextArray :=
        AttachRow(infos[currentInfo.index].schemas.value[0].tables, row, depth, currentTable, tablesHome, nextArray);
      infos := Store(infos, infosHome, currentInfo, SetTables(infos[currentInfo.index], tables));
      assert infos == kept + [SetTables(base, tables)];
      PointersSnoc(rows[..i], row, depth, currentInfo, infosHome, currentTable, tablesHome);
    }
    assert rows[..|rows|] == rows;
    result := Built(infos);
  }

  lemma AddNothing(ts: seq<Table>, r: Row, depth: int)
    ensures r.table.None? ==> AddTable(ts, r, depth) == ts
  {
  }

  lemma PointersSnoc(rows: seq<Row>, r: Row, depth: int, info: Pointer, infosHome: nat, table: Pointer, tablesHome: nat)
    requires info == Pointer(infosHome, |CatalogRuns(rows + [r])| - 1)
    requires table == LastElement(AddTable(TablesOf(OpenRun(rows, r), depth), r, depth), tablesHome)
    ensures PointersCurrent(rows + [r], depth, info, infosHome, table, tablesHome)
  {
    RowSnoc(rows, r, depth);
    TablesSnoc(OpenRun(rows, r), r, depth);
  }

  lemma NoRows(depth: int, infosHome: nat, tablesHome: nat)
    ensures Tree([], depth) == [] && !Panics([]) && PointersCurrent([], depth, Nil, infosHome, Nil, tablesHome)
  {
  }

  lemma OpenRunFacts(rows: seq<Row>, r: Row, depth: int)
    ensures var infos, run := Tree(rows, depth), OpenRun(rows, r);
      && |infos| == |CatalogRuns(rows)|
      && (run != [] <==> infos != [] && Last(infos).name == r.catalog)
      && (run != [] ==> Last(infos) == CatalogOf(run, depth) && run[0].catalog == r.catalog
                        && (!Panics(rows) ==> !MissingSchema(run)))
      && (run == [] ==> TablesOf(run, depth) == [])
  {
    EmptyRun(depth);
  }

  lemma PointersOpen(rows: seq<Row>, r: Row, depth: int, info: Pointer, infosHome: nat, table: Pointer, tablesHome: nat)
    requires PointersCurrent(rows, depth, info, infosHome, table, tablesHome)
    ensures info == LastElement(Tree(rows, depth), infosHome)
    ensures OpenRun(rows, r) != [] ==> table == LastElement(TablesOf(OpenRun(rows, r), depth), tablesHome)
  {
  }

  // ---------- Nothing lost, duplicated or moved ----------

  datatype Cell = Cell(catalog: string, table: string, column: Column)

  function TableCells(catalog: string, t: Table): seq<Cell> {
    var columns := t.columns.GetOr([]);
    seq(|columns|, i requires 0 <= i < |columns| => Cell(catalog, t.name, columns[i]))
  }

  function TablesCells(catalog: string, ts: seq<Table>): seq<Cell> {
    if ts == [] then [] else TablesCells(catalog, ts[..|ts| - 1]) + TableCells(catalog, Last(ts))
  }

  function CatalogCells(c: Catalog): seq<Cell> {
    if HasSchema(c) then TablesCells(c.name, c.schemas.value[0].tables.GetOr([])) else []
  }

  /** Every column of a tree with its place, in tree order. */
  function Cells(cs: seq<Catalog>): seq<Cell> {
    if cs == [] then [] else Cells(cs[..|cs| - 1]) + CatalogCells(Last(cs))
  }

  predicate IsCell(r: Row) { HasTable(r) && HasColumn(r) }
  function CellOf(r: Row): Cell { Cell(r.catalog, TableName(r), ColumnOf(r)) }

  lemma AddTableCells(catalog: string, ts: seq<Table>, r: Row, depth: int)
    requires r.catalog == catalog
    ensures TablesCells(catalog, AddTable(ts, r, depth)) == TablesCells(catalog, ts) + if IsCell(r) then [CellOf(r)] else []
  {
    if r.table.None? {
    } else if ts != [] && Last(ts).name == r.table.value {
      SnocParts(ts[..|ts| - 1], AddColumn(Last(ts), r));
      assert TableCells(catalog, AddColumn(Last(ts), r)) == TableCells(catalog, Last(ts)) + if IsCell(r) then [CellOf(r)] else [];
    } else {
      var t := AddColumn(NewTable(r, depth), r);
      SnocParts(ts, t);
      assert TableCells(catalog, t) == if IsCell(r) then [CellOf(r)] else [];
    }
  }

  function AddedCells(r: Row): seq<Cell> {
    if IsCell(r) then [CellOf(r)] else []
  }

  lemma CatalogCellsSnoc(run: seq<Row>, r: Row, depth: int)
    requires run != [] ==> run[0].catalog == r.catalog
    requires !MissingSchema(run + [r])
    ensures CatalogCells(CatalogOf(run + [r], depth))
      == (if run == [] then [] else CatalogCells(CatalogOf(run, depth))) + AddedCells(r)
  {
    hide TablesOf, AddTable, CatalogOf, MissingSchema;
    if run != [] { MissingSnoc(run, r); }
    CatalogSnoc(run, r, depth);
    AddTableCells(r.catalog, TablesOf(run, depth), r, depth);
    var base := if run == [] then NewCatalog(r, depth) else CatalogOf(run, depth);
    assert base.name == r.catalog by { CatalogNamed(run, depth); }
    assert run == [] ==> CatalogCells(base) == [];
    assert CatalogCells(base) + [] == CatalogCells(base);
  }

  lemma CatalogNamed(run: seq<Row>, depth: int)
    ensures run != [] ==> CatalogOf(run, depth).name == run[0].catalog
  {
  }

  lemma FilteredCells(rows: seq<Row>, r: Row)
    ensures Map(Filter(rows + [r], IsCell), CellOf) == Map(Filter(rows, IsCell), CellOf) + AddedCells(r)
  {
    hide Filter;
    FilterSnoc(rows, r, IsCell);
    var before := Filter(rows, IsCell);
    if IsCell(r) {
      MapSnoc(before, r, CellOf);
    } else {
      assert before + [] == before;
    }
  }

  lemma TreeCellsSnoc(rows: seq<Row>, r: Row, depth: int)
    requires !Panics(rows + [r])
    ensures !Panics(rows) && Cells(Tree(rows + [r], depth)) == Cells(Tree(rows, depth)) + AddedCells(r)
  {
    hide CatalogOf, MissingSchema, Tree, Panics, OpenRun, CatalogRuns, CatalogCells, AddedCells;
    var run, infos := OpenRun(rows, r), Tree(rows, depth);
    RowSnoc(rows, r, depth);
    OpenRunFacts(rows, r, depth);
    CatalogCellsSnoc(run, r, depth);
    var kept := if run == [] then infos else infos[..|infos| - 1];
    SnocParts(kept, CatalogOf(run + [r], depth));
  }

  /** The columns of the tree, read in order, are exactly the rows that carry a column, in row order. */
  lemma {:induction false} TreeCells(rows: seq<Row>, depth: int)
    requires !Panics(rows)
    ensures Cells(Tree(rows, depth)) == Map(Filter(rows, IsCell), CellOf)
  {
    if rows == [] {
      NoRows(depth, 0, 0);
      assert Filter(rows, IsCell) == [];
    } else {
      hide Tree, Panics, Filter, Cells, Map, AddedCells;
      var before, r := rows[..|rows| - 1], Last(rows);
      assert rows == before + [r];
      TreeCellsSnoc(before, r, depth);
      TreeCells(before, depth);
      FilteredCells(before, r);
    }
  }

  function CatalogName(c: Catalog): string { c.name }
  function NameOf(t: Table): string { t.name }

  /** Catalogs appear in first-seen order, once per run; none appears twice exactly when the rows are contiguous by
      catalog. The same holds for the tables of each catalog. */
  lemma TreeNames(rows: seq<Row>, depth: int)
    ensures var names := Map(Tree(rows, depth), CatalogName);
      names == Dedup(Map(rows, CatalogKey)) && (NoRepeat(names) <==> Contiguous(Map(rows, CatalogKey)))
    ensures forall run :: var names, tables := Map(TablesOf(run, depth), NameOf), Map(Filter(run, HasTable), TableName);
      names == Dedup(tables) && (NoRepeat(names) <==> Contiguous(tables))
  {
    RunHeads(rows, CatalogKey);
    DedupDistinct(Map(rows, CatalogKey));
    assert Map(Tree(rows, depth), CatalogName) == Heads(CatalogRuns(rows), CatalogKey);
    forall run
      ensures var names, tables := Map(TablesOf(run, depth), NameOf), Map(Filter(run, HasTable), TableName);
        names == Dedup(tables) && (NoRepeat(names) <==> Contiguous(tables))
    {
      var tables := Filter(run, HasTable);
      RunHeads(tables, TableName);
      DedupDistinct(Map(tables, TableName));
      assert Map(TablesOf(run, depth), NameOf) == Heads(TableRuns(run), TableName);
    }
  }
}

/** Collations that tie distinct names: exactly when GetObjects still returns the nested specification. */
module ObjectTies {
  import opened Prelude
  import opened Grouping
  import opened ObjectTree
  import opened ObjectQuery

  // ---------- Ordering a set of rows ----------

  ghost predicate TotalPreorder<T(!new)>(le: (T, T) -> bool) {
    && (forall a, b :: le(a, b) || le(b, a))
    && (forall a, b, c :: le(a, b) && le(b, c) ==> le(a, c))
  }

  lemma {:induction false} Least<T(!new)>(s: set<T>, le: (T, T) -> bool) returns (m: T)
    requires s != {} && TotalPreorder(le)
    ensures m in s && forall x <- s :: le(m, x)
  {
    var x :| x in s;
    if s == {x} {
      m := x;
    } else {
      var rest := s - {x};
      assert s == rest + {x};
      var n := Least(rest, le);
      m := if le(x, n) then x else n;
    }
  }

  /** Every finite set can be listed in order, each element once. */
  lemma {:induction false} Listing<T(!new)>(s: set<T>, le: (T, T) -> bool) returns (list: seq<T>)
    requires TotalPreorder(le)
    ensures NoRepeat(list) && (forall x :: x in list <==> x in s) && Ordered(list, le)
  {
    if s == {} {
      list := [];
    } else {
      var m := Least(s, le);
      var rest := Listing(s - {m}, le);
      list := [m] + rest;
      forall i, j | 0 <= i < j < |list|
        ensures list[i] != list[j] && le(list[i], list[j])
      {
        assert list[j] == rest[j - 1] && rest[j - 1] in rest;
        if i > 0 {
          assert list[i] == rest[i - 1];
        }
      }
    }
  }

  /** le, with z between x and y wherever le leaves the choice. */
  ghost function Between<T(!new)>(le: (T, T) -> bool, x: T, y: T): (T, T) -> bool {
    (a, b) => le(a, b) && (le(b, a) ==> Rank(x, y, a) <= Rank(x, y, b))
  }

  function Rank<T(==)>(x: T, y: T, a: T): nat {
    if a == x then 0 else if a == y then 2 else 1
  }

  lemma BetweenPreorder<T(!new)>(le: (T, T) -> bool, x: T, y: T)
    requires TotalPreorder(le)
    ensures TotalPreorder(Between(le, x, y))
  {
  }

  /** In any listing by that order, x comes before z and z before y. */
  lemma Placed<T(!new)>(list: seq<T>, le: (T, T) -> bool, x: T, z: T, y: T) returns (i: nat, j: nat, k: nat)
    requires Ordered(list, Between(le, x, y)) && x in list && z in list && y in list
    requires x != y && z != x && z != y && le(x, z) && le(z, y)
    ensures i < j < k < |list| && list[i] == x && list[j] == z && list[k] == y
  {
    i :| 0 <= i < |list| && list[i] == x;
    j :| 0 <= j < |list| && list[j] == z;
    k :| 0 <= k < |list| && list[k] == y;
    assert j < i ==> Between(le, x, y)(z, x);
    assert k < j ==> Between(le, x, y)(y, z);
  }

  lemma RowsPreordered(before: Before)
    requires StrictWeak(before)
    ensures TotalPreorder(RowOrder(before))
  {
    forall a, b, c | RowLe(before, a, b) && RowLe(before, b, c)
      ensures RowLe(before, a, c)
    {
      RowsTransitive(before, a, b, c);
    }
    assert forall a, b :: RowLe(before, a, b) || RowLe(before, b, a);
  }

  lemma TablesTransitive(before: Before, a: Row, b: Row, c: Row)
    requires StrictWeak(before) && TableLe(before, a, b) && TableLe(before, b, c)
    ensures TableLe(before, a, c)
  {
  }

  lemma RowsTransitive(before: Before, a: Row, b: Row, c: Row)
    requires StrictWeak(before) && RowLe(before, a, b) && RowLe(before, b, c)
    ensures RowLe(before, a, c)
  {
    if TableLe(before, a, b) && TableLe(before, b, c) {
      TablesTransitive(before, a, b, c);
    }
    hide TableLe;
  }

  // ---------- An answer that is not folded right ----------

  lemma {:induction false} OrderedDistinct(names: seq<string>, before: Before)
    requires Ordered(names, NameOrder(before))
    ensures NoRepeat(names)
  {
    assert forall i, j | 0 <= i < j < |names| :: NameOrder(before)(names[i], names[j]);
  }

  lemma NestedCatalogs(cs: seq<Catalog>, server: Server, q: Request, like: Like, before: Before)
    requires Nested(cs, server, q, like, before)
    ensures NoRepeat(Map(cs, CatalogName))
  {
    hide NestedTables;
    OrderedDistinct(Map(cs, CatalogName), before);
  }

  lemma NestedTableNames(cs: seq<Catalog>, a: nat, server: Server, q: Request, like: Like, before: Before)
    requires Nested(cs, server, q, like, before) && a < |cs| && HasSchema(cs[a])
    ensures NoRepeat(Map(cs[a].schemas.value[0].tables.GetOr([]), NameOf))
  {
    var tables := cs[a].schemas.value[0].tables;
    assert SchemaWanted(q, like);
    if tables.Some? {
      OrderedDistinct(Map(tables.value, NameOf), before);
    }
  }

  /** Two rows of one catalog with another catalog's row between them: the catalog is built twice. */
  lemma CatalogTwice(rows: seq<Row>, i: nat, j: nat, k: nat, server: Server, q: Request, like: Like, before: Before)
    requires i < j < k < |rows| && PartsCatalog(rows[i], rows[j], rows[k])
    ensures !Nested(Tree(rows, q.depth), server, q, like, before)
  {
    hide Nested, Tree;
    var keys := Map(rows, CatalogKey);
    assert keys[i] == keys[k] && keys[j] != keys[i];
    TreeNames(rows, q.depth);
    if Nested(Tree(rows, q.depth), server, q, like, before) {
      NestedCatalogs(Tree(rows, q.depth), server, q, like, before);
    }
  }

  /** The run of a catalog that is not built twice holds all its rows, in order. */
  lemma CatalogRun(rows: seq<Row>, x: Row, depth: int) returns (a: nat)
    requires x in rows && Contiguous(Map(rows, CatalogKey))
    ensures a < |Tree(rows, depth)| && a < |CatalogRuns(rows)|
    ensures Tree(rows, depth)[a] == CatalogOf(CatalogRuns(rows)[a], depth)
    ensures CatalogRuns(rows)[a] == Filter(rows, KeyIs(CatalogKey, x.catalog)) && x in CatalogRuns(rows)[a]
  {
    hide Runs, Filter;
    a := RunOfKey(rows, CatalogKey, x);
    RunIsFilter(rows, CatalogKey, a);
  }

  /** One catalog's rows that have a table. */
  function CatalogTables(rows: seq<Row>, catalog: string): seq<Row> {
    Filter(Filter(rows, KeyIs(CatalogKey, catalog)), HasTable)
  }

  ghost predicate SchemasAlike(rows: seq<Row>) {
    forall r, u | r in rows && u in rows :: r.schema == u.schema
  }

  /** The entry of a nested tree for the catalog of a row with a table, and that its tables are not split. */
  lemma NestedEntry(rows: seq<Row>, x: Row, server: Server, q: Request, like: Like, before: Before) returns (c: Catalog)
    requires Nested(Tree(rows, q.depth), server, q, like, before) && SchemasAlike(rows)
    requires x in rows && x.table.Some? && x.schema.Some?
    ensures c in Tree(rows, q.depth) && c.name == x.catalog && HasSchema(c)
    ensures c.schemas.value[0].tables.GetOr([]) == TablesFrom(Runs(CatalogTables(rows, x.catalog), TableName), q.depth)
    ensures Contiguous(Map(CatalogTables(rows, x.catalog), TableName))
  {
    hide Nested, Filter, TablesFrom, Contiguous;
    NestedCatalogs(Tree(rows, q.depth), server, q, like, before);
    TreeNames(rows, q.depth);
    var a := CatalogRun(rows, x, q.depth);
    var run := CatalogRuns(rows)[a];
    c := Tree(rows, q.depth)[a];
    assert run[0] in run;
    hide CatalogRuns, Runs, Tree;
    RunHasSchema(run, q.depth);
    NestedTableNames(Tree(rows, q.depth), a, server, q, like, before);
    assert TablesOf(run, q.depth) == TablesFrom(Runs(CatalogTables(rows, x.catalog), TableName), q.depth);
  }

  lemma RunHasSchema(run: seq<Row>, depth: int)
    requires run != [] && run[0].schema.Some?
    ensures HasSchema(CatalogOf(run, depth)) && CatalogOf(run, depth).schemas.value[0].tables.GetOr([]) == TablesOf(run, depth)
    ensures CatalogOf(run, depth).name == run[0].catalog
  {
    hide TablesOf;
  }

  /** Where a catalog's rows that have a table put the row at i. */
  function TablePlace(rows: seq<Row>, catalog: string, i: nat): nat
    requires i <= |rows|
  {
    KeptWithin(rows, KeyIs(CatalogKey, catalog), i);
    Kept(Filter(rows, KeyIs(CatalogKey, catalog)), HasTable, Kept(rows, KeyIs(CatalogKey, catalog), i))
  }

  lemma {:induction false} KeptWithin<T>(s: seq<T>, p: T -> bool, i: nat)
    requires i <= |s|
    ensures Kept(s, p, i) <= |Filter(s, p)|
  {
    if i < |s| {
      var front := s[..|s| - 1];
      KeptWithin(front, p, i);
      assert front[..i] == s[..i];
    } else {
      assert s[..i] == s;
    }
  }

  lemma TablePlaced(rows: seq<Row>, i: nat)
    requires i < |rows| && rows[i].table.Some?
    ensures var place, list := TablePlace(rows, rows[i].catalog, i), CatalogTables(rows, rows[i].catalog);
            place < |list| && list[place] == rows[i]
  {
    hide Filter, Kept;
    var ofCatalog := KeyIs(CatalogKey, rows[i].catalog);
    KeptAt(rows, ofCatalog, i);
    KeptAt(Filter(rows, ofCatalog), HasTable, Kept(rows, ofCatalog, i));
  }

  lemma TablePlacedLater(rows: seq<Row>, i: nat, j: nat)
    requires i < j < |rows| && rows[i].table.Some?
    ensures TablePlace(rows, rows[i].catalog, i) < TablePlace(rows, rows[i].catalog, j)
  {
    hide Filter, Kept;
    var ofCatalog := KeyIs(CatalogKey, rows[i].catalog);
    KeptAt(rows, ofCatalog, i);
    KeptLater(rows, ofCatalog, i, j);
    KeptWithin(rows, ofCatalog, j);
    KeptLater(Filter(rows, ofCatalog), HasTable, Kept(rows, ofCatalog, i), Kept(rows, ofCatalog, j));
  }

  /** Two rows of one table with a row of another table of the catalog between them: the table is built twice. */
  lemma TableTwice(rows: seq<Row>, i: nat, j: nat, k: nat, server: Server, q: Request, like: Like, before: Before)
    requires i < j < k < |rows| && PartsTable(rows[i], rows[j], rows[k])
    requires rows[i].schema.Some? && SchemasAlike(rows)
    ensures !Nested(Tree(rows, q.depth), server, q, like, before)
  {
    hide Nested, Tree, TablesFrom;
    var catalog := rows[i].catalog;
    var a, b, c := TablePlace(rows, catalog, i), TablePlace(rows, catalog, j), TablePlace(rows, catalog, k);
    TablePlaced(rows, i);
    TablePlaced(rows, j);
    TablePlaced(rows, k);
    TablePlacedLater(rows, i, j);
    TablePlacedLater(rows, j, k);
    hide TablePlace, CatalogTables;
    var names := Map(CatalogTables(rows, catalog), TableName);
    assert names[a] == names[c] && names[b] != names[a];
    if Nested(Tree(rows, q.depth), server, q, like, before) {
      var entry := NestedEntry(rows, rows[i], server, q, like, before);
    }
  }

  // ---------- Some answer for every order of what ties ----------

  ghost function JoinOrder(le: (Row, Row) -> bool): (ColumnJoin, ColumnJoin) -> bool {
    (a, b) => le(RowOf(a), RowOf(b))
  }

  lemma AnswerListed(server: Server, q: Request, like: Like, before: Before, le: (ColumnJoin, ColumnJoin) -> bool)
    returns (js: seq<ColumnJoin>)
    requires TotalPreorder(le) && forall a, b :: le(a, b) ==> RowLe(before, RowOf(a), RowOf(b))
    ensures Lists(js, server, q, like, before) && Answers(Map(js, RowOf), server, q, like, before) && Ordered(js, le)
    ensures forall j :: j in js <==> Met(server, q, like, before, j)
  {
    hide RowLe, TotalPreorder, Joined, Met, RowOf;
    js := Listing(Joined(server, q, like, before), le);
    forall j
      ensures j in js <==> Met(server, q, like, before, j)
    {
      ResultMember(server, q, like, before, j);
    }
    assert forall i, j | 0 <= i < j < |js| :: le(js[i], js[j]);
  }

  lemma RowsOfAnswer(rows: seq<Row>, server: Server, q: Request, like: Like, before: Before)
    requires Answers(rows, server, q, like, before)
    ensures forall r <- rows :: exists j :: Met(server, q, like, before, j) && RowOf(j) == r
    ensures SchemasAlike(rows)
    ensures forall r <- rows :: r.table.Some? ==> r.schema.Some?
  {
    var js :| Lists(js, server, q, like, before) && rows == Map(js, RowOf);
    hide Joined, Lists, Tied, RowLe;
    assert Lists(js, server, q, like, before);
    forall r | r in rows
      ensures r.schema == SchemaCell(q, like) && (r.table.Some? ==> r.schema.Some?)
      ensures exists j :: Met(server, q, like, before, j) && RowOf(j) == r
    {
      var i :| 0 <= i < |rows| && rows[i] == r;
      InListing(js, server, q, like, before, js[i]);
    }
  }

  lemma InListing(js: seq<ColumnJoin>, server: Server, q: Request, like: Like, before: Before, j: ColumnJoin)
    requires Lists(js, server, q, like, before)
    ensures j in js <==> Met(server, q, like, before, j)
  {
    hide Joined;
    ResultMember(server, q, like, before, j);
  }

  /** No answer makes the loop panic, whatever ties. */
  lemma NeverPanics(rows: seq<Row>, server: Server, q: Request, like: Like, before: Before)
    requires Answers(rows, server, q, like, before)
    ensures !Panics(rows)
  {
    hide Answers, Runs, Met;
    var groups := CatalogRuns(rows);
    RowsOfAnswer(rows, server, q, like, before);
    RunsSound(rows, CatalogKey);
    forall a | 0 <= a < |groups|
      ensures !MissingSchema(groups[a])
    {
      forall r | r in groups[a]
        ensures r in rows
      {
        FlattenMembers(groups, r);
      }
      assert groups[a][0] in groups[a];
      if HasTable(groups[a][0]) || groups[a][0].schema.Some? {
      } else {
        FilterNone(groups[a], HasTable);
      }
    }
  }

  // ---------- Ties that interleave ----------

  lemma JoinsPreordered(le: (Row, Row) -> bool)
    requires TotalPreorder(le)
    ensures TotalPreorder(JoinOrder(le))
  {
    hide RowOf;
    forall a, b, c: ColumnJoin | JoinOrder(le)(a, b) && JoinOrder(le)(b, c)
      ensures JoinOrder(le)(a, c)
    {
      var x, y, z := RowOf(a), RowOf(b), RowOf(c);
      assert le(x, y) && le(y, z);
    }
    forall a, b: ColumnJoin
      ensures JoinOrder(le)(a, b) || JoinOrder(le)(b, a)
    {
      var x, y := RowOf(a), RowOf(b);
      assert le(x, y) || le(y, x);
    }
  }

  lemma InterleavedListing(server: Server, q: Request, like: Like, before: Before)
    returns (js: seq<ColumnJoin>, i: nat, j: nat, k: nat)
    requires StrictWeak(before) && TiesInterleave(server, q, like, before)
    ensures Answers(Map(js, RowOf), server, q, like, before) && i < j < k < |js|
    ensures PartsCatalog(RowOf(js[i]), RowOf(js[j]), RowOf(js[k])) || PartsTable(RowOf(js[i]), RowOf(js[j]), RowOf(js[k]))
  {
    var x, z, y :| Met(server, q, like, before, x) && Met(server, q, like, before, z) && Met(server, q, like, before, y)
                   && x != y && Parts(before, RowOf(x), RowOf(z), RowOf(y));
    var le := JoinOrder(RowOrder(before));
    hide Met, RowLe, StrictWeak, Answers, Ordered, RowOf, Lists, TotalPreorder;
    assert PartsCatalog(RowOf(x), RowOf(z), RowOf(y)) || PartsTable(RowOf(x), RowOf(z), RowOf(y));
    assert z != x && z != y && le(x, z) && le(z, y);
    hide Parts, PartsCatalog, PartsTable;
    RowsPreordered(before);
    JoinsPreordered(RowOrder(before));
    BetweenPreorder(le, x, y);
    js := AnswerListed(server, q, like, before, Between(le, x, y));
    hide Between;
    i, j, k := Placed(js, le, x, z, y);
  }

  /** Rows that can interleave do so in some answer. */
  lemma InterleavedAnswer(server: Server, q: Request, like: Like, before: Before) returns (rows: seq<Row>)
    requires StrictWeak(before) && TiesInterleave(server, q, like, before)
    ensures Answers(rows, server, q, like, before) && !Nested(Tree(rows, q.depth), server, q, like, before)
  {
    hide StrictWeak, Nested, Tree, Answers, RowOf, TiesInterleave;
    var js, i, j, k := InterleavedListing(server, q, like, before);
    rows := Map(js, RowOf);
    RowsOfAnswer(rows, server, q, like, before);
    assert rows[i] in rows;
    if PartsCatalog(rows[i], rows[j], rows[k]) {
      CatalogTwice(rows, i, j, k, server, q, like, before);
    } else {
      TableTwice(rows, i, j, k, server, q, like, before);
    }
  }

  // ---------- Ties that join a column to another table ----------

  lemma TableCellMember(catalog: string, t: Table, cell: Cell)
    ensures cell in TableCells(catalog, t) <==>
            cell.catalog == catalog && cell.table == t.name && cell.column in t.columns.GetOr([])
  {
    var columns, cells := t.columns.GetOr([]), TableCells(catalog, t);
    if cell.catalog == catalog && cell.table == t.name && cell.column in columns {
      var i :| 0 <= i < |columns| && columns[i] == cell.column;
      assert cells[i] == cell;
    }
  }

  lemma {:induction false} TablesCellMember(catalog: string, ts: seq<Table>, cell: Cell)
    ensures cell in TablesCells(catalog, ts) <==> exists t <- ts :: cell in TableCells(catalog, t)
  {
    hide TableCells;
    if ts != [] {
      TablesCellMember(catalog, ts[..|ts| - 1], cell);
      assert ts == ts[..|ts| - 1] + [Last(ts)];
    }
  }

  lemma {:induction false} TablesCellsOnce(catalog: string, ts: seq<Table>)
    requires NoRepeat(Map(ts, NameOf)) && forall t <- ts :: NoRepeat(t.columns.GetOr([]))
    ensures NoRepeat(TablesCells(catalog, ts))
  {
    hide TableCells;
    if ts != [] {
      var front, t := ts[..|ts| - 1], Last(ts);
      assert ts == front + [t];
      MapSnoc(front, t, NameOf);
      NoRepeatSnoc(Map(front, NameOf), t.name);
      TablesCellsOnce(catalog, front);
      forall cell | cell in TablesCells(catalog, front)
        ensures cell !in TableCells(catalog, t)
      {
        TablesCellMember(catalog, front, cell);
        var u :| u in front && cell in TableCells(catalog, u);
        TableCellMember(catalog, u, cell);
        TableCellMember(catalog, t, cell);
        var i :| 0 <= i < |front| && front[i] == u;
        assert Map(front, NameOf)[i] == u.name;
      }
      TableCellsOnce(catalog, t);
      NoRepeatAppend(TablesCells(catalog, front), TableCells(catalog, t));
    }
  }

  lemma TableCellsOnce(catalog: string, t: Table)
    requires NoRepeat(t.columns.GetOr([]))
    ensures NoRepeat(TableCells(catalog, t))
  {
  }

  lemma {:induction false} CellMember(cs: seq<Catalog>, cell: Cell)
    ensures cell in Cells(cs) <==> exists c <- cs :: cell in CatalogCells(c)
  {
    hide CatalogCells;
    if cs != [] {
      CellMember(cs[..|cs| - 1], cell);
      assert cs == cs[..|cs| - 1] + [Last(cs)];
    }
  }

  lemma CatalogCellMember(c: Catalog, cell: Cell)
    requires cell in CatalogCells(c)
    ensures cell.catalog == c.name && HasSchema(c)
    ensures exists t <- c.schemas.value[0].tables.GetOr([]) :: t.name == cell.table && cell.column in t.columns.GetOr([])
  {
    var ts := c.schemas.value[0].tables.GetOr([]);
    TablesCellMember(c.name, ts, cell);
    var t :| t in ts && cell in TableCells(c.name, t);
    TableCellMember(c.name, t, cell);
  }

  lemma {:induction false} CellsOnce(cs: seq<Catalog>)
    requires NoRepeat(Map(cs, CatalogName)) && forall c <- cs :: NoRepeat(CatalogCells(c))
    ensures NoRepeat(Cells(cs))
  {
    hide CatalogCells;
    if cs != [] {
      var front, c := cs[..|cs| - 1], Last(cs);
      assert cs == front + [c];
      MapSnoc(front, c, CatalogName);
      NoRepeatSnoc(Map(front, CatalogName), c.name);
      CellsOnce(front);
      forall cell | cell in Cells(front)
        ensures cell !in CatalogCells(c)
      {
        CellMember(front, cell);
        var d :| d in front && cell in CatalogCells(d);
        CatalogCellMember(d, cell);
        if cell in CatalogCells(c) {
          CatalogCellMember(c, cell);
        }
        var i :| 0 <= i < |front| && front[i] == d;
        assert Map(front, CatalogName)[i] == d.name;
      }
      NoRepeatAppend(Cells(front), CatalogCells(c));
    }
  }

  lemma NestedCatalogTables(cs: seq<Catalog>, c: Catalog, server: Server, q: Request, like: Like, before: Before)
    requires Nested(cs, server, q, like, before) && c in cs && HasSchema(c)
    ensures NestedTables(c.schemas.value[0].tables, server, q, like, before, c.name)
  {
    hide NestedTables;
  }

  lemma NestedTableEntry(ts: seq<Table>, t: Table, server: Server, q: Request, like: Like, before: Before, catalog: string)
    requires NestedTables(Some(ts), server, q, like, before, catalog) && t in ts
    ensures NestedTable(t, server, q, like, catalog)
  {
    hide NestedTable;
  }

  /** A column shown in a nested tree belongs there. */
  lemma CellBelongs(cs: seq<Catalog>, cell: Cell, server: Server, q: Request, like: Like, before: Before) returns (t: TableDef)
    requires Nested(cs, server, q, like, before) && cell in Cells(cs)
    ensures TableWanted(server, q, like, t) && t.catalog == cell.catalog && t.name == cell.table
    ensures ColumnWanted(server, q, like, ColumnDef(t.catalog, t.name, cell.column))
  {
    CellMember(cs, cell);
    hide Nested, NestedTables;
    var c :| c in cs && cell in CatalogCells(c);
    CatalogCellMember(c, cell);
    var entry :| entry in c.schemas.value[0].tables.GetOr([]) && entry.name == cell.table && cell.column in entry.columns.GetOr([]);
    NestedCatalogTables(cs, c, server, q, like, before);
    NestedTableEntry(c.schemas.value[0].tables.value, entry, server, q, like, before, c.name);
    hide Cells, CatalogCells, TableWanted, ColumnWanted;
    t := TableDef(c.name, entry.name, entry.kind);
  }

  /** A nested tree shows every column once. */
  lemma NestedCellsOnce(cs: seq<Catalog>, server: Server, q: Request, like: Like, before: Before)
    requires Nested(cs, server, q, like, before)
    ensures NoRepeat(Cells(cs))
  {
    NestedCatalogs(cs, server, q, like, before);
    hide Nested, TablesCells, NestedTables;
    forall c | c in cs
      ensures NoRepeat(CatalogCells(c))
    {
      if HasSchema(c) && c.schemas.value[0].tables.Some? {
        var ts := c.schemas.value[0].tables.value;
        NestedCatalogTables(cs, c, server, q, like, before);
        NestedNames(ts, server, q, like, before, c.name);
        forall t | t in ts
          ensures NoRepeat(t.columns.GetOr([]))
        {
          NestedTableEntry(ts, t, server, q, like, before, c.name);
        }
        TablesCellsOnce(c.name, ts);
      } else if HasSchema(c) {
        TablesCellsOnce(c.name, []);
      }
    }
    CellsOnce(cs);
  }

  lemma NestedNames(ts: seq<Table>, server: Server, q: Request, like: Like, before: Before, catalog: string)
    requires NestedTables(Some(ts), server, q, like, before, catalog)
    ensures NoRepeat(Map(ts, NameOf))
  {
    OrderedDistinct(Map(ts, NameOf), before);
  }

  lemma CellShown(rows: seq<Row>, i: nat, k: nat, depth: int)
    requires !Panics(rows) && i < |rows| && k < |rows| && IsCell(rows[i]) && IsCell(rows[k])
    ensures CellOf(rows[i]) in Cells(Tree(rows, depth))
    ensures i < k && CellOf(rows[i]) == CellOf(rows[k]) ==> !NoRepeat(Cells(Tree(rows, depth)))
  {
    hide Tree, Cells, Filter, Panics, CellOf, Kept;
    TreeCells(rows, depth);
    KeptAt(rows, IsCell, i);
    KeptAt(rows, IsCell, k);
    var cells := Map(Filter(rows, IsCell), CellOf);
    assert cells[Kept(rows, IsCell, i)] == CellOf(rows[i]);
    if i < k {
      KeptLater(rows, IsCell, i, k);
      assert cells[Kept(rows, IsCell, k)] == CellOf(rows[k]);
    }
  }

  /** Two joined columns that land in one place are shown twice there. */
  lemma JoinedTwice(js: seq<ColumnJoin>, x: ColumnJoin, y: ColumnJoin, depth: int)
    requires x in js && y in js && x != y && !Panics(Map(js, RowOf))
    requires IsCell(RowOf(x)) && IsCell(RowOf(y)) && CellOf(RowOf(x)) == CellOf(RowOf(y))
    ensures !NoRepeat(Cells(Tree(Map(js, RowOf), depth)))
  {
    hide *;
    var i :| 0 <= i < |js| && js[i] == x;
    var k :| 0 <= k < |js| && js[k] == y;
    var rows := Map(js, RowOf);
    assert rows[i] == RowOf(x) && rows[k] == RowOf(y);
    if i < k {
      CellShown(rows, i, k, depth);
    } else {
      CellShown(rows, k, i, depth);
    }
  }

  lemma MetTied(server: Server, q: Request, like: Like, before: Before, j: ColumnJoin, t: TableDef, c: Column)
    requires StrictWeak(before) && Met(server, q, like, before, j) && j.1.Some?
    requires TableWanted(server, q, like, t) && t.catalog == j.0.0.0 && t.name == j.0.1.value.name
    requires ColumnWanted(server, q, like, ColumnDef(t.catalog, t.name, c))
    ensures Met(server, q, like, before, (((t.catalog, SchemaCell(q, like)), Some(t)), Some(ColumnDef(t.catalog, t.name, c))))
  {
    WantedIsMet(server, q, like, before, t);
    Reflexive(before, t.catalog);
    Reflexive(before, t.name);
  }

  /** The same place with the names it belongs to. */
  function OwnJoin(q: Request, like: Like, t: TableDef, c: Column): ColumnJoin {
    (((t.catalog, SchemaCell(q, like)), Some(t)), Some(ColumnDef(t.catalog, t.name, c)))
  }

  lemma OwnPlace(server: Server, q: Request, like: Like, before: Before, j: ColumnJoin, t: TableDef)
    requires StrictWeak(before) && Met(server, q, like, before, j) && j.1.Some? && !SameNames(server, q, like, j)
    requires TableWanted(server, q, like, t) && t.catalog == j.0.0.0 && t.name == j.0.1.value.name
    requires ColumnWanted(server, q, like, ColumnDef(t.catalog, t.name, j.1.value.column))
    ensures var own := OwnJoin(q, like, t, j.1.value.column);
            && Met(server, q, like, before, own) && own != j
            && IsCell(RowOf(j)) && IsCell(RowOf(own)) && CellOf(RowOf(own)) == CellOf(RowOf(j))
  {
    MetTied(server, q, like, before, j, t, j.1.value.column);
    hide Met, Tied, KindListed, Matches, StrictWeak;
  }

  lemma JoinCell(j: ColumnJoin)
    requires j.0.1.Some? && j.1.Some?
    ensures IsCell(RowOf(j)) && CellOf(RowOf(j)) == Cell(j.0.0.0, j.0.1.value.name, j.1.value.column)
  {
  }

  lemma StrayColumn(rows: seq<Row>, server: Server, q: Request, like: Like, before: Before, j: ColumnJoin)
    requires StrictWeak(before) && Answers(rows, server, q, like, before)
    requires Met(server, q, like, before, j) && j.1.Some? && !SameNames(server, q, like, j)
    ensures !Nested(Tree(rows, q.depth), server, q, like, before)
  {
    NeverPanics(rows, server, q, like, before);
    var js :| Lists(js, server, q, like, before) && rows == Map(js, RowOf);
    InListing(js, server, q, like, before, j);
    JoinCell(j);
    var i :| 0 <= i < |js| && js[i] == j;
    assert rows[i] == RowOf(j);
    hide Nested, Tree, Panics, Lists, Answers, Cells, StrictWeak, Met, SameNames, RowOf, CellOf, IsCell;
    hide TableWanted, ColumnWanted, OwnJoin;
    CellShown(rows, i, i, q.depth);
    if Nested(Tree(rows, q.depth), server, q, like, before) {
      var t := CellBelongs(Tree(rows, q.depth), CellOf(RowOf(j)), server, q, like, before);
      var own := OwnJoin(q, like, t, j.1.value.column);
      OwnPlace(server, q, like, before, j, t);
      InListing(js, server, q, like, before, own);
      JoinedTwice(js, j, own, q.depth);
      NestedCellsOnce(Tree(rows, q.depth), server, q, like, before);
    }
  }

  // ---------- Ties that join a table to another catalog ----------

  /** Tables of one name joined to one catalog meet the same columns. */
  lemma ColumnsShared(server: Server, q: Request, like: Like, before: Before, x: ColumnJoin, y: ColumnJoin)
    requires StrictWeak(before) && Met(server, q, like, before, x) && Met(server, q, like, before, y)
    requires x.0.1.Some? && y.0.1.Some? && x.0.0.0 == y.0.0.0 && x.0.1.value.name == y.0.1.value.name
    ensures x.1.Some? ==> y.1.Some?
  {
    if x.1.Some? {
      assert ColumnMet(server, q, like, before, y.0.1.value, x.1.value);
    }
  }

  lemma BareRowsTie(before: Before, a: Row, b: Row)
    requires StrictWeak(before) && a.catalog == b.catalog && a.table == b.table && a.ordinal.None?
    ensures RowLe(before, a, b)
  {
  }

  /** Of a table whose rows have no columns the order may list any row first. */
  lemma FirstOfTable(r: Row, run: seq<Row>, before: Before)
    requires StrictWeak(before) && Ordered(run, Between(RowOrder(before), r, r)) && r in run
    requires forall u <- run :: u.catalog == r.catalog && u.table == r.table && u.ordinal.None?
    ensures run[0] == r
  {
    var i :| 0 <= i < |run| && run[i] == r;
    assert run[0] in run;
    BareRowsTie(before, r, run[0]);
    hide RowLe;
    if i > 0 {
      var le := RowOrder(before);
      assert le(r, run[0]);
      assert Between(le, r, r)(run[0], run[i]);
    }
  }

  /** The order of an answer that lists r before the rows it ties with. */
  ghost function FirstOrder(before: Before, r: Row): (Row, Row) -> bool {
    Between(RowOrder(before), r, r)
  }

  lemma FirstListing(server: Server, q: Request, like: Like, before: Before, r: Row) returns (rows: seq<Row>)
    requires StrictWeak(before)
    ensures Answers(rows, server, q, like, before) && Ordered(rows, FirstOrder(before, r))
    ensures forall j :: Met(server, q, like, before, j) ==> RowOf(j) in rows
  {
    hide StrictWeak, TotalPreorder, RowLe, RowOf, Met, Answers, Lists, Ordered;
    var le := FirstOrder(before, r);
    RowsPreordered(before);
    BetweenPreorder(RowOrder(before), r, r);
    JoinsPreordered(le);
    var js := AnswerListed(server, q, like, before, JoinOrder(le));
    rows := Map(js, RowOf);
    MappedOrder(js, le);
    forall j | Met(server, q, like, before, j)
      ensures RowOf(j) in rows
    {
      var i :| 0 <= i < |js| && js[i] == j;
      assert rows[i] == RowOf(j);
    }
  }

  lemma MappedOrder(js: seq<ColumnJoin>, le: (Row, Row) -> bool)
    requires Ordered(js, JoinOrder(le))
    ensures Ordered(Map(js, RowOf), le)
  {
    hide RowOf;
    assert forall i, j | 0 <= i < j < |js| :: JoinOrder(le)(js[i], js[j]);
  }

  /** The rows of one table in one catalog have no columns if one of them has none. */
  lemma BareTable(rows: seq<Row>, server: Server, q: Request, like: Like, before: Before, j: ColumnJoin, u: Row)
    requires StrictWeak(before) && Answers(rows, server, q, like, before) && Met(server, q, like, before, j)
    requires j.0.1.Some? && j.1.None? && u in rows && u.catalog == RowOf(j).catalog && u.table == RowOf(j).table
    ensures u.ordinal.None?
  {
    RowsOfAnswer(rows, server, q, like, before);
    var k :| Met(server, q, like, before, k) && RowOf(k) == u;
    ColumnsShared(server, q, like, before, k, j);
  }

  /** The run of r's table among its catalog's rows, which starts with r. */
  lemma FirstRun(rows: seq<Row>, r: Row, before: Before) returns (b: nat)
    requires StrictWeak(before) && Ordered(rows, FirstOrder(before, r)) && r in rows && r.table.Some?
    requires Contiguous(Map(CatalogTables(rows, r.catalog), TableName))
    requires forall u <- rows :: u.catalog == r.catalog && u.table == r.table ==> u.ordinal.None?
    ensures var groups := Runs(CatalogTables(rows, r.catalog), TableName); b < |groups| && groups[b][0] == r
  {
    var ofCatalog, ofTable, le := KeyIs(CatalogKey, r.catalog), KeyIs(TableName, TableName(r)), FirstOrder(before, r);
    var list := CatalogTables(rows, r.catalog);
    assert r in Filter(rows, ofCatalog) && r in list;
    hide StrictWeak, Contiguous, Ordered, RowLe, Runs;
    FilterOrdered(rows, ofCatalog, le);
    FilterOrdered(Filter(rows, ofCatalog), HasTable, le);
    FilterOrdered(list, ofTable, le);
    b := RunOfKey(list, TableName, r);
    RunIsFilter(list, TableName, b);
    var run := Runs(list, TableName)[b];
    forall u | u in run
      ensures u.catalog == r.catalog && u.table == r.table && u.ordinal.None?
    {
      assert u in list && HasTable(u) && u in Filter(rows, ofCatalog) && u in rows;
    }
    assert r in run;
    FirstOfTable(r, run, before);
  }

  /** Where a nested tree shows a table, its kind is that of the first row. */
  lemma KindShown(rows: seq<Row>, r: Row, server: Server, q: Request, like: Like, before: Before)
    requires StrictWeak(before) && Nested(Tree(rows, q.depth), server, q, like, before) && SchemasAlike(rows)
    requires Ordered(rows, FirstOrder(before, r)) && r in rows && r.table.Some? && r.schema.Some? && r.kind.Some?
    requires forall u <- rows :: u.catalog == r.catalog && u.table == r.table ==> u.ordinal.None?
    ensures TableWanted(server, q, like, TableDef(r.catalog, r.table.value, r.kind.value))
  {
    hide Filter, Ordered, RowLe, StrictWeak, Nested, Tree, Runs, Contiguous, CatalogTables, NestedTables, TableWanted, Between;
    var entry := NestedEntry(rows, r, server, q, like, before);
    var b := FirstRun(rows, r, before);
    var run := Runs(CatalogTables(rows, r.catalog), TableName)[b];
    NestedCatalogTables(Tree(rows, q.depth), entry, server, q, like, before);
    var tables := entry.schemas.value[0].tables;
    assert tables.GetOr([])[b] == TableOf(run, q.depth);
    NestedTableEntry(tables.value, tables.value[b], server, q, like, before, entry.name);
  }

  lemma StrayTable(server: Server, q: Request, like: Like, before: Before, j: ColumnJoin) returns (rows: seq<Row>)
    requires StrictWeak(before) && Met(server, q, like, before, j) && j.1.None? && !SameNames(server, q, like, j)
    ensures Answers(rows, server, q, like, before) && !Nested(Tree(rows, q.depth), server, q, like, before)
  {
    var r := RowOf(j);
    rows := FirstListing(server, q, like, before, r);
    RowsOfAnswer(rows, server, q, like, before);
    assert r in rows;
    assert !TableWanted(server, q, like, TableDef(r.catalog, r.table.value, r.kind.value));
    hide Answers, Nested, Tree, Met, SameNames, TableWanted, StrictWeak, Ordered, RowLe;
    forall u | u in rows && u.catalog == r.catalog && u.table == r.table
      ensures u.ordinal.None?
    {
      BareTable(rows, server, q, like, before, j, u);
    }
    if Nested(Tree(rows, q.depth), server, q, like, before) {
      KindShown(rows, r, server, q, like, before);
    }
  }

  // ---------- Exactly when ----------

  /** Ties that do harm show in some answer. */
  lemma AnswerNotNested(server: Server, q: Request, like: Like, before: Before) returns (rows: seq<Row>)
    requires StrictWeak(before) && !TiesHarmless(server, q, like, before)
    ensures Answers(rows, server, q, like, before) && !Nested(Tree(rows, q.depth), server, q, like, before)
  {
    hide Answers, Nested, Tree, Met, SameNames, StrictWeak, TiesInterleave, RowOf;
    if TiesInterleave(server, q, like, before) {
      rows := InterleavedAnswer(server, q, like, before);
    } else {
      var j: ColumnJoin :| Met(server, q, like, before, j) && !SameNames(server, q, like, j);
      if j.1.Some? {
        rows := FirstListing(server, q, like, before, RowOf(j));
        StrayColumn(rows, server, q, like, before, j);
      } else {
        rows := StrayTable(server, q, like, before, j);
      }
    }
  }

  /** For every content of the metadata tables, every request and every collation, no answer of the server makes the loop
      panic; and every answer folds to the nested specification exactly when the ties among the server's names do no
      harm. */
  lemma EveryAnswerNested(server: Server, q: Request, like: Like, before: Before)
    requires StrictWeak(before) && server.Valid()
    ensures forall rows :: Answers(rows, server, q, like, before) ==> !Panics(rows)
    ensures (forall rows :: Answers(rows, server, q, like, before) ==> Nested(Tree(rows, q.depth), server, q, like, before))
            <==> TiesHarmless(server, q, like, before)
  {
    hide Answers, Nested, Tree, Panics, TiesHarmless;
    forall rows | Answers(rows, server, q, like, before)
      ensures !Panics(rows)
    {
      NeverPanics(rows, server, q, like, before);
    }
    if TiesHarmless(server, q, like, before) {
      forall rows | Answers(rows, server, q, like, before)
        ensures Nested(Tree(rows, q.depth), server, q, like, before)
      {
        ObjectsNested(rows, server, q, like, before);
      }
    } else {
      var rows := AnswerNotNested(server, q, like, before);
    }
  }

  // ---------- The failing cases: names that differ in case only ----------

  function LowerCase(c: char): char {
    if 'A' <= c <= 'Z' then (c as int + 32) as char else c
  }

  predicate CaseBlindLt(a: string, b: string) {
    b != "" &&
    (a == "" || LowerCase(a[0]) < LowerCase(b[0]) || (LowerCase(a[0]) == LowerCase(b[0]) && CaseBlindLt(a[1..], b[1..])))
  }

  ghost function CaseBlind(): Before {
    (a, b) => CaseBlindLt(a, b)
  }

  lemma {:induction false} CaseBlindTransitive(a: string, b: string, c: string)
    ensures CaseBlindLt(a, b) && CaseBlindLt(b, c) ==> CaseBlindLt(a, c)
    ensures CaseBlindLt(a, b) ==> CaseBlindLt(a, c) || CaseBlindLt(c, b)
    ensures !CaseBlindLt(a, a)
  {
    if a != "" && b != "" && c != "" {
      CaseBlindTransitive(a[1..], b[1..], c[1..]);
    } else if a != "" {
      CaseBlindTransitive(a[1..], "", "");
    }
  }

  /** A collation that ignores case is a strict weak order, and it ties. */
  lemma CaseBlindTies()
    ensures StrictWeak(CaseBlind()) && Tied(CaseBlind(), "a", "A") && Tied(CaseBlind(), "d", "D") && Tied(CaseBlind(), "k", "K")
  {
    forall a, b, c
      ensures CaseBlindLt(a, b) && CaseBlindLt(b, c) ==> CaseBlindLt(a, c)
      ensures CaseBlindLt(a, b) ==> CaseBlindLt(a, c) || CaseBlindLt(c, b)
      ensures !CaseBlindLt(a, a)
    {
      CaseBlindTransitive(a, b, c);
    }
  }

  const EVERYTHING := Request(DEPTH_ALL, None, None, None, None, [])

  function BaseTable(catalog: string, name: string): TableDef {
    TableDef(catalog, name, "BASE TABLE")
  }

  function At(catalog: string, t: TableDef, c: Option<ColumnDef>): ColumnJoin {
    (((catalog, Some("")), Some(t)), c)
  }

  /** Catalog "d" has a table, catalog "D" is empty. */
  const EMPTY_TWIN := Server({"d", "D"}, {BaseTable("d", "t")}, {})
  const TWIN_JOINS := [At("D", BaseTable("d", "t"), None), At("d", BaseTable("d", "t"), None)]

  lemma TwinJoined(like: Like, before: Before, j: ColumnJoin)
    requires StrictWeak(before) && Tied(before, "d", "D")
    ensures Met(EMPTY_TWIN, EVERYTHING, like, before, j) <==> j in TWIN_JOINS
  {
    assert TableMet(EMPTY_TWIN, EVERYTHING, like, before, "d", BaseTable("d", "t"));
    assert TableMet(EMPTY_TWIN, EVERYTHING, like, before, "D", BaseTable("d", "t"));
    if j in TWIN_JOINS {
      assert j == TWIN_JOINS[0] || j == TWIN_JOINS[1];
    }
    if Met(EMPTY_TWIN, EVERYTHING, like, before, j) {
      assert j == if j.0.0.0 == "D" then TWIN_JOINS[0] else TWIN_JOINS[1];
    }
  }

  /** A collation that ties "d" and "D": nothing interleaves, but the join gives the empty catalog "D" the table of "d",
      and so does the tree. */
  lemma EmptyTwinFilled(like: Like, before: Before)
    requires StrictWeak(before) && Tied(before, "d", "D")
    ensures var rows := Map(TWIN_JOINS, RowOf);
            && EMPTY_TWIN.Valid() && Answers(rows, EMPTY_TWIN, EVERYTHING, like, before)
            && rows[0].catalog == "D" && rows[0].table == Some("t")
            && !Nested(Tree(rows, DEPTH_ALL), EMPTY_TWIN, EVERYTHING, like, before)
    ensures !TiesInterleave(EMPTY_TWIN, EVERYTHING, like, before)
  {
    TwinAnswer(like, before);
    hide Met, Nested, Tree, Answers, StrictWeak, Tied, RowLe, RowOf, TiesInterleave, TableWanted;
    TwinTogether(like, before);
    TwinsValid(Column("", 0, ""), Column("", 0, ""));
    TwinRows(like);
    var rows := Map(TWIN_JOINS, RowOf);
    TwinFirst(before, rows);
    if Nested(Tree(rows, DEPTH_ALL), EMPTY_TWIN, EVERYTHING, like, before) {
      KindShown(rows, rows[0], EMPTY_TWIN, EVERYTHING, like, before);
    }
  }

  lemma TwinRows(like: Like)
    ensures var rows := Map(TWIN_JOINS, RowOf);
            && |rows| == 2 && rows[0] in rows && SchemasAlike(rows)
            && rows[0] == Row("D", Some(""), Some("t"), Some("BASE TABLE"), None, None, None)
            && (forall u <- rows :: u.ordinal.None?)
    ensures !TableWanted(EMPTY_TWIN, EVERYTHING, like, TableDef("D", "t", "BASE TABLE"))
  {
  }

  lemma TwinFirst(before: Before, rows: seq<Row>)
    requires |rows| == 2 && RowLe(before, rows[0], rows[1])
    ensures Ordered(rows, FirstOrder(before, rows[0]))
  {
    hide RowLe;
    assert RowOrder(before)(rows[0], rows[1]);
  }

  lemma TwinAnswer(like: Like, before: Before)
    requires StrictWeak(before) && Tied(before, "d", "D")
    ensures var rows := Map(TWIN_JOINS, RowOf);
            && Answers(rows, EMPTY_TWIN, EVERYTHING, like, before) && RowLe(before, rows[0], rows[1])
    ensures forall j :: Met(EMPTY_TWIN, EVERYTHING, like, before, j) <==> j in TWIN_JOINS
  {
    forall j
      ensures Met(EMPTY_TWIN, EVERYTHING, like, before, j) <==> j in TWIN_JOINS
      ensures j in Joined(EMPTY_TWIN, EVERYTHING, like, before) <==> j in TWIN_JOINS
    {
      TwinJoined(like, before, j);
      ResultMember(EMPTY_TWIN, EVERYTHING, like, before, j);
    }
    hide Joined, Met;
    assert Lists(TWIN_JOINS, EMPTY_TWIN, EVERYTHING, like, before);
  }

  lemma TwinTogether(like: Like, before: Before)
    requires forall j :: Met(EMPTY_TWIN, EVERYTHING, like, before, j) <==> j in TWIN_JOINS
    ensures !TiesInterleave(EMPTY_TWIN, EVERYTHING, like, before)
  {
    hide Met, RowLe, BaseTable;
    assert forall x | x in TWIN_JOINS :: x == TWIN_JOINS[0] || x == TWIN_JOINS[1];
    assert RowOf(TWIN_JOINS[0]).catalog != RowOf(TWIN_JOINS[1]).catalog;
    hide RowOf;
  }

  /** Tables "a" and "A" with a column each. */
  function TwinTables(x: Column, z: Column): Server {
    Server({"db"}, {BaseTable("db", "a"), BaseTable("db", "A")}, {ColumnDef("db", "a", x), ColumnDef("db", "A", z)})
  }

  function FourJoins(x: Column, z: Column): seq<ColumnJoin> {
    var a, b := BaseTable("db", "a"), BaseTable("db", "A");
    var c, d := Some(ColumnDef("db", "a", x)), Some(ColumnDef("db", "A", z));
    [At("db", a, c), At("db", b, c), At("db", a, d), At("db", b, d)]
  }

  lemma FourJoined(like: Like, before: Before, x: Column, z: Column, j: ColumnJoin)
    requires StrictWeak(before) && Tied(before, "a", "A")
    ensures Met(TwinTables(x, z), EVERYTHING, like, before, j) <==> j in FourJoins(x, z)
  {
    var server, four := TwinTables(x, z), FourJoins(x, z);
    forall t, c | t in server.tables && c in server.columns
      ensures TableMet(server, EVERYTHING, like, before, "db", t) && ColumnMet(server, EVERYTHING, like, before, t, c)
      ensures At("db", t, Some(c)) in four
    {
      assert At("db", t, Some(c)) == four[0] || At("db", t, Some(c)) == four[1]
          || At("db", t, Some(c)) == four[2] || At("db", t, Some(c)) == four[3];
    }
    if j in four {
      assert j == four[0] || j == four[1] || j == four[2] || j == four[3];
    }
    if Met(server, EVERYTHING, like, before, j) {
      assert BaseTable("db", "a") in server.tables && ColumnDef("db", "a", x) in server.columns;
      assert j == At("db", j.0.1.value, Some(j.1.value));
    }
  }

  /** A collation that ties tables "a" and "A": each is joined to the columns of both, and the order may alternate between
      them, so that the loop builds both twice. */
  lemma TiedNamesRepeat(like: Like, before: Before, x: Column, z: Column)
    requires StrictWeak(before) && Tied(before, "a", "A") && x.ordinal <= z.ordinal
    ensures var server, rows := TwinTables(x, z), Map(FourJoins(x, z), RowOf);
            && server.Valid() && Answers(rows, server, EVERYTHING, like, before)
            && Map(TablesOf(rows, DEPTH_ALL), NameOf) == ["a", "A", "a", "A"]
            && !Nested(Tree(rows, DEPTH_ALL), server, EVERYTHING, like, before)
  {
    var server, rows := TwinTables(x, z), Map(FourJoins(x, z), RowOf);
    hide Answers, Nested, Tree, TablesOf, StrictWeak, Tied, FourJoins, RowOf, TwinTables, PartsTable;
    FourAnswer(like, before, x, z);
    TablesRepeat(x, z);
    FourAlternate(x, z);
    TwinsValid(x, z);
    TableTwice(rows, 0, 1, 2, server, EVERYTHING, like, before);
  }

  lemma TwinsValid(x: Column, z: Column)
    ensures EMPTY_TWIN.Valid() && TwinTables(x, z).Valid()
  {
  }

  lemma FourAlternate(x: Column, z: Column)
    ensures var rows := Map(FourJoins(x, z), RowOf);
            |rows| == 4 && PartsTable(rows[0], rows[1], rows[2]) && rows[0].schema.Some? && SchemasAlike(rows)
  {
  }

  lemma FourAnswer(like: Like, before: Before, x: Column, z: Column)
    requires StrictWeak(before) && Tied(before, "a", "A") && x.ordinal <= z.ordinal
    ensures Answers(Map(FourJoins(x, z), RowOf), TwinTables(x, z), EVERYTHING, like, before)
  {
    var server, js := TwinTables(x, z), FourJoins(x, z);
    FourOrdered(before, x, z);
    hide StrictWeak, Tied, RowLe, Joined, Met, RowOf;
    forall j
      ensures j in js <==> j in Joined(server, EVERYTHING, like, before)
    {
      FourJoined(like, before, x, z, j);
      ResultMember(server, EVERYTHING, like, before, j);
    }
    assert Lists(js, server, EVERYTHING, like, before);
  }

  lemma FourOrdered(before: Before, x: Column, z: Column)
    requires StrictWeak(before) && Tied(before, "a", "A") && x.ordinal <= z.ordinal
    ensures Ordered(Map(FourJoins(x, z), RowOf), RowOrder(before))
  {
    var rows := Map(FourJoins(x, z), RowOf);
    assert forall i, j | 0 <= i < j < 4 :: RowLe(before, rows[i], rows[j]);
  }

  lemma TablesRepeat(x: Column, z: Column)
    ensures Map(TablesOf(Map(FourJoins(x, z), RowOf), DEPTH_ALL), NameOf) == ["a", "A", "a", "A"]
  {
    var rows := Map(FourJoins(x, z), RowOf);
    hide TablesOf, Filter;
    TreeNames([], DEPTH_ALL);
    FilterAll(rows, HasTable);
    assert Map(rows, TableName) == ["a", "A", "a", "A"];
    DedupSteps("a", "A");
  }

  lemma DedupSteps(a: string, b: string)
    requires a != b
    ensures Dedup([a, b, a, b]) == [a, b, a, b]
  {
    assert [a][..0] == [] && Dedup([a]) == [a];
    assert [a, b][..1] == [a] && Dedup([a, b]) == [a, b];
    assert [a, b, a][..2] == [a, b] && Dedup([a, b, a]) == [a, b, a];
    assert [a, b, a, b][..3] == [a, b, a];
  }
}

/** GetStatistics: two row streams merged through three maps and a composite key. */
module Statistics {
  import opened Prelude
  import opened Grouping

  datatype TableRow = TableRow(catalog: string, table: string, rowCount: Option<nat>, avgRowLength: Option<nat>,
                               dataLength: Option<nat>, indexLength: Option<nat>)
  datatype IndexRow = IndexRow(catalog: string, table: string, column: string, cardinality: Option<nat>)

  datatype Measure = RowCount | DistinctCount | DataLength | IndexLength | AvgRowLength
  datatype Statistic = Statistic(table: string, column: Option<string>, measure: Measure, value: nat, approximate: bool)

  type PerSchema = map<string, seq<Statistic>>

  // ---------- What the two streams contribute ----------

  function Present(table: string, measure: Measure, value: Option<nat>): seq<Statistic> {
    if value.None? then [] else [Statistic(table, None, measure, value.value, true)]
  }

  function TableStats(r: TableRow): seq<Statistic> {
    Present(r.table, RowCount, r.rowCount) + Present(r.table, DataLength, r.dataLength)
    + Present(r.table, IndexLength, r.indexLength) + Present(r.table, AvgRowLength, r.avgRowLength)
  }

  /** The table statistics of one catalog, in row order. */
  function TablePart(rows: seq<TableRow>, catalog: string): seq<Statistic> {
    if rows == [] then [] else
    TablePart(rows[..|rows| - 1], catalog) + if Last(rows).catalog == catalog then TableStats(Last(rows)) else []
  }

  predicate Known(rows: seq<TableRow>, catalog: string, table: string) {
    exists r <- rows :: r.catalog == catalog && r.table == table
  }

  /** The distinct counts of one catalog's known tables, in row order. */
  function IndexPart(tables: seq<TableRow>, rows: seq<IndexRow>, catalog: string): seq<Statistic> {
    if rows == [] then [] else
    var r := Last(rows);
    IndexPart(tables, rows[..|rows| - 1], catalog) +
    if r.catalog == catalog && r.cardinality.Some? && Known(tables, r.catalog, r.table)
    then [Statistic(r.table, Some(r.column), DistinctCount, r.cardinality.value, true)] else []
  }

  /** The row's composite key is that of a known table. */
  predicate KeyKnown(rows: seq<TableRow>, catalog: string, table: string) {
    exists r <- rows :: TableKey(r.catalog, r.table) == TableKey(catalog, table)
  }

  /** The distinct counts that the second loop records for one catalog, in row order. */
  function RecordedPart(tables: seq<TableRow>, rows: seq<IndexRow>, catalog: string): seq<Statistic> {
    if rows == [] then [] else
    var r := Last(rows);
    RecordedPart(tables, rows[..|rows| - 1], catalog) +
    if r.catalog == catalog && r.cardinality.Some? && KeyKnown(tables, r.catalog, r.table)
    then [Statistic(r.table, Some(r.column), DistinctCount, r.cardinality.value, true)] else []
  }

  function RowCatalog(r: TableRow): string { r.catalog }

  /** Each element where it first occurs. */
  function FirstSeen(names: seq<string>): seq<string> {
    if names == [] then [] else
    var d := FirstSeen(names[..|names| - 1]);
    if Last(names) in d then d else d + [Last(names)]
  }

  lemma {:induction false} FirstSeenMembers(names: seq<string>)
    ensures forall x :: x in FirstSeen(names) <==> x in names
    ensures NoRepeat(FirstSeen(names))
  {
    if names != [] {
      var front := names[..|names| - 1];
      FirstSeenMembers(front);
      assert names == front + [Last(names)];
      NoRepeatSnoc(FirstSeen(front), Last(names));
    }
  }

  lemma FirstSeenSnoc(names: seq<string>, x: string)
    ensures FirstSeen(names + [x]) == if x in names then FirstSeen(names) else FirstSeen(names) + [x]
  {
    SnocParts(names, x);
    FirstSeenMembers(names);
  }

  // ---------- The state of the two loops ----------

  datatype Assembled = Assembled(catalogOrder: seq<string>, schemaOrder: map<string, seq<string>>,
                                 statsByCatalog: map<string, PerSchema>)
  datatype Answer = Panicked | Empty | Reader(result: Assembled)

  ghost predicate Keyed(rows: seq<TableRow>, known: set<string>) {
    forall k :: k in known <==> exists r <- rows :: k == TableKey(r.catalog, r.table)
  }

  ghost predicate AfterTables(a: Assembled, rows: seq<TableRow>) {
    && a.catalogOrder == FirstSeen(Map(rows, RowCatalog))
    && (forall c :: c in a.schemaOrder <==> c in a.catalogOrder)
    && (forall c :: c in a.schemaOrder ==> a.schemaOrder[c] == [""])
    && (forall c :: c in a.statsByCatalog <==> c in a.catalogOrder)
    && (forall c :: c in a.statsByCatalog ==> a.statsByCatalog[c] == map["" := TablePart(rows, c)])
  }

  /** Each catalog once in first-seen order, with the one empty-named schema. */
  ghost predicate Outline(a: Assembled, tables: seq<TableRow>) {
    && a.catalogOrder == FirstSeen(Map(tables, RowCatalog))
    && (forall c :: c in a.schemaOrder <==> c in a.catalogOrder)
    && (forall c :: c in a.schemaOrder ==> a.schemaOrder[c] == [""])
    && (forall c :: c in a.statsByCatalog <==> c in a.catalogOrder)
  }

  /** What GetStatistics should hand to the reader: each catalog holding its table statistics in row order and then the
      distinct counts of its known tables. */
  ghost predicate Complete(a: Assembled, tables: seq<TableRow>, rows: seq<IndexRow>) {
    && Outline(a, tables)
    && (forall c :: c in a.statsByCatalog ==>
          a.statsByCatalog[c] == map["" := TablePart(tables, c) + IndexPart(tables, rows, c)])
  }

  /** What it does hand over. */
  ghost predicate Recorded(a: Assembled, tables: seq<TableRow>, rows: seq<IndexRow>) {
    && Outline(a, tables)
    && (forall c :: c in a.statsByCatalog ==>
          a.statsByCatalog[c] == map["" := TablePart(tables, c) + RecordedPart(tables, rows, c)])
  }

  /** A count whose key matches although the row's own table was not seen. */
  predicate Stray(tables: seq<TableRow>, r: IndexRow) {
    r.cardinality.Some? && KeyKnown(tables, r.catalog, r.table) && !Known(tables, r.catalog, r.table)
  }

  /** A key match although not even the row's catalog was seen: the second loop would then append to a nil map. */
  predicate Confused(tables: seq<TableRow>, r: IndexRow) {
    r.cardinality.Some? && KeyKnown(tables, r.catalog, r.table) && forall t <- tables :: t.catalog != r.catalog
  }

  /** The four conditional appends of one table row: the fields that are present, in field order. */
  method AppendTableStats(before: seq<Statistic>, r: TableRow) returns (stats: seq<Statistic>)
    ensures stats == before + TableStats(r) && Ranked(TableStats(r), Ranks(r, 4), r, 4)
  {
    TableStatsRanked(r);
    hide Ranked, Ranks;
    stats := before;
    if r.rowCount.Some? {
      stats := stats + [Statistic(r.table, None, RowCount, r.rowCount.value, true)];
    }
    if r.dataLength.Some? {
      stats := stats + [Statistic(r.table, None, DataLength, r.dataLength.value, true)];
    }
    if r.indexLength.Some? {
      stats := stats + [Statistic(r.table, None, IndexLength, r.indexLength.value, true)];
    }
    if r.avgRowLength.Some? {
      stats := stats + [Statistic(r.table, None, AvgRowLength, r.avgRowLength.value, true)];
    }
  }

  method ReadTables(rows: seq<TableRow>) returns (a: Assembled, knownTables: set<string>)
    ensures AfterTables(a, rows) && Keyed(rows, knownTables)
    ensures InFirstOrder(a.catalogOrder, rows)
    ensures forall c <- a.statsByCatalog :: a.statsByCatalog[c].Keys == {""} && ListsTables(a.statsByCatalog[c][""], rows, c)
  {
    hide AfterTables, TableStats, InFirstOrder, ListsTables;
    a := Assembled([], map[], map[]);
    knownTables := {};
    assert rows[..0] == [];
    NothingRead();
    for i := 0 to |rows|
      invariant AfterTables(a, rows[..i])
      invariant Keyed(rows[..i], knownTables)
    {
      var r := rows[i];
      ghost var before := a;
      assert rows[..i + 1] == rows[..i] + [r];
      SlotPresent(a, rows[..i], r.catalog);
      if r.catalog !in a.statsByCatalog {
        a := Assembled(a.catalogOrder + [r.catalog], a.schemaOrder[r.catalog := [""]],
                       a.statsByCatalog[r.catalog := map["" := []]]);
      }
      knownTables := knownTables + {TableKey(r.catalog, r.table)};
      var slot := a.statsByCatalog[r.catalog];
      var stats := AppendTableStats(slot[""], r);
      a := a.(statsByCatalog := a.statsByCatalog[r.catalog := slot["" := stats]]);
      assert slot["" := stats] == map["" := stats];
      RowRecorded(before, rows[..i], r, a);
    }
    assert rows[..|rows|] == rows;
    TablesExplained(a, rows);
  }

  lemma TablesExplained(a: Assembled, rows: seq<TableRow>)
    requires AfterTables(a, rows)
    ensures InFirstOrder(a.catalogOrder, rows)
    ensures forall c <- a.statsByCatalog :: a.statsByCatalog[c].Keys == {""} && ListsTables(a.statsByCatalog[c][""], rows, c)
  {
    SeenInOrder(rows);
    hide FirstSeen, TablePart, InFirstOrder;
    forall c | c in a.statsByCatalog
      ensures a.statsByCatalog[c].Keys == {""} && ListsTables(a.statsByCatalog[c][""], rows, c)
    {
      var places := TablePlaces(rows, c);
      hide FromTables;
      assert a.statsByCatalog[c] == map["" := TablePart(rows, c)];
    }
  }

  lemma NothingRead()
    ensures AfterTables(Assembled([], map[], map[]), [])
  {
  }

  lemma SlotPresent(a: Assembled, rows: seq<TableRow>, c: string)
    requires AfterTables(a, rows)
    ensures c in a.statsByCatalog <==> c in Map(rows, RowCatalog)
    ensures c in a.statsByCatalog ==> a.statsByCatalog[c] == map["" := TablePart(rows, c)]
  {
    FirstSeenMembers(Map(rows, RowCatalog));
  }

  lemma RowRecorded(a: Assembled, rows: seq<TableRow>, r: TableRow, b: Assembled)
    requires AfterTables(a, rows)
    requires var c, first := r.catalog, r.catalog !in a.statsByCatalog;
      && b.catalogOrder == (if first then a.catalogOrder + [c] else a.catalogOrder)
      && b.schemaOrder == (if first then a.schemaOrder[c := [""]] else a.schemaOrder)
      && (forall d :: d in b.statsByCatalog <==> d in a.statsByCatalog || d == c)
      && (forall d :: d in a.statsByCatalog && d != c ==> b.statsByCatalog[d] == a.statsByCatalog[d])
      && b.statsByCatalog[c] == map["" := (if first then [] else TablePart(rows, c)) + TableStats(r)]
    ensures AfterTables(b, rows + [r])
  {
    hide TableStats, FirstSeen, TablePart;
    SlotPresent(a, rows, r.catalog);
    MapSnoc(rows, r, RowCatalog);
    FirstSeenSnoc(Map(rows, RowCatalog), r.catalog);
    hide Map;
    if r.catalog !in a.statsByCatalog {
      NoTablePart(rows, r.catalog);
    }
    forall c | c in b.statsByCatalog
      ensures b.statsByCatalog[c] == map["" := TablePart(rows + [r], c)]
    {
      TableSnoc(rows, r, c);
    }
  }

  lemma TableSnoc(rows: seq<TableRow>, r: TableRow, c: string)
    ensures TablePart(rows + [r], c) == if r.catalog == c then TablePart(rows, c) + TableStats(r) else TablePart(rows, c)
  {
    hide TableStats;
    SnocParts(rows, r);
    assert TablePart(rows, c) + [] == TablePart(rows, c);
  }

  lemma {:induction false} NoTablePart(rows: seq<TableRow>, c: string)
    requires c !in Map(rows, RowCatalog)
    ensures TablePart(rows, c) == []
  {
    if rows != [] {
      var front := rows[..|rows| - 1];
      MapSnoc(front, Last(rows), RowCatalog);
      assert rows == front + [Last(rows)];
      NoTablePart(front, c);
    }
  }

  predicate NulFreeNames(tables: seq<TableRow>, rows: seq<IndexRow>) {
    (forall t <- tables :: NulFree(t.catalog)) && (forall x <- rows :: NulFree(x.catalog))
  }

  /** The second loop. It panics, on the nil inner map, exactly when some row's key is known although its catalog
      was never seen; otherwise its result is complete exactly when no count is stray. */
  method ReadIndexes(a: Assembled, knownTables: set<string>, ghost tables: seq<TableRow>, rows: seq<IndexRow>)
    returns (r: Answer)
    requires AfterTables(a, tables) && Keyed(tables, knownTables)
    ensures r == Panicked <==> exists x <- rows :: Confused(tables, x)
    ensures !r.Empty? && (r.Reader? ==> Recorded(r.result, tables, rows) && r.result.catalogOrder == a.catalogOrder)
    ensures r.Reader? ==> (Complete(r.result, tables, rows) <==> forall x <- rows :: !Stray(tables, x))
  {
    hide AfterTables, Complete, Keyed, Confused, Recorded, Stray;
    var b := a;
    assert rows[..0] == [];
    NoIndexRows(a, tables);
    for i := 0 to |rows|
      invariant forall j :: 0 <= j < i ==> !Confused(tables, rows[j])
      invariant Recorded(b, tables, rows[..i]) && b.catalogOrder == a.catalogOrder
    {
      var row := rows[i];
      assert rows[..i + 1] == rows[..i] + [row];
      KnownOrConfused(tables, knownTables, row);
      SlotsRecorded(b, tables, rows[..i]);
      IndexRecorded(b, tables, rows[..i], row);
      if row.cardinality.None? {
        continue;
      }
      if TableKey(row.catalog, row.table) !in knownTables {
        continue;
      }
      if row.catalog !in b.statsByCatalog {
        return Panicked;
      }
      b := RecordIndex(b, row);
    }
    assert rows[..|rows|] == rows;
    CompleteUnlessStray(b, tables, rows);
    r := Reader(b);
  }

  /** Every seen catalog has its slot, and no other. */
  lemma SlotsRecorded(a: Assembled, tables: seq<TableRow>, rows: seq<IndexRow>)
    requires Recorded(a, tables, rows)
    ensures forall c :: c in a.statsByCatalog <==> exists t <- tables :: t.catalog == c
    ensures forall c :: c in a.statsByCatalog ==> "" in a.statsByCatalog[c]
  {
    FirstSeenMembers(Map(tables, RowCatalog));
    forall c
      ensures c in Map(tables, RowCatalog) <==> exists t <- tables :: t.catalog == c
    {
      if t :| t in tables && t.catalog == c {
        var i :| 0 <= i < |tables| && tables[i] == t;
        assert Map(tables, RowCatalog)[i] == c;
      }
    }
  }

  function RecordIndex(a: Assembled, r: IndexRow): Assembled
    requires r.cardinality.Some? && r.catalog in a.statsByCatalog && "" in a.statsByCatalog[r.catalog]
  {
    var stat := Statistic(r.table, Some(r.column), DistinctCount, r.cardinality.value, true);
    var slot := a.statsByCatalog[r.catalog];
    a.(statsByCatalog := a.statsByCatalog[r.catalog := slot["" := slot[""] + [stat]]])
  }

  lemma NoIndexRows(a: Assembled, tables: seq<TableRow>)
    requires AfterTables(a, tables)
    ensures Recorded(a, tables, [])
  {
    assert forall c :: TablePart(tables, c) + RecordedPart(tables, [], c) == TablePart(tables, c);
  }

  lemma KnownOrConfused(tables: seq<TableRow>, known: set<string>, r: IndexRow)
    requires Keyed(tables, known)
    ensures TableKey(r.catalog, r.table) in known <==> KeyKnown(tables, r.catalog, r.table)
    ensures Confused(tables, r) <==>
      r.cardinality.Some? && TableKey(r.catalog, r.table) in known && forall t <- tables :: t.catalog != r.catalog
  {
    hide TableKey;
  }

  predicate Counted(tables: seq<TableRow>, r: IndexRow) {
    r.cardinality.Some? && KeyKnown(tables, r.catalog, r.table)
  }

  lemma IndexRecorded(a: Assembled, tables: seq<TableRow>, rows: seq<IndexRow>, r: IndexRow)
    requires Recorded(a, tables, rows)
    ensures if Counted(tables, r) then r.catalog in a.statsByCatalog ==> Recorded(RecordIndex(a, r), tables, rows + [r])
      else Recorded(a, tables, rows + [r])
  {
    hide FirstSeen, TablePart, RecordedPart, KeyKnown;
    if Counted(tables, r) && r.catalog in a.statsByCatalog {
      var slot := a.statsByCatalog[r.catalog];
      assert forall s: seq<Statistic> :: slot["" := s] == map["" := s];
    }
    forall c
      ensures var stat := Statistic(r.table, Some(r.column), DistinctCount, r.cardinality.GetOr(0), true);
        var before := TablePart(tables, c) + RecordedPart(tables, rows, c);
        var after := TablePart(tables, c) + RecordedPart(tables, rows + [r], c);
        after == if c == r.catalog && Counted(tables, r) then before + [stat] else before
    {
      RecordedSnoc(tables, rows, r, c);
    }
  }

  lemma RecordedSnoc(tables: seq<TableRow>, rows: seq<IndexRow>, r: IndexRow, c: string)
    ensures var stat := Statistic(r.table, Some(r.column), DistinctCount, r.cardinality.GetOr(0), true);
      RecordedPart(tables, rows + [r], c)
      == RecordedPart(tables, rows, c) + if c == r.catalog && Counted(tables, r) then [stat] else []
  {
    hide KeyKnown;
    SnocParts(rows, r);
  }

  predicate StrayIn(tables: seq<TableRow>, rows: seq<IndexRow>, catalog: string) {
    exists x <- rows :: x.catalog == catalog && Stray(tables, x)
  }

  /** A stray count makes its catalog's list too long; nothing else does. */
  lemma {:induction false} StrayCounted(tables: seq<TableRow>, rows: seq<IndexRow>, c: string)
    ensures if StrayIn(tables, rows, c) then |RecordedPart(tables, rows, c)| > |IndexPart(tables, rows, c)|
      else RecordedPart(tables, rows, c) == IndexPart(tables, rows, c)
  {
    if rows != [] {
      var front, r := rows[..|rows| - 1], Last(rows);
      assert rows == front + [r];
      StrayCounted(tables, front, c);
      assert Known(tables, r.catalog, r.table) ==> KeyKnown(tables, r.catalog, r.table);
      hide Known, KeyKnown;
      assert StrayIn(tables, rows, c) <==> StrayIn(tables, front, c) || (r.catalog == c && Stray(tables, r));
    }
  }

  lemma CompleteUnlessStray(a: Assembled, tables: seq<TableRow>, rows: seq<IndexRow>)
    requires Recorded(a, tables, rows) && forall x <- rows :: !Confused(tables, x)
    ensures Complete(a, tables, rows) <==> forall x <- rows :: !Stray(tables, x)
  {
    SlotsRecorded(a, tables, rows);
    hide TablePart, RecordedPart, IndexPart, KeyKnown, Known, FirstSeen;
    forall c | c in a.statsByCatalog
      ensures a.statsByCatalog[c] == map["" := TablePart(tables, c) + IndexPart(tables, rows, c)] <==> !StrayIn(tables, rows, c)
    {
      StrayCounted(tables, rows, c);
      var recorded := TablePart(tables, c) + RecordedPart(tables, rows, c);
      var wanted := TablePart(tables, c) + IndexPart(tables, rows, c);
      assert a.statsByCatalog[c][""] == recorded && (map["" := wanted])[""] == wanted;
    }
    hide Outline;
    if x :| x in rows && Stray(tables, x) {
      assert StrayIn(tables, rows, x.catalog) && x.catalog in a.statsByCatalog;
    }
  }

  // ---------- The answer in terms of the rows ----------

  /** The fields of a table row that become statistics, in the order they are reported in. */
  function Field(r: TableRow, k: nat): Option<nat>
    requires k < 4
  {
    [r.rowCount, r.dataLength, r.indexLength, r.avgRowLength][k]
  }

  const MEASURES := [RowCount, DataLength, IndexLength, AvgRowLength]

  /** Field k of row i is present, and the row is of this catalog. */
  predicate Reports(tables: seq<TableRow>, catalog: string, i: nat, k: nat) {
    i < |tables| && k < 4 && tables[i].catalog == catalog && Field(tables[i], k).Some?
  }

  /** The statistic of field k of the row. */
  predicate FieldEntry(s: Statistic, r: TableRow, k: nat) {
    k < 4 && Field(r, k).Some? && s == Statistic(r.table, None, MEASURES[k], Field(r, k).value, true)
  }

  predicate Earlier(a: (nat, nat), b: (nat, nat)) {
    a.0 < b.0 || (a.0 == b.0 && a.1 < b.1)
  }

  /** The statistics come from these fields of these rows: all that are present, once each, row by row. */
  ghost predicate FromTables(stats: seq<Statistic>, places: seq<(nat, nat)>, tables: seq<TableRow>, catalog: string) {
    && |stats| == |places| && Ordered(places, Earlier)
    && (forall i: nat, k: nat :: (i, k) in places <==> Reports(tables, catalog, i, k))
    && (forall j | 0 <= j < |places| :: places[j].0 < |tables| && FieldEntry(stats[j], tables[places[j].0], places[j].1))
  }

  ghost predicate ListsTables(stats: seq<Statistic>, tables: seq<TableRow>, catalog: string) {
    exists places :: FromTables(stats, places, tables, catalog)
  }

  /** The distinct counts come from these index rows: all with a count and a known key, once each, in order. */
  ghost predicate FromIndexes(stats: seq<Statistic>, places: seq<nat>, tables: seq<TableRow>, rows: seq<IndexRow>, catalog: string) {
    && |stats| == |places| && Ordered(places, (a: nat, b: nat) => a < b)
    && (forall i: nat :: i in places <==> Records(tables, rows, catalog, i))
    && (forall j | 0 <= j < |places| :: Records(tables, rows, catalog, places[j])
          && stats[j] == Statistic(rows[places[j]].table, Some(rows[places[j]].column), DistinctCount,
                                   rows[places[j]].cardinality.value, true))
  }

  predicate Records(tables: seq<TableRow>, rows: seq<IndexRow>, catalog: string, i: nat) {
    && i < |rows| && rows[i].catalog == catalog && rows[i].cardinality.Some?
    && exists t <- tables :: t.catalog + "\0" + t.table == rows[i].catalog + "\0" + rows[i].table
  }

  /** The list of one catalog: its table statistics, then its distinct counts. */
  ghost predicate Lists(stats: seq<Statistic>, tables: seq<TableRow>, rows: seq<IndexRow>, catalog: string) {
    exists first, second, places, counts ::
      stats == first + second && FromTables(first, places, tables, catalog) && FromIndexes(second, counts, tables, rows, catalog)
  }

  /** Catalogs in the order in which the rows first name them. */
  ghost predicate InFirstOrder(order: seq<string>, tables: seq<TableRow>) {
    && (forall c :: c in order <==> exists t <- tables :: t.catalog == c)
    && (forall i, j | 0 <= i < j < |order| :: SeenBefore(tables, order[i], order[j]))
  }

  ghost predicate SeenBefore(tables: seq<TableRow>, c: string, d: string) {
    exists p :: 0 <= p < |tables| && tables[p].catalog == c && forall q | 0 <= q <= p :: tables[q].catalog != d
  }

  /** A reader's answer without reference to how it was put together. */
  ghost predicate Explained(a: Assembled, tables: seq<TableRow>, rows: seq<IndexRow>) {
    && InFirstOrder(a.catalogOrder, tables)
    && (forall c :: c in a.statsByCatalog <==> c in a.catalogOrder)
    && (forall c :: c in a.schemaOrder <==> c in a.catalogOrder)
    && (forall c <- a.catalogOrder :: a.schemaOrder[c] == [""])
    && (forall c <- a.catalogOrder :: a.statsByCatalog[c].Keys == {""} && Lists(a.statsByCatalog[c][""], tables, rows, c))
  }

  /** Which of the first n fields are present, and their statistics. */
  function Ranks(r: TableRow, n: nat): seq<nat>
    requires n <= 4
  {
    if n == 0 then [] else Ranks(r, n - 1) + if Field(r, n - 1).Some? then [n - 1] else []
  }

  function FieldStats(r: TableRow, n: nat): seq<Statistic>
    requires n <= 4
  {
    if n == 0 then [] else
    FieldStats(r, n - 1)
    + if Field(r, n - 1).Some? then [Statistic(r.table, None, MEASURES[n - 1], Field(r, n - 1).value, true)] else []
  }

  lemma FourFields(r: TableRow)
    ensures TableStats(r) == FieldStats(r, 4)
  {
    var a, b, c := FieldStats(r, 1), FieldStats(r, 2), FieldStats(r, 3);
    assert FieldStats(r, 0) == [] && [] + Present(r.table, RowCount, r.rowCount) == Present(r.table, RowCount, r.rowCount);
    assert a == Present(r.table, RowCount, r.rowCount);
    assert b == a + Present(r.table, DataLength, r.dataLength);
    assert c == b + Present(r.table, IndexLength, r.indexLength);
  }

  /** The statistics are those of the fields that are present, in field order. */
  ghost predicate Ranked(stats: seq<Statistic>, ranks: seq<nat>, r: TableRow, n: nat)
    requires n <= 4
  {
    && |stats| == |ranks| && Ordered(ranks, (a: nat, b: nat) => a < b)
    && (forall k: nat :: k in ranks <==> k < n && Field(r, k).Some?)
    && (forall j | 0 <= j < |ranks| :: FieldEntry(stats[j], r, ranks[j]))
  }

  lemma {:induction false} FieldsRanked(r: TableRow, n: nat)
    requires n <= 4
    ensures Ranked(FieldStats(r, n), Ranks(r, n), r, n)
  {
    if n > 0 {
      FieldsRanked(r, n - 1);
      hide Ranked;
      RankedMore(FieldStats(r, n - 1), Ranks(r, n - 1), r, n);
    } else {
      assert Ranks(r, 0) == [];
    }
  }

  lemma TableStatsRanked(r: TableRow)
    ensures Ranked(TableStats(r), Ranks(r, 4), r, 4)
  {
    FourFields(r);
    FieldsRanked(r, 4);
  }

  lemma RankedMore(stats: seq<Statistic>, ranks: seq<nat>, r: TableRow, n: nat)
    requires 0 < n <= 4 && Ranked(stats, ranks, r, n - 1)
    ensures var more := if Field(r, n - 1).Some? then [n - 1] else [];
            var s := if Field(r, n - 1).Some? then [Statistic(r.table, None, MEASURES[n - 1], Field(r, n - 1).value, true)] else [];
            Ranked(stats + s, ranks + more, r, n)
  {
    var more := if Field(r, n - 1).Some? then [n - 1] else [];
    hide Field;
    assert forall j | 0 <= j < |ranks| :: ranks[j] in ranks;
    OrderedAppend<nat>(ranks, more, (a: nat, b: nat) => a < b);
    hide Ordered;
    assert ranks + [] == ranks && stats + [] == stats;
  }

  lemma {:induction false} TablePlaces(tables: seq<TableRow>, c: string) returns (places: seq<(nat, nat)>)
    ensures FromTables(TablePart(tables, c), places, tables, c)
  {
    if tables == [] {
      places := [];
      NoPlaces(c);
    } else {
      var front, r, n := tables[..|tables| - 1], Last(tables), |tables| - 1;
      assert tables == front + [r];
      var before := TablePlaces(front, c);
      FourFields(r);
      FieldsRanked(r, 4);
      hide TableStats, Ranks, Field, FromTables, FieldStats, Ranked;
      var more := if r.catalog == c then Map(Ranks(r, 4), (k: nat) => (n, k)) else [];
      places := before + more;
      PlacesMore(front, r, c, before, more);
    }
  }

  lemma NoPlaces(c: string)
    ensures FromTables(TablePart([], c), [], [], c)
  {
  }

  lemma PlacesMore(front: seq<TableRow>, r: TableRow, c: string, before: seq<(nat, nat)>, more: seq<(nat, nat)>)
    requires FromTables(TablePart(front, c), before, front, c)
    requires Ranked(TableStats(r), Ranks(r, 4), r, 4)
    requires more == if r.catalog == c then Map(Ranks(r, 4), (k: nat) => (|front|, k)) else []
    ensures FromTables(TablePart(front + [r], c), before + more, front + [r], c)
  {
    hide TableStats, Ranks, Field;
    var tables, places := front + [r], before + more;
    SnocParts(front, r);
    assert TablePart(front, c) + [] == TablePart(front, c);
    PlaceMembers(front, r, c, before, more);
    PlacesOrdered(front, r, c, before, more);
    hide Ordered, Reports, FieldEntry;
    forall j | 0 <= j < |places|
      ensures places[j].0 < |tables| && FieldEntry(TablePart(tables, c)[j], tables[places[j].0], places[j].1)
    {
      if j < |before| {
        assert places[j] == before[j];
      } else {
        assert places[j] == more[j - |before|];
      }
    }
  }

  lemma PlaceMembers(front: seq<TableRow>, r: TableRow, c: string, before: seq<(nat, nat)>, more: seq<(nat, nat)>)
    requires forall i: nat, k: nat :: (i, k) in before <==> Reports(front, c, i, k)
    requires forall k: nat :: k in Ranks(r, 4) <==> k < 4 && Field(r, k).Some?
    requires more == if r.catalog == c then Map(Ranks(r, 4), (k: nat) => (|front|, k)) else []
    ensures forall i: nat, k: nat :: (i, k) in before + more <==> Reports(front + [r], c, i, k)
  {
    var tables, n := front + [r], |front|;
    hide Ranks, Field;
    forall i: nat, k: nat
      ensures (i, k) in before + more <==> Reports(tables, c, i, k)
    {
      if (i, k) in more {
        var j :| 0 <= j < |more| && more[j] == (i, k);
        assert Ranks(r, 4)[j] == k && k in Ranks(r, 4);
      }
      if Reports(tables, c, i, k) && i == n {
        assert k in Ranks(r, 4);
        var j :| 0 <= j < |Ranks(r, 4)| && Ranks(r, 4)[j] == k;
        assert more[j] == (i, k);
      }
      assert Reports(front, c, i, k) <==> i < n && Reports(tables, c, i, k);
    }
  }

  lemma PlacesOrdered(front: seq<TableRow>, r: TableRow, c: string, before: seq<(nat, nat)>, more: seq<(nat, nat)>)
    requires Ordered(before, Earlier) && forall j | 0 <= j < |before| :: before[j].0 < |front|
    requires Ordered(Ranks(r, 4), (a: nat, b: nat) => a < b)
    requires more == if r.catalog == c then Map(Ranks(r, 4), (k: nat) => (|front|, k)) else []
    ensures Ordered(before + more, Earlier)
  {
    hide Ranks, Field;
    OrderedAppend(before, more, Earlier);
  }

  lemma {:induction false} IndexPlaces(tables: seq<TableRow>, rows: seq<IndexRow>, c: string) returns (places: seq<nat>)
    ensures FromIndexes(RecordedPart(tables, rows, c), places, tables, rows, c)
  {
    if rows == [] {
      places := [];
    } else {
      var front, r, n := rows[..|rows| - 1], Last(rows), |rows| - 1;
      assert rows == front + [r];
      var before := IndexPlaces(tables, front, c);
      KeySpelled(tables, r);
      places := before + if r.catalog == c && Counted(tables, r) then [n] else [];
      hide KeyKnown;
      forall i: nat
        ensures Records(tables, rows, c, i) <==> if i == n then r.catalog == c && Counted(tables, r) else Records(tables, front, c, i)
      {
        assert i < n ==> rows[i] == front[i];
      }
      hide Records;
      assert forall i | 0 <= i < n :: rows[i] == front[i];
      assert RecordedPart(tables, front, c) + [] == RecordedPart(tables, front, c);
      assert forall i <- before :: Records(tables, front, c, i);
      IndexBound(tables, front, c);
    }
  }

  lemma IndexBound(tables: seq<TableRow>, rows: seq<IndexRow>, c: string)
    ensures forall i: nat :: Records(tables, rows, c, i) ==> i < |rows|
  {
  }

  lemma KeySpelled(tables: seq<TableRow>, r: IndexRow)
    ensures KeyKnown(tables, r.catalog, r.table)
       <==> exists t <- tables :: t.catalog + "\0" + t.table == r.catalog + "\0" + r.table
  {
    forall t | t in tables
      ensures TableKey(t.catalog, t.table) == t.catalog + "\0" + t.table
      ensures TableKey(r.catalog, r.table) == r.catalog + "\0" + r.table
    {
    }
  }

  lemma {:induction false} SeenInOrder(tables: seq<TableRow>)
    ensures InFirstOrder(FirstSeen(Map(tables, RowCatalog)), tables)
  {
    if tables != [] {
      var front, r := tables[..|tables| - 1], Last(tables);
      assert tables == front + [r];
      SeenInOrder(front);
      MapSnoc(front, r, RowCatalog);
      FirstSeenSnoc(Map(front, RowCatalog), r.catalog);
      FirstSeenMembers(Map(front, RowCatalog));
      hide FirstSeen, InFirstOrder;
      CatalogsNamed(front);
      OneMoreSeen(front, r, FirstSeen(Map(front, RowCatalog)));
    }
  }

  lemma CatalogsNamed(tables: seq<TableRow>)
    ensures forall c :: c in Map(tables, RowCatalog) <==> exists t <- tables :: t.catalog == c
  {
    forall c | exists t <- tables :: t.catalog == c
      ensures c in Map(tables, RowCatalog)
    {
      var t :| t in tables && t.catalog == c;
      var i :| 0 <= i < |tables| && tables[i] == t;
      assert Map(tables, RowCatalog)[i] == c;
    }
  }

  lemma OneMoreSeen(front: seq<TableRow>, r: TableRow, order: seq<string>)
    requires InFirstOrder(order, front)
    ensures InFirstOrder(if r.catalog in order then order else order + [r.catalog], front + [r])
  {
    var tables := front + [r];
    var after := if r.catalog in order then order else order + [r.catalog];
    forall i, j | 0 <= i < j < |after|
      ensures SeenBefore(tables, after[i], after[j])
    {
      if j < |order| {
        SeenStill(front, r, order[i], order[j]);
      } else {
        assert order[i] in order;
        var t :| t in front && t.catalog == order[i];
        var p :| 0 <= p < |front| && front[p] == t;
        assert tables[p].catalog == after[i];
        assert forall q | 0 <= q <= p :: tables[q] == front[q] && front[q] in front;
      }
    }
    assert forall t <- tables :: t in front || t == r;
    assert r in tables && forall t <- front :: t in tables;
  }

  lemma SeenStill(front: seq<TableRow>, r: TableRow, c: string, d: string)
    requires SeenBefore(front, c, d)
    ensures SeenBefore(front + [r], c, d)
  {
    var tables := front + [r];
    var p :| 0 <= p < |front| && front[p].catalog == c && forall q | 0 <= q <= p :: front[q].catalog != d;
    assert tables[p].catalog == c && forall q | 0 <= q <= p :: tables[q] == front[q];
  }

  lemma RecordedExplained(a: Assembled, tables: seq<TableRow>, rows: seq<IndexRow>)
    requires Recorded(a, tables, rows)
    ensures Explained(a, tables, rows)
  {
    SeenInOrder(tables);
    hide FirstSeen, TablePart, RecordedPart, InFirstOrder;
    forall c | c in a.catalogOrder
      ensures a.statsByCatalog[c].Keys == {""} && Lists(a.statsByCatalog[c][""], tables, rows, c)
    {
      var places := TablePlaces(tables, c);
      var counts := IndexPlaces(tables, rows, c);
      hide FromTables, FromIndexes;
      assert a.statsByCatalog[c] == map["" := TablePart(tables, c) + RecordedPart(tables, rows, c)];
    }
  }

  /** The row has this value in the field that the measure is named after. */
  predicate HasValue(r: TableRow, measure: Measure, value: nat) {
    match measure
    case RowCount => r.rowCount == Some(value)
    case DataLength => r.dataLength == Some(value)
    case IndexLength => r.indexLength == Some(value)
    case AvgRowLength => r.avgRowLength == Some(value)
    case DistinctCount => false
  }

  lemma NamedField(r: TableRow, measure: Measure, value: nat)
    ensures HasValue(r, measure, value) <==> exists k | 0 <= k < 4 :: measure == MEASURES[k] && Field(r, k) == Some(value)
  {
    assert MEASURES[0] == RowCount && MEASURES[1] == DataLength && MEASURES[2] == IndexLength && MEASURES[3] == AvgRowLength;
  }

  /** A statistic without a column is in a catalog's list exactly when a row of that catalog and table has that value in
      the field of that name; it is marked approximate. */
  lemma TableStatistics(a: Assembled, tables: seq<TableRow>, rows: seq<IndexRow>, catalog: string, s: Statistic)
    requires Explained(a, tables, rows) && catalog in a.catalogOrder && s.column.None?
    ensures s in a.statsByCatalog[catalog][""] <==>
      s.approximate && exists t <- tables :: t.catalog == catalog && t.table == s.table && HasValue(t, s.measure, s.value)
  {
    var stats := a.statsByCatalog[catalog][""];
    var first, second, places, counts :|
      stats == first + second && FromTables(first, places, tables, catalog) && FromIndexes(second, counts, tables, rows, catalog);
    OnlyWithColumn(second, counts, tables, rows, catalog, s);
    hide FromIndexes, Field, HasValue;
    if s in stats {
      FromSomeRow(first, places, tables, catalog, s);
    }
    if t :| s.approximate && t in tables && t.catalog == catalog && t.table == s.table && HasValue(t, s.measure, s.value) {
      IntoList(first, places, tables, catalog, s, t);
    }
  }

  lemma OnlyWithColumn(stats: seq<Statistic>, places: seq<nat>, tables: seq<TableRow>, rows: seq<IndexRow>,
                       catalog: string, s: Statistic)
    requires FromIndexes(stats, places, tables, rows, catalog) && s.column.None?
    ensures s !in stats
  {
    assert forall j | 0 <= j < |stats| :: stats[j].column.Some?;
  }

  lemma FromSomeRow(stats: seq<Statistic>, places: seq<(nat, nat)>, tables: seq<TableRow>, catalog: string, s: Statistic)
    requires FromTables(stats, places, tables, catalog) && s in stats
    ensures s.approximate
    ensures exists t <- tables :: t.catalog == catalog && t.table == s.table && HasValue(t, s.measure, s.value)
  {
    var j :| 0 <= j < |stats| && stats[j] == s;
    var i, k := places[j].0, places[j].1;
    hide FromTables, Field, HasValue;
    NamedField(tables[i], s.measure, s.value);
    assert tables[i] in tables;
  }

  lemma IntoList(stats: seq<Statistic>, places: seq<(nat, nat)>, tables: seq<TableRow>, catalog: string, s: Statistic, t: TableRow)
    requires FromTables(stats, places, tables, catalog) && s.approximate && s.column.None?
    requires t in tables && t.catalog == catalog && t.table == s.table && HasValue(t, s.measure, s.value)
    ensures s in stats
  {
    NamedField(t, s.measure, s.value);
    hide Field, HasValue;
    var k :| 0 <= k < 4 && s.measure == MEASURES[k] && Field(t, k) == Some(s.value);
    var i :| 0 <= i < |tables| && tables[i] == t;
    assert Reports(tables, catalog, i, k);
    var j :| 0 <= j < |places| && places[j] == (i, k);
    assert stats[j] == s;
  }

  /** GetStatistics on the rows its two queries return. */
  method GetStatistics(dbSchema: Option<string>, tables: seq<TableRow>, rows: seq<IndexRow>) returns (r: Answer)
    ensures r == Empty <==> dbSchema.GetOr("") != "" || tables == []
    ensures r == Panicked <==> dbSchema.GetOr("") == "" && exists x <- rows :: Confused(tables, x)
    ensures r.Reader? ==> Explained(r.result, tables, rows)
    ensures r.Reader? ==> (Complete(r.result, tables, rows) <==> forall x <- rows :: !Stray(tables, x))
    ensures NulFreeNames(tables, rows) && r != Empty ==> r.Reader? && Complete(r.result, tables, rows)
  {
    hide AfterTables, Complete, Keyed, Confused, Stray, Recorded, Explained;
    if dbSchema.Some? && dbSchema.value != "" {
      return Empty;
    }
    var a, knownTables := ReadTables(tables);
    r := ReadIndexes(a, knownTables, tables, rows);
    if r.Reader? {
      RecordedExplained(r.result, tables, rows);
    }
    NoneStray(tables, rows);
    OrderNonempty(a, tables);
    if r.Reader? && r.result.catalogOrder == [] {
      r := Empty;
    }
  }

  /** Without NUL in catalog names no count is stray, and none is confused; neither is any without tables. */
  lemma NoneStray(tables: seq<TableRow>, rows: seq<IndexRow>)
    ensures NulFreeNames(tables, rows) || tables == [] ==> forall x <- rows :: !Stray(tables, x) && !Confused(tables, x)
  {
    hide TableKey;
    if NulFreeNames(tables, rows) {
      forall x | x in rows && KeyKnown(tables, x.catalog, x.table)
        ensures Known(tables, x.catalog, x.table)
      {
        var t :| t in tables && TableKey(t.catalog, t.table) == TableKey(x.catalog, x.table);
        TableKeyInjective(t.catalog, t.table, x.catalog, x.table);
      }
    }
  }

  lemma OrderNonempty(a: Assembled, tables: seq<TableRow>)
    requires AfterTables(a, tables)
    ensures a.catalogOrder == [] <==> tables == []
  {
    FirstSeenMembers(Map(tables, RowCatalog));
    assert tables != [] ==> Map(tables, RowCatalog)[0] in a.catalogOrder;
  }

  /** The NUL in the catalog name matters: here the composite key of a seen table equals that of another, first in an
      unseen catalog, then in a seen one. */
  lemma NulConfuses()
    ensures var t, u := TableRow("a\0b", "c", None, None, None, None), TableRow("a", "z", None, None, None, None);
      var r := IndexRow("a", "b\0c", "x", Some(1));
      Confused([t], r) && Stray([t, u], r) && !Confused([t, u], r)
  {
    var t, u := TableRow("a\0b", "c", None, None, None, None), TableRow("a", "z", None, None, None, None);
    assert t in [t] && t in [t, u] && u in [t, u];
    assert TableKey("a\0b", "c") == TableKey("a", "b\0c");
  }
}

/** What the attached constraints mean when the stream is ordered as the query asks, and the complete GetObjects
    result: the nested tree with every table's constraints. */
module ConstraintOrder {
  import opened Prelude
  import opened Grouping
  import opened ObjectTree
  import opened ObjectQuery
  import opened TableConstraints

  predicate KeyOrdinalLe(a: CRow, b: CRow) {
    a.ordinal.None? || (b.ordinal.Some? && a.ordinal.value <= b.ordinal.value)
  }

  /** a comes before b, or ties with it and the rest of the order decides. */
  predicate Then(before: Before, a: string, b: string, rest: bool) {
    before(a, b) || (Tied(before, a, b) && rest)
  }

  /** ORDER BY tc.CONSTRAINT_SCHEMA, tc.TABLE_NAME, tc.CONSTRAINT_NAME, kcu.ORDINAL_POSITION, NULL first. */
  predicate CRowLe(before: Before, a: CRow, b: CRow) {
    Then(before, a.catalog, b.catalog, Then(before, a.table, b.table, Then(before, a.name, b.name, KeyOrdinalLe(a, b))))
  }

  ghost function CRowOrder(before: Before): (CRow, CRow) -> bool {
    (a, b) => CRowLe(before, a, b)
  }

  /** A stream in the order asked for, whose ties, if any, keep the rows of each constraint together. */
  ghost predicate OrderedStream(rows: seq<CRow>, before: Before) {
    && StrictWeak(before)
    && Ordered(rows, CRowOrder(before))
    && (forall r <- rows :: NulFree(r.catalog))
    && Contiguous(Map(rows, ConstraintKey))
  }

  predicate OfTable(r: CRow, catalog: string, table: string) {
    r.catalog == catalog && r.table == table
  }

  lemma SameTable(r: CRow, catalog: string, table: string)
    requires NulFree(r.catalog) && NulFree(catalog)
    ensures RowKey(r) == TableKey(catalog, table) <==> OfTable(r, catalog, table)
  {
    if RowKey(r) == TableKey(catalog, table) {
      TableKeyInjective(r.catalog, r.table, catalog, table);
    }
  }

  // ---------- The constraints of one table among all runs ----------

  /** c is the constraint of one of the runs with this table key. */
  ghost predicate FromRun(groups: seq<seq<CRow>>, key: string, c: Constraint)
    requires forall a :: 0 <= a < |groups| ==> groups[a] != []
  {
    exists a :: 0 <= a < |groups| && RowKey(groups[a][0]) == key && c == ConstraintOf(groups[a])
  }

  lemma {:induction false} FromMembers(groups: seq<seq<CRow>>, key: string, c: Constraint)
    requires forall a :: 0 <= a < |groups| ==> groups[a] != []
    ensures c in ConstraintsFrom(groups, key) <==> FromRun(groups, key, c)
  {
    hide ConstraintOf;
    if groups != [] {
      var front, g := groups[..|groups| - 1], Last(groups);
      FromMembers(front, key, c);
      assert FromRun(groups, key, c) <==> FromRun(front, key, c) || (RowKey(g[0]) == key && c == ConstraintOf(g)) by {
        if FromRun(front, key, c) {
          var a :| 0 <= a < |front| && RowKey(front[a][0]) == key && c == ConstraintOf(front[a]);
          assert groups[a] == front[a];
        }
        assert groups[|groups| - 1] == g;
      }
    }
  }

  ghost function ByName(before: Before): (Constraint, Constraint) -> bool {
    (c: Constraint, d: Constraint) => NameLt(before, c.name, d.name)
  }

  lemma {:induction false} FromOrdered(groups: seq<seq<CRow>>, key: string, before: Before)
    requires forall a :: 0 <= a < |groups| ==> groups[a] != []
    requires forall a, b | 0 <= a < b < |groups| && RowKey(groups[a][0]) == key && RowKey(groups[b][0]) == key ::
      NameLt(before, groups[a][0].name, groups[b][0].name)
    ensures Ordered(ConstraintsFrom(groups, key), ByName(before))
  {
    hide ConstraintOf;
    if groups != [] {
      var front, g := groups[..|groups| - 1], Last(groups);
      FromOrdered(front, key, before);
      ConstraintName(g);
      var cs := ConstraintsFrom(front, key);
      forall i | 0 <= i < |cs| && RowKey(g[0]) == key
        ensures NameLt(before, cs[i].name, g[0].name)
      {
        FromMembers(front, key, cs[i]);
        var a :| 0 <= a < |front| && RowKey(front[a][0]) == key && cs[i] == ConstraintOf(front[a]);
        ConstraintName(front[a]);
        assert groups[a] == front[a];
      }
    }
  }

  /** All the rows of one constraint, in stream order. */
  function RowsOf(rows: seq<CRow>, catalog: string, table: string, name: string): seq<CRow> {
    Filter(rows, KeyIs(ConstraintKey, (TableKey(catalog, table), name)))
  }

  ghost predicate Complete(cs: seq<Constraint>, rows: seq<CRow>, catalog: string, table: string) {
    && (forall r :: r in rows && OfTable(r, catalog, table) ==> exists i :: 0 <= i < |cs| && cs[i].name == r.name)
    && (forall i :: 0 <= i < |cs| ==>
          var run := RowsOf(rows, catalog, table, cs[i].name);
          run != [] && cs[i] == ConstraintOf(run))
  }

  lemma NameNotBefore(before: Before, x: CRow, y: CRow)
    requires StrictWeak(before) && CRowLe(before, x, y) && x.catalog == y.catalog && x.table == y.table
    ensures !before(y.name, x.name)
  {
  }

  lemma NamesOrdered(rows: seq<CRow>, before: Before, catalog: string, table: string)
    requires OrderedStream(rows, before) && NulFree(catalog)
    ensures Ordered(ConstraintsFor(rows, TableKey(catalog, table)), ByName(before))
  {
    hide Runs, ConstraintOf, ConstraintsFrom;
    var key, groups := TableKey(catalog, table), ConstraintRuns(rows);
    RunsSound(rows, ConstraintKey);
    RunsDistinct(rows, ConstraintKey);
    FlattenOrdered(groups, CRowOrder(before));
    HeadsInStream(rows);
    hide StrictWeak, CRowLe, Contiguous, Ordered;
    forall a, b | 0 <= a < b < |groups| && RowKey(groups[a][0]) == key && RowKey(groups[b][0]) == key
      ensures NameLt(before, groups[a][0].name, groups[b][0].name)
    {
      assert Heads(groups, ConstraintKey)[a] != Heads(groups, ConstraintKey)[b];
      SameTable(groups[a][0], catalog, table);
      SameTable(groups[b][0], catalog, table);
      assert CRowOrder(before)(groups[a][0], groups[b][0]);
      NameNotBefore(before, groups[a][0], groups[b][0]);
    }
    FromOrdered(groups, key, before);
  }

  lemma NameListed(rows: seq<CRow>, key: string, r: CRow)
    requires r in rows && RowKey(r) == key
    ensures exists i :: 0 <= i < |ConstraintsFor(rows, key)| && ConstraintsFor(rows, key)[i].name == r.name
  {
    hide Runs, ConstraintOf, ConstraintsFrom;
    var groups := ConstraintRuns(rows);
    RunsSound(rows, ConstraintKey);
    FlattenMembers(groups, r);
    var a :| 0 <= a < |groups| && r in groups[a];
    assert ConstraintKey(groups[a][0]) == ConstraintKey(r);
    ConstraintName(groups[a]);
    FromMembers(groups, key, ConstraintOf(groups[a]));
    assert ConstraintOf(groups[a]) in ConstraintsFor(rows, key);
  }

  lemma BuiltFromAll(rows: seq<CRow>, before: Before, catalog: string, table: string, c: Constraint)
    requires OrderedStream(rows, before) && c in ConstraintsFor(rows, TableKey(catalog, table))
    ensures RowsOf(rows, catalog, table, c.name) != [] && c == ConstraintOf(RowsOf(rows, catalog, table, c.name))
  {
    hide Runs, ConstraintOf, ConstraintsFrom;
    var key, groups := TableKey(catalog, table), ConstraintRuns(rows);
    FromMembers(groups, key, c);
    var a :| 0 <= a < |groups| && RowKey(groups[a][0]) == key && c == ConstraintOf(groups[a]);
    ConstraintName(groups[a]);
    RunIsFilter(rows, ConstraintKey, a);
  }

  /** On an ordered stream a table's list has each of its constraint names once, in order, and each entry is built
      from all the rows of that constraint, in ordinal order. */
  lemma ConstraintsComplete(rows: seq<CRow>, before: Before, catalog: string, table: string)
    requires OrderedStream(rows, before) && NulFree(catalog)
    ensures var cs := ConstraintsFor(rows, TableKey(catalog, table));
      Ordered(cs, ByName(before)) && Complete(cs, rows, catalog, table)
  {
    hide ConstraintsFor, ConstraintOf, RowsOf;
    var cs := ConstraintsFor(rows, TableKey(catalog, table));
    NamesOrdered(rows, before, catalog, table);
    forall r | r in rows && OfTable(r, catalog, table)
      ensures exists i :: 0 <= i < |cs| && cs[i].name == r.name
    {
      NameListed(rows, TableKey(catalog, table), r);
    }
    forall i | 0 <= i < |cs|
      ensures var run := RowsOf(rows, catalog, table, cs[i].name); run != [] && cs[i] == ConstraintOf(run)
    {
      BuiltFromAll(rows, before, catalog, table, cs[i]);
    }
  }

  lemma HeadsInStream(rows: seq<CRow>)
    ensures forall a :: 0 <= a < |ConstraintRuns(rows)| ==> ConstraintRuns(rows)[a][0] in rows
  {
    hide Runs;
    var groups := ConstraintRuns(rows);
    RunsSound(rows, ConstraintKey);
    forall a | 0 <= a < |groups|
      ensures groups[a][0] in rows
    {
      FlattenMembers(groups, groups[a][0]);
      assert groups[a][0] in groups[a];
    }
  }

  /** The rows an entry is built from are the constraint's own rows, with ordinals that never decrease. */
  lemma RowsOfConstraint(rows: seq<CRow>, before: Before, catalog: string, table: string, name: string)
    requires OrderedStream(rows, before) && NulFree(catalog)
    ensures forall r :: r in RowsOf(rows, catalog, table, name) <==> r in rows && OfTable(r, catalog, table) && r.name == name
    ensures Ordered(RowsOf(rows, catalog, table, name), KeyOrdinalLe)
  {
    var run := RowsOf(rows, catalog, table, name);
    FilterOrdered(rows, KeyIs(ConstraintKey, (TableKey(catalog, table), name)), CRowOrder(before));
    forall r | r in rows
      ensures r in run <==> OfTable(r, catalog, table) && r.name == name
    {
      SameTable(r, catalog, table);
    }
    forall i, j | 0 <= i < j < |run|
      ensures KeyOrdinalLe(run[i], run[j])
    {
      assert run[i] in run && run[j] in run;
      assert CRowOrder(before)(run[i], run[j]);
    }
  }

  /** When every row of a constraint names its own column and a referenced one, as for a foreign key, columns and
      usages run parallel to the rows; when none names a referenced column, there is no usage. */
  lemma {:induction false} ParallelUsage(run: seq<CRow>)
    requires run != []
    ensures (forall r <- run :: HasKeyColumn(r) && HasForeign(r)) ==>
      && ConstraintOf(run).columns == Map(run, KeyColumn) && ConstraintOf(run).usage == Map(run, UsageOf)
    ensures (forall r <- run :: !HasForeign(r)) ==> ConstraintOf(run).usage == []
  {
    if forall r <- run :: HasKeyColumn(r) && HasForeign(r) {
      FilterAll(run, HasKeyColumn);
      FilterAll(run, HasForeign);
    }
    if forall r <- run :: !HasForeign(r) {
      FilterNone(run, HasForeign);
    }
  }

  ghost predicate OneKindPerName(rows: seq<CRow>, catalog: string, table: string) {
    forall r, s | r in rows && s in rows && OfTable(r, catalog, table) && OfTable(s, catalog, table) && r.name == s.name ::
      r.kind == s.kind
  }

  /** The loop looks at constraint names only. Every constraint of the table is reported with its own type exactly
      when no two constraints of different types share a name; otherwise they are merged under the first type. */
  lemma KindsKept(rows: seq<CRow>, before: Before, catalog: string, table: string)
    requires OrderedStream(rows, before) && NulFree(catalog)
    ensures var cs := ConstraintsFor(rows, TableKey(catalog, table));
      (forall r :: r in rows && OfTable(r, catalog, table) ==> exists i :: 0 <= i < |cs| && cs[i].name == r.name && cs[i].kind == r.kind)
      <==> OneKindPerName(rows, catalog, table)
  {
    hide ConstraintsFor, ConstraintOf, RowsOf;
    var cs := ConstraintsFor(rows, TableKey(catalog, table));
    ConstraintsComplete(rows, before, catalog, table);
    if OneKindPerName(rows, catalog, table) {
      forall r | r in rows && OfTable(r, catalog, table)
        ensures exists i :: 0 <= i < |cs| && cs[i].name == r.name && cs[i].kind == r.kind
      {
        var i :| 0 <= i < |cs| && cs[i].name == r.name;
        var run := RowsOf(rows, catalog, table, cs[i].name);
        RowsOfConstraint(rows, before, catalog, table, cs[i].name);
        ConstraintName(run);
        assert run[0] in run;
      }
    }
    if forall r :: r in rows && OfTable(r, catalog, table) ==> exists i :: 0 <= i < |cs| && cs[i].name == r.name && cs[i].kind == r.kind {
      forall r, s | r in rows && s in rows && OfTable(r, catalog, table) && OfTable(s, catalog, table) && r.name == s.name
        ensures r.kind == s.kind
      {
        var i :| 0 <= i < |cs| && cs[i].name == r.name && cs[i].kind == r.kind;
        var j :| 0 <= j < |cs| && cs[j].name == s.name && cs[j].kind == s.kind;
        assert i < j ==> ByName(before)(cs[i], cs[j]);
        assert j < i ==> ByName(before)(cs[j], cs[i]);
      }
    }
  }

  // ---------- The complete result ----------

  ghost predicate DistinctTables(infos: seq<Catalog>) {
    forall p, q :: ValidPath(infos, p) && ValidPath(infos, q) && KeyAt(infos, p) == KeyAt(infos, q) ==> p == q
  }

  lemma NestedDistinct(infos: seq<Catalog>, server: Server, q: Request, like: Like, before: Before)
    requires Nested(infos, server, q, like, before)
    requires forall s <- server.schemata :: NulFree(s)
    ensures DistinctTables(infos)
    ensures forall p :: ValidPath(infos, p) ==> NulFree(infos[p.info].name) && TableAt(infos, p).constraints == []
  {
    hide TableWanted, NestedColumns;
    forall p | ValidPath(infos, p)
      ensures NulFree(infos[p.info].name) && p.schema == 0
        && NestedTables(infos[p.info].schemas.value[0].tables, server, q, like, before, infos[p.info].name)
        && TableAt(infos, p).constraints == []
    {
      assert CatalogWanted(server, q, like, infos[p.info].name);
      assert NestedTable(TableAt(infos, p), server, q, like, infos[p.info].name);
    }
    forall p, r | ValidPath(infos, p) && ValidPath(infos, r) && KeyAt(infos, p) == KeyAt(infos, r)
      ensures p == r
    {
      TableKeyInjective(infos[p.info].name, TableAt(infos, p).name, infos[r.info].name, TableAt(infos, r).name);
      SameIndex(infos, p.info, r.info, before);
      SameTableIndex(infos[p.info].schemas.value[0].tables.value, p.table, r.table, before);
    }
  }

  lemma SameIndex(infos: seq<Catalog>, i: nat, j: nat, before: Before)
    requires Ordered(infos, (a: Catalog, b: Catalog) => NameLt(before, a.name, b.name))
    requires i < |infos| && j < |infos| && infos[i].name == infos[j].name
    ensures i == j
  {
  }

  lemma SameTableIndex(ts: seq<Table>, i: nat, j: nat, before: Before)
    requires Ordered(ts, (a: Table, b: Table) => NameLt(before, a.name, b.name))
    requires i < |ts| && j < |ts| && ts[i].name == ts[j].name
    ensures i == j
  {
  }

  /** GetObjects end to end: over the answer to the first query and any ordered constraint stream, the tree is the
      nested specification, unchanged except that every table carries exactly its constraints. */
  lemma ConstraintsAttached(infos: seq<Catalog>, server: Server, q: Request, like: Like, before: Before, rows: seq<CRow>, p: Path)
    requires Nested(infos, server, q, like, before) && OrderedStream(rows, before)
    requires forall s <- server.schemata :: NulFree(s)
    requires ValidPath(infos, p)
    ensures var extended := Extend(infos, IndexInfos(infos, |infos|), rows);
      && SameOutline(extended, infos) && ValidPath(extended, p)
      && var t := TableAt(extended, p);
         && t == TableAt(infos, p).(constraints := t.constraints)
         && Ordered(t.constraints, ByName(before))
         && Complete(t.constraints, rows, infos[p.info].name, t.name)
  {
    hide Extend, ConstraintsFor, IndexInfos, NestedTables, Complete, Nested, OrderedStream, SameOutline, ByName, NulFree;
    var m := IndexInfos(infos, |infos|);
    InfosIndexed(infos, |infos|);
    NestedDistinct(infos, server, q, like, before);
    ExtendOutline(infos, m, rows);
    ExtendShape(infos, m, rows, p);
    assert m[KeyAt(infos, p)] == p;
    var t := TableAt(infos, p);
    assert [] + ConstraintsFor(rows, KeyAt(infos, p)) == ConstraintsFor(rows, KeyAt(infos, p));
    ConstraintsComplete(rows, before, infos[p.info].name, t.name);
  }
}

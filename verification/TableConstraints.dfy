/** addTableConstraints: a second ordered row stream attached to the finished tree through a map of pointers. */
module TableConstraints {
  import opened Prelude
  import opened Grouping
  import opened ObjectTree

  datatype CRow = CRow(catalog: string, table: string, name: string, kind: string, ordinal: Option<int>,
                       column: Option<string>, foreignCatalog: Option<string>, foreignTable: Option<string>,
                       foreignColumn: Option<string>)

  // ---------- The constraints that a row stream gives a table ----------

  function RowKey(r: CRow): string { TableKey(r.catalog, r.table) }
  function ConstraintKey(r: CRow): (string, string) { (RowKey(r), r.name) }
  predicate HasKeyColumn(r: CRow) { r.column.Some? }
  predicate HasForeign(r: CRow) { r.foreignTable.Some? && r.foreignColumn.Some? }
  function KeyColumn(r: CRow): string { r.column.GetOr("") }

  function UsageOf(r: CRow): Usage {
    Usage(r.foreignCatalog, "", r.foreignTable.GetOr(""), r.foreignColumn.GetOr(""))
  }

  function ConstraintOf(run: seq<CRow>): Constraint
    requires run != []
  {
    Constraint(run[0].name, run[0].kind,
               Map(Filter(run, HasKeyColumn), KeyColumn), Map(Filter(run, HasForeign), UsageOf))
  }

  function ConstraintRuns(rows: seq<CRow>): (groups: seq<seq<CRow>>)
    ensures forall a :: 0 <= a < |groups| ==> groups[a] != []
  {
    Runs(rows, ConstraintKey)
  }

  function ConstraintsFrom(groups: seq<seq<CRow>>, key: string): seq<Constraint>
    requires forall a :: 0 <= a < |groups| ==> groups[a] != []
  {
    if groups == [] then [] else
    ConstraintsFrom(groups[..|groups| - 1], key) +
    if RowKey(Last(groups)[0]) == key then [ConstraintOf(Last(groups))] else []
  }

  /** One constraint per run of rows with this table key and one constraint name. */
  function ConstraintsFor(rows: seq<CRow>, key: string): seq<Constraint> {
    ConstraintsFrom(ConstraintRuns(rows), key)
  }

  function NewConstraint(r: CRow): Constraint {
    Constraint(r.name, r.kind, [], [])
  }

  function AddKeyRow(c: Constraint, r: CRow): Constraint {
    c.(columns := c.columns + (if HasKeyColumn(r) then [KeyColumn(r)] else []),
       usage := c.usage + (if HasForeign(r) then [UsageOf(r)] else []))
  }

  lemma FilterMapSnoc<U>(run: seq<CRow>, r: CRow, p: CRow -> bool, f: CRow -> U)
    ensures Map(Filter(run + [r], p), f) == Map(Filter(run, p), f) + (if p(r) then [f(r)] else [])
  {
    hide Filter;
    FilterSnoc(run, r, p);
    var before := Filter(run, p);
    if p(r) {
      MapSnoc(before, r, f);
    } else {
      assert before + [] == before;
    }
  }

  lemma ConstraintSnoc(run: seq<CRow>, r: CRow)
    ensures ConstraintOf(run + [r]) == AddKeyRow(if run == [] then NewConstraint(r) else ConstraintOf(run), r)
  {
    hide Filter, Map;
    FilterMapSnoc(run, r, HasKeyColumn, KeyColumn);
    FilterMapSnoc(run, r, HasForeign, UsageOf);
    if run == [] {
      EmptyFilterMap(HasKeyColumn, KeyColumn);
      EmptyFilterMap(HasForeign, UsageOf);
    } else {
      assert (run + [r])[0] == run[0];
    }
  }

  lemma EmptyFilterMap<U>(p: CRow -> bool, f: CRow -> U)
    ensures Map(Filter([], p), f) == []
  {
  }

  lemma FromSnoc(groups: seq<seq<CRow>>, g: seq<CRow>, key: string)
    requires g != [] && forall a :: 0 <= a < |groups| ==> groups[a] != []
    ensures ConstraintsFrom(groups + [g], key)
      == ConstraintsFrom(groups, key) + if RowKey(g[0]) == key then [ConstraintOf(g)] else []
  {
    SnocParts(groups, g);
  }

  /** Whether row r continues the constraint of the row before it. */
  predicate Continues(rows: seq<CRow>, r: CRow) {
    rows != [] && ConstraintKey(Last(rows)) == ConstraintKey(r)
  }

  lemma ForSnoc(rows: seq<CRow>, r: CRow, key: string)
    ensures var cs, more := ConstraintsFor(rows, key), ConstraintsFor(rows + [r], key);
      && (RowKey(r) != key ==> more == cs)
      && (RowKey(r) == key && !Continues(rows, r) ==> more == cs + [AddKeyRow(NewConstraint(r), r)])
      && (RowKey(r) == key && Continues(rows, r) ==>
            cs != [] && Last(cs).name == r.name && more == cs[..|cs| - 1] + [AddKeyRow(Last(cs), r)])
  {
    hide Runs, ConstraintOf;
    var groups := ConstraintRuns(rows);
    RunsSnoc(rows, r, ConstraintKey);
    LastRunKey(rows);
    var run := if Continues(rows, r) then Last(groups) else [];
    var kept := if run == [] then groups else groups[..|groups| - 1];
    assert [] + [r] == [r];
    assert ConstraintRuns(rows + [r]) == kept + [run + [r]];
    assert (run + [r])[0] == if run == [] then r else run[0];
    FromSnoc(kept, run + [r], key);
    ConstraintSnoc(run, r);
    if run != [] {
      assert groups == kept + [run];
      FromSnoc(kept, run, key);
      ConstraintName(run);
    }
  }

  lemma ConstraintName(run: seq<CRow>)
    requires run != []
    ensures ConstraintOf(run).name == run[0].name && ConstraintOf(run).kind == run[0].kind
  {
  }

  lemma LastRunKey(rows: seq<CRow>)
    ensures rows != [] <==> ConstraintRuns(rows) != []
    ensures rows != [] ==> ConstraintKey(Last(ConstraintRuns(rows))[0]) == ConstraintKey(Last(rows))
  {
    RunHeads(rows, ConstraintKey);
    if rows != [] {
      DedupMembers(Map(rows, ConstraintKey), ConstraintKey(Last(rows)));
      var heads := Heads(ConstraintRuns(rows), ConstraintKey);
      assert Last(heads) == Last(Map(rows, ConstraintKey));
    }
  }

  // ---------- Paths into the tree ----------

  datatype Path = Path(info: nat, schema: nat, table: nat)

  predicate ValidPath(infos: seq<Catalog>, p: Path) {
    && p.info < |infos|
    && infos[p.info].schemas.Some? && p.schema < |infos[p.info].schemas.value|
    && infos[p.info].schemas.value[p.schema].tables.Some?
    && p.table < |infos[p.info].schemas.value[p.schema].tables.value|
  }

  function TableAt(infos: seq<Catalog>, p: Path): Table
    requires ValidPath(infos, p)
  {
    infos[p.info].schemas.value[p.schema].tables.value[p.table]
  }

  function KeyAt(infos: seq<Catalog>, p: Path): string
    requires ValidPath(infos, p)
  {
    TableKey(infos[p.info].name, TableAt(infos, p).name)
  }

  /** Assigning through a pointer to one table. */
  function SetTable(infos: seq<Catalog>, p: Path, t: Table): seq<Catalog>
    requires ValidPath(infos, p)
  {
    var schemas := infos[p.info].schemas.value;
    var tables := schemas[p.schema].tables.value;
    infos[p.info := infos[p.info].(schemas := Some(
      schemas[p.schema := schemas[p.schema].(tables := Some(tables[p.table := t]))]))]
  }

  type Index = map<string, Path>

  // ---------- The map from names to tables ----------

  function IndexTables(m: Index, catalog: string, i: nat, s: nat, tables: seq<Table>, n: nat): Index
    requires n <= |tables|
  {
    if n == 0 then m
    else IndexTables(m, catalog, i, s, tables, n - 1)[TableKey(catalog, tables[n - 1].name) := Path(i, s, n - 1)]
  }

  function IndexSchemas(m: Index, c: Catalog, i: nat, n: nat): Index
    requires n <= |c.schemas.GetOr([])|
  {
    if n == 0 then m else
    var tables := c.schemas.value[n - 1].tables.GetOr([]);
    IndexTables(IndexSchemas(m, c, i, n - 1), c.name, i, n - 1, tables, |tables|)
  }

  function IndexInfos(infos: seq<Catalog>, n: nat): Index
    requires n <= |infos|
  {
    if n == 0 then map[] else
    IndexSchemas(IndexInfos(infos, n - 1), infos[n - 1], n - 1, |infos[n - 1].schemas.GetOr([])|)
  }

  ghost predicate IndexSound(infos: seq<Catalog>, m: Index) {
    forall k :: k in m ==> ValidPath(infos, m[k]) && KeyAt(infos, m[k]) == k
  }

  lemma IndexOne(infos: seq<Catalog>, m: Index, p: Path)
    requires IndexSound(infos, m) && ValidPath(infos, p)
    ensures IndexSound(infos, m[KeyAt(infos, p) := p])
  {
  }

  lemma {:induction false} TablesIndexed(infos: seq<Catalog>, m: Index, i: nat, s: nat, n: nat)
    requires i < |infos| && infos[i].schemas.Some? && s < |infos[i].schemas.value|
    requires n <= |infos[i].schemas.value[s].tables.GetOr([])|
    requires IndexSound(infos, m)
    ensures var m' := IndexTables(m, infos[i].name, i, s, infos[i].schemas.value[s].tables.GetOr([]), n);
      && IndexSound(infos, m') && m.Keys <= m'.Keys
      && forall t: nat :: t < n && ValidPath(infos, Path(i, s, t)) ==> KeyAt(infos, Path(i, s, t)) in m'
  {
    hide IndexSound;
    if n > 0 {
      TablesIndexed(infos, m, i, s, n - 1);
      var tables := infos[i].schemas.value[s].tables.value;
      assert ValidPath(infos, Path(i, s, n - 1)) && KeyAt(infos, Path(i, s, n - 1)) == TableKey(infos[i].name, tables[n - 1].name);
      IndexOne(infos, IndexTables(m, infos[i].name, i, s, tables, n - 1), Path(i, s, n - 1));
    }
  }

  lemma {:induction false} SchemasIndexed(infos: seq<Catalog>, m: Index, i: nat, n: nat)
    requires i < |infos| && n <= |infos[i].schemas.GetOr([])|
    requires IndexSound(infos, m)
    ensures var m' := IndexSchemas(m, infos[i], i, n);
      && IndexSound(infos, m') && m.Keys <= m'.Keys
      && forall s: nat, t: nat :: s < n && ValidPath(infos, Path(i, s, t)) ==> KeyAt(infos, Path(i, s, t)) in m'
  {
    hide IndexSound, KeyAt;
    if n > 0 {
      SchemasIndexed(infos, m, i, n - 1);
      var tables := infos[i].schemas.value[n - 1].tables.GetOr([]);
      TablesIndexed(infos, IndexSchemas(m, infos[i], i, n - 1), i, n - 1, |tables|);
    }
  }

  /** The map holds a key exactly when some table of the tree has it, and then a table with that key. */
  lemma {:induction false} InfosIndexed(infos: seq<Catalog>, n: nat)
    requires n <= |infos|
    ensures var m := IndexInfos(infos, n);
      && IndexSound(infos, m)
      && forall p :: ValidPath(infos, p) && p.info < n ==> KeyAt(infos, p) in m
  {
    if n > 0 {
      InfosIndexed(infos, n - 1);
      SchemasIndexed(infos, IndexInfos(infos, n - 1), n - 1, |infos[n - 1].schemas.GetOr([])|);
      forall p | ValidPath(infos, p) && p.info < n
        ensures KeyAt(infos, p) in IndexInfos(infos, n)
      {
        if p.info == n - 1 { assert p == Path(n - 1, p.schema, p.table); }
      }
    }
  }

  method BuildIndex(infos: seq<Catalog>) returns (tables: Index)
    ensures tables == IndexInfos(infos, |infos|)
  {
    tables := map[];
    for i := 0 to |infos|
      invariant tables == IndexInfos(infos, i)
    {
      ghost var m := tables;
      var schemas := infos[i].schemas.GetOr([]);
      for s := 0 to |schemas|
        invariant tables == IndexSchemas(m, infos[i], i, s)
      {
        ghost var m := tables;
        var slice := schemas[s].tables.GetOr([]);
        for t := 0 to |slice|
          invariant tables == IndexTables(m, infos[i].name, i, s, slice, t)
        {
          tables := tables[TableKey(infos[i].name, slice[t].name) := Path(i, s, t)];
        }
      }
    }
  }

  // ---------- The tree with its constraints ----------

  function ExtendTable(t: Table, p: Path, catalog: string, m: Index, rows: seq<CRow>): Table {
    var key := TableKey(catalog, t.name);
    if key in m && m[key] == p then t.(constraints := t.constraints + ConstraintsFor(rows, key)) else t
  }

  function ExtendSchema(s: Schema, i: nat, j: nat, catalog: string, m: Index, rows: seq<CRow>): Schema {
    if s.tables.None? then s else
    s.(tables := Some(seq(|s.tables.value|, k requires 0 <= k < |s.tables.value| =>
                          ExtendTable(s.tables.value[k], Path(i, j, k), catalog, m, rows))))
  }

  function ExtendCatalog(c: Catalog, i: nat, m: Index, rows: seq<CRow>): Catalog {
    if c.schemas.None? then c else
    c.(schemas := Some(seq(|c.schemas.value|, j requires 0 <= j < |c.schemas.value| =>
                           ExtendSchema(c.schemas.value[j], i, j, c.name, m, rows))))
  }

  /** The tree in which every table reached by the map has the constraints its rows describe, and nothing else
      differs: the same catalogs, schemas, tables and columns in the same places. */
  function Extend(infos: seq<Catalog>, m: Index, rows: seq<CRow>): seq<Catalog> {
    seq(|infos|, i requires 0 <= i < |infos| => ExtendCatalog(infos[i], i, m, rows))
  }

  lemma ExtendShape(infos: seq<Catalog>, m: Index, rows: seq<CRow>, p: Path)
    ensures ValidPath(Extend(infos, m, rows), p) <==> ValidPath(infos, p)
    ensures ValidPath(infos, p) ==>
      && TableAt(Extend(infos, m, rows), p) == ExtendTable(TableAt(infos, p), p, infos[p.info].name, m, rows)
      && KeyAt(Extend(infos, m, rows), p) == KeyAt(infos, p)
  {
  }

  /** Two trees agree when their tables do and everything above the tables does. */
  ghost predicate SameOutline(a: seq<Catalog>, b: seq<Catalog>) {
    |a| == |b| && forall i :: 0 <= i < |a| ==>
      && a[i].name == b[i].name && (a[i].schemas.Some? <==> b[i].schemas.Some?)
      && SameSchemas(a[i].schemas.GetOr([]), b[i].schemas.GetOr([]))
  }

  ghost predicate SameSchemas(s: seq<Schema>, t: seq<Schema>) {
    |s| == |t| && forall j :: 0 <= j < |s| ==> SameSchemaOutline(s[j], t[j])
  }

  predicate SameSchemaOutline(s: Schema, t: Schema) {
    s.name == t.name && (s.tables.Some? <==> t.tables.Some?) && (s.tables.Some? ==> |s.tables.value| == |t.tables.value|)
  }

  lemma TreesEqual(a: seq<Catalog>, b: seq<Catalog>)
    requires SameOutline(a, b)
    requires forall p :: ValidPath(a, p) && ValidPath(b, p) ==> TableAt(a, p) == TableAt(b, p)
    ensures a == b
  {
    forall i | 0 <= i < |a|
      ensures a[i] == b[i]
    {
      if a[i].schemas.Some? {
        var s, t := a[i].schemas.value, b[i].schemas.value;
        forall j | 0 <= j < |s|
          ensures s[j] == t[j]
        {
          assert SameSchemaOutline(s[j], t[j]);
          if s[j].tables.Some? {
            forall k | 0 <= k < |s[j].tables.value|
              ensures s[j].tables.value[k] == t[j].tables.value[k]
            {
              assert TableAt(a, Path(i, j, k)) == TableAt(b, Path(i, j, k));
            }
            assert s[j].tables.value == t[j].tables.value;
          }
        }
        assert s == t;
      }
    }
  }

  lemma SetTableAt(infos: seq<Catalog>, p: Path, t: Table, q: Path)
    requires ValidPath(infos, p)
    ensures SameOutline(SetTable(infos, p, t), infos)
    ensures ValidPath(SetTable(infos, p, t), q) <==> ValidPath(infos, q)
    ensures ValidPath(infos, q) ==> TableAt(SetTable(infos, p, t), q) == if q == p then t else TableAt(infos, q)
  {
  }

  lemma ExtendOutline(infos: seq<Catalog>, m: Index, rows: seq<CRow>)
    ensures SameOutline(Extend(infos, m, rows), infos)
  {
  }

  /** One more row changes the table its key leads to, and only that. */
  lemma ExtendSnoc(infos: seq<Catalog>, m: Index, rows: seq<CRow>, r: CRow)
    requires IndexSound(infos, m)
    ensures RowKey(r) !in m ==> Extend(infos, m, rows + [r]) == Extend(infos, m, rows)
    ensures RowKey(r) in m ==>
      var p := m[RowKey(r)];
      var t := TableAt(infos, p);
      && ValidPath(Extend(infos, m, rows), p)
      && TableAt(Extend(infos, m, rows), p) == t.(constraints := t.constraints + ConstraintsFor(rows, RowKey(r)))
      && Extend(infos, m, rows + [r]) == SetTable(Extend(infos, m, rows), p,
           t.(constraints := t.constraints + ConstraintsFor(rows + [r], RowKey(r))))
  {
    hide ConstraintsFor, Extend;
    var before, after, key := Extend(infos, m, rows), Extend(infos, m, rows + [r]), RowKey(r);
    ExtendOutline(infos, m, rows);
    ExtendOutline(infos, m, rows + [r]);
    if key in m {
      var p := m[key];
      var t := TableAt(infos, p);
      var t' := t.(constraints := t.constraints + ConstraintsFor(rows + [r], key));
      ExtendShape(infos, m, rows, p);
      forall q | ValidPath(after, q)
        ensures ValidPath(before, q) && TableAt(after, q) == TableAt(SetTable(before, p, t'), q)
      {
        SetTableAt(before, p, t', q);
        ExtendShape(infos, m, rows, q);
        ExtendShape(infos, m, rows + [r], q);
        ForSnoc(rows, r, KeyAt(infos, q));
      }
      SetTableAt(before, p, t', p);
      SameOutlineTrans(after, infos, before, SetTable(before, p, t'));
      TreesEqual(after, SetTable(before, p, t'));
    } else {
      forall q | ValidPath(after, q) && ValidPath(before, q)
        ensures TableAt(after, q) == TableAt(before, q)
      {
        ExtendShape(infos, m, rows, q);
        ExtendShape(infos, m, rows + [r], q);
        ForSnoc(rows, r, KeyAt(infos, q));
      }
      SameOutlineTrans(after, infos, before, before);
      TreesEqual(after, before);
    }
  }

  lemma SameOutlineTrans(a: seq<Catalog>, b: seq<Catalog>, c: seq<Catalog>, d: seq<Catalog>)
    requires SameOutline(a, b) && SameOutline(c, b) && (SameOutline(d, c) || d == c)
    ensures SameOutline(a, d)
  {
  }

  lemma ExtendNothing(infos: seq<Catalog>, m: Index)
    ensures Extend(infos, m, []) == infos
  {
    ExtendOutline(infos, m, []);
    forall p | ValidPath(Extend(infos, m, []), p) && ValidPath(infos, p)
      ensures TableAt(Extend(infos, m, []), p) == TableAt(infos, p)
    {
      ExtendShape(infos, m, [], p);
    }
    TreesEqual(Extend(infos, m, []), infos);
  }

  // ---------- The loop ----------

  /** The row loop's store into the current table: open the row's constraint unless it is the current one, then
      append to its column and usage lists through the current pointer. */
  method AttachKeyRow(slice: seq<Constraint>, row: CRow, current: Pointer, currentName: string, home: nat, nextArray: nat)
    returns (constraints: seq<Constraint>, currentConstraint: Pointer, newHome: nat, next: nat)
    requires current.Nil? || (current == LastElement(slice, home) && Last(slice).name == currentName)
    ensures currentConstraint == LastElement(constraints, newHome)
    ensures constraints != [] && Last(constraints).name == row.name
    ensures constraints ==
      if current.Nil? || currentName != row.name then slice + [AddKeyRow(NewConstraint(row), row)]
      else slice[..|slice| - 1] + [AddKeyRow(Last(slice), row)]
  {
    constraints, currentConstraint, newHome, next := slice, current, home, nextArray;
    if currentConstraint.Nil? || currentName != row.name {
      var moved: bool := *;
      if moved {
        newHome, next := next, next + 1;
      }
      constraints := constraints + [NewConstraint(row)];
      currentConstraint := Pointer(newHome, |constraints| - 1);
    }
    var at := currentConstraint.index;
    ghost var front, first := constraints[..at], constraints[at];
    assert first.columns + [] == first.columns && first.usage + [] == first.usage;
    assert constraints == front + [first];
    if row.column.Some? {
      var c := constraints[at];
      constraints := Store(constraints, newHome, currentConstraint, c.(columns := c.columns + [row.column.value]));
    }
    if row.foreignTable.Some? && row.foreignColumn.Some? {
      var c := constraints[at];
      constraints := Store(constraints, newHome, currentConstraint,
        c.(usage := c.usage + [Usage(row.foreignCatalog, "", row.foreignTable.value, row.foreignColumn.value)]));
    }
    assert constraints == front + [AddKeyRow(first, row)];
  }

  /** addTableConstraints, for every tree and every row stream. */
  method AddTableConstraints(tree: seq<Catalog>, rows: seq<CRow>) returns (infos: seq<Catalog>)
    ensures infos == Extend(tree, IndexInfos(tree, |tree|), rows)
  {
    hide Extend, ConstraintsFor, IndexInfos, IndexSound, AddKeyRow, ConstraintsFor;
    var tables := BuildIndex(tree);
    infos := tree;
    if |tables| == 0 {
      ExtendByNoMap(tree, rows);
      return;
    }
    InfosIndexed(tree, |tree|);
    ExtendNothing(tree, tables);
    assert rows[..0] == [];
    var currentTable: Option<Path> := None;
    var currentConstraint := Nil;
    var currentKey, currentName := "", "";
    var home, nextArray := 0, 1;
    for i := 0 to |rows|
      invariant infos == Extend(tree, tables, rows[..i])
      invariant if i == 0 then currentKey == "" else currentKey == RowKey(rows[i - 1])
      invariant currentTable == if i > 0 && currentKey in tables then Some(tables[currentKey]) else None
      invariant currentTable.None? ==> currentConstraint.Nil?
      invariant currentTable.Some? ==>
        && ValidPath(infos, currentTable.value) && currentName == rows[i - 1].name
        && TableAt(infos, currentTable.value).constraints != []
        && Last(TableAt(infos, currentTable.value).constraints).name == currentName
        && currentConstraint == LastElement(TableAt(infos, currentTable.value).constraints, home)
    {
      var row := rows[i];
      assert rows[..i + 1] == rows[..i] + [row];
      assert i > 0 ==> Last(rows[..i]) == rows[i - 1];
      ExtendSnoc(tree, tables, rows[..i], row);
      ForSnoc(rows[..i], row, RowKey(row));
      var tableKey := TableKey(row.catalog, row.table);
      if tableKey != currentKey {
        currentTable := if tableKey in tables then Some(tables[tableKey]) else None;
        currentConstraint := Nil;
        currentKey := tableKey;
        currentName := "";
        home, nextArray := nextArray, nextArray + 1;
      }
      if currentTable.None? {
        continue;
      }
      var table := TableAt(infos, currentTable.value);
      var constraints;
      constraints, currentConstraint, home, nextArray :=
        AttachKeyRow(table.constraints, row, currentConstraint, currentName, home, nextArray);
      currentName := row.name;
      ghost var original := TableAt(tree, currentTable.value).constraints;
      Attached(original, rows[..i], row, constraints);
      SetTableAt(infos, currentTable.value, table.(constraints := constraints), currentTable.value);
      infos := SetTable(infos, currentTable.value, table.(constraints := constraints));
    }
    assert rows[..|rows|] == rows;
  }

  lemma Attached(original: seq<Constraint>, rows: seq<CRow>, r: CRow, constraints: seq<Constraint>)
    requires var slice := original + ConstraintsFor(rows, RowKey(r));
      constraints == if !Continues(rows, r) then slice + [AddKeyRow(NewConstraint(r), r)]
                     else if slice == [] then [] else slice[..|slice| - 1] + [AddKeyRow(Last(slice), r)]
    ensures constraints == original + ConstraintsFor(rows + [r], RowKey(r))
  {
    hide ConstraintsFor, AddKeyRow;
    ForSnoc(rows, r, RowKey(r));
  }

  lemma ExtendByNoMap(tree: seq<Catalog>, rows: seq<CRow>)
    requires IndexInfos(tree, |tree|) == map[]
    ensures Extend(tree, IndexInfos(tree, |tree|), rows) == tree
  {
    hide IndexInfos;
    ExtendOutline(tree, map[], rows);
    forall p | ValidPath(Extend(tree, map[], rows), p) && ValidPath(tree, p)
      ensures TableAt(Extend(tree, map[], rows), p) == TableAt(tree, p)
    {
      ExtendShape(tree, map[], rows, p);
    }
    TreesEqual(Extend(tree, map[], rows), tree);
  }
}

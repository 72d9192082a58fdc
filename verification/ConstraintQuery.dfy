/** The constraints query as relational algebra, and GetObjects end to end: every table of the tree carries exactly the
    constraints the server has for it, whatever the filters. */
module ConstraintQuery {
  import opened Prelude
  import opened Grouping
  import opened ObjectTree
  import opened ObjectQuery
  import opened ObjectTies
  import opened TableConstraints
  import opened ConstraintOrder
  import opened Promised

  // ---------- The server's constraint metadata ----------

  datatype ConstraintDef = ConstraintDef(schema: string, tableSchema: string, table: string, name: string, kind: string)
  datatype KeyDef = KeyDef(schema: string, table: string, constraint: string, ordinal: int, column: string,
                           refSchema: Option<string>, refTable: Option<string>, refColumn: Option<string>)

  /** TABLE_CONSTRAINTS and KEY_COLUMN_USAGE. */
  datatype Keys = Keys(constraints: set<ConstraintDef>, usage: set<KeyDef>) {
    /** A constraint lies in its table's schema; the columns of a constraint that shares its name with no other have
        different ordinals. */
    ghost predicate Valid() {
      && (forall c <- constraints :: c.schema == c.tableSchema)
      && (forall c, k, l | c in constraints && k in usage && l in usage && Sole(c) && UsedBy(c, k) && UsedBy(c, l)
                           && k.ordinal == l.ordinal :: k == l)
    }

    /** No other constraint of the table has c's name. */
    ghost predicate Sole(c: ConstraintDef) {
      forall d <- constraints :: SameName(c, d) ==> d == c
    }
  }

  predicate SameName(c: ConstraintDef, d: ConstraintDef) {
    c.schema == d.schema && c.table == d.table && c.name == d.name
  }

  /** k is a column of c's, as far as names tell. */
  predicate UsedBy(c: ConstraintDef, k: KeyDef) {
    k.schema == c.schema && k.table == c.table && k.constraint == c.name
  }

  // ---------- The query ----------

  type KeyJoin = ((ConstraintDef, TableDef), Option<KeyDef>)

  predicate OnConstraintTable(before: Before, c: ConstraintDef, t: TableDef) {
    Tied(before, t.catalog, c.tableSchema) && Tied(before, t.name, c.table)
  }

  predicate OnKey(before: Before, left: (ConstraintDef, TableDef), k: KeyDef) {
    Tied(before, k.schema, left.0.schema) && Tied(before, k.table, left.0.table) && Tied(before, k.constraint, left.0.name)
  }

  /** WHERE 1=1 and the optional filters. */
  predicate KeyFilter(q: Request, like: Like, before: Before, c: ConstraintDef, t: TableDef) {
    Matches(like, c.schema, q.catalog) && Matches(like, c.table, q.table) && KindListed(before, q, t.kind)
  }

  function KeyRow(c: ConstraintDef, k: Option<KeyDef>): CRow {
    if k.None? then CRow(c.schema, c.table, c.name, c.kind, None, None, None, None, None)
    else CRow(c.schema, c.table, c.name, c.kind, Some(k.value.ordinal), Some(k.value.column),
              k.value.refSchema, k.value.refTable, k.value.refColumn)
  }

  function KeyRowOf(j: KeyJoin): CRow { KeyRow(j.0.0, j.1) }

  ghost function KeyJoined(server: Server, keys: Keys, q: Request, like: Like, before: Before): set<KeyJoin> {
    var withTable := set c, t | c in keys.constraints && t in server.tables && OnConstraintTable(before, c, t) :: (c, t);
    var withKeys := LeftJoin(withTable, keys.usage, (left, k) => OnKey(before, left, k));
    set j | j in withKeys && KeyFilter(q, like, before, j.0.0, j.0.1)
  }

  /** Everything that was joined, once each. */
  ghost predicate KeyLists(js: seq<KeyJoin>, server: Server, keys: Keys, q: Request, like: Like, before: Before) {
    NoRepeat(js) && forall j :: j in js <==> j in KeyJoined(server, keys, q, like, before)
  }

  /** What the server may answer to the second query. */
  ghost predicate KeyAnswers(rows: seq<CRow>, server: Server, keys: Keys, q: Request, like: Like, before: Before) {
    Ordered(rows, CRowOrder(before)) && exists js :: KeyLists(js, server, keys, q, like, before) && rows == Map(js, KeyRowOf)
  }

  /** What the joins and filters put together, described directly. */
  ghost predicate KeyMet(server: Server, keys: Keys, q: Request, like: Like, before: Before, j: KeyJoin) {
    var c, t, k := j.0.0, j.0.1, j.1;
    && c in keys.constraints && t in server.tables && OnConstraintTable(before, c, t) && KeyFilter(q, like, before, c, t)
    && if k.Some? then k.value in keys.usage && OnKey(before, j.0, k.value)
       else forall l <- keys.usage :: !OnKey(before, j.0, l)
  }

  lemma KeyResultMember(server: Server, keys: Keys, q: Request, like: Like, before: Before, j: KeyJoin)
    ensures j in KeyJoined(server, keys, q, like, before) <==> KeyMet(server, keys, q, like, before, j)
  {
    var onKey := (left, k) => OnKey(before, left, k);
    var withTable := set c, t | c in keys.constraints && t in server.tables && OnConstraintTable(before, c, t) :: (c, t);
    var withKeys := LeftJoin(withTable, keys.usage, onKey);
    JoinMember(withTable, keys.usage, onKey, j.0, j.1);
    hide LeftJoin, OnConstraintTable, OnKey, KeyFilter;
    assert j.0 in withTable <==> j.0.0 in keys.constraints && j.0.1 in server.tables && OnConstraintTable(before, j.0.0, j.0.1);
    assert j in withKeys && KeyFilter(q, like, before, j.0.0, j.0.1) <==> j in KeyJoined(server, keys, q, like, before);
  }

  lemma InKeyListing(js: seq<KeyJoin>, server: Server, keys: Keys, q: Request, like: Like, before: Before)
    requires KeyLists(js, server, keys, q, like, before)
    ensures forall j :: j in js <==> KeyMet(server, keys, q, like, before, j)
  {
    hide KeyJoined, KeyMet;
    forall j
      ensures j in js <==> KeyMet(server, keys, q, like, before, j)
    {
      KeyResultMember(server, keys, q, like, before, j);
    }
  }

  // ---------- The rows that belong ----------

  predicate InTable(c: ConstraintDef, t: TableDef) {
    t.catalog == c.tableSchema && t.name == c.table
  }

  /** A constraint whose own table exists and whose filters let it through. */
  ghost predicate Shown(server: Server, q: Request, like: Like, before: Before, c: ConstraintDef) {
    exists t <- server.tables :: InTable(c, t) && KeyFilter(q, like, before, c, t)
  }

  ghost function ShownKeys(server: Server, keys: Keys, q: Request, like: Like, before: Before): Keys {
    Keys((set c | c in keys.constraints && Shown(server, q, like, before, c)), keys.usage)
  }

  /** k is one of c's columns, or none if c has none. */
  ghost predicate Uses(keys: Keys, c: ConstraintDef, k: Option<KeyDef>) {
    if k.Some? then k.value in keys.usage && UsedBy(c, k.value)
    else forall l <- keys.usage :: !UsedBy(c, l)
  }

  /** Every constraint with every key column of its name. */
  ghost predicate IsKeyRow(keys: Keys, r: CRow) {
    exists c, k :: c in keys.constraints && Uses(keys, c, k) && r == KeyRow(c, k)
  }

  predicate DifferIfColumn(a: CRow, b: CRow) {
    HasKeyColumn(a) ==> a != b
  }

  /** The stream of exactly those rows, each with a column once. */
  ghost predicate ExactKeyRows(rows: seq<CRow>, keys: Keys, before: Before) {
    && (forall r :: r in rows <==> IsKeyRow(keys, r))
    && Ordered(rows, DifferIfColumn)
    && Ordered(rows, CRowOrder(before))
  }

  // ---------- When joined names are the same names ----------

  predicate SameKeyNames(j: KeyJoin) {
    InTable(j.0.0, j.0.1) && (j.1.Some? ==> UsedBy(j.0.0, j.1.value))
  }

  /** No tie in a join lets a constraint through that is filtered out, or brings it the columns of another. */
  ghost predicate KeyTiesAgree(server: Server, keys: Keys, q: Request, like: Like, before: Before) {
    forall j :: KeyMet(server, keys, q, like, before, j) ==>
      Shown(server, q, like, before, j.0.0) && (j.1.Some? ==> SameKeyNames(j))
  }

  lemma TableIsMet(before: Before, c: ConstraintDef, t: TableDef)
    requires StrictWeak(before) && InTable(c, t)
    ensures OnConstraintTable(before, c, t)
  {
  }

  lemma KeyIsMet(before: Before, c: ConstraintDef, t: TableDef, k: KeyDef)
    requires StrictWeak(before) && UsedBy(c, k)
    ensures OnKey(before, (c, t), k)
  {
  }

  lemma MetIsKeyRow(server: Server, keys: Keys, q: Request, like: Like, before: Before, j: KeyJoin)
    requires StrictWeak(before) && KeyMet(server, keys, q, like, before, j) && KeyTiesAgree(server, keys, q, like, before)
    ensures IsKeyRow(ShownKeys(server, keys, q, like, before), KeyRowOf(j))
  {
    var c, t, k := j.0.0, j.0.1, j.1;
    var shown := ShownKeys(server, keys, q, like, before);
    hide StrictWeak, OnKey, OnConstraintTable, Shown;
    assert c in shown.constraints;
    assert Uses(shown, c, k) by {
      if k.None? {
        forall l | l in keys.usage
          ensures !UsedBy(c, l)
        {
          if UsedBy(c, l) {
            KeyIsMet(before, c, t, l);
          }
        }
      }
    }
  }

  /** A constraint with a column of its own names, or without any, was joined in its own table. */
  lemma OwnKeyMet(server: Server, keys: Keys, q: Request, like: Like, before: Before, c: ConstraintDef, t: TableDef, k: KeyDef)
    requires StrictWeak(before) && c in keys.constraints && t in server.tables && InTable(c, t)
    requires KeyFilter(q, like, before, c, t) && k in keys.usage && UsedBy(c, k)
    ensures KeyMet(server, keys, q, like, before, ((c, t), Some(k)))
  {
    TableIsMet(before, c, t);
    KeyIsMet(before, c, t, k);
  }

  lemma KeyRowIsMet(server: Server, keys: Keys, q: Request, like: Like, before: Before, r: CRow) returns (j: KeyJoin)
    requires StrictWeak(before) && KeyTiesAgree(server, keys, q, like, before)
    requires IsKeyRow(ShownKeys(server, keys, q, like, before), r)
    ensures KeyMet(server, keys, q, like, before, j) && KeyRowOf(j) == r
  {
    var shown := ShownKeys(server, keys, q, like, before);
    var c, k :| c in shown.constraints && Uses(shown, c, k) && r == KeyRow(c, k);
    var t :| t in server.tables && InTable(c, t) && KeyFilter(q, like, before, c, t);
    hide StrictWeak, OnKey, OnConstraintTable, KeyFilter, Shown;
    TableIsMet(before, c, t);
    j := ((c, t), k);
    if k.Some? {
      KeyIsMet(before, c, t, k.value);
    } else {
      forall l | l in keys.usage
        ensures !OnKey(before, (c, t), l)
      {
        var other: KeyJoin := ((c, t), Some(l));
        assert KeyMet(server, keys, q, like, before, other) ==> SameKeyNames(other);
      }
    }
  }

  /** Under its own names what was joined can be told from its row. */
  lemma KeyRowsDiffer(server: Server, keys: Keys, q: Request, like: Like, before: Before, x: KeyJoin, y: KeyJoin)
    requires server.Valid() && keys.Valid() && x != y && x.1.Some? && y.1.Some?
    requires KeyMet(server, keys, q, like, before, x) && SameKeyNames(x)
    requires KeyMet(server, keys, q, like, before, y) && SameKeyNames(y)
    ensures KeyRowOf(x) != KeyRowOf(y)
  {
    hide OnKey, OnConstraintTable, KeyFilter;
  }

  lemma ColumnsOnce(js: seq<KeyJoin>, server: Server, keys: Keys, q: Request, like: Like, before: Before)
    requires server.Valid() && keys.Valid() && KeyTiesAgree(server, keys, q, like, before)
    requires NoRepeat(js) && forall j <- js :: KeyMet(server, keys, q, like, before, j)
    ensures Ordered(Map(js, KeyRowOf), DifferIfColumn)
  {
    var rows := Map(js, KeyRowOf);
    hide KeyMet, SameKeyNames, Shown;
    forall i, j | 0 <= i < j < |rows| && HasKeyColumn(rows[i])
      ensures rows[i] != rows[j]
    {
      assert js[i] in js && js[j] in js && js[i] != js[j];
      if js[j].1.Some? {
        KeyRowsDiffer(server, keys, q, like, before, js[i], js[j]);
      }
    }
  }

  /** If the joins confuse no names, the stream is exactly the rows that belong. */
  lemma ExactAnswer(rows: seq<CRow>, server: Server, keys: Keys, q: Request, like: Like, before: Before)
    requires StrictWeak(before) && server.Valid() && keys.Valid() && KeyAnswers(rows, server, keys, q, like, before)
    requires KeyTiesAgree(server, keys, q, like, before)
    ensures ExactKeyRows(rows, ShownKeys(server, keys, q, like, before), before)
  {
    var js: seq<KeyJoin> :| KeyLists(js, server, keys, q, like, before) && rows == Map(js, KeyRowOf);
    var shown := ShownKeys(server, keys, q, like, before);
    InKeyListing(js, server, keys, q, like, before);
    hide IsKeyRow, KeyJoined, KeyMet, StrictWeak, CRowOrder, ShownKeys, KeyTiesAgree, KeyRowOf, Ordered;
    ColumnsOnce(js, server, keys, q, like, before);
    forall r
      ensures r in rows <==> IsKeyRow(shown, r)
    {
      if r in rows {
        var i :| 0 <= i < |rows| && rows[i] == r;
        assert js[i] in js;
        MetIsKeyRow(server, keys, q, like, before, js[i]);
      }
      if IsKeyRow(shown, r) {
        var j := KeyRowIsMet(server, keys, q, like, before, r);
        var i :| 0 <= i < |js| && js[i] == j;
        assert rows[i] == r;
      }
    }
  }

  // ---------- When the order keeps each constraint together ----------

  predicate PartsKey(before: Before, x: CRow, z: CRow, y: CRow) {
    && CRowLe(before, x, z) && CRowLe(before, z, y)
    && ConstraintKey(x) == ConstraintKey(y) && ConstraintKey(z) != ConstraintKey(x)
  }

  /** Tied names let the rows of one constraint come between two of another. */
  ghost predicate KeysInterleave(server: Server, keys: Keys, q: Request, like: Like, before: Before) {
    exists x, z, y :: KeyMet(server, keys, q, like, before, x) && KeyMet(server, keys, q, like, before, z)
                      && KeyMet(server, keys, q, like, before, y)
                      && x != y && PartsKey(before, KeyRowOf(x), KeyRowOf(z), KeyRowOf(y))
  }

  /** The ties among the names of the server's constraints do no harm. */
  ghost predicate KeyTiesHarmless(server: Server, keys: Keys, q: Request, like: Like, before: Before) {
    KeyTiesAgree(server, keys, q, like, before) && !KeysInterleave(server, keys, q, like, before)
  }

  /** Where a name stands; names meet only names of their own sort. */
  datatype KeySort = SchemaSort | KeyTableSort | NameSort

  ghost predicate KeyMentions(server: Server, keys: Keys, sort: KeySort, name: string) {
    match sort
    case SchemaSort =>
      (exists t <- server.tables :: t.catalog == name) || (exists k <- keys.usage :: k.schema == name)
      || (exists c <- keys.constraints :: c.schema == name || c.tableSchema == name)
    case KeyTableSort =>
      (exists t <- server.tables :: t.name == name) || (exists k <- keys.usage :: k.table == name)
      || (exists c <- keys.constraints :: c.table == name)
    case NameSort =>
      (exists k <- keys.usage :: k.constraint == name) || (exists c <- keys.constraints :: c.name == name)
  }

  /** No two distinct schemas, tables or constraint names tie. */
  ghost predicate KeyNamesApart(server: Server, keys: Keys, before: Before) {
    forall sort, a, b :: KeyMentions(server, keys, sort, a) && KeyMentions(server, keys, sort, b) && Tied(before, a, b) ==> a == b
  }

  lemma MentionsConstraint(server: Server, keys: Keys, c: ConstraintDef)
    requires c in keys.constraints
    ensures KeyMentions(server, keys, SchemaSort, c.schema) && KeyMentions(server, keys, SchemaSort, c.tableSchema)
    ensures KeyMentions(server, keys, KeyTableSort, c.table) && KeyMentions(server, keys, NameSort, c.name)
  {
  }

  lemma MentionsOthers(server: Server, keys: Keys, t: TableDef, k: Option<KeyDef>)
    requires t in server.tables && (k.Some? ==> k.value in keys.usage)
    ensures KeyMentions(server, keys, SchemaSort, t.catalog) && KeyMentions(server, keys, KeyTableSort, t.name)
    ensures k.Some? ==>
      && KeyMentions(server, keys, SchemaSort, k.value.schema) && KeyMentions(server, keys, KeyTableSort, k.value.table)
      && KeyMentions(server, keys, NameSort, k.value.constraint)
  {
  }

  lemma ApartKeysAgree(server: Server, keys: Keys, q: Request, like: Like, before: Before, j: KeyJoin)
    requires KeyNamesApart(server, keys, before) && KeyMet(server, keys, q, like, before, j)
    ensures Shown(server, q, like, before, j.0.0) && SameKeyNames(j)
  {
    MentionsConstraint(server, keys, j.0.0);
    MentionsOthers(server, keys, j.0.1, j.1);
    hide KeyMentions, Tied, KeyFilter;
  }

  /** Rows between two of one constraint tie with them in every name. */
  lemma BetweenTied(before: Before, x: CRow, z: CRow, y: CRow)
    requires StrictWeak(before) && CRowLe(before, x, z) && CRowLe(before, z, y)
    requires x.catalog == y.catalog && x.table == y.table && x.name == y.name
    ensures Tied(before, x.catalog, z.catalog) && Tied(before, x.table, z.table) && Tied(before, x.name, z.name)
  {
  }

  /** If no two of their names tie, nothing is confused and nothing interleaves. */
  lemma ApartKeysHarmless(server: Server, keys: Keys, q: Request, like: Like, before: Before)
    requires StrictWeak(before) && NulFreeSchemas(server, keys) && KeyNamesApart(server, keys, before)
    ensures KeyTiesHarmless(server, keys, q, like, before)
  {
    hide KeyMet, CRowLe, StrictWeak, KeyNamesApart, KeyRowOf, SameKeyNames, Shown, PartsKey;
    forall j | KeyMet(server, keys, q, like, before, j)
      ensures Shown(server, q, like, before, j.0.0) && SameKeyNames(j)
    {
      ApartKeysAgree(server, keys, q, like, before, j);
    }
    forall x, z, y | KeyMet(server, keys, q, like, before, x) && KeyMet(server, keys, q, like, before, z)
                     && KeyMet(server, keys, q, like, before, y)
      ensures !PartsKey(before, KeyRowOf(x), KeyRowOf(z), KeyRowOf(y))
    {
      if PartsKey(before, KeyRowOf(x), KeyRowOf(z), KeyRowOf(y)) {
        ApartNotBetween(server, keys, q, like, before, x, z, y);
      }
    }
  }

  lemma ApartNotBetween(server: Server, keys: Keys, q: Request, like: Like, before: Before, x: KeyJoin, z: KeyJoin, y: KeyJoin)
    requires StrictWeak(before) && NulFreeSchemas(server, keys) && KeyNamesApart(server, keys, before)
    requires KeyMet(server, keys, q, like, before, x) && KeyMet(server, keys, q, like, before, z)
    requires KeyMet(server, keys, q, like, before, y)
    ensures !PartsKey(before, KeyRowOf(x), KeyRowOf(z), KeyRowOf(y))
  {
    MentionsConstraint(server, keys, x.0.0);
    MentionsConstraint(server, keys, z.0.0);
    KeyRowNulFree(server, keys, q, like, before, x);
    KeyRowNulFree(server, keys, q, like, before, y);
    hide KeyMet, CRowLe, StrictWeak, KeyMentions, Tied, NulFreeSchemas, NulFree;
    var r, v, u := KeyRowOf(x), KeyRowOf(z), KeyRowOf(y);
    if PartsKey(before, r, v, u) {
      SameTable(r, u.catalog, u.table);
      BetweenTied(before, r, v, u);
    }
  }

  /** Without ties nothing is confused and nothing interleaves. */
  lemma TotalKeyOrder(server: Server, keys: Keys, q: Request, like: Like, before: Before)
    requires StrictTotal(before) && NulFreeSchemas(server, keys)
    ensures KeyNamesApart(server, keys, before) && KeyTiesHarmless(server, keys, q, like, before)
  {
    hide KeyMentions, KeyTiesHarmless, NulFreeSchemas;
    ApartKeysHarmless(server, keys, q, like, before);
  }

  ghost predicate NulFreeSchemas(server: Server, keys: Keys) {
    (forall s <- server.schemata :: NulFree(s)) && (forall c <- keys.constraints :: NulFree(c.schema))
  }

  lemma AnswerOrdered(rows: seq<CRow>, server: Server, keys: Keys, q: Request, like: Like, before: Before)
    requires StrictWeak(before) && NulFreeSchemas(server, keys) && KeyAnswers(rows, server, keys, q, like, before)
    requires !KeysInterleave(server, keys, q, like, before)
    ensures OrderedStream(rows, before)
  {
    var js :| KeyLists(js, server, keys, q, like, before) && rows == Map(js, KeyRowOf);
    InKeyListing(js, server, keys, q, like, before);
    hide KeyJoined, KeyMet, CRowLe, StrictWeak, NulFreeSchemas, NulFree, KeyRowOf;
    forall i | 0 <= i < |rows|
      ensures NulFree(rows[i].catalog)
    {
      assert js[i] in js;
      KeyRowNulFree(server, keys, q, like, before, js[i]);
    }
    var ks := Map(rows, ConstraintKey);
    forall i, j, k | 0 <= i < j < k < |ks| && ks[i] == ks[k]
      ensures ks[j] == ks[i]
    {
      assert js[i] in js && js[j] in js && js[k] in js && js[i] != js[k];
      assert CRowOrder(before)(rows[i], rows[j]) && CRowOrder(before)(rows[j], rows[k]);
      assert !PartsKey(before, rows[i], rows[j], rows[k]);
    }
  }

  // ---------- What a table carries ----------

  function KeyOfRow(r: CRow): KeyDef {
    KeyDef(r.catalog, r.table, r.name, r.ordinal.GetOr(0), KeyColumn(r), r.foreignCatalog, r.foreignTable, r.foreignColumn)
  }

  function ColumnOfKey(k: KeyDef): string { k.column }
  predicate References(k: KeyDef) { k.refTable.Some? && k.refColumn.Some? }
  function UsageOfKey(k: KeyDef): Usage { Usage(k.refSchema, "", k.refTable.GetOr(""), k.refColumn.GetOr("")) }

  ghost predicate IsUsage(ks: seq<KeyDef>, keys: Keys, c: ConstraintDef) {
    && Ordered(ks, (k: KeyDef, l: KeyDef) => k.ordinal < l.ordinal)
    && forall k :: k in ks <==> k in keys.usage && UsedBy(c, k)
  }

  /** The constraint as the server has it: its type, its columns in ordinal order, and the referenced columns. */
  ghost predicate Reports(x: Constraint, keys: Keys, c: ConstraintDef) {
    exists ks :: IsUsage(ks, keys, c) &&
                 x == Constraint(c.name, c.kind, Map(ks, ColumnOfKey), Map(Filter(ks, References), UsageOfKey))
  }

  predicate Of(c: ConstraintDef, catalog: string, table: string) {
    c.schema == catalog && c.table == table
  }

  /** Every constraint of a name with every key column of that name, each pair once, in ordinal order. Rows of a constraint
      without columns may repeat; they add nothing. */
  ghost predicate PairsOf(run: seq<CRow>, keys: Keys, catalog: string, table: string, name: string) {
    && run != [] && Ordered(run, DifferIfColumn) && Ordered(run, KeyOrdinalLe)
    && forall r :: r in run <==> IsPair(keys, catalog, table, name, r)
  }

  ghost predicate IsPair(keys: Keys, catalog: string, table: string, name: string, r: CRow) {
    exists c, k :: c in keys.constraints && Of(c, catalog, table) && c.name == name && Uses(keys, c, k) && r == KeyRow(c, k)
  }

  ghost predicate Merges(x: Constraint, keys: Keys, catalog: string, table: string) {
    exists run :: PairsOf(run, keys, catalog, table, x.name) && x == ConstraintOf(run)
  }

  /** The list of a table: each name among its constraints once, in order; each entry merged from all constraints of the
      name; and so every constraint whose name is its own reported as the server has it. */
  ghost predicate Carries(xs: seq<Constraint>, keys: Keys, catalog: string, table: string, before: Before) {
    && Ordered(xs, ByName(before))
    && (forall x <- xs :: exists c <- keys.constraints :: Of(c, catalog, table) && c.name == x.name)
    && (forall x <- xs :: Merges(x, keys, catalog, table))
    && (forall c <- keys.constraints :: Of(c, catalog, table) ==> exists x <- xs :: x.name == c.name)
    && (forall c, x | c in keys.constraints && Of(c, catalog, table) && keys.Sole(c) && x in xs && x.name == c.name ::
          Reports(x, keys, c))
  }

  /** Of a table the stream holds every constraint with every key column of its name, and nothing else. If two constraints
      share a name, each is paired with the columns of both. */
  lemma TableRows(rows: seq<CRow>, keys: Keys, before: Before, catalog: string, table: string, name: string, r: CRow)
    requires ExactKeyRows(rows, keys, before) && OrderedStream(rows, before) && NulFree(catalog)
    ensures r in RowsOf(rows, catalog, table, name) <==> IsPair(keys, catalog, table, name, r)
  {
    hide RowsOf, Uses, StrictWeak;
    RowsOfConstraint(rows, before, catalog, table, name);
  }

  // ---------- From rows to constraints ----------

  /** Filtering and mapping what was mapped is filtering and mapping directly. */
  lemma {:induction false} FilterOfMap<S, T, U>(s: seq<S>, f: S -> T, p: T -> bool, g: T -> U, p': S -> bool, g': S -> U)
    requires forall x <- s :: p(f(x)) == p'(x) && g(f(x)) == g'(x)
    ensures Map(Filter(Map(s, f), p), g) == Map(Filter(s, p'), g')
  {
    if s == [] {
      assert Map(s, f) == [];
    } else {
      var front, x := s[..|s| - 1], Last(s);
      assert s == front + [x];
      assert forall y <- front :: y in s;
      FilterOfMap(front, f, p, g, p', g');
      MapSnoc(front, x, f);
      FilterSnoc(Map(front, f), f(x), p);
      FilterSnoc(front, x, p');
      hide Filter;
      if p'(x) {
        MapSnoc(Filter(Map(front, f), p), f(x), g);
        MapSnoc(Filter(front, p'), x, g');
      } else {
        assert Filter(Map(front, f), p) + [] == Filter(Map(front, f), p) && Filter(front, p') + [] == Filter(front, p');
      }
    }
  }

  lemma NoColumns(run: seq<CRow>, keys: Keys, c: ConstraintDef)
    requires run != [] && (forall l <- keys.usage :: !UsedBy(c, l)) && forall r <- run :: r == KeyRow(c, None)
    ensures Reports(ConstraintOf(run), keys, c)
  {
    FilterNone(run, HasKeyColumn);
    FilterNone(run, HasForeign);
    assert run[0] in run;
    var ks: seq<KeyDef> := [];
    assert IsUsage(ks, keys, c);
    assert Map(ks, ColumnOfKey) == [] && Map(Filter(ks, References), UsageOfKey) == [];
  }

  lemma RowUsage(run: seq<CRow>, keys: Keys, c: ConstraintDef)
    requires keys.Valid() && c in keys.constraints && keys.Sole(c)
    requires Ordered(run, DifferIfColumn) && Ordered(run, KeyOrdinalLe)
    requires forall r :: r in run <==> exists k :: k in keys.usage && UsedBy(c, k) && r == KeyRow(c, Some(k))
    ensures IsUsage(Map(run, KeyOfRow), keys, c)
  {
    var ks := Map(run, KeyOfRow);
    forall r | r in run
      ensures KeyOfRow(r) in keys.usage && UsedBy(c, KeyOfRow(r)) && r == KeyRow(c, Some(KeyOfRow(r)))
    {
      var k :| k in keys.usage && UsedBy(c, k) && r == KeyRow(c, Some(k));
      assert KeyOfRow(r) == k;
    }
    forall i, j | 0 <= i < j < |ks|
      ensures ks[i].ordinal < ks[j].ordinal
    {
      assert run[i] in run && run[j] in run;
      assert KeyOrdinalLe(run[i], run[j]) && run[i] != run[j];
    }
    forall k
      ensures k in ks <==> k in keys.usage && UsedBy(c, k)
    {
      if k in keys.usage && UsedBy(c, k) {
        var r := KeyRow(c, Some(k));
        assert r in run && KeyOfRow(r) == k;
        var i :| 0 <= i < |run| && run[i] == r;
        assert ks[i] == k;
      }
    }
  }

  lemma WithColumns(run: seq<CRow>, keys: Keys, c: ConstraintDef)
    requires run != [] && keys.Valid() && c in keys.constraints && keys.Sole(c)
    requires Ordered(run, DifferIfColumn) && Ordered(run, KeyOrdinalLe)
    requires forall r :: r in run <==> exists k :: k in keys.usage && UsedBy(c, k) && r == KeyRow(c, Some(k))
    ensures Reports(ConstraintOf(run), keys, c)
  {
    RowUsage(run, keys, c);
    assert forall r <- run :: r.name == c.name && r.kind == c.kind && HasKeyColumn(r);
    ColumnsReported(run, keys, c);
  }

  lemma ColumnsReported(run: seq<CRow>, keys: Keys, c: ConstraintDef)
    requires run != [] && IsUsage(Map(run, KeyOfRow), keys, c)
    requires forall r <- run :: r.name == c.name && r.kind == c.kind && HasKeyColumn(r)
    ensures Reports(ConstraintOf(run), keys, c)
  {
    hide IsUsage, Filter;
    var ks := Map(run, KeyOfRow);
    assert run[0] in run;
    FilterAll(run, HasKeyColumn);
    FilterOfMap(run, KeyOfRow, References, UsageOfKey, HasForeign, UsageOf);
    assert Map(ks, ColumnOfKey) == Map(run, KeyColumn);
  }

  lemma RowsOrdered(rows: seq<CRow>, keys: Keys, before: Before, catalog: string, table: string, name: string)
    requires ExactKeyRows(rows, keys, before) && OrderedStream(rows, before) && NulFree(catalog)
    ensures Ordered(RowsOf(rows, catalog, table, name), DifferIfColumn)
    ensures Ordered(RowsOf(rows, catalog, table, name), KeyOrdinalLe)
  {
    hide Filter, Ordered, OrderedStream;
    RowsOfConstraint(rows, before, catalog, table, name);
    FilterOrdered(rows, KeyIs(ConstraintKey, (TableKey(catalog, table), name)), DifferIfColumn);
  }

  lemma EntryMerged(rows: seq<CRow>, keys: Keys, before: Before, catalog: string, table: string, x: Constraint)
    requires ExactKeyRows(rows, keys, before) && OrderedStream(rows, before) && NulFree(catalog)
    requires var run := RowsOf(rows, catalog, table, x.name); run != [] && x == ConstraintOf(run)
    ensures Merges(x, keys, catalog, table)
  {
    var run := RowsOf(rows, catalog, table, x.name);
    hide RowsOf, ExactKeyRows, OrderedStream, ConstraintOf, IsPair, Ordered;
    RowsOrdered(rows, keys, before, catalog, table, x.name);
    forall r
      ensures r in run <==> IsPair(keys, catalog, table, x.name, r)
    {
      TableRows(rows, keys, before, catalog, table, x.name, r);
    }
    assert PairsOf(run, keys, catalog, table, x.name);
  }

  lemma SoleReported(rows: seq<CRow>, keys: Keys, before: Before, c: ConstraintDef)
    requires ExactKeyRows(rows, keys, before) && OrderedStream(rows, before) && NulFree(c.schema)
    requires keys.Valid() && c in keys.constraints && keys.Sole(c)
    requires RowsOf(rows, c.schema, c.table, c.name) != []
    ensures Reports(ConstraintOf(RowsOf(rows, c.schema, c.table, c.name)), keys, c)
  {
    var run := RowsOf(rows, c.schema, c.table, c.name);
    hide RowsOf, ExactKeyRows, OrderedStream, Reports, ConstraintOf, Ordered;
    RowsOrdered(rows, keys, before, c.schema, c.table, c.name);
    forall r
      ensures r in run <==> exists k :: Uses(keys, c, k) && r == KeyRow(c, k)
    {
      TableRows(rows, keys, before, c.schema, c.table, c.name, r);
      SolePair(keys, c, r);
    }
    if l :| l in keys.usage && UsedBy(c, l) {
      forall r
        ensures r in run <==> exists k :: k in keys.usage && UsedBy(c, k) && r == KeyRow(c, Some(k))
      {
        if r in run {
          var k :| Uses(keys, c, k) && r == KeyRow(c, k);
          assert k.Some?;
        }
        if k :| k in keys.usage && UsedBy(c, k) && r == KeyRow(c, Some(k)) {
          assert Uses(keys, c, Some(k));
        }
      }
      WithColumns(run, keys, c);
    } else {
      NoColumns(run, keys, c);
    }
  }

  lemma SolePair(keys: Keys, c: ConstraintDef, r: CRow)
    requires c in keys.constraints && keys.Sole(c)
    ensures IsPair(keys, c.schema, c.table, c.name, r) <==> exists k :: Uses(keys, c, k) && r == KeyRow(c, k)
  {
    hide Uses;
    if IsPair(keys, c.schema, c.table, c.name, r) {
      var d, k :| d in keys.constraints && Of(d, c.schema, c.table) && d.name == c.name && Uses(keys, d, k) && r == KeyRow(d, k);
      assert SameName(c, d);
    }
    if k :| Uses(keys, c, k) && r == KeyRow(c, k) {
      assert Of(c, c.schema, c.table);
    }
  }

  lemma SomeUse(keys: Keys, c: ConstraintDef) returns (k: Option<KeyDef>)
    ensures Uses(keys, c, k)
  {
    if l :| l in keys.usage && UsedBy(c, l) {
      k := Some(l);
    } else {
      k := None;
    }
  }

  /** A complete list of a table carries the server's constraints. */
  lemma TableCarries(rows: seq<CRow>, keys: Keys, before: Before, catalog: string, table: string, xs: seq<Constraint>)
    requires ExactKeyRows(rows, keys, before) && OrderedStream(rows, before) && NulFree(catalog) && keys.Valid()
    requires Ordered(xs, ByName(before)) && Complete(xs, rows, catalog, table)
    ensures Carries(xs, keys, catalog, table, before)
  {
    hide ConstraintOf, RowsOf, ExactKeyRows, OrderedStream, Uses, Reports, Merges;
    forall x | x in xs
      ensures RowsOf(rows, catalog, table, x.name) != []
      ensures x == ConstraintOf(RowsOf(rows, catalog, table, x.name))
      ensures exists c <- keys.constraints :: Of(c, catalog, table) && c.name == x.name
      ensures Merges(x, keys, catalog, table)
    {
      EntryMerged(rows, keys, before, catalog, table, x);
      var run := RowsOf(rows, catalog, table, x.name);
      assert run[0] in run;
      TableRows(rows, keys, before, catalog, table, x.name, run[0]);
    }
    forall c | c in keys.constraints && Of(c, catalog, table)
      ensures exists x <- xs :: x.name == c.name
      ensures forall x | x in xs && x.name == c.name && keys.Sole(c) :: Reports(x, keys, c)
    {
      var k := SomeUse(keys, c);
      var r := KeyRow(c, k);
      TableRows(rows, keys, before, catalog, table, c.name, r);
      RowsOfConstraint(rows, before, catalog, table, c.name);
      assert r in rows && OfTable(r, catalog, table);
      if keys.Sole(c) {
        SoleReported(rows, keys, before, c);
      }
    }
  }

  // ---------- The filters of the two queries ----------

  /** The filters of the two queries agree: a table that is in the tree gets all its constraints. */
  lemma FiltersAgree(server: Server, keys: Keys, q: Request, like: Like, before: Before, t: TableDef, c: ConstraintDef)
    requires StrictWeak(before) && keys.Valid()
    requires TableWanted(server, q, like, t) && CatalogWanted(server, q, like, t.catalog)
    requires c in keys.constraints && Of(c, t.catalog, t.name)
    ensures c in ShownKeys(server, keys, q, like, before).constraints
  {
    WantedIsMet(server, q, like, before, t);
    assert t in server.tables && InTable(c, t) && KeyFilter(q, like, before, c, t);
  }

  /** Constraints of one name are shown together. */
  lemma ShownTogether(server: Server, keys: Keys, q: Request, like: Like, before: Before, c: ConstraintDef, d: ConstraintDef)
    requires keys.Valid() && c in ShownKeys(server, keys, q, like, before).constraints && d in keys.constraints
    requires Of(d, c.schema, c.table)
    ensures d in ShownKeys(server, keys, q, like, before).constraints
  {
    var t :| t in server.tables && InTable(c, t) && KeyFilter(q, like, before, c, t);
    assert InTable(d, t) && KeyFilter(q, like, before, d, t);
  }

  lemma ShownValid(server: Server, keys: Keys, q: Request, like: Like, before: Before)
    requires keys.Valid()
    ensures ShownKeys(server, keys, q, like, before).Valid()
    ensures forall c <- ShownKeys(server, keys, q, like, before).constraints ::
              ShownKeys(server, keys, q, like, before).Sole(c) <==> keys.Sole(c)
  {
    var shown := ShownKeys(server, keys, q, like, before);
    hide Shown;
    forall c | c in shown.constraints
      ensures shown.Sole(c) <==> keys.Sole(c)
    {
      if shown.Sole(c) {
        forall d | d in keys.constraints && SameName(c, d)
          ensures d == c
        {
          ShownTogether(server, keys, q, like, before, c, d);
        }
      }
    }
  }

  /** So the list of a table in the tree carries all of its constraints. */
  lemma AllShown(server: Server, keys: Keys, q: Request, like: Like, before: Before, t: TableDef, xs: seq<Constraint>)
    requires StrictWeak(before) && keys.Valid()
    requires TableWanted(server, q, like, t) && CatalogWanted(server, q, like, t.catalog)
    requires Carries(xs, ShownKeys(server, keys, q, like, before), t.catalog, t.name, before)
    ensures Carries(xs, keys, t.catalog, t.name, before)
  {
    var shown := ShownKeys(server, keys, q, like, before);
    ShownValid(server, keys, q, like, before);
    forall c | c in keys.constraints && Of(c, t.catalog, t.name)
      ensures c in shown.constraints
    {
      FiltersAgree(server, keys, q, like, before, t, c);
    }
    ShownIsThere(server, keys, q, like, before);
    CarriesMore(xs, shown, keys, t.catalog, t.name, before);
  }

  /** Constraints of other tables make no difference. */
  lemma CarriesMore(xs: seq<Constraint>, few: Keys, keys: Keys, catalog: string, table: string, before: Before)
    requires few.constraints <= keys.constraints && few.usage == keys.usage
    requires forall c <- keys.constraints :: Of(c, catalog, table) ==> c in few.constraints
    requires forall c <- few.constraints :: few.Sole(c) <==> keys.Sole(c)
    requires Carries(xs, few, catalog, table, before)
    ensures Carries(xs, keys, catalog, table, before)
  {
    hide Merges, Reports, Ordered;
    forall x | x in xs
      ensures Merges(x, keys, catalog, table)
    {
      MergesMore(x, few, keys, catalog, table);
    }
    forall c, x | c in keys.constraints && Of(c, catalog, table) && keys.Sole(c) && x in xs && x.name == c.name
      ensures Reports(x, keys, c)
    {
      ReportsMore(x, few, keys, c);
    }
  }

  lemma MergesMore(x: Constraint, few: Keys, keys: Keys, catalog: string, table: string)
    requires few.constraints <= keys.constraints && few.usage == keys.usage
    requires forall c <- keys.constraints :: Of(c, catalog, table) ==> c in few.constraints
    requires Merges(x, few, catalog, table)
    ensures Merges(x, keys, catalog, table)
  {
    hide ConstraintOf, Ordered;
    var run :| PairsOf(run, few, catalog, table, x.name) && x == ConstraintOf(run);
    assert forall c, k :: Uses(keys, c, k) <==> Uses(few, c, k);
    hide Uses;
    assert forall r :: IsPair(few, catalog, table, x.name, r) <==> IsPair(keys, catalog, table, x.name, r);
    hide IsPair;
    assert PairsOf(run, keys, catalog, table, x.name);
  }

  lemma ReportsMore(x: Constraint, few: Keys, keys: Keys, c: ConstraintDef)
    requires few.usage == keys.usage && Reports(x, few, c)
    ensures Reports(x, keys, c)
  {
    hide Ordered, Filter;
    assert forall ks :: IsUsage(ks, keys, c) <==> IsUsage(ks, few, c);
  }

  lemma ShownIsThere(server: Server, keys: Keys, q: Request, like: Like, before: Before)
    ensures var shown := ShownKeys(server, keys, q, like, before);
            shown.constraints <= keys.constraints && shown.usage == keys.usage
  {
  }

  // ---------- End to end ----------

  /** The answer of GetObjects: the nested tree, with each table carrying the server's constraints for it. */
  ghost predicate Objects(infos: seq<Catalog>, bare: seq<Catalog>, keys: Keys, before: Before) {
    && SameOutline(infos, bare)
    && forall p :: ValidPath(bare, p) ==>
         && ValidPath(infos, p)
         && TableAt(infos, p) == TableAt(bare, p).(constraints := TableAt(infos, p).constraints)
         && Carries(TableAt(infos, p).constraints, keys, bare[p.info].name, TableAt(bare, p).name, before)
  }

  lemma TableOfTree(bare: seq<Catalog>, server: Server, q: Request, like: Like, before: Before, p: Path)
    requires Nested(bare, server, q, like, before) && ValidPath(bare, p)
    ensures CatalogWanted(server, q, like, bare[p.info].name)
    ensures TableWanted(server, q, like, TableDef(bare[p.info].name, TableAt(bare, p).name, TableAt(bare, p).kind))
  {
    assert p.schema == 0;
    assert NestedTables(bare[p.info].schemas.value[0].tables, server, q, like, before, bare[p.info].name);
    assert NestedTable(TableAt(bare, p), server, q, like, bare[p.info].name);
  }

  lemma TableAttached(bare: seq<Catalog>, server: Server, keys: Keys, q: Request, like: Like, before: Before, rows: seq<CRow>,
                      p: Path)
    requires Nested(bare, server, q, like, before) && ValidPath(bare, p) && keys.Valid() && NulFreeSchemas(server, keys)
    requires ExactKeyRows(rows, ShownKeys(server, keys, q, like, before), before) && OrderedStream(rows, before)
    ensures var infos := Extend(bare, IndexInfos(bare, |bare|), rows);
            && SameOutline(infos, bare) && ValidPath(infos, p)
            && TableAt(infos, p) == TableAt(bare, p).(constraints := TableAt(infos, p).constraints)
            && Carries(TableAt(infos, p).constraints, keys, bare[p.info].name, TableAt(bare, p).name, before)
  {
    assert StrictWeak(before);
    hide Extend, IndexInfos, Carries, ExactKeyRows, OrderedStream, Complete, SameOutline, Nested, ShownKeys, StrictWeak;
    TableOfTree(bare, server, q, like, before, p);
    ConstraintsAttached(bare, server, q, like, before, rows, p);
    var t := TableAt(bare, p);
    var infos := Extend(bare, IndexInfos(bare, |bare|), rows);
    var xs := TableAt(infos, p).constraints;
    ShownValid(server, keys, q, like, before);
    TableCarries(rows, ShownKeys(server, keys, q, like, before), before, bare[p.info].name, t.name, xs);
    AllShown(server, keys, q, like, before, TableDef(bare[p.info].name, t.name, t.kind), xs);
  }

  // ---------- The answer spelled out ----------

  /** The columns of c in ordinal order, as the server's own rows have them. */
  ghost predicate ColumnsSpelled(columns: seq<string>, keys: Keys, c: ConstraintDef, ks: seq<KeyDef>) {
    && (forall i, j | 0 <= i < j < |ks| :: ks[i].ordinal < ks[j].ordinal)
    && (forall k :: k in ks <==> k in keys.usage && k.schema == c.schema && k.table == c.table && k.constraint == c.name)
    && |columns| == |ks| && (forall i | 0 <= i < |ks| :: columns[i] == ks[i].column)
  }

  /** What those among them refer to that refer to anything. */
  ghost predicate UsageSpelled(usage: seq<Usage>, ks: seq<KeyDef>, refs: seq<KeyDef>) {
    && (forall i, j | 0 <= i < j < |refs| :: refs[i].ordinal < refs[j].ordinal)
    && (forall k :: k in refs <==> k in ks && k.refTable.Some? && k.refColumn.Some?)
    && |usage| == |refs|
    && (forall i | 0 <= i < |refs| :: refs[i].refTable.Some? && refs[i].refColumn.Some?
          && usage[i].catalog == refs[i].refSchema && usage[i].schema == ""
          && usage[i].table == refs[i].refTable.value && usage[i].column == refs[i].refColumn.value)
  }

  ghost predicate AsServer(x: Constraint, keys: Keys, c: ConstraintDef) {
    x.kind == c.kind && exists ks, refs :: ColumnsSpelled(x.columns, keys, c, ks) && UsageSpelled(x.usage, ks, refs)
  }

  /** The list of a table: the names of its constraints, once each and in order; and a constraint that shares its name with
      no other as the server has it. */
  ghost predicate ConstraintsPromised(xs: seq<Constraint>, keys: Keys, catalog: string, table: string, before: Before) {
    && (forall i, j | 0 <= i < j < |xs| :: xs[i].name != xs[j].name && !before(xs[j].name, xs[i].name))
    && (forall x <- xs :: exists c <- keys.constraints :: c.schema == catalog && c.table == table && c.name == x.name)
    && (forall c <- keys.constraints :: c.schema == catalog && c.table == table ==> exists x <- xs :: x.name == c.name)
    && (forall c, x | c in keys.constraints && c.schema == catalog && c.table == table && x in xs && x.name == c.name
          && (forall d <- keys.constraints :: d.schema == catalog && d.table == table && d.name == c.name ==> d == c) ::
          AsServer(x, keys, c))
  }

  lemma ByOrdinal(ks: seq<KeyDef>)
    ensures Ordered(ks, (k: KeyDef, l: KeyDef) => k.ordinal < l.ordinal) <==>
            forall i, j | 0 <= i < j < |ks| :: ks[i].ordinal < ks[j].ordinal
  {
    var byOrdinal := (k: KeyDef, l: KeyDef) => k.ordinal < l.ordinal;
    assert forall k, l :: byOrdinal(k, l) <==> k.ordinal < l.ordinal;
  }

  lemma ReferencesSpelled(ks: seq<KeyDef>)
    requires Ordered(ks, (k: KeyDef, l: KeyDef) => k.ordinal < l.ordinal)
    ensures UsageSpelled(Map(Filter(ks, References), UsageOfKey), ks, Filter(ks, References))
  {
    hide Filter, Ordered;
    var refs := Filter(ks, References);
    FilterOrdered(ks, References, (k: KeyDef, l: KeyDef) => k.ordinal < l.ordinal);
    ByOrdinal(refs);
    assert forall i | 0 <= i < |refs| :: refs[i] in refs;
  }

  lemma KeysSpelled(ks: seq<KeyDef>, keys: Keys, c: ConstraintDef)
    requires IsUsage(ks, keys, c)
    ensures ColumnsSpelled(Map(ks, ColumnOfKey), keys, c, ks)
  {
    hide Ordered;
    ByOrdinal(ks);
  }

  lemma ReportsSpelled(x: Constraint, keys: Keys, c: ConstraintDef)
    requires Reports(x, keys, c)
    ensures AsServer(x, keys, c)
  {
    var ks: seq<KeyDef> :| IsUsage(ks, keys, c) &&
      x == Constraint(c.name, c.kind, Map(ks, ColumnOfKey), Map(Filter(ks, References), UsageOfKey));
    hide Filter, Ordered, ColumnsSpelled, UsageSpelled;
    KeysSpelled(ks, keys, c);
    ReferencesSpelled(ks);
  }

  lemma CarriesPromised(xs: seq<Constraint>, keys: Keys, catalog: string, table: string, before: Before)
    requires Carries(xs, keys, catalog, table, before)
    ensures ConstraintsPromised(xs, keys, catalog, table, before)
  {
    hide Merges, Reports, AsServer;
    forall i, j | 0 <= i < j < |xs|
      ensures xs[i].name != xs[j].name && !before(xs[j].name, xs[i].name)
    {
      assert ByName(before)(xs[i], xs[j]);
    }
    forall c, x | c in keys.constraints && Of(c, catalog, table) && keys.Sole(c) && x in xs && x.name == c.name
      ensures AsServer(x, keys, c)
    {
      ReportsSpelled(x, keys, c);
    }
  }

  lemma SameTables(ts: seq<Table>, us: seq<Table>)
    requires |ts| == |us| && forall k | 0 <= k < |ts| :: ts[k] == us[k].(constraints := ts[k].constraints)
    ensures forall name, kind :: ListsTable(ts, name, kind) <==> ListsTable(us, name, kind)
  {
    forall name, kind
      ensures ListsTable(ts, name, kind) <==> ListsTable(us, name, kind)
    {
      if i :| 0 <= i < |us| && us[i].name == name && us[i].kind == kind {
        assert ts[i].name == name;
      }
    }
  }

  lemma SchemasSame(infos: seq<Catalog>, bare: seq<Catalog>, i: nat, server: Server, q: Request, like: Like, before: Before)
    requires SameOutline(infos, bare) && i < |bare|
    requires forall p | ValidPath(bare, p) ::
      ValidPath(infos, p) && TableAt(infos, p) == TableAt(bare, p).(constraints := TableAt(infos, p).constraints)
    requires SchemasPromised(bare[i].schemas, server, q, like, before, bare[i].name)
    ensures SchemasPromised(infos[i].schemas, server, q, like, before, infos[i].name)
  {
    hide ColumnsPromised;
    var s, t := infos[i].schemas, bare[i].schemas;
    if t.Some? && t.value != [] {
      assert SameSchemaOutline(s.value[0], t.value[0]);
      if t.value[0].tables.Some? {
        var us, vs := s.value[0].tables.value, t.value[0].tables.value;
        forall k | 0 <= k < |vs|
          ensures us[k] == vs[k].(constraints := us[k].constraints)
        {
          var p := Path(i, 0, k);
          assert ValidPath(bare, p) && TableAt(bare, p) == vs[k] && TableAt(infos, p) == us[k];
        }
        SameTables(us, vs);
      }
    }
  }

  /** The promise says nothing of the constraints, so attaching them keeps it. */
  lemma PromiseKept(infos: seq<Catalog>, bare: seq<Catalog>, server: Server, q: Request, like: Like, before: Before)
    requires SameOutline(infos, bare) && ObjectsPromised(bare, server, q, like, before)
    requires forall p | ValidPath(bare, p) ::
      ValidPath(infos, p) && TableAt(infos, p) == TableAt(bare, p).(constraints := TableAt(infos, p).constraints)
    ensures ObjectsPromised(infos, server, q, like, before)
  {
    hide SchemasPromised;
    forall i | 0 <= i < |infos|
      ensures SchemasPromised(infos[i].schemas, server, q, like, before, infos[i].name)
    {
      SchemasSame(infos, bare, i, server, q, like, before);
    }
    forall name
      ensures ListsCatalog(infos, name) <==> ListsCatalog(bare, name)
    {
      if i :| 0 <= i < |bare| && bare[i].name == name {
        assert infos[i].name == name;
      }
      if i :| 0 <= i < |infos| && infos[i].name == name {
        assert bare[i].name == name;
      }
    }
  }

  lemma OutlinePath(infos: seq<Catalog>, bare: seq<Catalog>, p: Path)
    requires SameOutline(infos, bare) && ValidPath(infos, p)
    ensures ValidPath(bare, p) && bare[p.info].name == infos[p.info].name
  {
    assert SameSchemaOutline(infos[p.info].schemas.value[p.schema], bare[p.info].schemas.value[p.schema]);
  }

  /** GetObjects on what the server answers to its two queries, for every content of its metadata tables, every request
      and every collation whose ties do no harm: no panic, the promised tree of the server's own catalogs, tables and
      columns, and on every table exactly the server's constraints. */
  method GetObjects(rows: seq<Row>, keyRows: seq<CRow>, q: Request, ghost server: Server, ghost keys: Keys, ghost like: Like,
                    ghost before: Before)
    returns (result: Outcome)
    requires StrictWeak(before) && server.Valid() && keys.Valid() && NulFreeSchemas(server, keys)
    requires Answers(rows, server, q, like, before) && TiesHarmless(server, q, like, before)
    requires KeyAnswers(keyRows, server, keys, q, like, before) && KeyTiesHarmless(server, keys, q, like, before)
    ensures result.Built? && Nested(Tree(rows, q.depth), server, q, like, before)
    ensures if IncludeTables(q.depth) then Objects(result.infos, Tree(rows, q.depth), keys, before)
            else result.infos == Tree(rows, q.depth)
    ensures ObjectsPromised(result.infos, server, q, like, before)
    ensures forall p | ValidPath(result.infos, p) ::
      ConstraintsPromised(TableAt(result.infos, p).constraints, keys, result.infos[p.info].name, TableAt(result.infos, p).name, before)
  {
    ObjectsNested(rows, server, q, like, before);
    NestedKept(Tree(rows, q.depth), server, q, like, before);
    AnswerOrdered(keyRows, server, keys, q, like, before);
    ExactAnswer(keyRows, server, keys, q, like, before);
    hide Answers, ExactKeyRows, TiesHarmless, KeyTiesHarmless, Nested, Tree, Panics, OrderedStream, KeyAnswers, Carries;
    hide Extend, IndexInfos, SameOutline, ObjectsPromised, ConstraintsPromised;
    result := Regroup(rows, q.depth);
    if IncludeTables(q.depth) {
      var bare := result.infos;
      var infos := AddTableConstraints(bare, keyRows);
      ExtendOutline(bare, IndexInfos(bare, |bare|), keyRows);
      forall p | ValidPath(bare, p)
        ensures ValidPath(infos, p)
        ensures TableAt(infos, p) == TableAt(bare, p).(constraints := TableAt(infos, p).constraints)
        ensures Carries(TableAt(infos, p).constraints, keys, bare[p.info].name, TableAt(bare, p).name, before)
      {
        TableAttached(bare, server, keys, q, like, before, keyRows, p);
      }
      result := Built(infos);
      PromiseKept(infos, bare, server, q, like, before);
      AllPromised(infos, bare, keys, before);
    } else {
      NoTables(result.infos, server, q, like, before);
    }
  }

  lemma AllPromised(infos: seq<Catalog>, bare: seq<Catalog>, keys: Keys, before: Before)
    requires Objects(infos, bare, keys, before)
    ensures forall p | ValidPath(infos, p) ::
      ConstraintsPromised(TableAt(infos, p).constraints, keys, infos[p.info].name, TableAt(infos, p).name, before)
  {
    hide Carries, ConstraintsPromised;
    forall p | ValidPath(infos, p)
      ensures ConstraintsPromised(TableAt(infos, p).constraints, keys, infos[p.info].name, TableAt(infos, p).name, before)
    {
      OutlinePath(infos, bare, p);
      CarriesPromised(TableAt(infos, p).constraints, keys, bare[p.info].name, TableAt(bare, p).name, before);
    }
  }

  lemma NoTables(infos: seq<Catalog>, server: Server, q: Request, like: Like, before: Before)
    requires ObjectsPromised(infos, server, q, like, before) && !IncludeTables(q.depth)
    ensures forall p :: !ValidPath(infos, p)
  {
    forall p
      ensures !ValidPath(infos, p)
    {
      if p.info < |infos| {
        assert SchemasPromised(infos[p.info].schemas, server, q, like, before, infos[p.info].name);
      }
    }
  }

  // ---------- When every answer is right ----------

  /** Every list that the stream gives rise to carries what the server has. */
  ghost predicate StreamCarries(rows: seq<CRow>, keys: Keys, before: Before) {
    forall catalog, table | NulFree(catalog) ::
      Carries(ConstraintsFor(rows, TableKey(catalog, table)), keys, catalog, table, before)
  }

  lemma {:induction false} NamesApart(groups: seq<seq<CRow>>, key: string, before: Before, a: nat, b: nat)
    requires forall a :: 0 <= a < |groups| ==> groups[a] != []
    requires Ordered(ConstraintsFrom(groups, key), ByName(before)) && a < b < |groups|
    requires RowKey(groups[a][0]) == key == RowKey(groups[b][0])
    ensures groups[a][0].name != groups[b][0].name
  {
    hide ConstraintOf;
    var front, g := groups[..|groups| - 1], Last(groups);
    var xs := ConstraintsFrom(front, key);
    assert groups == front + [g];
    FromSnoc(front, g, key);
    var tail := if RowKey(g[0]) == key then [ConstraintOf(g)] else [];
    OrderedAppend(xs, tail, ByName(before));
    assert xs + [] == xs;
    assert front[a] == groups[a];
    if b < |front| {
      assert front[b] == groups[b];
      NamesApart(front, key, before, a, b);
    } else {
      ConstraintName(front[a]);
      ConstraintName(g);
      FromMembers(front, key, ConstraintOf(front[a]));
      assert FromRun(front, key, ConstraintOf(front[a]));
      var i :| 0 <= i < |xs| && xs[i] == ConstraintOf(front[a]);
      assert ByName(before)(xs[i], tail[0]);
    }
  }

  /** A stream whose rows of one constraint are not together lists that constraint twice. */
  lemma ListedTwice(rows: seq<CRow>, keys: Keys, before: Before)
    requires !Contiguous(Map(rows, ConstraintKey)) && forall r <- rows :: NulFree(r.catalog)
    ensures !StreamCarries(rows, keys, before)
  {
    hide ConstraintsFrom, Merges, Reports, Keys.Sole;
    var groups := ConstraintRuns(rows);
    RunsDistinct(rows, ConstraintKey);
    var heads := Heads(groups, ConstraintKey);
    var a, b :| 0 <= a < b < |heads| && heads[a] == heads[b];
    HeadsInStream(rows);
    var r: CRow := groups[a][0];
    assert NulFree(r.catalog) && RowKey(r) == TableKey(r.catalog, r.table);
    if Ordered(ConstraintsFor(rows, TableKey(r.catalog, r.table)), ByName(before)) {
      NamesApart(groups, RowKey(r), before, a, b);
    }
  }

  lemma KeyRowsPreordered(before: Before)
    requires StrictWeak(before)
    ensures TotalPreorder(CRowOrder(before))
  {
    forall a, b, c | CRowLe(before, a, b) && CRowLe(before, b, c)
      ensures CRowLe(before, a, c)
    {
      KeyRowsTransitive(before, a, b, c);
    }
    assert forall a, b :: CRowLe(before, a, b) || CRowLe(before, b, a);
  }

  lemma ThenTransitive(before: Before, a: string, b: string, c: string, ab: bool, bc: bool, ac: bool)
    requires StrictWeak(before) && Then(before, a, b, ab) && Then(before, b, c, bc) && (ab && bc ==> ac)
    ensures Then(before, a, c, ac)
  {
  }

  lemma KeyRowsTransitive(before: Before, a: CRow, b: CRow, c: CRow)
    requires StrictWeak(before) && CRowLe(before, a, b) && CRowLe(before, b, c)
    ensures CRowLe(before, a, c)
  {
    hide Then;
    var ab, bc, ac := KeyOrdinalLe(a, b), KeyOrdinalLe(b, c), KeyOrdinalLe(a, c);
    var ab', bc', ac' := Then(before, a.name, b.name, ab), Then(before, b.name, c.name, bc), Then(before, a.name, c.name, ac);
    if ab' && bc' {
      ThenTransitive(before, a.name, b.name, c.name, ab, bc, ac);
    }
    var ab'', bc'', ac'' := Then(before, a.table, b.table, ab'), Then(before, b.table, c.table, bc'), Then(before, a.table, c.table, ac');
    if ab'' && bc'' {
      ThenTransitive(before, a.table, b.table, c.table, ab', bc', ac');
    }
    ThenTransitive(before, a.catalog, b.catalog, c.catalog, ab'', bc'', ac'');
  }

  lemma KeyRowNulFree(server: Server, keys: Keys, q: Request, like: Like, before: Before, j: KeyJoin)
    requires NulFreeSchemas(server, keys) && KeyMet(server, keys, q, like, before, j)
    ensures NulFree(KeyRowOf(j).catalog)
  {
  }

  ghost function KeyJoinOrder(before: Before): (KeyJoin, KeyJoin) -> bool {
    (a, b) => CRowLe(before, KeyRowOf(a), KeyRowOf(b))
  }

  lemma KeyJoinsPreordered(before: Before)
    requires StrictWeak(before)
    ensures TotalPreorder(KeyJoinOrder(before))
  {
    KeyRowsPreordered(before);
    hide CRowLe, StrictWeak, KeyRowOf;
    var le := CRowOrder(before);
    forall a, b, c: KeyJoin | KeyJoinOrder(before)(a, b) && KeyJoinOrder(before)(b, c)
      ensures KeyJoinOrder(before)(a, c)
    {
      var x, y, z := KeyRowOf(a), KeyRowOf(b), KeyRowOf(c);
      assert le(x, y) && le(y, z) && le(x, z);
    }
    forall a, b: KeyJoin
      ensures KeyJoinOrder(before)(a, b) || KeyJoinOrder(before)(b, a)
    {
      var x, y := KeyRowOf(a), KeyRowOf(b);
      assert le(x, y) || le(y, x);
    }
  }

  /** Some answer lists z between x and y. */
  lemma KeyAnswerListed(server: Server, keys: Keys, q: Request, like: Like, before: Before, x: KeyJoin, y: KeyJoin)
    returns (js: seq<KeyJoin>)
    requires StrictWeak(before)
    ensures KeyAnswers(Map(js, KeyRowOf), server, keys, q, like, before) && Ordered(js, Between(KeyJoinOrder(before), x, y))
    ensures KeyLists(js, server, keys, q, like, before)
    ensures forall j :: j in js <==> KeyMet(server, keys, q, like, before, j)
  {
    var le := KeyJoinOrder(before);
    KeyJoinsPreordered(before);
    BetweenPreorder(le, x, y);
    hide CRowLe, StrictWeak, TotalPreorder, KeyJoined, KeyMet, KeyRowOf;
    js := Listing(KeyJoined(server, keys, q, like, before), Between(le, x, y));
    InKeyListing(js, server, keys, q, like, before);
    assert forall i, j | 0 <= i < j < |js| :: Between(le, x, y)(js[i], js[j]);
  }

  lemma KeyListingApart(server: Server, keys: Keys, q: Request, like: Like, before: Before)
    returns (js: seq<KeyJoin>, i: nat, j: nat, k: nat)
    requires StrictWeak(before) && KeysInterleave(server, keys, q, like, before)
    ensures KeyAnswers(Map(js, KeyRowOf), server, keys, q, like, before) && i < j < k < |js|
    ensures forall j <- js :: KeyMet(server, keys, q, like, before, j)
    ensures ConstraintKey(KeyRowOf(js[i])) == ConstraintKey(KeyRowOf(js[k])) != ConstraintKey(KeyRowOf(js[j]))
  {
    var x, z, y :| KeyMet(server, keys, q, like, before, x) && KeyMet(server, keys, q, like, before, z)
                   && KeyMet(server, keys, q, like, before, y)
                   && x != y && PartsKey(before, KeyRowOf(x), KeyRowOf(z), KeyRowOf(y));
    hide KeyMet, KeyAnswers, CRowLe, StrictWeak, Ordered, KeyRowOf, Between;
    var le := KeyJoinOrder(before);
    assert ConstraintKey(KeyRowOf(x)) == ConstraintKey(KeyRowOf(y)) != ConstraintKey(KeyRowOf(z));
    assert z != x && z != y && le(x, z) && le(z, y);
    hide PartsKey, ConstraintKey;
    js := KeyAnswerListed(server, keys, q, like, before, x, y);
    i, j, k := Placed(js, le, x, z, y);
  }

  lemma KeyAnswerApart(server: Server, keys: Keys, q: Request, like: Like, before: Before) returns (rows: seq<CRow>)
    requires StrictWeak(before) && NulFreeSchemas(server, keys) && KeysInterleave(server, keys, q, like, before)
    ensures KeyAnswers(rows, server, keys, q, like, before)
    ensures !StreamCarries(rows, ShownKeys(server, keys, q, like, before), before)
  {
    hide KeyMet, KeyAnswers, StrictWeak, StreamCarries, NulFreeSchemas, NulFree, KeyRowOf, KeysInterleave;
    var js, i, j, k := KeyListingApart(server, keys, q, like, before);
    rows := Map(js, KeyRowOf);
    forall r | r in rows
      ensures NulFree(r.catalog)
    {
      var i :| 0 <= i < |rows| && rows[i] == r;
      assert js[i] in js;
      KeyRowNulFree(server, keys, q, like, before, js[i]);
    }
    var ks := Map(rows, ConstraintKey);
    assert ks[i] == ks[k] && ks[j] != ks[i];
    ListedTwice(rows, ShownKeys(server, keys, q, like, before), before);
  }

  // ---------- Columns joined to another constraint are counted ----------

  lemma Without<T>(s: seq<T>, m: nat)
    requires NoRepeat(s) && m < |s|
    ensures NoRepeat(s[..m] + s[m + 1..])
    ensures forall x :: x in s[..m] + s[m + 1..] <==> x in s && x != s[m]
  {
    var rest := s[..m] + s[m + 1..];
    assert s == s[..m] + [s[m]] + s[m + 1..];
    forall i, k | 0 <= i < k < |rest|
      ensures rest[i] != rest[k]
    {
      assert rest[i] == s[if i < m then i else i + 1] && rest[k] == s[if k < m then k else k + 1];
    }
    forall i | 0 <= i < |rest|
      ensures rest[i] in s && rest[i] != s[m]
    {
      assert rest[i] == s[if i < m then i else i + 1];
    }
  }

  /** If g covers list by f even without one of its elements, it is longer. */
  lemma {:induction false} Covers<S, T>(list: seq<T>, g: seq<S>, f: S -> T, extra: S)
    requires NoRepeat(list) && NoRepeat(g) && extra in g
    requires forall r <- list :: exists x <- g :: x != extra && f(x) == r
    ensures |list| < |g|
  {
    if list != [] {
      var front, r := list[..|list| - 1], Last(list);
      assert list == front + [r];
      NoRepeatSnoc(front, r);
      assert r in list;
      var y :| y in g && y != extra && f(y) == r;
      var m :| 0 <= m < |g| && g[m] == y;
      var rest := g[..m] + g[m + 1..];
      Without(g, m);
      hide NoRepeat;
      forall u | u in front
        ensures exists x <- rest :: x != extra && f(x) == u
      {
        assert u in list;
        var x :| x in g && x != extra && f(x) == u;
        assert x in rest;
      }
      Covers(front, rest, f, extra);
    }
  }

  lemma {:induction false} FilterLength<S, T>(s: seq<S>, f: S -> T, p: T -> bool, p': T -> bool, both: S -> bool)
    requires forall x :: both(x) == (p(f(x)) && p'(f(x)))
    ensures |Filter(Filter(Map(s, f), p), p')| == |Filter(s, both)|
  {
    if s == [] {
      assert Map(s, f) == [];
    } else {
      var front, x := s[..|s| - 1], Last(s);
      assert s == front + [x];
      FilterLength(front, f, p, p', both);
      MapSnoc(front, x, f);
      FilterSnoc(Map(front, f), f(x), p);
      FilterSnoc(front, x, both);
      FilterSnoc(Filter(Map(front, f), p), f(x), p');
      assert Filter(Map(front, f), p) + [] == Filter(Map(front, f), p);
    }
  }

  predicate JoinsColumn(c: ConstraintDef, j: KeyJoin) {
    ConstraintKey(KeyRowOf(j)) == (TableKey(c.schema, c.table), c.name) && HasKeyColumn(KeyRowOf(j))
  }

  /** A pair of the list was joined in the constraint's own table. */
  lemma PairMet(server: Server, keys: Keys, q: Request, like: Like, before: Before, c: ConstraintDef, t: TableDef, r: CRow)
    returns (j: KeyJoin)
    requires StrictWeak(before) && keys.Valid() && c in keys.constraints && t in server.tables && InTable(c, t)
    requires KeyFilter(q, like, before, c, t) && HasKeyColumn(r)
    requires IsPair(ShownKeys(server, keys, q, like, before), c.schema, c.table, c.name, r)
    ensures KeyMet(server, keys, q, like, before, j) && KeyRowOf(j) == r && SameKeyNames(j) && JoinsColumn(c, j)
  {
    var shown := ShownKeys(server, keys, q, like, before);
    hide StrictWeak, KeyMet, Shown;
    var d, k :| d in shown.constraints && Of(d, c.schema, c.table) && d.name == c.name && Uses(shown, d, k) && r == KeyRow(d, k);
    j := ((d, t), k);
    OwnKeyMet(server, keys, q, like, before, d, t, k.value);
  }

  /** A constraint that got a column of another lists more columns than there are pairs of its name. */
  lemma MorePairs(js: seq<KeyJoin>, server: Server, keys: Keys, q: Request, like: Like, before: Before, j: KeyJoin,
                  t: TableDef, run: seq<CRow>)
    requires StrictWeak(before) && keys.Valid() && KeyLists(js, server, keys, q, like, before)
    requires KeyMet(server, keys, q, like, before, j) && j.1.Some? && !SameKeyNames(j)
    requires t in server.tables && InTable(j.0.0, t) && KeyFilter(q, like, before, j.0.0, t)
    requires PairsOf(run, ShownKeys(server, keys, q, like, before), j.0.0.schema, j.0.0.table, j.0.0.name)
    ensures var c := j.0.0;
            |Filter(run, HasKeyColumn)| < |Filter(RowsOf(Map(js, KeyRowOf), c.schema, c.table, c.name), HasKeyColumn)|
  {
    var c := j.0.0;
    var list, joins := Filter(run, HasKeyColumn), Filter(js, x => JoinsColumn(c, x));
    InKeyListing(js, server, keys, q, like, before);
    assert c in keys.constraints && j in joins;
    hide StrictWeak, KeyMet, KeyLists, ShownKeys, SameKeyNames, KeyFilter, InTable, Filter, IsPair;
    FilterOrdered(run, HasKeyColumn, DifferIfColumn);
    assert NoRepeat(list) by {
      assert forall i | 0 <= i < |list| :: list[i] in list;
    }
    JoinsDiffer(js, x => JoinsColumn(c, x));
    forall r | r in list
      ensures exists x <- joins :: x != j && KeyRowOf(x) == r
    {
      var x := PairMet(server, keys, q, like, before, c, t, r);
      assert x in joins;
    }
    hide KeyRowOf, PairsOf;
    Covers(list, joins, KeyRowOf, j);
    var ofName := KeyIs(ConstraintKey, (TableKey(c.schema, c.table), c.name));
    FilterLength(js, KeyRowOf, ofName, HasKeyColumn, x => JoinsColumn(c, x));
  }

  lemma JoinsDiffer(js: seq<KeyJoin>, p: KeyJoin -> bool)
    requires NoRepeat(js)
    ensures NoRepeat(Filter(js, p))
  {
    var differ := (a: KeyJoin, b: KeyJoin) => a != b;
    assert Ordered(js, differ);
    FilterOrdered(js, p, differ);
    assert forall i, j | 0 <= i < j < |Filter(js, p)| :: differ(Filter(js, p)[i], Filter(js, p)[j]);
  }

  /** What the right list says of a name in the stream. */
  lemma CarriedEntry(rows: seq<CRow>, keys: Keys, before: Before, r: CRow) returns (d: ConstraintDef, run: seq<CRow>)
    requires OrderedStream(rows, before) && r in rows && StreamCarries(rows, keys, before)
    ensures d in keys.constraints && Of(d, r.catalog, r.table) && d.name == r.name
    ensures PairsOf(run, keys, r.catalog, r.table, r.name)
    ensures |Filter(run, HasKeyColumn)| == |Filter(RowsOf(rows, r.catalog, r.table, r.name), HasKeyColumn)|
  {
    var xs := ConstraintsFor(rows, TableKey(r.catalog, r.table));
    assert NulFree(r.catalog) && OfTable(r, r.catalog, r.table);
    ConstraintsComplete(rows, before, r.catalog, r.table);
    assert Carries(xs, keys, r.catalog, r.table, before);
    hide OrderedStream, StreamCarries, ConstraintsFor, RowsOf, NulFree, Reports, PairsOf, Ordered, Filter;
    var x :| x in xs && x.name == r.name;
    d :| d in keys.constraints && Of(d, r.catalog, r.table) && d.name == x.name;
    run :| PairsOf(run, keys, r.catalog, r.table, x.name) && x == ConstraintOf(run);
  }

  /** A join that confuses names shows in the list of its constraint. */
  lemma StrayKey(js: seq<KeyJoin>, server: Server, keys: Keys, q: Request, like: Like, before: Before, j: KeyJoin)
    requires StrictWeak(before) && keys.Valid() && KeyLists(js, server, keys, q, like, before)
    requires OrderedStream(Map(js, KeyRowOf), before) && KeyMet(server, keys, q, like, before, j)
    requires !Shown(server, q, like, before, j.0.0) || (j.1.Some? && !SameKeyNames(j))
    ensures !StreamCarries(Map(js, KeyRowOf), ShownKeys(server, keys, q, like, before), before)
  {
    var rows, shown, c := Map(js, KeyRowOf), ShownKeys(server, keys, q, like, before), j.0.0;
    InKeyListing(js, server, keys, q, like, before);
    var i :| 0 <= i < |js| && js[i] == j;
    assert rows[i] in rows && OfTable(rows[i], c.schema, c.table) && rows[i].name == c.name && c in keys.constraints;
    hide KeyMet, KeyLists, StrictWeak, OrderedStream, StreamCarries, RowsOf, SameKeyNames, PairsOf, KeyFilter, Filter, KeyRowOf;
    if StreamCarries(rows, shown, before) {
      var d, run := CarriedEntry(rows, shown, before, rows[i]);
      ShownTogether(server, keys, q, like, before, d, c);
      var t :| t in server.tables && InTable(c, t) && KeyFilter(q, like, before, c, t);
      MorePairs(js, server, keys, q, like, before, j, t, run);
    }
  }

  lemma KeyAnswerStrays(server: Server, keys: Keys, q: Request, like: Like, before: Before) returns (rows: seq<CRow>)
    requires StrictWeak(before) && keys.Valid() && NulFreeSchemas(server, keys)
    requires !KeyTiesAgree(server, keys, q, like, before) && !KeysInterleave(server, keys, q, like, before)
    ensures KeyAnswers(rows, server, keys, q, like, before)
    ensures !StreamCarries(rows, ShownKeys(server, keys, q, like, before), before)
  {
    hide KeyMet, StrictWeak, StreamCarries, NulFreeSchemas, SameKeyNames, Shown, KeyRowOf, KeysInterleave, KeyLists, Ordered;
    var j: KeyJoin :| KeyMet(server, keys, q, like, before, j)
                      && (!Shown(server, q, like, before, j.0.0) || (j.1.Some? && !SameKeyNames(j)));
    var js := KeyAnswerListed(server, keys, q, like, before, j, j);
    rows := Map(js, KeyRowOf);
    AnswerOrdered(rows, server, keys, q, like, before);
    StrayKey(js, server, keys, q, like, before, j);
  }

  /** Whatever answer the server gives to the second query, every table's list carries its constraints, exactly when the
      ties among their names do no harm: no join confuses two of them, and no rows of two constraints interleave. */
  lemma EveryStreamCarries(server: Server, keys: Keys, q: Request, like: Like, before: Before)
    requires StrictWeak(before) && server.Valid() && keys.Valid() && NulFreeSchemas(server, keys)
    ensures (forall rows :: KeyAnswers(rows, server, keys, q, like, before) ==>
                              StreamCarries(rows, ShownKeys(server, keys, q, like, before), before))
            <==> KeyTiesHarmless(server, keys, q, like, before)
  {
    var shown := ShownKeys(server, keys, q, like, before);
    hide KeyAnswers, KeysInterleave, KeyTiesAgree, StrictWeak, ConstraintsFor, Complete, ShownKeys, Carries, ExactKeyRows;
    if KeysInterleave(server, keys, q, like, before) {
      var rows := KeyAnswerApart(server, keys, q, like, before);
    } else if !KeyTiesAgree(server, keys, q, like, before) {
      var rows := KeyAnswerStrays(server, keys, q, like, before);
    } else {
      forall rows | KeyAnswers(rows, server, keys, q, like, before)
        ensures StreamCarries(rows, shown, before)
      {
        AnswerOrdered(rows, server, keys, q, like, before);
        ExactAnswer(rows, server, keys, q, like, before);
        ShownValid(server, keys, q, like, before);
        forall catalog, table | NulFree(catalog)
          ensures Carries(ConstraintsFor(rows, TableKey(catalog, table)), shown, catalog, table, before)
        {
          ConstraintsComplete(rows, before, catalog, table);
          TableCarries(rows, shown, before, catalog, table, ConstraintsFor(rows, TableKey(catalog, table)));
        }
      }
    }
  }

  // ---------- The failing cases: constraints of one name, or of names that tie ----------

  const ONE_TABLE := Server({"db"}, {BaseTable("db", "t")}, {})

  function OfT(name: string, kind: string): ConstraintDef {
    ConstraintDef("db", "db", "t", name, kind)
  }

  /** Two constraints of table "t" with a column each, whose names are equal to the server. */
  predicate Twins(before: Before, c: ConstraintDef, d: ConstraintDef, k: KeyDef, l: KeyDef) {
    && c == OfT(c.name, c.kind) && d == OfT(d.name, d.kind) && Tied(before, c.name, d.name)
    && k.schema == l.schema == "db" && k.table == l.table == "t" && k.constraint == c.name && l.constraint == d.name
    && k.ordinal == l.ordinal
  }

  function FourKeyJoins(c: ConstraintDef, d: ConstraintDef, k: KeyDef, l: KeyDef): seq<KeyJoin> {
    var t := BaseTable("db", "t");
    [((c, t), Some(k)), ((c, t), Some(l)), ((d, t), Some(k)), ((d, t), Some(l))]
  }

  lemma FourKeysMet(like: Like, before: Before, c: ConstraintDef, d: ConstraintDef, k: KeyDef, l: KeyDef, j: KeyJoin)
    requires StrictWeak(before) && Twins(before, c, d, k, l)
    ensures KeyMet(ONE_TABLE, Keys({c, d}, {k, l}), EVERYTHING, like, before, j) <==> j in FourKeyJoins(c, d, k, l)
  {
    var keys, four, t := Keys({c, d}, {k, l}), FourKeyJoins(c, d, k, l), BaseTable("db", "t");
    forall x, y | x in keys.constraints && y in keys.usage
      ensures OnConstraintTable(before, x, t) && OnKey(before, (x, t), y)
      ensures ((x, t), Some(y)) in four
    {
      assert ((x, t), Some(y)) == four[0] || ((x, t), Some(y)) == four[1]
          || ((x, t), Some(y)) == four[2] || ((x, t), Some(y)) == four[3];
    }
    hide StrictWeak, Tied, OnKey, OnConstraintTable;
    if j in four {
      assert j == four[0] || j == four[1] || j == four[2] || j == four[3];
    }
    if KeyMet(ONE_TABLE, keys, EVERYTHING, like, before, j) {
      assert c in keys.constraints && k in keys.usage && j.0.1 == t;
      assert j.1.Some? && j == ((j.0.0, t), Some(j.1.value));
    }
  }

  lemma FourKeysLe(before: Before, c: ConstraintDef, d: ConstraintDef, k: KeyDef, l: KeyDef, x: KeyJoin, y: KeyJoin)
    requires StrictWeak(before) && Twins(before, c, d, k, l) && x in FourKeyJoins(c, d, k, l) && y in FourKeyJoins(c, d, k, l)
    ensures CRowLe(before, KeyRowOf(x), KeyRowOf(y))
  {
  }

  lemma FourKeysAnswer(like: Like, before: Before, c: ConstraintDef, d: ConstraintDef, k: KeyDef, l: KeyDef)
    requires StrictWeak(before) && Twins(before, c, d, k, l) && c != d && k != l
    ensures KeyAnswers(Map(FourKeyJoins(c, d, k, l), KeyRowOf), ONE_TABLE, Keys({c, d}, {k, l}), EVERYTHING, like, before)
  {
    var js, keys := FourKeyJoins(c, d, k, l), Keys({c, d}, {k, l});
    assert NoRepeat(js);
    hide Twins, KeyJoined, KeyMet, StrictWeak, CRowLe, KeyRowOf, FourKeyJoins;
    forall j
      ensures j in js <==> j in KeyJoined(ONE_TABLE, keys, EVERYTHING, like, before)
    {
      FourKeysMet(like, before, c, d, k, l, j);
      KeyResultMember(ONE_TABLE, keys, EVERYTHING, like, before, j);
    }
    assert KeyLists(js, ONE_TABLE, keys, EVERYTHING, like, before);
    forall i, j | 0 <= i < j < |js|
      ensures CRowLe(before, KeyRowOf(js[i]), KeyRowOf(js[j]))
    {
      assert js[i] in js && js[j] in js;
      FourKeysLe(before, c, d, k, l, js[i], js[j]);
    }
  }

  const UNIQUE_K := OfT("k", "UNIQUE")
  const FOREIGN_K := OfT("k", "FOREIGN KEY")
  const UNIQUE_COLUMN := KeyDef("db", "t", "k", 1, "c", None, None, None)
  const FOREIGN_COLUMN := KeyDef("db", "t", "k", 1, "c", Some("db"), Some("p"), Some("id"))
  const ONE_NAME := Keys({FOREIGN_K, UNIQUE_K}, {UNIQUE_COLUMN, FOREIGN_COLUMN})
  const FOUR_ROWS := Map(FourKeyJoins(FOREIGN_K, UNIQUE_K, UNIQUE_COLUMN, FOREIGN_COLUMN), KeyRowOf)

  lemma FourTogether(before: Before)
    requires StrictWeak(before) && Ordered(FOUR_ROWS, CRowOrder(before))
    ensures OrderedStream(FOUR_ROWS, before) && !OneKindPerName(FOUR_ROWS, "db", "t")
  {
    assert FOUR_ROWS[0] in FOUR_ROWS && FOUR_ROWS[2] in FOUR_ROWS;
    hide CRowLe, StrictWeak;
    assert forall a <- FOUR_ROWS :: ConstraintKey(a) == ConstraintKey(FOUR_ROWS[0]);
  }

  /** A UNIQUE and a FOREIGN KEY constraint of one name and one column: the join pairs each with the columns of both, and
      the loop merges the four rows into one FOREIGN KEY of four columns; the UNIQUE constraint is not reported. */
  lemma SharedNameMerged(like: Like, before: Before)
    requires StrictWeak(before)
    ensures ONE_NAME.Valid() && KeyAnswers(FOUR_ROWS, ONE_TABLE, ONE_NAME, EVERYTHING, like, before)
    ensures OrderedStream(FOUR_ROWS, before) && !OneKindPerName(FOUR_ROWS, "db", "t")
    ensures ConstraintsFor(FOUR_ROWS, TableKey("db", "t"))
         == [Constraint("k", "FOREIGN KEY", ["c", "c", "c", "c"], [UsageOfKey(FOREIGN_COLUMN), UsageOfKey(FOREIGN_COLUMN)])]
  {
    assert ONE_NAME.Valid() by {
      assert SameName(UNIQUE_K, FOREIGN_K);
    }
    FourKeysAnswer(like, before, FOREIGN_K, UNIQUE_K, UNIQUE_COLUMN, FOREIGN_COLUMN);
    hide KeyLists, OrderedStream, OneKindPerName, ConstraintsFor, CRowLe;
    FourTogether(before);
    FourMerged();
  }

  function Merged(columns: seq<string>, usage: seq<Usage>): Constraint {
    Constraint("k", "FOREIGN KEY", columns, usage)
  }

  lemma TwoMerged()
    ensures ConstraintsFor(FOUR_ROWS[..2], TableKey("db", "t")) == [Merged(["c", "c"], [UsageOfKey(FOREIGN_COLUMN)])]
  {
    hide ConstraintsFor;
    var a, b, key, u := FOUR_ROWS[0], FOUR_ROWS[1], TableKey("db", "t"), UsageOfKey(FOREIGN_COLUMN);
    NoRowsNoConstraints(key);
    ForSnoc([], a, key);
    assert [] + [a] == [a];
    assert AddKeyRow(NewConstraint(a), a) == Merged(["c"], []) && [] + [Merged(["c"], [])] == [Merged(["c"], [])];
    assert ConstraintsFor([a], key) == [Merged(["c"], [])];
    ForSnoc([a], b, key);
    assert [a] + [b] == FOUR_ROWS[..2] && Last([a]) == a;
    assert AddKeyRow(Merged(["c"], []), b) == Merged(["c", "c"], [u]);
  }

  lemma FourMerged()
    ensures ConstraintsFor(FOUR_ROWS, TableKey("db", "t"))
         == [Merged(["c", "c", "c", "c"], [UsageOfKey(FOREIGN_COLUMN), UsageOfKey(FOREIGN_COLUMN)])]
  {
    hide ConstraintsFor;
    var two, c, d, key, u := FOUR_ROWS[..2], FOUR_ROWS[2], FOUR_ROWS[3], TableKey("db", "t"), UsageOfKey(FOREIGN_COLUMN);
    TwoMerged();
    ForSnoc(two, c, key);
    assert Last(two) == FOUR_ROWS[1];
    assert AddKeyRow(Merged(["c", "c"], [u]), c) == Merged(["c", "c", "c"], [u]);
    assert ConstraintsFor(two + [c], key) == [Merged(["c", "c", "c"], [u])];
    ForSnoc(two + [c], d, key);
    assert two + [c] + [d] == FOUR_ROWS && Last(two + [c]) == c;
    assert AddKeyRow(Merged(["c", "c", "c"], [u]), d) == Merged(["c", "c", "c", "c"], [u, u]);
  }

  lemma NoRowsNoConstraints(key: string)
    ensures ConstraintsFor([], key) == []
  {
  }

  const SMALL_K := OfT("k", "UNIQUE")
  const LARGE_K := OfT("K", "UNIQUE")
  const SMALL_COLUMN := KeyDef("db", "t", "k", 1, "a", None, None, None)
  const LARGE_COLUMN := KeyDef("db", "t", "K", 1, "b", None, None, None)
  const TIED_NAMES := Keys({SMALL_K, LARGE_K}, {SMALL_COLUMN, LARGE_COLUMN})
  const MIXED_ROWS := Map(FourKeyJoins(SMALL_K, LARGE_K, SMALL_COLUMN, LARGE_COLUMN), KeyRowOf)

  function Unique(name: string, columns: seq<string>): Constraint {
    Constraint(name, "UNIQUE", columns, [])
  }

  lemma SmallList()
    ensures ConstraintsFor(MIXED_ROWS[..2], TableKey("db", "t")) == [Unique("k", ["a", "b"])]
  {
    hide ConstraintsFor;
    var a, b, key := MIXED_ROWS[0], MIXED_ROWS[1], TableKey("db", "t");
    NoRowsNoConstraints(key);
    ForSnoc([], a, key);
    assert [] + [a] == [a];
    assert AddKeyRow(NewConstraint(a), a) == Unique("k", ["a"]) && [] + [Unique("k", ["a"])] == [Unique("k", ["a"])];
    assert ConstraintsFor([a], key) == [Unique("k", ["a"])];
    ForSnoc([a], b, key);
    assert [a] + [b] == MIXED_ROWS[..2] && Last([a]) == a;
    assert AddKeyRow(Unique("k", ["a"]), b) == Unique("k", ["a", "b"]);
  }

  lemma MixedLists()
    ensures ConstraintsFor(MIXED_ROWS, TableKey("db", "t")) == [Unique("k", ["a", "b"]), Unique("K", ["a", "b"])]
  {
    hide ConstraintsFor;
    var two, c, d, key := MIXED_ROWS[..2], MIXED_ROWS[2], MIXED_ROWS[3], TableKey("db", "t");
    SmallList();
    ForSnoc(two, c, key);
    assert AddKeyRow(NewConstraint(c), c) == Unique("K", ["a"]);
    ForSnoc(two + [c], d, key);
    assert two + [c] + [d] == MIXED_ROWS && Last(two + [c]) == c;
    assert AddKeyRow(Unique("K", ["a"]), d) == Unique("K", ["a", "b"]);
  }

  lemma MixedWrong()
    ensures !Reports(Unique("k", ["a", "b"]), TIED_NAMES, SMALL_K)
  {
    forall ks | IsUsage(ks, TIED_NAMES, SMALL_K)
      ensures Map(ks, ColumnOfKey) != ["a", "b"]
    {
      assert forall k <- ks :: k == SMALL_COLUMN;
      forall i | 0 <= i < |ks|
        ensures Map(ks, ColumnOfKey)[i] == "a"
      {
        assert ks[i] in ks;
      }
      assert ["a", "b"][1] == "b";
    }
  }

  /** Two constraints whose names tie, "k" on column "a" and "K" on column "b": the join gives each the columns of both, and
      so does the loop, although each is listed once. */
  lemma TiedNamesMixed(like: Like, before: Before)
    requires StrictWeak(before) && Tied(before, "k", "K")
    ensures TIED_NAMES.Valid() && KeyAnswers(MIXED_ROWS, ONE_TABLE, TIED_NAMES, EVERYTHING, like, before)
    ensures var xs := ConstraintsFor(MIXED_ROWS, TableKey("db", "t"));
            xs == [Unique("k", ["a", "b"]), Unique("K", ["a", "b"])] && !Carries(xs, TIED_NAMES, "db", "t", before)
  {
    hide KeyAnswers, ConstraintsFor, Reports, Carries, StrictWeak, CRowLe;
    FourKeysAnswer(like, before, SMALL_K, LARGE_K, SMALL_COLUMN, LARGE_COLUMN);
    MixedLists();
    MixedValid();
    NotCarried([Unique("k", ["a", "b"]), Unique("K", ["a", "b"])], before);
  }

  lemma MixedValid()
    ensures TIED_NAMES.Valid() && SMALL_K in TIED_NAMES.constraints && TIED_NAMES.Sole(SMALL_K)
  {
  }

  lemma NotCarried(xs: seq<Constraint>, before: Before)
    requires Unique("k", ["a", "b"]) in xs
    ensures !Carries(xs, TIED_NAMES, "db", "t", before)
  {
    MixedWrong();
    MixedValid();
    hide Reports, Merges, Ordered;
  }
}

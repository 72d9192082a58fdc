/** The optional conditions of the metadata queries: what is written, what is bound to it, and what it means. */
module Conditions {
  import opened Prelude
  import opened Decimal
  import opened ObjectQuery

  /** Two numbers compared, a column matched with a pattern, or a column compared with each of several values. */
  datatype Condition =
    | Compare(left: nat, right: nat)
    | Likes(column: string, pattern: string)
    | Among(column: string, values: seq<string>)

  // ---------- Writing ----------

  /** strings.Repeat("?,", n-1) + "?", or nothing. */
  function Placeholders(n: nat): string {
    if n == 0 then "" else Repeat(n - 1) + "?"
  }

  function Repeat(n: nat): string {
    if n == 0 then "" else Repeat(n - 1) + "?,"
  }

  lemma {:induction false} RepeatAt(n: nat, i: nat)
    requires i < 2 * n
    ensures |Repeat(n)| == 2 * n && Repeat(n)[i] == if i % 2 == 0 then '?' else ','
  {
    if n > 1 {
      RepeatAt(n - 1, if i < 2 * n - 2 then i else 0);
    }
  }

  /** n question marks with commas between them. */
  lemma PlaceholdersAt(n: nat, i: nat)
    requires n > 0 && i < 2 * n - 1
    ensures |Placeholders(n)| == 2 * n - 1 && Placeholders(n)[i] == if i % 2 == 0 then '?' else ','
  {
    if n > 1 {
      RepeatAt(n - 1, if i < 2 * n - 2 then i else 0);
    }
  }

  function Written(c: Condition): string {
    match c
    case Compare(left, right) => Digits(left) + "=" + Digits(right)
    case Likes(column, _) => column + " LIKE ?"
    case Among(column, values) => column + " IN (" + Placeholders(|values|) + ")"
  }

  function Given(c: Condition): seq<string> {
    match c
    case Compare(_, _) => []
    case Likes(_, pattern) => [pattern]
    case Among(_, values) => values
  }

  function WrittenAfter(cs: seq<Condition>): string {
    if cs == [] then "" else " AND " + Written(cs[0]) + WrittenAfter(cs[1..])
  }

  function GivenAll(cs: seq<Condition>): seq<string> {
    if cs == [] then [] else Given(cs[0]) + GivenAll(cs[1..])
  }

  lemma {:induction false} WrittenAppend(a: seq<Condition>, b: seq<Condition>)
    ensures WrittenAfter(a + b) == WrittenAfter(a) + WrittenAfter(b)
  {
    hide Written;
    if a == [] {
      assert a + b == b;
    } else {
      assert (a + b)[1..] == a[1..] + b;
      WrittenAppend(a[1..], b);
      Joined3(" AND " + Written(a[0]), WrittenAfter(a[1..]), WrittenAfter(b));
    }
  }

  lemma Joined3(a: string, b: string, c: string)
    ensures a + (b + c) == a + b + c
  {
  }

  lemma {:induction false} GivenAppend(a: seq<Condition>, b: seq<Condition>)
    ensures GivenAll(a + b) == GivenAll(a) + GivenAll(b)
  {
    hide Given;
    if a == [] {
      assert a + b == b;
    } else {
      assert (a + b)[1..] == a[1..] + b;
      GivenAppend(a[1..], b);
    }
  }

  // ---------- Meaning ----------

  /** Whether the condition holds of a row, given the text in each of its columns. */
  ghost predicate Holds(c: Condition, like: Like, before: Before, row: string -> string) {
    match c
    case Compare(left, right) => left == right
    case Likes(column, pattern) => like(row(column), pattern)
    case Among(column, values) => exists v <- values :: Tied(before, row(column), v)
  }

  ghost predicate HoldAll(cs: seq<Condition>, like: Like, before: Before, row: string -> string) {
    forall c <- cs :: Holds(c, like, before, row)
  }

  // ---------- The conditions a request asks for ----------

  function Optional(column: string, pattern: Option<string>): seq<Condition> {
    if pattern.Some? then [Likes(column, pattern.value)] else []
  }

  function OptionalList(column: string, values: seq<string>): seq<Condition> {
    if values == [] then [] else [Among(column, values)]
  }

  /** A level that the depth does not reach is joined on a comparison that never holds. */
  const NEVER: seq<Condition> := [Compare(1, 0)]

  function SchemaConditions(q: Request): seq<Condition> {
    if q.depth == 1 then NEVER else Optional("sch.DB_SCHEMA_NAME", q.schema)
  }

  function TableConditions(q: Request): seq<Condition> {
    if q.depth == 0 || q.depth == 3 then Optional("t.TABLE_NAME", q.table) + OptionalList("t.TABLE_TYPE", q.kinds) else NEVER
  }

  function ColumnConditions(q: Request): seq<Condition> {
    if q.depth == 0 then Optional("c.COLUMN_NAME", q.column) else NEVER
  }

  function CatalogConditions(q: Request): seq<Condition> {
    Optional("s.SCHEMA_NAME", q.catalog)
  }

  function ConstraintConditions(catalog: Option<string>, table: Option<string>, kinds: seq<string>): seq<Condition> {
    Optional("tc.CONSTRAINT_SCHEMA", catalog) + Optional("tc.TABLE_NAME", table) + OptionalList("t.TABLE_TYPE", kinds)
  }

  function StatisticsConditions(catalog: Option<string>, table: Option<string>): seq<Condition> {
    Optional("TABLE_SCHEMA", catalog) + Optional("TABLE_NAME", table)
  }
}

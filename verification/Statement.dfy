/** Prepared-statement state: which query GetParameterSchema describes, and when it answers at all. */
module Statement {
  import opened Prelude
  import opened SqlScanner

  datatype ArrowField = ArrowField(name: string, isNullType: bool, nullable: bool)

  const PARAMETER: ArrowField := ArrowField("", true, true)

  /** A call on a statement; ok is what the embedded base implementation answers. */
  datatype Call = SetSqlQuery(query: string, ok: bool) | Prepare(ok: bool) | GetParameterSchema

  datatype State = State(query: string, prepared: bool)

  function Step(s: State, c: Call): State {
    match c
    case SetSqlQuery(query, ok) => if ok then State(query, false) else s
    case Prepare(ok) => s.(prepared := ok)
    case GetParameterSchema => s
  }

  function Run(calls: seq<Call>): State {
    if calls == [] then State("", false) else Step(Run(calls[..|calls| - 1]), calls[|calls| - 1])
  }

  class MariadbStatement {
    var query: string
    var prepared: bool

    function Model(): State
      reads this
    {
      State(query, prepared)
    }

    constructor ()
      ensures Model() == Run([])
    {
      query, prepared := "", false;
    }

    method SetSqlQuery(text: string, baseOk: bool) returns (ok: bool)
      modifies this
      ensures ok == baseOk && Model() == Step(old(Model()), Call.SetSqlQuery(text, baseOk))
    {
      if !baseOk {
        return false;
      }
      query := text;
      prepared := false;
      ok := true;
    }

    method Prepare(baseOk: bool) returns (ok: bool)
      modifies this
      ensures ok == baseOk && Model() == Step(old(Model()), Call.Prepare(baseOk))
    {
      if !baseOk {
        prepared := false;
        return false;
      }
      prepared := true;
      ok := true;
    }

    /** None for the invalid-state error, else one unnamed, nullable field of null type per parameter token. */
    method GetParameterSchema() returns (fields: Option<seq<ArrowField>>)
      ensures fields == SchemaOf(Model())
      ensures fields.Some? <==> prepared
      ensures fields.Some? ==>
        && |fields.value| == multiset(Lex(query))[Param]
        && forall f <- fields.value :: f.name == "" && f.isNullType && f.nullable
    {
      if !prepared {
        return None;
      }
      var n := CountPlaceholders(query);
      ParamsCounted(Lex(query));
      var made := seq(n, _ => ArrowField("", false, false));
      for i := 0 to n
        invariant |made| == n && forall j :: 0 <= j < i ==> made[j] == PARAMETER
      {
        made := made[i := ArrowField("", true, true)];
      }
      assert made == seq(n, _ => PARAMETER);
      fields := Some(made);
    }
  }

  function SchemaOf(s: State): Option<seq<ArrowField>> {
    if s.prepared then Some(seq(ParamCount(Lex(s.query)), _ => PARAMETER)) else None
  }

  // ---------- Every run ----------

  /** Calls that can change whether a schema is available: an accepted query and any prepare. */
  predicate Decides(c: Call) {
    c.Prepare? || (c.SetSqlQuery? && c.ok)
  }

  ghost predicate LatestIsPrepare(calls: seq<Call>) {
    exists i :: 0 <= i < |calls| && calls[i] == Prepare(true) && forall j :: i < j < |calls| ==> !Decides(calls[j])
  }

  /** q is the last accepted query, or the empty text when none was accepted. */
  ghost predicate LastAccepted(calls: seq<Call>, q: string) {
    (q == "" && forall j :: 0 <= j < |calls| ==> !Accepted(calls[j])) ||
    exists i :: 0 <= i < |calls| && calls[i] == SetSqlQuery(q, true) && forall j :: i < j < |calls| ==> !Accepted(calls[j])
  }

  predicate Accepted(c: Call) {
    c.SetSqlQuery? && c.ok
  }

  /** Over every run and every pattern of base failures, a schema is returned exactly when the latest accepted query
      or prepare was a successful prepare, and it has one unnamed, nullable field of null type per parameter token of
      the last accepted query. */
  lemma SchemaOverRuns(calls: seq<Call>)
    ensures SchemaOf(Run(calls)).Some? <==> LatestIsPrepare(calls)
    ensures exists q :: LastAccepted(calls, q)
    ensures forall q | LastAccepted(calls, q) && SchemaOf(Run(calls)).Some? ::
      && |SchemaOf(Run(calls)).value| == multiset(Lex(q))[Param]
      && forall f <- SchemaOf(Run(calls)).value :: f.name == "" && f.isNullType && f.nullable
  {
    StateOverRuns(calls);
    var s := Run(calls);
    hide Run, Lex;
    ParamsCounted(Lex(s.query));
    forall q | LastAccepted(calls, q)
      ensures q == s.query
    {
      OneLastAccepted(calls, q, s.query);
    }
  }

  lemma OneLastAccepted(calls: seq<Call>, q: string, r: string)
    requires LastAccepted(calls, q) && LastAccepted(calls, r)
    ensures q == r
  {
    if i :| 0 <= i < |calls| && calls[i] == SetSqlQuery(q, true) && forall j :: i < j < |calls| ==> !Accepted(calls[j]) {
      var k :| 0 <= k < |calls| && calls[k] == SetSqlQuery(r, true) && forall j :: k < j < |calls| ==> !Accepted(calls[j]);
      assert Accepted(calls[i]) && Accepted(calls[k]);
    }
  }

  lemma {:induction false} StateOverRuns(calls: seq<Call>)
    ensures Run(calls).prepared <==> LatestIsPrepare(calls)
    ensures LastAccepted(calls, Run(calls).query)
  {
    if calls != [] {
      var front, c := calls[..|calls| - 1], calls[|calls| - 1];
      hide LatestIsPrepare, LastAccepted;
      StateOverRuns(front);
      assert calls == front + [c];
      LatestSnoc(front, c);
      KeepsAccepted(front, c);
    }
  }

  lemma LatestSnoc(front: seq<Call>, c: Call)
    ensures LatestIsPrepare(front + [c]) <==> c == Prepare(true) || (!Decides(c) && LatestIsPrepare(front))
  {
    var calls := front + [c];
    assert calls[|front|] == c && forall i :: 0 <= i < |front| ==> calls[i] == front[i];
    if !Decides(c) && LatestIsPrepare(front) {
      var i :| 0 <= i < |front| && front[i] == Prepare(true) && forall j :: i < j < |front| ==> !Decides(front[j]);
      assert calls[i] == Prepare(true);
    }
    if LatestIsPrepare(calls) && c != Prepare(true) {
      var i :| 0 <= i < |calls| && calls[i] == Prepare(true) && forall j :: i < j < |calls| ==> !Decides(calls[j]);
      assert i < |front| && front[i] == Prepare(true);
      assert forall j :: i < j < |front| ==> !Decides(front[j]) by {
        assert forall j :: i < j < |front| ==> calls[j] == front[j];
      }
    }
  }

  lemma KeepsAccepted(front: seq<Call>, c: Call)
    requires LastAccepted(front, Run(front).query)
    ensures LastAccepted(front + [c], Step(Run(front), c).query)
  {
    var calls, q := front + [c], Run(front).query;
    if Accepted(c) {
      assert calls[|front|] == SetSqlQuery(c.query, true);
    } else if i :| 0 <= i < |front| && front[i] == SetSqlQuery(q, true) && forall j :: i < j < |front| ==> !Accepted(front[j]) {
      assert calls[i] == SetSqlQuery(q, true);
    }
  }
}

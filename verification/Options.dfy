/** Options set before and after Init. A database or connection buffers the options it is given until its wrapped object
    exists; Init then hands the buffer over in whatever order the Go map is iterated. The wrapped object is taken to
    keep one setting per key. */
module Options {
  import opened Prelude

  /** The four option types. A double is known by its bits, bytes by their values as characters. */
  datatype Value = Text(text: string) | Integer(number: int) | Binary(bytes: string) | Double(bits: nat)

  datatype Kind = Database | Connection
  type Settings = map<string, Value>

  /** opts buffers (cDatabase.opts, cConn.initArgs); wrapped holds the settings of the object Init creates. */
  datatype State = State(kind: Kind, opts: Settings, wrapped: Option<Settings>)

  datatype Status = OK | InvalidState | BaseError

  /** accepts: whether the wrapped object takes the option. An Init names the order the buffer is iterated in, and the
      keys the wrapped object refuses. */
  datatype Event =
    | Set(key: string, value: Value, accepts: bool)
    | Init(created: bool, order: seq<string>, refuses: set<string>)

  function Start(kind: Kind): State {
    State(kind, map[], None)
  }

  /** An iteration order of a map visits each key once. */
  ghost predicate Visits(order: seq<string>, m: Settings) {
    && (forall k :: k in order <==> k in m)
    && (forall i, j | 0 <= i < j < |order| :: order[i] != order[j])
  }

  /** A database is created from its text options; a connection is opened with none. */
  predicate GivenAtCreation(kind: Kind, v: Value) {
    kind == Database && v.Text?
  }

  function AtCreation(kind: Kind, opts: Settings): Settings {
    map k | k in opts && GivenAtCreation(kind, opts[k]) :: opts[k]
  }

  /** The loop of Init: stop at the first option that is refused. */
  function HandOver(kind: Kind, opts: Settings, order: seq<string>, refuses: set<string>, to: Settings): (Settings, bool)
    requires forall k <- order :: k in opts
    decreases |order|
  {
    if order == [] then (to, true)
    else if GivenAtCreation(kind, opts[order[0]]) then HandOver(kind, opts, order[1..], refuses, to)
    else if order[0] in refuses then (to, false)
    else HandOver(kind, opts, order[1..], refuses, to[order[0] := opts[order[0]]])
  }

  ghost predicate Legal(s: State, e: Event) {
    e.Init? ==> Visits(e.order, s.opts)
  }

  ghost function Step(s: State, e: Event): (State, Status)
    requires Legal(s, e)
  {
    match e
    case Set(key, value, accepts) =>
      if s.wrapped.None? then
        if s.kind == Connection && !value.Text? then (s, InvalidState)
        else (s.(opts := s.opts[key := value]), OK)
      else if accepts then (s.(wrapped := Some(s.wrapped.value[key := value])), OK)
      else (s, BaseError)
    case Init(created, order, refuses) =>
      if s.wrapped.Some? then (s, InvalidState)
      else if !created then (s, BaseError)
      else
        var (settings, done) := HandOver(s.kind, s.opts, order, refuses, AtCreation(s.kind, s.opts));
        (State(s.kind, if s.kind == Connection && done then map[] else s.opts, Some(settings)), if done then OK else BaseError)
  }

  // ---------- Handing the buffer over ----------

  predicate Refused(kind: Kind, opts: Settings, refuses: set<string>, k: string)
    requires k in opts
  {
    k in refuses && !GivenAtCreation(kind, opts[k])
  }

  /** The keys visited before the first refused one, other than those given at creation. */
  ghost function Reached(kind: Kind, opts: Settings, order: seq<string>, refuses: set<string>): set<string>
    requires forall k <- order :: k in opts
  {
    set i | 0 <= i < |order| && !GivenAtCreation(kind, opts[order[i]])
            && (forall j | 0 <= j <= i :: !Refused(kind, opts, refuses, order[j])) :: order[i]
  }

  lemma ReachedCons(kind: Kind, opts: Settings, order: seq<string>, refuses: set<string>)
    requires order != [] && forall k <- order :: k in opts
    ensures Reached(kind, opts, order, refuses)
         == if Refused(kind, opts, refuses, order[0]) then {}
            else (if GivenAtCreation(kind, opts[order[0]]) then {} else {order[0]}) + Reached(kind, opts, order[1..], refuses)
  {
    var rest := order[1..];
    forall k
      ensures k in Reached(kind, opts, order, refuses) <==>
              !Refused(kind, opts, refuses, order[0])
              && ((k == order[0] && !GivenAtCreation(kind, opts[k])) || k in Reached(kind, opts, rest, refuses))
    {
      if k in Reached(kind, opts, order, refuses) {
        var i :| 0 <= i < |order| && order[i] == k && !GivenAtCreation(kind, opts[order[i]])
                 && forall j | 0 <= j <= i :: !Refused(kind, opts, refuses, order[j]);
        assert !Refused(kind, opts, refuses, order[0]);
        if i > 0 {
          assert rest[i - 1] == k;
          assert forall j | 0 <= j <= i - 1 :: rest[j] == order[j + 1];
        }
      }
      if !Refused(kind, opts, refuses, order[0]) && k in Reached(kind, opts, rest, refuses) {
        var i :| 0 <= i < |rest| && rest[i] == k && !GivenAtCreation(kind, opts[rest[i]])
                 && forall j | 0 <= j <= i :: !Refused(kind, opts, refuses, rest[j]);
        assert order[i + 1] == k;
        assert forall j | 0 < j <= i + 1 :: order[j] == rest[j - 1];
      }
    }
  }

  /** The keys handed over are those visited before the first refused one. */
  lemma {:induction false} HandOverKeys(kind: Kind, opts: Settings, order: seq<string>, refuses: set<string>, to: Settings)
    requires forall k <- order :: k in opts
    ensures HandOver(kind, opts, order, refuses, to).0.Keys == to.Keys + Reached(kind, opts, order, refuses)
    decreases |order|
  {
    if order != [] {
      ReachedCons(kind, opts, order, refuses);
      hide Reached;
      var k, rest := order[0], order[1..];
      assert to[k := opts[k]].Keys == to.Keys + {k};
      HandOverKeys(kind, opts, rest, refuses, if GivenAtCreation(kind, opts[k]) then to else to[k := opts[k]]);
    }
  }

  lemma {:induction false} HandOverValues(kind: Kind, opts: Settings, order: seq<string>, refuses: set<string>, to: Settings)
    requires forall k <- order :: k in opts
    requires forall k <- to :: k in opts && to[k] == opts[k]
    ensures var settings := HandOver(kind, opts, order, refuses, to).0;
            forall k <- settings :: k in opts && settings[k] == opts[k]
    decreases |order|
  {
    if order != [] {
      var k := order[0];
      HandOverValues(kind, opts, order[1..], refuses, if GivenAtCreation(kind, opts[k]) then to else to[k := opts[k]]);
    }
  }

  lemma {:induction false} HandOverDone(kind: Kind, opts: Settings, order: seq<string>, refuses: set<string>, to: Settings)
    requires forall k <- order :: k in opts
    ensures HandOver(kind, opts, order, refuses, to).1 <==> forall k <- order :: !Refused(kind, opts, refuses, k)
    decreases |order|
  {
    if order != [] {
      var k, rest := order[0], order[1..];
      assert order == [k] + rest;
      HandOverDone(kind, opts, rest, refuses, if GivenAtCreation(kind, opts[k]) then to else to[k := opts[k]]);
    }
  }

  /** Every setting handed over is the buffered one, and the keys handed over are those visited before the first refused
      one; if nothing was refused, all of them are there, whatever the order. */
  lemma HandOverMeaning(kind: Kind, opts: Settings, order: seq<string>, refuses: set<string>, to: Settings)
    requires forall k <- order :: k in opts
    requires forall k <- to :: k in opts && to[k] == opts[k]
    ensures var (settings, done) := HandOver(kind, opts, order, refuses, to);
            && settings.Keys == to.Keys + Reached(kind, opts, order, refuses)
            && (forall k <- settings :: k in opts && settings[k] == opts[k])
            && (done <==> forall k <- order :: !Refused(kind, opts, refuses, k))
            && (done ==> forall k <- order :: GivenAtCreation(kind, opts[k]) || k in settings)
  {
    HandOverKeys(kind, opts, order, refuses, to);
    HandOverValues(kind, opts, order, refuses, to);
    HandOverDone(kind, opts, order, refuses, to);
    hide HandOver;
    forall k | k in order && (forall q <- order :: !Refused(kind, opts, refuses, q)) && !GivenAtCreation(kind, opts[k])
      ensures k in Reached(kind, opts, order, refuses)
    {
      var i :| 0 <= i < |order| && order[i] == k;
    }
  }

  lemma RefusedNotReached(kind: Kind, opts: Settings, order: seq<string>, refuses: set<string>, k: string)
    requires Visits(order, opts) && k in opts && Refused(kind, opts, refuses, k)
    ensures k !in Reached(kind, opts, order, refuses)
  {
  }

  lemma WholeBuffer(kind: Kind, opts: Settings, order: seq<string>, refuses: set<string>)
    requires Visits(order, opts)
    ensures var (settings, done) := HandOver(kind, opts, order, refuses, AtCreation(kind, opts));
            && (done <==> forall k <- opts :: !Refused(kind, opts, refuses, k))
            && (done <==> settings == opts)
            && settings.Keys == AtCreation(kind, opts).Keys + Reached(kind, opts, order, refuses)
            && (forall k <- settings :: k in opts && settings[k] == opts[k])
  {
    HandOverMeaning(kind, opts, order, refuses, AtCreation(kind, opts));
    hide HandOver, Reached;
    var (settings, done) := HandOver(kind, opts, order, refuses, AtCreation(kind, opts));
    if done {
      forall k | k in opts
        ensures k in settings
      {
        assert k in order;
        assert GivenAtCreation(kind, opts[k]) ==> k in AtCreation(kind, opts).Keys;
      }
      assert settings == opts;
    } else {
      var k :| k in order && Refused(kind, opts, refuses, k);
      RefusedNotReached(kind, opts, order, refuses, k);
      assert k !in settings.Keys;
    }
  }

  /** A created object ends up with the options given at creation and those visited before the first refusal. That is
      the whole buffer exactly when it refuses none it is handed, and only then does Init succeed. */
  lemma InitHandsOver(s: State, e: Event)
    requires e.Init? && Legal(s, e) && s.wrapped.None? && e.created
    ensures var (t, code) := Step(s, e);
            && t.wrapped.Some?
            && (code == OK <==> forall k <- s.opts :: k in e.refuses ==> GivenAtCreation(s.kind, s.opts[k]))
            && (code == OK <==> t.wrapped == Some(s.opts))
            && t.wrapped.value.Keys
               == AtCreation(s.kind, s.opts).Keys + Reached(s.kind, s.opts, e.order, e.refuses)
            && (forall k <- t.wrapped.value :: k in s.opts && t.wrapped.value[k] == s.opts[k])
            && (code != OK ==> t.opts == s.opts)
  {
    WholeBuffer(s.kind, s.opts, e.order, e.refuses);
    hide HandOver, Reached, AtCreation, Visits;
  }

  // ---------- Last write wins ----------

  function LastWins(writes: seq<(string, Value)>): Settings {
    if writes == [] then map[]
    else
      var last := writes[|writes| - 1];
      LastWins(writes[..|writes| - 1])[last.0 := last.1]
  }

  /** A key has a setting if it was ever written, and the setting is the value of its latest write. */
  lemma {:induction false} LastWinsMeaning(writes: seq<(string, Value)>, k: string)
    ensures k in LastWins(writes) <==> exists i | 0 <= i < |writes| :: writes[i].0 == k
    ensures forall i | 0 <= i < |writes| && writes[i].0 == k && (forall j | i < j < |writes| :: writes[j].0 != k) ::
              k in LastWins(writes) && LastWins(writes)[k] == writes[i].1
  {
    if writes != [] {
      var n, init := |writes| - 1, writes[..|writes| - 1];
      LastWinsMeaning(init, k);
      assert forall i | 0 <= i < n :: init[i] == writes[i];
      assert (exists i | 0 <= i < n :: writes[i].0 == k) <==> (exists i | 0 <= i < n :: init[i].0 == k);
    }
  }

  ghost predicate LegalRun(s: State, events: seq<Event>)
    decreases |events|
  {
    events == [] || (Legal(s, events[0]) && LegalRun(Step(s, events[0]).0, events[1..]))
  }

  ghost function Run(s: State, events: seq<Event>): State
    requires LegalRun(s, events)
    decreases |events|
  {
    if events == [] then s else Run(Step(s, events[0]).0, events[1..])
  }

  /** The writes reported to the caller as successful. */
  ghost function Writes(s: State, events: seq<Event>): seq<(string, Value)>
    requires LegalRun(s, events)
    decreases |events|
  {
    if events == [] then []
    else
      var (t, code) := Step(s, events[0]);
      (if events[0].Set? && code == OK then [(events[0].key, events[0].value)] else []) + Writes(t, events[1..])
  }

  /** Some Init of the run reported success. */
  ghost predicate Initialized(s: State, events: seq<Event>)
    requires LegalRun(s, events)
    decreases |events|
  {
    events != [] &&
    var (t, code) := Step(s, events[0]);
    (events[0].Init? && code == OK) || Initialized(t, events[1..])
  }

  /** What the buffer and the wrapped object together remember: writes to the wrapped object are the later ones. */
  ghost predicate Remembers(s: State, writes: seq<(string, Value)>) {
    if s.wrapped.None? then s.opts == LastWins(writes)
    else s.opts + s.wrapped.value == LastWins(writes)
  }

  predicate Complete(s: State) {
    s.wrapped.Some? && s.opts.Keys <= s.wrapped.value.Keys
  }

  lemma StepRemembers(s: State, e: Event, writes: seq<(string, Value)>)
    requires Legal(s, e) && Remembers(s, writes)
    ensures var (t, code) := Step(s, e);
            Remembers(t, writes + if e.Set? && code == OK then [(e.key, e.value)] else [])
    ensures var (t, code) := Step(s, e);
            (e.Init? && code == OK) || Complete(s) ==> Complete(t)
  {
    var (t, code) := Step(s, e);
    if e.Set? {
      var more := writes + [(e.key, e.value)];
      assert more[..|more| - 1] == writes;
      if s.wrapped.Some? && code == OK {
        assert t.opts + t.wrapped.value == (s.opts + s.wrapped.value)[e.key := e.value];
      }
    } else if s.wrapped.None? && e.created {
      InitHandsOver(s, e);
      assert t.opts + t.wrapped.value == s.opts;
    }
    assert writes + [] == writes;
  }

  lemma {:induction false} RunRemembers(s: State, events: seq<Event>, writes: seq<(string, Value)>)
    requires LegalRun(s, events) && Remembers(s, writes)
    ensures Remembers(Run(s, events), writes + Writes(s, events))
    ensures Complete(s) || Initialized(s, events) ==> Complete(Run(s, events))
    decreases |events|
  {
    if events == [] {
      assert writes + [] == writes;
    } else {
      var (t, code) := Step(s, events[0]);
      var now := if events[0].Set? && code == OK then [(events[0].key, events[0].value)] else [];
      hide Remembers, Complete;
      StepRemembers(s, events[0], writes);
      assert Writes(s, events) == now + Writes(t, events[1..]);
      assert Run(s, events) == Run(t, events[1..]);
      assert Initialized(s, events) ==> (events[0].Init? && code == OK) || Initialized(t, events[1..]);
      hide Step, Writes, Run, Initialized;
      RunRemembers(t, events[1..], writes + now);
      assert writes + now + Writes(t, events[1..]) == writes + (now + Writes(t, events[1..]));
    }
  }

  /** Over every interleaving of sets with Init, every iteration order and every refusal: before Init the buffer, and
      after an Init that reported success the wrapped object, holds for each key exactly its latest successful write. */
  lemma LastWriteWins(kind: Kind, events: seq<Event>)
    requires LegalRun(Start(kind), events)
    ensures var t, writes := Run(Start(kind), events), Writes(Start(kind), events);
            && (t.wrapped.None? ==> t.opts == LastWins(writes))
            && (t.wrapped.Some? ==> (t.wrapped == Some(LastWins(writes)) <==> t.opts.Keys <= t.wrapped.value.Keys))
            && (Initialized(Start(kind), events) ==> t.wrapped == Some(LastWins(writes)))
  {
    RunRemembers(Start(kind), events, []);
    var t, writes := Run(Start(kind), events), Writes(Start(kind), events);
    assert [] + writes == writes;
    if Complete(t) {
      assert t.opts + t.wrapped.value == t.wrapped.value;
    }
  }

  // ---------- What a failed Init costs ----------

  lemma RunCons(s: State, e: Event, rest: seq<Event>)
    ensures LegalRun(s, [e] + rest) <==> Legal(s, e) && LegalRun(Step(s, e).0, rest)
    ensures LegalRun(s, [e] + rest) ==> Run(s, [e] + rest) == Run(Step(s, e).0, rest)
  {
    assert ([e] + rest)[0] == e && ([e] + rest)[1..] == rest;
    hide Step, Legal;
  }

  lemma {:induction false} RunSplit(s: State, a: seq<Event>, b: seq<Event>)
    requires LegalRun(s, a) && LegalRun(Run(s, a), b)
    ensures LegalRun(s, a + b) && Run(s, a + b) == Run(Run(s, a), b)
    decreases |a|
  {
    if a == [] {
      assert a + b == b;
    } else {
      hide LegalRun, Run, Step, Legal;
      var e, rest := a[0], a[1..];
      assert a == [e] + rest && a + b == [e] + (rest + b);
      RunCons(s, e, rest);
      RunSplit(Step(s, e).0, rest, b);
      RunCons(s, e, rest + b);
    }
  }

  predicate CreatesNothing(events: seq<Event>) {
    forall e <- events :: e.Init? ==> !e.created
  }

  /** The keys set, with success, on a wrapped object. */
  function SetKeys(events: seq<Event>): set<string> {
    set e | e in events && e.Set? && e.accepts :: e.key
  }

  /** Until an Init creates the wrapped object there is none, and the kind never changes. */
  lemma {:induction false} NothingCreated(s: State, events: seq<Event>)
    requires LegalRun(s, events) && CreatesNothing(events) && s.wrapped.None?
    ensures Run(s, events).wrapped.None? && Run(s, events).kind == s.kind
    decreases |events|
  {
    if events != [] {
      assert events[0] in events && forall e <- events[1..] :: e in events;
      NothingCreated(Step(s, events[0]).0, events[1..]);
    }
  }

  /** Once there is one, its keys are those it had and those set since. */
  lemma {:induction false} KeysSince(s: State, events: seq<Event>)
    requires LegalRun(s, events) && s.wrapped.Some?
    ensures var t := Run(s, events);
            t.opts == s.opts && t.wrapped.Some? && t.wrapped.value.Keys == s.wrapped.value.Keys + SetKeys(events)
    decreases |events|
  {
    if events != [] {
      var t := Step(s, events[0]).0;
      assert events == [events[0]] + events[1..];
      assert SetKeys(events) == (if events[0].Set? && events[0].accepts then {events[0].key} else {}) + SetKeys(events[1..]);
      hide SetKeys;
      KeysSince(t, events[1..]);
    }
  }

  lemma Agreement(t: State, buffer: Settings, latest: Settings)
    requires t.wrapped.Some? && t.opts + t.wrapped.value == latest
    requires t.opts == buffer || (t.opts == map[] && buffer.Keys <= t.wrapped.value.Keys)
    ensures t.wrapped == Some(latest) <==> buffer.Keys <= t.wrapped.value.Keys
    ensures forall k <- t.wrapped.value :: k in latest && t.wrapped.value[k] == latest[k]
  {
    if buffer.Keys <= t.wrapped.value.Keys {
      assert latest == t.wrapped.value;
    }
  }

  lemma AfterInit(s: State, init: Event, after: seq<Event>, latest: Settings)
    requires s.wrapped.None? && init.Init? && init.created && Legal(s, init) && LegalRun(Step(s, init).0, after)
    requires var t := Run(Step(s, init).0, after); t.wrapped.Some? && t.opts + t.wrapped.value == latest
    ensures var t, reached := Run(Step(s, init).0, after), Reached(s.kind, s.opts, init.order, init.refuses);
            && t.wrapped.value.Keys == AtCreation(s.kind, s.opts).Keys + reached + SetKeys(after)
            && (t.wrapped == Some(latest) <==> s.opts.Keys <= t.wrapped.value.Keys)
            && (forall k <- t.wrapped.value :: k in latest && t.wrapped.value[k] == latest[k])
  {
    var u := Step(s, init).0;
    InitHandsOver(s, init);
    assert u.opts == s.opts || (u.opts == map[] && u.wrapped == Some(s.opts));
    KeysSince(u, after);
    hide Run, LegalRun, Step, Reached, SetKeys, AtCreation;
    Agreement(Run(u, after), s.opts, latest);
  }

  /** Last write wins over a run whose Init created the wrapped object, in terms of the calls alone: exactly when every
      key buffered before it was given at creation, visited before the first refusal, or set again afterwards. Every
      other buffered key has no setting; every setting there is, is the latest write. */
  lemma LastWriteWinsAfterInit(kind: Kind, before: seq<Event>, init: Event, after: seq<Event>)
    requires LegalRun(Start(kind), before) && CreatesNothing(before)
    requires init.Init? && init.created && Legal(Run(Start(kind), before), init)
    requires LegalRun(Step(Run(Start(kind), before), init).0, after)
    ensures var events, buffer := before + [init] + after, LastWins(Writes(Start(kind), before));
            && LegalRun(Start(kind), events) && Visits(init.order, buffer)
            && var t, latest := Run(Start(kind), events), LastWins(Writes(Start(kind), events));
               var reached := Reached(kind, buffer, init.order, init.refuses);
               && t.wrapped.Some?
               && (t.wrapped == Some(latest) <==>
                   forall k <- buffer :: GivenAtCreation(kind, buffer[k]) || k in reached || k in SetKeys(after))
               && (forall k :: k in t.wrapped.value <==>
                   (k in buffer && (GivenAtCreation(kind, buffer[k]) || k in reached)) || k in SetKeys(after))
               && (forall k <- t.wrapped.value :: k in latest && t.wrapped.value[k] == latest[k])
  {
    var events, s := before + [init] + after, Run(Start(kind), before);
    NothingCreated(Start(kind), before);
    LastWriteWins(kind, before);
    RunThrough(kind, before, init, after);
    RunRemembers(Start(kind), events, []);
    assert [] + Writes(Start(kind), events) == Writes(Start(kind), events);
    hide Run, Writes, LegalRun, LastWins, Step, Reached, SetKeys;
    KeysSinceCreated(s, init, after);
    AfterInit(s, init, after, LastWins(Writes(Start(kind), events)));
  }

  lemma KeysSinceCreated(s: State, init: Event, after: seq<Event>)
    requires s.wrapped.None? && init.Init? && init.created && Legal(s, init) && LegalRun(Step(s, init).0, after)
    ensures Run(Step(s, init).0, after).wrapped.Some?
  {
    InitHandsOver(s, init);
    KeysSince(Step(s, init).0, after);
  }

  lemma RunThrough(kind: Kind, before: seq<Event>, init: Event, after: seq<Event>)
    requires LegalRun(Start(kind), before)
    requires Legal(Run(Start(kind), before), init)
    requires LegalRun(Step(Run(Start(kind), before), init).0, after)
    ensures var events := before + [init] + after;
            LegalRun(Start(kind), events)
            && Run(Start(kind), events) == Run(Step(Run(Start(kind), before), init).0, after)
  {
    hide LegalRun, Run, Step, Legal;
    RunCons(Run(Start(kind), before), init, after);
    RunSplit(Start(kind), before, [init] + after);
    assert before + [init] + after == before + ([init] + after);
  }

  /** Init that fails on an option cannot be retried, and the options it did not get to stay unset: a concrete run. */
  lemma FailedInitLosesOptions(key: string, n: int)
    ensures var events := [Set(key, Integer(n), true), Init(true, [key], {key}), Init(true, [key], {})];
            && LegalRun(Start(Database), events)
            && Run(Start(Database), events).wrapped == Some(map[])
            && Writes(Start(Database), events) == [(key, Integer(n))]
  {
    var e0, e1, e2 := Set(key, Integer(n), true), Init(true, [key], {key}), Init(true, [key], {});
    var s1 := Step(Start(Database), e0).0;
    assert s1.opts == map[key := Integer(n)];
    var s2 := Step(s1, e1).0;
    assert AtCreation(Database, s1.opts) == map[];
    assert s2 == State(Database, s1.opts, Some(map[]));
    assert [e0, e1, e2][1..] == [e1, e2] && [e1, e2][1..] == [e2] && [e2][1..] == [];
    assert LegalRun(s2, [e2]) && Run(s2, [e2]) == s2;
    assert Writes(s2, [e2]) == [];
    assert LegalRun(s1, [e1, e2]) && Writes(s1, [e1, e2]) == [];
  }

  // ---------- What each call answers ----------

  /** Some Init of the run created the wrapped object, whatever became of its options. */
  ghost predicate Created(events: seq<Event>) {
    exists e <- events :: e.Init? && e.created
  }

  lemma {:induction false} CreatedOverRuns(s: State, events: seq<Event>)
    requires LegalRun(s, events)
    ensures Run(s, events).kind == s.kind
    ensures Run(s, events).wrapped.Some? <==> s.wrapped.Some? || Created(events)
    decreases |events|
  {
    if events != [] {
      var e, rest := events[0], events[1..];
      CreatedOverRuns(Step(s, e).0, rest);
      assert events == [e] + rest;
      assert Created(events) <==> (e.Init? && e.created) || Created(rest);
      hide Created;
    }
  }

  /** Over every run: until an Init has created the wrapped object a database buffers any option and a connection only text;
      afterwards the wrapped object decides. Whatever is refused changes nothing. */
  lemma SetAnswered(kind: Kind, events: seq<Event>, key: string, value: Value, accepts: bool)
    requires LegalRun(Start(kind), events)
    ensures var s := Run(Start(kind), events);
            var (t, code) := Step(s, Set(key, value, accepts));
            && (s.wrapped.Some? <==> Created(events))
            && (code == OK <==> if Created(events) then accepts else kind == Database || value.Text?)
            && (code == InvalidState <==> !Created(events) && kind == Connection && !value.Text?)
            && (code != OK ==> t == s)
            && (code == OK ==> if Created(events) then t.opts == s.opts && t.wrapped == Some(s.wrapped.value[key := value])
                               else t.opts == s.opts[key := value] && t.wrapped.None?)
  {
    CreatedOverRuns(Start(kind), events);
    hide Created, Run, LegalRun;
  }

  /** What an Init gives the wrapped object: of a database's options the text at creation, whatever is refused; every other
      option visited no later than the first that is refused, that one excepted. A second Init is answered as invalid. */
  lemma InitAnswered(kind: Kind, events: seq<Event>, order: seq<string>, refuses: set<string>, created: bool)
    requires LegalRun(Start(kind), events) && Visits(order, Run(Start(kind), events).opts)
    ensures var s := Run(Start(kind), events);
            var (t, code) := Step(s, Init(created, order, refuses));
            && (code == InvalidState <==> Created(events))
            && (Created(events) || !created ==> t == s && code != OK)
            && (!Created(events) && created ==>
                  && t.wrapped.Some?
                  && (forall k :: k in t.wrapped.value <==>
                        && k in s.opts
                        && ((kind == Database && s.opts[k].Text?) || VisitedFirst(kind, s.opts, order, refuses, k)))
                  && (code == OK <==> forall k <- s.opts :: k in refuses ==> kind == Database && s.opts[k].Text?))
  {
    CreatedOverRuns(Start(kind), events);
    var s := Run(Start(kind), events);
    hide Created, Run, LegalRun;
    if s.wrapped.None? && created {
      InitHandsOver(s, Init(created, order, refuses));
      hide Step;
      forall k
        ensures k in AtCreation(kind, s.opts).Keys + Reached(kind, s.opts, order, refuses) <==>
          k in s.opts && ((kind == Database && s.opts[k].Text?) || VisitedFirst(kind, s.opts, order, refuses, k))
      {
        ReachedSpelled(kind, s.opts, order, refuses, k);
      }
    }
  }

  /** k is visited before any refused option that was not given at creation, and is not one itself. */
  ghost predicate VisitedFirst(kind: Kind, opts: Settings, order: seq<string>, refuses: set<string>, k: string)
    requires forall q <- order :: q in opts
  {
    exists i :: 0 <= i < |order| && order[i] == k
                && forall j | 0 <= j <= i :: order[j] in refuses ==> kind == Database && opts[order[j]].Text?
  }

  lemma ReachedSpelled(kind: Kind, opts: Settings, order: seq<string>, refuses: set<string>, k: string)
    requires forall q <- order :: q in opts
    ensures k in Reached(kind, opts, order, refuses) <==>
            k in opts && !(kind == Database && opts[k].Text?) && VisitedFirst(kind, opts, order, refuses, k)
  {
    if k in opts && !(kind == Database && opts[k].Text?) && VisitedFirst(kind, opts, order, refuses, k) {
      var i :| 0 <= i < |order| && order[i] == k
               && forall j | 0 <= j <= i :: order[j] in refuses ==> kind == Database && opts[order[j]].Text?;
      assert forall j | 0 <= j <= i :: !Refused(kind, opts, refuses, order[j]);
    }
  }

  // ---------- The objects behind the handles ----------

  /** The runtime picks the order a map is iterated in. */
  method IterationOrder(m: Settings) returns (order: seq<string>)
    ensures Visits(order, m)
  {
    order := [];
    var left := m.Keys;
    while left != {}
      invariant left <= m.Keys
      invariant forall k :: k in order <==> k in m && k !in left
      invariant forall i, j | 0 <= i < j < |order| :: order[i] != order[j]
    {
      var k :| k in left;
      order := order + [k];
      left := left - {k};
    }
  }

  /** The first loop of DatabaseInit. */
  method TextOptions(opts: Settings) returns (stringOpts: Settings)
    ensures stringOpts == AtCreation(Database, opts)
  {
    stringOpts := map[];
    var left := opts.Keys;
    while left != {}
      invariant left <= opts.Keys
      invariant stringOpts == map k | k in opts && k !in left && opts[k].Text? :: opts[k]
    {
      var k :| k in left;
      if opts[k].Text? {
        stringOpts := stringOpts[k := opts[k]];
      }
      left := left - {k};
    }
  }

  /** cDatabase. */
  class DatabaseObject {
    var opts: Settings
    var db: Option<Settings>

    ghost function Model(): State
      reads this
    {
      State(Database, opts, db)
    }

    constructor ()
      ensures Model() == Start(Database)
    {
      opts, db := map[], None;
    }

    /** DatabaseSetOption and its Bytes, Double and Int forms. */
    method SetOption(key: string, value: Value, accepts: bool) returns (code: Status)
      modifies this
      ensures (Model(), code) == Step(old(Model()), Set(key, value, accepts))
    {
      if db.Some? {
        if accepts {
          db := Some(db.value[key := value]);
          return OK;
        }
        return BaseError;
      }
      opts := opts[key := value];
      code := OK;
    }

    /** DatabaseInit; order is the order its second loop happened to visit the buffer in. */
    method Init(created: bool, refuses: set<string>) returns (code: Status, order: seq<string>)
      modifies this
      ensures Visits(order, old(opts))
      ensures (Model(), code) == Step(old(Model()), Event.Init(created, order, refuses))
    {
      order := IterationOrder(opts);
      if db.Some? {
        return InvalidState, order;
      }
      var stringOpts := TextOptions(opts);
      if !created {
        return BaseError, order;
      }
      db := Some(stringOpts);
      var i := 0;
      while i < |order|
        invariant 0 <= i <= |order| && opts == old(opts) && db.Some?
        invariant HandOver(Database, opts, order[i..], refuses, db.value)
                  == HandOver(Database, opts, order, refuses, AtCreation(Database, opts))
      {
        var k := order[i];
        assert order[i..][1..] == order[i + 1..];
        i := i + 1;
        if !opts[k].Text? {
          if k in refuses {
            return BaseError, order;
          }
          db := Some(db.value[k := opts[k]]);
        }
      }
      code := OK;
    }
  }

  /** cConn. */
  class ConnectionObject {
    var initArgs: Settings
    var cnxn: Option<Settings>

    ghost function Model(): State
      reads this
    {
      State(Connection, initArgs, cnxn)
    }

    constructor ()
      ensures Model() == Start(Connection)
    {
      initArgs, cnxn := map[], None;
    }

    /** ConnectionSetOption buffers text; its Bytes, Double and Int forms need the connection to exist. */
    method SetOption(key: string, value: Value, accepts: bool) returns (code: Status)
      modifies this
      ensures (Model(), code) == Step(old(Model()), Set(key, value, accepts))
    {
      if cnxn.None? {
        if !value.Text? {
          return InvalidState;
        }
        initArgs := initArgs[key := value];
        return OK;
      }
      if !accepts {
        return BaseError;
      }
      cnxn := Some(cnxn.value[key := value]);
      code := OK;
    }

    /** ConnectionInit; the buffer is dropped once all of it has been applied. */
    method Init(created: bool, refuses: set<string>) returns (code: Status, order: seq<string>)
      modifies this
      ensures Visits(order, old(initArgs))
      ensures (Model(), code) == Step(old(Model()), Event.Init(created, order, refuses))
    {
      order := IterationOrder(initArgs);
      if cnxn.Some? {
        return InvalidState, order;
      }
      if !created {
        return BaseError, order;
      }
      cnxn := Some(map[]);
      assert forall i | 0 <= i < |order| :: order[i] in order;
      assert AtCreation(Connection, initArgs) == map[];
      if |initArgs| > 0 {
        var i := 0;
        while i < |order|
          invariant 0 <= i <= |order| && initArgs == old(initArgs) && cnxn.Some?
          invariant HandOver(Connection, initArgs, order[i..], refuses, cnxn.value)
                    == HandOver(Connection, initArgs, order, refuses, map[])
        {
          var k := order[i];
          assert order[i..][1..] == order[i + 1..];
          i := i + 1;
          if k in refuses {
            return BaseError, order;
          }
          cnxn := Some(cnxn.value[k := initArgs[k]]);
        }
        initArgs := map[];
      } else {
        assert initArgs == map[];
      }
      code := OK;
    }
  }
}

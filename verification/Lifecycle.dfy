/** The C entry points as a state machine: handles kept in C structs, exported readers, and the poison flag.
    A struct is known by its kind and address; its private_data is the handle stored for it, null when there is none. */
module Lifecycle {
  import opened Prelude

  datatype Kind = Database | Connection | Statement | Stream
  datatype Slot = Slot(kind: Kind, address: nat)

  /** The Go value behind a handle. ready: the wrapped database or connection has been created. */
  datatype Object = Object(kind: Kind, ready: bool, reader: nat)

  datatype State = State(poisoned: bool, handles: map<nat, Object>, nextHandle: nat, slots: map<Slot, nat>,
                         references: map<nat, nat>, nextReader: nat)

  datatype Status = OK | InvalidState | Internal | BaseError

  /** What the wrapped Go object does. */
  datatype Base = Succeeds | Fails | Panics

  /** Init creates the wrapped object and then applies the buffered options. */
  datatype InitBase = Created(options: Base) | NotCreated(panics: bool)

  /** One call through the C interface. A null struct pointer is None. */
  datatype Call =
    | New(kind: Kind, target: Option<nat>)
    | InitDatabase(target: Option<nat>, init: InitBase)
    | InitConnection(target: Option<nat>, parent: Option<nat>, init: InitBase)
    | NewStatement(parent: Option<nat>, target: Option<nat>, base: Base)
    | Use(kind: Kind, target: Option<nat>, needsReady: bool, base: Base)
    | Export(kind: Kind, target: Option<nat>, out: Option<nat>, base: Base)
    | Release(kind: Kind, target: Option<nat>, base: Base)
    | UseStream(target: Option<nat>)
    | ReleaseStream(target: Option<nat>)

  // ---------- The invariant ----------

  predicate HandlesInSlots(handles: map<nat, Object>, slots: map<Slot, nat>) {
    forall h <- handles :: exists slot <- slots :: slots[slot] == h
  }

  predicate SlotsHoldHandles(handles: map<nat, Object>, slots: map<Slot, nat>) {
    && (forall slot <- slots :: slots[slot] in handles && handles[slots[slot]].kind == slot.kind)
    && (forall a <- slots, b <- slots :: slots[a] == slots[b] ==> a == b)
  }

  predicate Holds(s: State, h: nat, reader: nat) {
    h in s.handles && s.handles[h].kind == Stream && s.handles[h].reader == reader
  }

  predicate Held(s: State, reader: nat) {
    exists h <- s.handles :: Holds(s, h, reader)
  }

  /** A reader has one reference while a stream holds it and none otherwise; no two streams hold the same one. */
  predicate ReadersCounted(s: State) {
    && (forall h <- s.handles :: s.handles[h].kind == Stream ==> s.handles[h].reader in s.references)
    && (forall g <- s.handles, h <- s.handles ::
          s.handles[g].kind == Stream && s.handles[h].kind == Stream && s.handles[g].reader == s.handles[h].reader ==> g == h)
    && (forall r <- s.references :: s.references[r] == if Held(s, r) then 1 else 0)
  }

  predicate CountersAhead(s: State) {
    && s.nextHandle > 0
    && (forall h <- s.handles :: 0 < h < s.nextHandle)
    && (forall r <- s.references :: r < s.nextReader)
  }

  /** Live handles are exactly those stored in non-null private_data, each once and of the right kind, and every
      exported reader is held by exactly one reference until its stream is released. */
  predicate Inv(s: State) {
    HandlesInSlots(s.handles, s.slots) && SlotsHoldHandles(s.handles, s.slots) && ReadersCounted(s) && CountersAhead(s)
  }

  const START := State(false, map[], 1, map[], map[], 0)

  // ---------- Steps ----------

  function Poison(s: State): State {
    s.(poisoned := true)
  }

  /** Allocate a handle and store it in the struct. */
  function Put(s: State, slot: Slot, o: Object): State {
    s.(handles := s.handles[s.nextHandle := o], nextHandle := s.nextHandle + 1, slots := s.slots[slot := s.nextHandle])
  }

  /** Clear private_data and delete its handle. */
  function Drop(s: State, slot: Slot): State
    requires slot in s.slots
  {
    s.(handles := s.handles - {s.slots[slot]}, slots := s.slots - {slot})
  }

  function MarkReady(s: State, slot: Slot): State
    requires slot in s.slots && s.slots[slot] in s.handles
  {
    var h := s.slots[slot];
    s.(handles := s.handles[h := s.handles[h].(ready := true)])
  }

  predicate Allocated(s: State, kind: Kind, target: Option<nat>) {
    target.Some? && Slot(kind, target.value) in s.slots
  }

  predicate Ready(s: State, kind: Kind, target: Option<nat>) {
    Allocated(s, kind, target) &&
    var h := s.slots[Slot(kind, target.value)];
    h in s.handles && s.handles[h].ready
  }

  /** exportRecordReader: the base returns a reader with one reference; export retains it, the deferred release
      drops the base's own. A null stream panics before anything is exported, and the deferred release still runs. */
  function ExportReader(s: State, out: Option<nat>): State {
    var r := s.nextReader;
    var counted := s.(nextReader := r + 1);
    if out.None? then Poison(counted.(references := s.references[r := 0]))
    else Put(counted.(references := s.references[r := 1]), Slot(Stream, out.value), Object(Stream, true, r))
  }

  function AfterBase(s: State, base: Base): (State, Status) {
    match base
    case Succeeds => (s, OK)
    case Fails => (s, BaseError)
    case Panics => (Poison(s), Internal)
  }

  function InitStep(s: State, slot: Slot, init: InitBase): (State, Status)
    requires slot in s.slots && s.slots[slot] in s.handles
  {
    if init.NotCreated? then if init.panics then (Poison(s), Internal) else (s, BaseError)
    else AfterBase(MarkReady(s, slot), init.options)
  }

  /** The stream's handle goes, and with it the one reference to its reader. */
  function ReleasedStream(s: State, slot: Slot): State
    requires Inv(s) && slot in s.slots && slot.kind == Stream
  {
    var r := s.handles[s.slots[slot]].reader;
    var after := Drop(s, slot);
    after.(references := after.references[r := 0])
  }

  function Step(s: State, c: Call): (State, Status)
    requires Inv(s)
  {
    match c
    case New(kind, target) =>
      if s.poisoned then (s, Internal)
      else if target.None? then (Poison(s), Internal)
      else if Allocated(s, kind, target) then (s, InvalidState)
      else (Put(s, Slot(kind, target.value), Object(kind, false, 0)), OK)
    case InitDatabase(target, init) =>
      if s.poisoned || !Allocated(s, Database, target) || Ready(s, Database, target) then (s, InvalidState)
      else InitStep(s, Slot(Database, target.value), init)
    case InitConnection(target, parent, init) =>
      if s.poisoned || !Allocated(s, Connection, target) || Ready(s, Connection, target) || !Ready(s, Database, parent)
      then (s, InvalidState)
      else InitStep(s, Slot(Connection, target.value), init)
    case NewStatement(parent, target, base) =>
      if s.poisoned then (s, Internal)
      else if target.None? then (Poison(s), Internal)
      else if Allocated(s, Statement, target) || !Ready(s, Connection, parent) then (s, InvalidState)
      else if base != Succeeds then AfterBase(s, base)
      else (Put(s, Slot(Statement, target.value), Object(Statement, true, 0)), OK)
    case Use(kind, target, needsReady, base) =>
      if s.poisoned || !Allocated(s, kind, target) || (needsReady && !Ready(s, kind, target)) then (s, InvalidState)
      else AfterBase(s, base)
    case Export(kind, target, out, base) =>
      if s.poisoned || !Ready(s, kind, target) then (s, InvalidState)
      else if base != Succeeds || (kind == Statement && out.None?) then AfterBase(s, base)
      else (ExportReader(s, out), if out.None? then Internal else OK)
    case Release(kind, target, base) =>
      if s.poisoned && kind == Statement then (s, Internal)
      else if s.poisoned || !Allocated(s, kind, target) then (s, InvalidState)
      else
        var after := Drop(s, Slot(kind, target.value));
        if !Ready(s, kind, target) || (kind == Database && base == Fails) then (after, OK) else AfterBase(after, base)
    case UseStream(target) => (s, if Allocated(s, Stream, target) then OK else InvalidState)
    case ReleaseStream(target) =>
      if !Allocated(s, Stream, target) then (s, OK) else
      (ReleasedStream(s, Slot(Stream, target.value)), OK)
  }

  /** What callers owe: New and Use name a database, connection or statement kind, and the output of an export is not a
      stream that is still live. */
  predicate Legal(s: State, c: Call) {
    match c
    case New(kind, _) => kind == Database || kind == Connection
    case Use(kind, _, _, _) => kind != Stream
    case Release(kind, _, _) => kind != Stream
    case Export(kind, _, out, _) => (kind == Connection || kind == Statement) && !Allocated(s, Stream, out)
    case _ => true
  }

  // ---------- Every step keeps the invariant ----------

  lemma PutHandles(s: State, slot: Slot, o: Object)
    requires HandlesInSlots(s.handles, s.slots) && slot !in s.slots
    ensures var t := Put(s, slot, o); HandlesInSlots(t.handles, t.slots)
  {
    var t := Put(s, slot, o);
    forall h | h in t.handles
      ensures exists a <- t.slots :: t.slots[a] == h
    {
      if h == s.nextHandle {
        assert t.slots[slot] == h;
      } else {
        var a :| a in s.slots && s.slots[a] == h;
        assert t.slots[a] == h;
      }
    }
  }

  lemma PutSlots(s: State, slot: Slot, o: Object)
    requires SlotsHoldHandles(s.handles, s.slots) && CountersAhead(s) && slot !in s.slots && o.kind == slot.kind
    ensures var t := Put(s, slot, o); SlotsHoldHandles(t.handles, t.slots) && CountersAhead(t)
  {
    var t := Put(s, slot, o);
    forall a, b | a in t.slots && b in t.slots && t.slots[a] == t.slots[b]
      ensures a == b
    {
      assert a != slot ==> t.slots[a] == s.slots[a] && t.slots[a] in s.handles;
      assert b != slot ==> t.slots[b] == s.slots[b] && t.slots[b] in s.handles;
    }
  }

  lemma DropKeeps(s: State, slot: Slot)
    requires HandlesInSlots(s.handles, s.slots) && SlotsHoldHandles(s.handles, s.slots) && CountersAhead(s)
    requires slot in s.slots
    ensures var t := Drop(s, slot);
            HandlesInSlots(t.handles, t.slots) && SlotsHoldHandles(t.handles, t.slots) && CountersAhead(t)
  {
    var t := Drop(s, slot);
    forall h | h in t.handles
      ensures exists a <- t.slots :: t.slots[a] == h
    {
      var a :| a in s.slots && s.slots[a] == h;
      assert a in t.slots && t.slots[a] == h;
    }
  }

  /** Readers are accounted for by who holds them: r is the one reader whose accounting changes. */
  lemma Recount(s: State, t: State, r: nat)
    requires ReadersCounted(s)
    requires forall q | q != r :: q in s.references <==> q in t.references
    requires forall q | q != r && q in t.references :: t.references[q] == s.references[q]
    requires forall h, q | q != r :: Holds(s, h, q) <==> Holds(t, h, q)
    requires r in t.references ==> t.references[r] == if Held(t, r) then 1 else 0
    requires Held(t, r) ==> r in t.references
    requires forall g, h | Holds(t, g, r) && Holds(t, h, r) :: g == h
    ensures ReadersCounted(t)
  {
    forall q | q in t.references
      ensures t.references[q] == if Held(t, q) then 1 else 0
    {
      if q != r {
        assert Held(s, q) <==> Held(t, q);
      }
    }
    forall h | h in t.handles && t.handles[h].kind == Stream
      ensures t.handles[h].reader in t.references
    {
      assert Holds(t, h, t.handles[h].reader);
    }
    forall g, h | g in t.handles && h in t.handles && t.handles[g].kind == Stream && t.handles[h].kind == Stream
                  && t.handles[g].reader == t.handles[h].reader
      ensures g == h
    {
      var q := t.handles[g].reader;
      assert Holds(t, g, q) && Holds(t, h, q);
      assert q != r ==> Holds(s, g, q) && Holds(s, h, q);
    }
  }

  lemma PutReaders(s: State, slot: Slot, o: Object)
    requires ReadersCounted(s) && CountersAhead(s) && o.kind != Stream
    ensures ReadersCounted(Put(s, slot, o))
  {
    var t := Put(s, slot, o);
    assert s.nextHandle !in s.handles;
    forall h, q
      ensures Holds(s, h, q) <==> Holds(t, h, q)
    {
    }
    hide CountersAhead, Put, ReadersCounted;
    Recount(s, t, s.nextReader);
  }

  /** Storing a handle for an object that is not a stream changes no reader. */
  lemma PutKeeps(s: State, slot: Slot, o: Object)
    requires Inv(s) && slot !in s.slots && o.kind == slot.kind && o.kind != Stream
    ensures Inv(Put(s, slot, o))
  {
    hide HandlesInSlots, SlotsHoldHandles, CountersAhead, ReadersCounted, Put;
    PutHandles(s, slot, o);
    PutSlots(s, slot, o);
    PutReaders(s, slot, o);
  }

  lemma MarkReadyKeeps(s: State, slot: Slot)
    requires Inv(s) && slot in s.slots
    ensures Inv(MarkReady(s, slot))
  {
    var t := MarkReady(s, slot);
    assert forall h, q :: Holds(s, h, q) <==> Holds(t, h, q);
    assert HandlesInSlots(t.handles, t.slots) by {
      forall h | h in t.handles
        ensures exists a <- t.slots :: t.slots[a] == h
      {
        var a :| a in s.slots && s.slots[a] == h;
        assert t.slots[a] == h;
      }
    }
    hide HandlesInSlots;
    Recount(s, t, s.nextReader);
  }

  lemma ExportReaders(s: State, out: nat)
    requires ReadersCounted(s) && CountersAhead(s)
    ensures ReadersCounted(ExportReader(s, Some(out)))
  {
    var t, r, n := ExportReader(s, Some(out)), s.nextReader, s.nextHandle;
    assert forall h <- s.handles :: s.handles[h].kind == Stream ==> s.handles[h].reader != r;
    assert n !in s.handles && t.handles == s.handles[n := Object(Stream, true, r)] && t.references == s.references[r := 1];
    hide CountersAhead, ExportReader, ReadersCounted;
    forall h, q
      ensures Holds(t, h, q) <==> Holds(s, h, q) || (h == n && q == r)
      ensures !Holds(s, h, r)
    {
    }
    assert Holds(t, n, r);
    Recount(s, t, r);
  }

  lemma NoReader(s: State, t: State)
    requires ReadersCounted(s) && CountersAhead(s)
    requires t.handles == s.handles && t.references == s.references[s.nextReader := 0]
    ensures ReadersCounted(t)
  {
    assert forall h, q :: Holds(s, h, q) <==> Holds(t, h, q);
    assert !Held(t, s.nextReader);
    Recount(s, t, s.nextReader);
  }

  /** The new reader ends up with one reference, held by the new stream, or with none when there is no stream. */
  lemma ExportKeeps(s: State, out: Option<nat>)
    requires Inv(s) && !Allocated(s, Stream, out)
    ensures Inv(ExportReader(s, out))
  {
    var t, r := ExportReader(s, out), s.nextReader;
    if out.None? {
      hide HandlesInSlots, SlotsHoldHandles, ReadersCounted;
      NoReader(s, t);
    } else {
      var slot, o := Slot(Stream, out.value), Object(Stream, true, r);
      var counted := s.(nextReader := r + 1, references := s.references[r := 1]);
      assert t == Put(counted, slot, o) && slot !in s.slots;
      hide HandlesInSlots, SlotsHoldHandles, ReadersCounted, Put, ExportReader;
      assert CountersAhead(counted);
      PutHandles(counted, slot, o);
      PutSlots(counted, slot, o);
      ExportReaders(s, out.value);
    }
  }

  /** Passing a live stream as output is exactly what breaks the invariant: its old handle is then stored nowhere. */
  lemma ExportKeepsIff(s: State, out: Option<nat>)
    requires Inv(s)
    ensures Inv(ExportReader(s, out)) <==> !Allocated(s, Stream, out)
  {
    if Allocated(s, Stream, out) {
      hide ReadersCounted;
      var t, slot := ExportReader(s, out), Slot(Stream, out.value);
      var h := s.slots[slot];
      assert h in t.handles && h != s.nextHandle;
      forall a | a in t.slots
        ensures t.slots[a] != h
      {
        assert a != slot ==> t.slots[a] == s.slots[a];
      }
      assert !HandlesInSlots(t.handles, t.slots);
    } else {
      ExportKeeps(s, out);
    }
  }

  lemma DropObjectKeeps(s: State, slot: Slot)
    requires Inv(s) && slot in s.slots && slot.kind != Stream
    ensures Inv(Drop(s, slot))
  {
    DropKeeps(s, slot);
    var t := Drop(s, slot);
    assert s.slots[slot] in s.handles && s.handles[s.slots[slot]].kind != Stream;
    hide HandlesInSlots, SlotsHoldHandles;
    assert forall h, q :: Holds(s, h, q) <==> Holds(t, h, q);
    Recount(s, t, s.nextReader);
  }

  lemma ReleaseStreamKeeps(s: State, slot: Slot)
    requires Inv(s) && slot in s.slots && slot.kind == Stream
    ensures Inv(ReleasedStream(s, slot))
  {
    DropKeeps(s, slot);
    var t, dropped, h := ReleasedStream(s, slot), Drop(s, slot), s.slots[slot];
    var r := s.handles[h].reader;
    assert Holds(s, h, r);
    assert HandlesInSlots(t.handles, t.slots) && SlotsHoldHandles(t.handles, t.slots);
    hide HandlesInSlots, SlotsHoldHandles;
    assert forall g, q | q != r :: Holds(s, g, q) <==> Holds(t, g, q);
    assert !Held(t, r) by {
      forall g | g in t.handles
        ensures !Holds(t, g, r)
      {
        assert Holds(s, g, r) ==> g == h;
      }
    }
    Recount(s, t, r);
  }

  lemma PoisonKeeps(s: State)
    requires Inv(s)
    ensures Inv(Poison(s))
  {
    hide HandlesInSlots, SlotsHoldHandles;
    assert forall h, q :: Holds(s, h, q) <==> Holds(Poison(s), h, q);
    Recount(s, Poison(s), s.nextReader);
  }

  lemma InitKeeps(s: State, slot: Slot, init: InitBase)
    requires Inv(s) && slot in s.slots
    ensures Inv(InitStep(s, slot, init).0)
  {
    hide Poison, MarkReady, HandlesInSlots, ReadersCounted, CountersAhead;
    MarkReadyKeeps(s, slot);
    hide Inv;
    PoisonKeeps(s);
    PoisonKeeps(MarkReady(s, slot));
  }

  lemma StepKeeps(s: State, c: Call)
    requires Inv(s) && Legal(s, c)
    ensures Inv(Step(s, c).0)
  {
    hide Inv, Poison, Put, Drop, MarkReady, ExportReader, ReleasedStream, InitStep;
    PoisonKeeps(s);
    match c
    case New(kind, target) =>
      if target.Some? && !Allocated(s, kind, target) {
        PutKeeps(s, Slot(kind, target.value), Object(kind, false, 0));
      }
    case InitDatabase(target, init) =>
      if Allocated(s, Database, target) {
        InitKeeps(s, Slot(Database, target.value), init);
      }
    case InitConnection(target, parent, init) =>
      if Allocated(s, Connection, target) {
        InitKeeps(s, Slot(Connection, target.value), init);
      }
    case NewStatement(parent, target, base) =>
      if target.Some? && !Allocated(s, Statement, target) {
        PutKeeps(s, Slot(Statement, target.value), Object(Statement, true, 0));
      }
    case Use(_, _, _, _) =>
    case Export(_, _, out, _) =>
      ExportKeeps(s, out);
    case Release(kind, target, _) =>
      if Allocated(s, kind, target) {
        DropObjectKeeps(s, Slot(kind, target.value));
        PoisonKeeps(Drop(s, Slot(kind, target.value)));
      }
    case UseStream(_) =>
    case ReleaseStream(target) =>
      if Allocated(s, Stream, target) {
        ReleaseStreamKeeps(s, Slot(Stream, target.value));
      }
  }

  // ---------- Whole runs ----------

  predicate LegalRun(s: State, calls: seq<Call>)
    requires Inv(s)
    decreases |calls|
  {
    calls == [] ||
    (Legal(s, calls[0]) && (StepKeeps(s, calls[0]); LegalRun(Step(s, calls[0]).0, calls[1..])))
  }

  /** Every state a run of legal calls reaches satisfies the invariant. */
  function Run(s: State, calls: seq<Call>): (t: State)
    requires Inv(s) && LegalRun(s, calls)
    ensures Inv(t)
    decreases |calls|
  {
    if calls == [] then s else (StepKeeps(s, calls[0]); Run(Step(s, calls[0]).0, calls[1..]))
  }

  function Statuses(s: State, calls: seq<Call>): (codes: seq<Status>)
    requires Inv(s) && LegalRun(s, calls)
    ensures |codes| == |calls|
    decreases |calls|
  {
    if calls == [] then []
    else (StepKeeps(s, calls[0]); [Step(s, calls[0]).1] + Statuses(Step(s, calls[0]).0, calls[1..]))
  }

  /** The state before the first call. */
  lemma StartsWell()
    ensures Inv(START)
  {
  }

  predicate OnStream(c: Call) {
    c.UseStream? || c.ReleaseStream?
  }

  function StreamCalls(calls: seq<Call>): seq<Call> {
    if calls == [] then []
    else (if OnStream(calls[0]) then [calls[0]] else []) + StreamCalls(calls[1..])
  }

  /** After a recovered panic no database, connection or statement call succeeds or has any effect: the run ends where
      its stream calls alone would take it. */
  lemma {:induction false} PoisonForever(s: State, calls: seq<Call>)
    requires Inv(s) && LegalRun(s, calls) && s.poisoned
    ensures LegalRun(s, StreamCalls(calls)) && Run(s, calls) == Run(s, StreamCalls(calls))
    ensures Run(s, calls).poisoned
    ensures forall i | 0 <= i < |calls| && !OnStream(calls[i]) :: Statuses(s, calls)[i] != OK
    decreases |calls|
  {
    hide Inv;
    if calls != [] {
      StepKeeps(s, calls[0]);
      PoisonStep(s, calls[0]);
      hide Step;
      var t := Step(s, calls[0]).0;
      PoisonForever(t, calls[1..]);
      var streams := StreamCalls(calls);
      if OnStream(calls[0]) {
        assert streams[1..] == StreamCalls(calls[1..]);
      } else {
        assert streams == StreamCalls(calls[1..]);
      }
      forall i | 0 <= i < |calls| && !OnStream(calls[i])
        ensures Statuses(s, calls)[i] != OK
      {
        assert i > 0 ==> calls[i] == calls[1..][i - 1];
      }
    }
  }

  lemma PoisonStep(s: State, c: Call)
    requires Inv(s) && s.poisoned
    ensures Step(s, c).0.poisoned
    ensures !OnStream(c) ==> Step(s, c).0 == s && Step(s, c).1 != OK
  {
  }

  /** What holding a reader means: the slot's stream, its one reference, and no other holder. */
  predicate HeldThere(s: State, slot: Slot, h: nat, reader: nat) {
    && slot in s.slots && s.slots[slot] == h && Holds(s, h, reader)
    && reader in s.references && s.references[reader] == 1
    && (forall g <- s.handles :: Holds(s, g, reader) ==> g == h)
  }

  lemma HolderCounted(s: State, slot: Slot)
    requires Inv(s) && slot in s.slots && slot.kind == Stream
    ensures var h := s.slots[slot]; h in s.handles && HeldThere(s, slot, h, s.handles[h].reader)
  {
    var h := s.slots[slot];
    assert Holds(s, h, s.handles[h].reader);
    hide HandlesInSlots;
  }

  /** The slot holds the same handle for the same object. */
  predicate Leaves(s: State, t: State, slot: Slot)
    requires slot in s.slots && s.slots[slot] in s.handles
  {
    && slot in t.slots && t.slots[slot] == s.slots[slot]
    && t.slots[slot] in t.handles && t.handles[t.slots[slot]] == s.handles[s.slots[slot]]
  }

  lemma PutLeaves(s: State, added: Slot, o: Object, slot: Slot)
    requires CountersAhead(s) && slot in s.slots && s.slots[slot] in s.handles && added != slot
    ensures Leaves(s, Put(s, added, o), slot)
  {
  }

  lemma DropLeaves(s: State, gone: Slot, slot: Slot)
    requires SlotsHoldHandles(s.handles, s.slots) && gone in s.slots && slot in s.slots && gone != slot
    ensures Leaves(s, Drop(s, gone), slot)
  {
  }

  lemma MarkReadyLeaves(s: State, ready: Slot, slot: Slot)
    requires SlotsHoldHandles(s.handles, s.slots) && ready in s.slots && slot in s.slots && ready != slot
    ensures Leaves(s, MarkReady(s, ready), slot)
  {
  }

  lemma ExportLeaves(s: State, out: Option<nat>, slot: Slot)
    requires CountersAhead(s) && slot in s.slots && s.slots[slot] in s.handles
    requires out.Some? ==> Slot(Stream, out.value) != slot
    ensures Leaves(s, ExportReader(s, out), slot)
  {
  }

  lemma PoisonLeaves(s: State, t: State, slot: Slot)
    requires slot in s.slots && s.slots[slot] in s.handles
    ensures Leaves(s, Poison(t), slot) <==> Leaves(s, t, slot)
    ensures Leaves(s, s, slot)
  {
  }

  lemma InitLeaves(s: State, ready: Slot, init: InitBase, slot: Slot)
    requires SlotsHoldHandles(s.handles, s.slots) && ready in s.slots && slot in s.slots && ready != slot
    ensures Leaves(s, InitStep(s, ready, init).0, slot)
  {
    MarkReadyLeaves(s, ready, slot);
  }

  lemma ReleaseLeaves(s: State, gone: Slot, slot: Slot)
    requires Inv(s) && gone in s.slots && gone.kind == Stream && slot in s.slots && gone != slot
    ensures Leaves(s, ReleasedStream(s, gone), slot)
  {
    DropLeaves(s, gone, slot);
  }

  lemma StepLeavesStream(s: State, c: Call, slot: Slot)
    requires Inv(s) && Legal(s, c) && slot in s.slots && slot.kind == Stream && c != ReleaseStream(Some(slot.address))
    ensures s.slots[slot] in s.handles && Leaves(s, Step(s, c).0, slot)
  {
    assert s.slots[slot] in s.handles;
    assert slot == Slot(Stream, slot.address);
    hide Put, Drop, ExportReader, InitStep, ReleasedStream, Poison, Leaves, HandlesInSlots, ReadersCounted, SlotsHoldHandles,
      CountersAhead;
    PoisonLeaves(s, s, slot);
    match c
    case New(kind, target) =>
      if target.Some? {
        PutLeaves(s, Slot(kind, target.value), Object(kind, false, 0), slot);
      }
    case InitDatabase(target, init) =>
      if Allocated(s, Database, target) {
        InitLeaves(s, Slot(Database, target.value), init, slot);
      }
    case InitConnection(target, _, init) =>
      if Allocated(s, Connection, target) {
        InitLeaves(s, Slot(Connection, target.value), init, slot);
      }
    case NewStatement(_, target, _) =>
      if target.Some? {
        PutLeaves(s, Slot(Statement, target.value), Object(Statement, true, 0), slot);
      }
    case Use(_, _, _, _) =>
    case Export(_, _, out, _) =>
      ExportLeaves(s, out, slot);
    case Release(kind, target, _) =>
      if Allocated(s, kind, target) {
        DropLeaves(s, Slot(kind, target.value), slot);
        PoisonLeaves(s, Drop(s, Slot(kind, target.value)), slot);
      }
    case UseStream(_) =>
    case ReleaseStream(target) =>
      if Allocated(s, Stream, target) {
        ReleaseLeaves(s, Slot(Stream, target.value), slot);
      }
  }

  /** Whatever else happens, an exported reader keeps its one reference, in its own stream, until that stream is
      released. */
  lemma {:induction false} ReaderLives(s: State, calls: seq<Call>, slot: Slot)
    requires Inv(s) && LegalRun(s, calls) && slot in s.slots && slot.kind == Stream
    requires ReleaseStream(Some(slot.address)) !in calls
    ensures var h := s.slots[slot]; h in s.handles && HeldThere(Run(s, calls), slot, h, s.handles[h].reader)
    decreases |calls|
  {
    HolderCounted(s, slot);
    if calls != [] {
      StepKeeps(s, calls[0]);
      StepLeavesStream(s, calls[0], slot);
      hide Step, HeldThere, Inv;
      ReaderLives(Step(s, calls[0]).0, calls[1..], slot);
    }
  }

  lemma StepLeavesZero(s: State, c: Call, reader: nat)
    requires Inv(s) && Legal(s, c) && reader in s.references && s.references[reader] == 0
    ensures var t := Step(s, c).0; reader in t.references && t.references[reader] == 0
  {
    hide HandlesInSlots, SlotsHoldHandles, ReadersCounted;
  }

  /** A reader that has lost its last reference never gets one again. */
  lemma {:induction false} ReaderGone(s: State, calls: seq<Call>, reader: nat)
    requires Inv(s) && LegalRun(s, calls) && reader in s.references && s.references[reader] == 0
    ensures var t := Run(s, calls); reader in t.references && t.references[reader] == 0 && !Held(t, reader)
    decreases |calls|
  {
    if calls != [] {
      StepKeeps(s, calls[0]);
      StepLeavesZero(s, calls[0], reader);
      hide Step, Inv;
      ReaderGone(Step(s, calls[0]).0, calls[1..], reader);
    }
  }

  /** Releasing a live stream takes its reader's last reference away for good. */
  lemma ReleasedForGood(s: State, slot: Slot, calls: seq<Call>)
    requires Inv(s) && slot in s.slots && slot.kind == Stream
    requires LegalRun(s, [ReleaseStream(Some(slot.address))] + calls)
    ensures var t := Run(s, [ReleaseStream(Some(slot.address))] + calls);
            var reader := s.handles[s.slots[slot]].reader;
            reader in t.references && t.references[reader] == 0 && !Held(t, reader)
  {
    var c := ReleaseStream(Some(slot.address));
    StepKeeps(s, c);
    assert Step(s, c).0 == ReleasedStream(s, slot);
    assert ([c] + calls)[1..] == calls;
    var reader := s.handles[s.slots[slot]].reader;
    assert ReleasedStream(s, slot).references[reader] == 0;
    hide Step, ReleasedStream, Inv;
    ReaderGone(ReleasedStream(s, slot), calls, reader);
  }
}

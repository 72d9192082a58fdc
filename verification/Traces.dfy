/** The state machine explained by what callers see: the calls made so far and the statuses they were answered with. */
module Traces {
  import opened Prelude
  import opened Lifecycle

  // ---------- What a history says ----------

  /** Some earlier call recovered a panic, or was answered as after one. */
  predicate PoisonedBy(codes: seq<Status>) {
    exists i :: 0 <= i < |codes| && codes[i] == Internal
  }

  predicate Creates(c: Call, kind: Kind, address: nat) {
    match c
    case New(k, target) => k == kind && target == Some(address)
    case NewStatement(_, target, _) => kind == Statement && target == Some(address)
    case Export(_, _, out, _) => kind == Stream && out == Some(address)
    case _ => false
  }

  /** An Init whose wrapped object was created, whatever became of its options. */
  predicate CreatesWrapped(c: Call, kind: Kind, address: nat) {
    match c
    case InitDatabase(target, init) => kind == Database && target == Some(address) && init.Created?
    case InitConnection(target, _, init) => kind == Connection && target == Some(address) && init.Created?
    case _ => false
  }

  /** A release that is not turned away for poison. */
  predicate Releases(c: Call, poisoned: bool, kind: Kind, address: nat) {
    match c
    case Release(k, target, _) => !poisoned && k == kind && target == Some(address)
    case ReleaseStream(target) => kind == Stream && target == Some(address)
    case _ => false
  }

  /** The call brought the struct to life; or let its Init past all checks, or, for a statement or stream, made it whole. */
  predicate Begins(whole: bool, c: Call, code: Status, kind: Kind, address: nat) {
    if whole && (kind == Database || kind == Connection) then CreatesWrapped(c, kind, address) && code != InvalidState
    else Creates(c, kind, address) && code == OK
  }

  /** It did so, and no release came after. */
  ghost predicate Since(whole: bool, calls: seq<Call>, codes: seq<Status>, kind: Kind, address: nat)
    requires |calls| == |codes|
  {
    exists i :: 0 <= i < |calls| && Begins(whole, calls[i], codes[i], kind, address)
                && forall j | i < j < |calls| :: !Releases(calls[j], PoisonedBy(codes[..j]), kind, address)
  }

  /** Successfully created and not released since. */
  ghost predicate Live(calls: seq<Call>, codes: seq<Status>, kind: Kind, target: Option<nat>)
    requires |calls| == |codes|
  {
    target.Some? && Since(false, calls, codes, kind, target.value)
  }

  /** Initialized and not released since. */
  ghost predicate Initialized(calls: seq<Call>, codes: seq<Status>, kind: Kind, target: Option<nat>)
    requires |calls| == |codes|
  {
    target.Some? && Since(true, calls, codes, kind, target.value)
  }

  function OfBase(base: Base): Status {
    match base
    case Succeeds => OK
    case Fails => BaseError
    case Panics => Internal
  }

  function OfInit(init: InitBase): Status {
    match init
    case NotCreated(panics) => if panics then Internal else BaseError
    case Created(options) => OfBase(options)
  }

  /** The answer to a call after a history. */
  ghost function Answer(calls: seq<Call>, codes: seq<Status>, c: Call): Status
    requires |calls| == |codes|
  {
    var poisoned := PoisonedBy(codes);
    match c
    case New(kind, target) =>
      if poisoned || target.None? then Internal else if Live(calls, codes, kind, target) then InvalidState else OK
    case InitDatabase(target, init) =>
      if poisoned || !Live(calls, codes, Database, target) || Initialized(calls, codes, Database, target) then InvalidState
      else OfInit(init)
    case InitConnection(target, parent, init) =>
      if poisoned || !Live(calls, codes, Connection, target) || Initialized(calls, codes, Connection, target)
         || !Initialized(calls, codes, Database, parent) then InvalidState
      else OfInit(init)
    case NewStatement(parent, target, base) =>
      if poisoned || target.None? then Internal
      else if Live(calls, codes, Statement, target) || !Initialized(calls, codes, Connection, parent) then InvalidState
      else OfBase(base)
    case Use(kind, target, needsReady, base) =>
      if poisoned || !(if needsReady then Initialized(calls, codes, kind, target) else Live(calls, codes, kind, target))
      then InvalidState
      else OfBase(base)
    case Export(kind, target, out, base) =>
      if poisoned || !Initialized(calls, codes, kind, target) then InvalidState
      else if base == Succeeds && out.None? && kind == Connection then Internal
      else OfBase(base)
    case Release(kind, target, base) =>
      if poisoned then (if kind == Statement then Internal else InvalidState)
      else if !Live(calls, codes, kind, target) then InvalidState
      else if !Initialized(calls, codes, kind, target) then OK
      else if kind == Database && base == Fails then OK
      else OfBase(base)
    case UseStream(target) => if Live(calls, codes, Stream, target) then OK else InvalidState
    case ReleaseStream(_) => OK
  }

  // ---------- One more call ----------

  lemma PoisonedSnoc(codes: seq<Status>, code: Status)
    ensures PoisonedBy(codes + [code]) <==> PoisonedBy(codes) || code == Internal
  {
    var more := codes + [code];
    assert more[|codes|] == code && forall i | 0 <= i < |codes| :: more[i] == codes[i];
    if PoisonedBy(codes) {
      var i :| 0 <= i < |codes| && codes[i] == Internal;
      assert more[i] == Internal;
    }
  }

  lemma SinceSnoc(whole: bool, calls: seq<Call>, codes: seq<Status>, c: Call, code: Status, kind: Kind, address: nat)
    requires |calls| == |codes|
    ensures Since(whole, calls + [c], codes + [code], kind, address) <==>
      || Begins(whole, c, code, kind, address)
      || (Since(whole, calls, codes, kind, address) && !Releases(c, PoisonedBy(codes), kind, address))
  {
    hide PoisonedBy, Releases, Begins;
    var n, calls', codes' := |calls|, calls + [c], codes + [code];
    assert calls'[n] == c && codes'[n] == code && codes'[..n] == codes;
    assert forall j | 0 <= j < n :: calls'[j] == calls[j] && codes'[j] == codes[j] && codes'[..j] == codes[..j];
    if i :| 0 <= i < n && Begins(whole, calls[i], codes[i], kind, address)
            && (forall j | i < j < n :: !Releases(calls[j], PoisonedBy(codes[..j]), kind, address))
            && !Releases(c, PoisonedBy(codes), kind, address) {
      assert Begins(whole, calls'[i], codes'[i], kind, address);
      assert forall j | i < j < n + 1 :: !Releases(calls'[j], PoisonedBy(codes'[..j]), kind, address);
    }
    if Begins(whole, c, code, kind, address) {
      assert Begins(whole, calls'[n], codes'[n], kind, address);
    }
    if Since(whole, calls', codes', kind, address) && !Begins(whole, c, code, kind, address) {
      var i :| 0 <= i < n + 1 && Begins(whole, calls'[i], codes'[i], kind, address)
               && forall j | i < j < n + 1 :: !Releases(calls'[j], PoisonedBy(codes'[..j]), kind, address);
      assert i < n && Begins(whole, calls[i], codes[i], kind, address);
      assert !Releases(calls'[n], PoisonedBy(codes'[..n]), kind, address);
      forall j | i < j < n
        ensures !Releases(calls[j], PoisonedBy(codes[..j]), kind, address)
      {
        assert !Releases(calls'[j], PoisonedBy(codes'[..j]), kind, address);
      }
    }
  }

  lemma {:induction false} RunSnoc(s: State, calls: seq<Call>, c: Call)
    requires Inv(s) && LegalRun(s, calls + [c])
    ensures LegalRun(s, calls) && Legal(Run(s, calls), c)
    ensures var (t, code) := Step(Run(s, calls), c);
      Run(s, calls + [c]) == t && Statuses(s, calls + [c]) == Statuses(s, calls) + [code]
    decreases |calls|
  {
    hide Inv, Step, Legal;
    if calls == [] {
      assert calls + [c] == [c] && [c][1..] == [];
    } else {
      var more := calls + [c];
      assert more[0] == calls[0] && more[1..] == calls[1..] + [c];
      StepKeeps(s, calls[0]);
      RunSnoc(Step(s, calls[0]).0, calls[1..], c);
    }
  }

  /** What one step does to the structs and to what they hold. */
  ghost predicate Explains(s: State, c: Call, t: State, code: Status, kind: Kind, address: nat) {
    var slot := Slot(kind, address);
    && (slot in t.slots <==> Begins(false, c, code, kind, address) || (slot in s.slots && !Releases(c, s.poisoned, kind, address)))
    && (Ready(t, kind, Some(address)) <==>
        Begins(true, c, code, kind, address) || (Ready(s, kind, Some(address)) && !Releases(c, s.poisoned, kind, address)))
  }

  lemma PutExplained(s: State, added: Slot, o: Object, kind: Kind, address: nat)
    requires CountersAhead(s) && SlotsHoldHandles(s.handles, s.slots)
    ensures var t, slot := Put(s, added, o), Slot(kind, address);
      && (slot in t.slots <==> slot == added || slot in s.slots)
      && (Ready(t, kind, Some(address)) <==> if slot == added then o.ready else Ready(s, kind, Some(address)))
  {
  }

  lemma DropExplained(s: State, gone: Slot, kind: Kind, address: nat)
    requires SlotsHoldHandles(s.handles, s.slots) && gone in s.slots
    ensures var t, slot := Drop(s, gone), Slot(kind, address);
      && (slot in t.slots <==> slot != gone && slot in s.slots)
      && (Ready(t, kind, Some(address)) <==> slot != gone && Ready(s, kind, Some(address)))
  {
  }

  lemma MarkExplained(s: State, marked: Slot, kind: Kind, address: nat)
    requires SlotsHoldHandles(s.handles, s.slots) && marked in s.slots
    ensures var t, slot := MarkReady(s, marked), Slot(kind, address);
      && (slot in t.slots <==> slot in s.slots)
      && (Ready(t, kind, Some(address)) <==> slot == marked || Ready(s, kind, Some(address)))
  {
  }

  lemma ExportExplained(s: State, out: Option<nat>, kind: Kind, address: nat)
    requires CountersAhead(s) && SlotsHoldHandles(s.handles, s.slots)
    ensures var t, slot := ExportReader(s, out), Slot(kind, address);
      && (slot in t.slots <==> (kind == Stream && out == Some(address)) || slot in s.slots)
      && (Ready(t, kind, Some(address)) <==> (kind == Stream && out == Some(address)) || Ready(s, kind, Some(address)))
  {
  }

  lemma SameTables(s: State, t: State, kind: Kind, address: nat)
    requires t.handles == s.handles && t.slots == s.slots
    ensures Slot(kind, address) in t.slots <==> Slot(kind, address) in s.slots
    ensures Ready(t, kind, Some(address)) <==> Ready(s, kind, Some(address))
  {
  }

  lemma ReadyIsThere(s: State, kind: Kind, address: nat)
    ensures Ready(s, kind, Some(address)) ==> Slot(kind, address) in s.slots
  {
  }

  lemma InitExplained(s: State, slot: Slot, init: InitBase, kind: Kind, address: nat)
    requires SlotsHoldHandles(s.handles, s.slots) && slot in s.slots
    ensures var (t, code) := InitStep(s, slot, init);
      && code != InvalidState && (Slot(kind, address) in t.slots <==> Slot(kind, address) in s.slots)
      && (Ready(t, kind, Some(address)) <==>
          (init.Created? && Slot(kind, address) == slot) || Ready(s, kind, Some(address)))
  {
    MarkExplained(s, slot, kind, address);
    hide MarkReady, Ready, SlotsHoldHandles;
    var t := MarkReady(s, slot);
    SameTables(s, Poison(s), kind, address);
    SameTables(t, Poison(t), kind, address);
  }

  lemma BaseExplained(s: State, base: Base, kind: Kind, address: nat)
    ensures var (t, code) := AfterBase(s, base);
      && code == OfBase(base) && (Slot(kind, address) in t.slots <==> Slot(kind, address) in s.slots)
      && (Ready(t, kind, Some(address)) <==> Ready(s, kind, Some(address)))
  {
  }

  lemma CreationExplained(s: State, c: Call, kind: Kind, address: nat)
    requires Inv(s) && Legal(s, c) && (c.New? || c.NewStatement? || c.Export?)
    ensures Explains(s, c, Step(s, c).0, Step(s, c).1, kind, address)
  {
    ReadyIsThere(s, kind, address);
    hide ReadersCounted, HandlesInSlots, CountersAhead, SlotsHoldHandles, Put, ExportReader, AfterBase, Ready;
    SameTables(s, Poison(s), kind, address);
    match c
    case New(k, target) =>
      if target.Some? {
        PutExplained(s, Slot(k, target.value), Object(k, false, 0), kind, address);
      }
    case NewStatement(_, target, base) =>
      BaseExplained(s, base, kind, address);
      if target.Some? {
        PutExplained(s, Slot(Statement, target.value), Object(Statement, true, 0), kind, address);
      }
    case Export(_, _, out, base) =>
      BaseExplained(s, base, kind, address);
      ExportExplained(s, out, kind, address);
  }

  lemma InitCallExplained(s: State, c: Call, kind: Kind, address: nat)
    requires Inv(s) && Legal(s, c) && (c.InitDatabase? || c.InitConnection?)
    ensures Explains(s, c, Step(s, c).0, Step(s, c).1, kind, address)
  {
    ReadyIsThere(s, kind, address);
    hide ReadersCounted, HandlesInSlots, CountersAhead, SlotsHoldHandles, InitStep, Ready;
    match c
    case InitDatabase(target, init) =>
      if Allocated(s, Database, target) {
        InitExplained(s, Slot(Database, target.value), init, kind, address);
      }
    case InitConnection(target, _, init) =>
      if Allocated(s, Connection, target) {
        InitExplained(s, Slot(Connection, target.value), init, kind, address);
      }
  }

  lemma OtherCallExplained(s: State, c: Call, kind: Kind, address: nat)
    requires Inv(s) && Legal(s, c) && (c.Use? || c.Release? || c.UseStream? || c.ReleaseStream?)
    ensures Explains(s, c, Step(s, c).0, Step(s, c).1, kind, address)
  {
    ReadyIsThere(s, kind, address);
    hide ReadersCounted, HandlesInSlots, CountersAhead, SlotsHoldHandles, Drop, ReleasedStream, AfterBase, Ready;
    match c
    case Use(_, _, _, base) =>
      BaseExplained(s, base, kind, address);
    case Release(k, target, base) =>
      if Allocated(s, k, target) {
        DropExplained(s, Slot(k, target.value), kind, address);
        BaseExplained(Drop(s, Slot(k, target.value)), base, kind, address);
      }
    case UseStream(_) =>
    case ReleaseStream(target) =>
      if Allocated(s, Stream, target) {
        StreamGone(s, Slot(Stream, target.value), kind, address);
      }
  }

  lemma StepExplained(s: State, c: Call, kind: Kind, address: nat)
    requires Inv(s) && Legal(s, c)
    ensures Explains(s, c, Step(s, c).0, Step(s, c).1, kind, address)
  {
    hide Inv, Legal, Step, Explains;
    if c.New? || c.NewStatement? || c.Export? {
      CreationExplained(s, c, kind, address);
    } else if c.InitDatabase? || c.InitConnection? {
      InitCallExplained(s, c, kind, address);
    } else {
      OtherCallExplained(s, c, kind, address);
    }
  }

  lemma StreamGone(s: State, gone: Slot, kind: Kind, address: nat)
    requires Inv(s) && gone in s.slots && gone.kind == Stream
    ensures var t, slot := ReleasedStream(s, gone), Slot(kind, address);
      && (slot in t.slots <==> slot != gone && slot in s.slots)
      && (Ready(t, kind, Some(address)) <==> slot != gone && Ready(s, kind, Some(address)))
  {
    DropExplained(s, gone, kind, address);
    hide ReadersCounted, HandlesInSlots, CountersAhead, Ready;
    SameTables(Drop(s, gone), ReleasedStream(s, gone), kind, address);
  }

  // ---------- Every run ----------

  /** The state a history leaves, as far as its calls and statuses tell. */
  ghost predicate Mirrors(s: State, calls: seq<Call>, codes: seq<Status>)
    requires |calls| == |codes|
  {
    && (s.poisoned <==> PoisonedBy(codes))
    && (forall kind, address :: Slot(kind, address) in s.slots <==> Since(false, calls, codes, kind, address))
    && (forall kind, address :: Ready(s, kind, Some(address)) <==> Since(true, calls, codes, kind, address))
  }

  predicate LegalHistory(calls: seq<Call>) {
    StartsWell();
    LegalRun(START, calls)
  }

  function After(calls: seq<Call>): State
    requires LegalHistory(calls)
  {
    StartsWell();
    Run(START, calls)
  }

  function Codes(calls: seq<Call>): (codes: seq<Status>)
    requires LegalHistory(calls)
    ensures |codes| == |calls|
  {
    StartsWell();
    Statuses(START, calls)
  }

  /** Over every legal run: a struct is allocated exactly when it was successfully created and not released since; a
      database or connection is initialized exactly when, besides, an Init of it got past its checks and created the
      wrapped object, even if an option then failed; and the driver is poisoned exactly when a call was answered with the
      internal status. */
  lemma {:induction false} RunMirrors(calls: seq<Call>)
    requires LegalHistory(calls)
    ensures Mirrors(After(calls), calls, Codes(calls)) && Inv(After(calls))
  {
    StartsWell();
    if calls != [] {
      var front, c := calls[..|calls| - 1], calls[|calls| - 1];
      assert calls == front + [c];
      RunSnoc(START, front, c);
      RunMirrors(front);
      var s, codes := After(front), Codes(front);
      var t, code := Step(s, c).0, Step(s, c).1;
      StepKeeps(s, c);
      StepPoisons(s, c);
      PoisonedSnoc(codes, code);
      hide Inv, Step, Legal, Begins, Releases, PoisonedBy, Ready, LegalRun, Run, Statuses, Since;
      forall kind, address
        ensures Slot(kind, address) in t.slots <==> Since(false, calls, codes + [code], kind, address)
        ensures Ready(t, kind, Some(address)) <==> Since(true, calls, codes + [code], kind, address)
      {
        StepExplained(s, c, kind, address);
        SinceSnoc(false, front, codes, c, code, kind, address);
        SinceSnoc(true, front, codes, c, code, kind, address);
      }
    }
  }

  lemma StepAnswers(s: State, calls: seq<Call>, codes: seq<Status>, c: Call)
    requires |calls| == |codes| && Inv(s) && Legal(s, c) && Mirrors(s, calls, codes)
    ensures Step(s, c).1 == Answer(calls, codes, c)
  {
    hide Inv, Put, Drop, MarkReady, Since, PoisonedBy, Ready;
    forall kind, target
      ensures Allocated(s, kind, target) <==> Live(calls, codes, kind, target)
      ensures Ready(s, kind, target) <==> Initialized(calls, codes, kind, target)
      ensures Ready(s, kind, target) ==> Allocated(s, kind, target)
    {
      ReadyTarget(s, kind, target);
      assert target.Some? ==> target == Some(target.value);
    }
  }

  lemma ReadyTarget(s: State, kind: Kind, target: Option<nat>)
    ensures Ready(s, kind, target) ==> target.Some? && Allocated(s, kind, target)
  {
  }

  /** Over every legal run the answer to each call is determined by the calls before it and how they were answered. */
  lemma EveryAnswer(calls: seq<Call>, c: Call)
    requires LegalHistory(calls + [c])
    ensures LegalHistory(calls) && Codes(calls + [c]) == Codes(calls) + [Answer(calls, Codes(calls), c)]
  {
    StartsWell();
    RunSnoc(START, calls, c);
    RunMirrors(calls);
    hide Inv, Legal, LegalRun, Run, Statuses, Mirrors, Step, Answer;
    StepAnswers(After(calls), calls, Codes(calls), c);
  }

  lemma StepPoisons(s: State, c: Call)
    requires Inv(s) && Legal(s, c)
    ensures Step(s, c).0.poisoned <==> s.poisoned || Step(s, c).1 == Internal
  {
    hide Inv;
  }
}

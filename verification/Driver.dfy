/** The C entry points as code that changes the driver's globals, the cgo handle table and the callers' structs in
    place, in the order the driver does. Each one takes exactly the step of the state machine in Lifecycle. */
module Driver {
  import opened Prelude
  import opened Lifecycle

  class Library {
    var poisoned: bool
    var handles: map<nat, Object>
    var nextHandle: nat
    var slots: map<Slot, nat>
    var references: map<nat, nat>
    var nextReader: nat

    ghost function Model(): State
      reads this
    {
      State(poisoned, handles, nextHandle, slots, references, nextReader)
    }

    constructor ()
      ensures Model() == START && Inv(Model())
    {
      poisoned, handles, nextHandle, slots, references, nextReader := false, map[], 1, map[], map[], 0;
      new;
      StartsWell();
      hide Inv;
    }

    /** cgo.NewHandle, stored in private_data. */
    method Store(slot: Slot, o: Object)
      modifies this`handles, this`nextHandle, this`slots
      ensures Model() == Put(old(Model()), slot, o)
    {
      var h := nextHandle;
      handles := handles[h := o];
      nextHandle := nextHandle + 1;
      slots := slots[slot := h];
    }

    /** private_data is cleared before its handle is deleted. */
    method Take(slot: Slot) returns (o: Object)
      requires Inv(Model()) && slot in slots
      modifies this`handles, this`slots
      ensures Model() == Drop(old(Model()), slot)
      ensures old(slots[slot] in handles && o == handles[slots[slot]])
    {
      var h := slots[slot];
      slots := slots - {slot};
      o := handles[h];
      handles := handles - {h};
    }

    /** The deferred recover of every database, connection and statement entry point. */
    method Recover() returns (code: Status)
      modifies this`poisoned
      ensures Model() == Poison(old(Model())) && code == Internal
    {
      poisoned := true;
      code := Internal;
    }

    method Return(base: Base) returns (code: Status)
      modifies this`poisoned
      ensures (Model(), code) == AfterBase(old(Model()), base)
    {
      match base {
        case Succeeds => code := OK;
        case Fails => code := BaseError;
        case Panics => code := Recover();
      }
    }

    /** checkDBAlloc, checkConnAlloc and checkStmtAlloc. */
    method CheckAllocated(kind: Kind, target: Option<nat>) returns (ok: bool)
      ensures ok == (!poisoned && Allocated(Model(), kind, target))
    {
      if poisoned {
        return false;
      }
      if target.None? {
        return false;
      }
      ok := Slot(kind, target.value) in slots;
    }

    /** checkDBInit, checkConnInit and checkStmtInit. */
    method CheckInitialized(kind: Kind, target: Option<nat>) returns (ok: bool)
      requires Inv(Model())
      ensures ok == (!poisoned && Ready(Model(), kind, target))
    {
      ok := CheckAllocated(kind, target);
      if ok {
        ok := handles[slots[Slot(kind, target.value)]].ready;
      }
    }

    /** DatabaseNew and ConnectionNew. */
    method NewObject(kind: Kind, target: Option<nat>) returns (code: Status)
      requires Inv(Model()) && Legal(Model(), New(kind, target))
      modifies this
      ensures (Model(), code) == Step(old(Model()), New(kind, target)) && Inv(Model())
    {
      StepKeeps(Model(), New(kind, target));
      if poisoned {
        return Internal;
      }
      if target.None? {
        code := Recover();
        return;
      }
      if Slot(kind, target.value) in slots {
        return InvalidState;
      }
      Store(Slot(kind, target.value), Object(kind, false, 0));
      code := OK;
    }

    /** The wrapped object is kept as soon as it exists, so an option that fails leaves the object initialized. */
    method Initialize(slot: Slot, init: InitBase) returns (code: Status)
      requires Inv(Model()) && slot in slots
      modifies this`handles, this`poisoned
      ensures (Model(), code) == InitStep(old(Model()), slot, init)
    {
      match init {
        case NotCreated(panics) =>
          if panics {
            code := Recover();
          } else {
            code := BaseError;
          }
        case Created(options) =>
          var h := slots[slot];
          handles := handles[h := handles[h].(ready := true)];
          code := Return(options);
      }
    }

    method DatabaseInit(target: Option<nat>, init: InitBase) returns (code: Status)
      requires Inv(Model())
      modifies this
      ensures (Model(), code) == Step(old(Model()), InitDatabase(target, init)) && Inv(Model())
    {
      StepKeeps(Model(), InitDatabase(target, init));
      var ok := CheckAllocated(Database, target);
      if !ok {
        return InvalidState;
      }
      if handles[slots[Slot(Database, target.value)]].ready {
        return InvalidState;
      }
      code := Initialize(Slot(Database, target.value), init);
    }

    method ConnectionInit(target: Option<nat>, parent: Option<nat>, init: InitBase) returns (code: Status)
      requires Inv(Model())
      modifies this
      ensures (Model(), code) == Step(old(Model()), InitConnection(target, parent, init)) && Inv(Model())
    {
      StepKeeps(Model(), InitConnection(target, parent, init));
      var ok := CheckAllocated(Connection, target);
      if !ok {
        return InvalidState;
      }
      if handles[slots[Slot(Connection, target.value)]].ready {
        return InvalidState;
      }
      ok := CheckInitialized(Database, parent);
      if !ok {
        return InvalidState;
      }
      code := Initialize(Slot(Connection, target.value), init);
    }

    method StatementNew(parent: Option<nat>, target: Option<nat>, base: Base) returns (code: Status)
      requires Inv(Model())
      modifies this
      ensures (Model(), code) == Step(old(Model()), NewStatement(parent, target, base)) && Inv(Model())
    {
      StepKeeps(Model(), NewStatement(parent, target, base));
      if poisoned {
        return Internal;
      }
      if target.None? {
        code := Recover();
        return;
      }
      if Slot(Statement, target.value) in slots {
        return InvalidState;
      }
      var ok := CheckInitialized(Connection, parent);
      if !ok {
        return InvalidState;
      }
      code := Return(base);
      if code == OK {
        Store(Slot(Statement, target.value), Object(Statement, true, 0));
      }
    }

    /** Every call that only reads or changes the wrapped object. */
    method UseObject(kind: Kind, target: Option<nat>, needsReady: bool, base: Base) returns (code: Status)
      requires Inv(Model()) && Legal(Model(), Use(kind, target, needsReady, base))
      modifies this
      ensures (Model(), code) == Step(old(Model()), Use(kind, target, needsReady, base)) && Inv(Model())
    {
      StepKeeps(Model(), Use(kind, target, needsReady, base));
      var ok;
      if needsReady {
        ok := CheckInitialized(kind, target);
      } else {
        ok := CheckAllocated(kind, target);
      }
      if !ok {
        return InvalidState;
      }
      code := Return(base);
    }

    /** exportRecordReader between the base call, which hands over one reference, and the deferred Release. */
    method ExportRecordReader(out: Option<nat>) returns (code: Status)
      modifies this
      ensures Model() == ExportReader(old(Model()), out) && code == (if out.None? then Internal else OK)
    {
      var r := nextReader;
      nextReader := r + 1;
      references := references[r := 1];
      if out.None? {
        references := references[r := references[r] - 1];
        code := Recover();
        return;
      }
      Store(Slot(Stream, out.value), Object(Stream, true, r));
      references := references[r := references[r] + 1];
      references := references[r := references[r] - 1];
      code := OK;
    }

    /** Every call that returns its result as a stream. */
    method ExportCall(kind: Kind, target: Option<nat>, out: Option<nat>, base: Base) returns (code: Status)
      requires Inv(Model()) && Legal(Model(), Export(kind, target, out, base))
      modifies this
      ensures (Model(), code) == Step(old(Model()), Export(kind, target, out, base)) && Inv(Model())
    {
      StepKeeps(Model(), Export(kind, target, out, base));
      var ok := CheckInitialized(kind, target);
      if !ok {
        return InvalidState;
      }
      code := Return(base);
      if code == OK && !(kind == Statement && out.None?) {
        code := ExportRecordReader(out);
      }
    }

    /** DatabaseRelease, ConnectionRelease and StatementRelease; only the database one ignores what Close returns. */
    method ReleaseObject(kind: Kind, target: Option<nat>, base: Base) returns (code: Status)
      requires Inv(Model()) && Legal(Model(), Release(kind, target, base))
      modifies this
      ensures (Model(), code) == Step(old(Model()), Release(kind, target, base)) && Inv(Model())
    {
      StepKeeps(Model(), Release(kind, target, base));
      if kind == Statement && poisoned {
        return Internal;
      }
      var ok := CheckAllocated(kind, target);
      if !ok {
        return InvalidState;
      }
      var o := Take(Slot(kind, target.value));
      if !o.ready {
        return OK;
      }
      code := Return(base);
      if kind == Database && code == BaseError {
        code := OK;
      }
    }

    /** GetNext, GetSchema and GetLastError never look at the poison flag. */
    method StreamCall(target: Option<nat>) returns (code: Status)
      requires Inv(Model())
      ensures (Model(), code) == Step(Model(), UseStream(target))
    {
      if target.None? {
        return InvalidState;
      }
      code := if Slot(Stream, target.value) in slots then OK else InvalidState;
    }

    method StreamRelease(target: Option<nat>) returns (code: Status)
      requires Inv(Model())
      modifies this
      ensures (Model(), code) == Step(old(Model()), ReleaseStream(target)) && Inv(Model())
    {
      StepKeeps(Model(), ReleaseStream(target));
      code := OK;
      if target.None? || Slot(Stream, target.value) !in slots {
        return;
      }
      var slot := Slot(Stream, target.value);
      HolderCounted(Model(), slot);
      var o := Take(slot);
      references := references[o.reader := references[o.reader] - 1];
    }
  }
}

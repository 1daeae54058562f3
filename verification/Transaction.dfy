/** The vCPU register transaction, for any number of fields: a journal of register values that is
    staged, committed through native setters that may fail or misbehave, verified, and rolled back.

    The three instances of the original differ in their field table and value policy only; `Profile`
    is that difference.  The owner record, the callback table and the native CPU are shared objects.
    A mask is the set of its bits. */
module Transaction {
  import opened Wrappers

  type Value = nat

  const UINT64_MAX := 0xFFFF_FFFF_FFFF_FFFF
  const UINT32_MAX := 0xFFFF_FFFF

  type U64 = x: int | 0 <= x <= UINT64_MAX

  datatype Status = OK | UNSUPPORTED | NOT_READY | PENDING | CONFLICT | NATIVE_ERROR | MISMATCH
                  | RESTORE_FAILED | COMMITTED | POISONED | EPOCH_EXHAUSTED

  datatype State = UNBOUND | BOUND | SNAPSHOT | STAGED | COMMIT_STATE | RECOVERED | POISON_STATE

  datatype Kind = SIMD | REG | SYS

  datatype RegId = RegId(kind: Kind, field: nat)

  /** The native registers: every register has a value. */
  type Regs = m: imap<RegId, Value> | (forall id :: id in m) ghost witness (imap id: RegId :: 0)

  datatype Field = Field(id: RegId, offset: nat, width: nat)

  /** The values a guarded field may be staged with, besides its bound and its snapshot value. */
  datatype Rule = Exactly(index: nat, value: Value) | AtMost(index: nat, bound: Value)

  datatype Profile = Profile(magic: nat, nativeVersion: nat, fields: seq<Field>, rules: seq<Rule>) {
    function N(): nat { |fields| }

    ghost predicate Valid()
    {
      && magic != 0
      && (forall i, j :: 0 <= i < j < |fields| ==> fields[i].id != fields[j].id)
      && (forall r <- rules :: r.index < |fields|)
    }

    /** The field a value may be staged for, by its name and width. */
    function Target(id: RegId, v: Value): Option<nat>
    {
      match IndexFrom(fields, id, 0)
      case None => None
      case Some(i) => if fields[i].width == 4 && v > UINT32_MAX then None else Some(i)
    }

    /** The value policy of the guarded fields, given the snapshot of the field and the values the guarded
        fields were bound with. */
    predicate Permits(i: nat, v: Value, snapshot: Value, originals: seq<Value>)
    {
      |originals| == |rules| &&
      forall k :: 0 <= k < |rules| && rules[k].index == i ==>
        || (match rules[k] case Exactly(_, x) => v == x case AtMost(_, b) => v <= b)
        || v == snapshot || v == originals[k]
    }

    predicate Allows(j: Journal, i: nat, v: Value)
    {
      i < |j.baseline| && Permits(i, v, j.baseline[i], j.originals)
    }
  }

  /** `Index`: the position of a field in the table. */
  function IndexFrom(fields: seq<Field>, id: RegId, i: nat): (r: Option<nat>)
    requires i <= |fields|
    ensures r.Some? ==> i <= r.value < |fields| && fields[r.value].id == id
    ensures r == None ==> forall j :: i <= j < |fields| ==> fields[j].id != id
    decreases |fields| - i
  {
    if i == |fields| then None else if fields[i].id == id then Some(i) else IndexFrom(fields, id, i + 1)
  }

  datatype Handle = Handle(id: nat, generation: nat, leaseEpoch: nat)

  /** The owner record as a value. */
  datatype OwnerRec = OwnerRec(id: nat, generation: nat, ownerThread: nat, leaseEpoch: nat, stateEpoch: nat,
                               owned: bool, idValid: bool, neverRun: bool, quarantined: bool, activeLease: Txn?)

  /** The callback table as a value; a callback is the number of its address, zero when missing. */
  datatype OpsRec = OpsRec(identityVerified: bool, vmProviderABI: nat, vcpuProviderABI: nat, providerEpoch: nat,
                           callbacks: seq<nat>)

  /** One call of a native setter: by which transaction, whether that transaction's guard conditions held
      at the call, whether the field was already in its journal of attempted fields, and the snapshot and the
      bound values of that journal. */
  datatype Event = Event(txn: Txn, index: nat, value: Value, guarded: bool, journalled: bool,
                         snapshot: Value, originals: seq<Value>)

  /** A hostile CPU's callbacks may change the owner record and the callback table; a quiet one's leave
      them alone; a faithful one is quiet, never fails and writes exactly what it is told. */
  datatype Nature = Hostile | Quiet | Faithful

  class Owner {
    var id: nat
    var generation: nat
    var ownerThread: nat
    var leaseEpoch: nat
    var stateEpoch: U64
    var owned: bool
    var idValid: bool
    var neverRun: bool
    var quarantined: bool
    var activeLease: Txn?

    function Rec(): OwnerRec
      reads this
    {
      OwnerRec(id, generation, ownerThread, leaseEpoch, stateEpoch, owned, idValid, neverRun, quarantined, activeLease)
    }
  }

  class Ops {
    var identityVerified: bool
    var vmProviderABI: nat
    var vcpuProviderABI: nat
    var providerEpoch: nat
    var callbacks: seq<nat>

    function Rec(): OpsRec
      reads this
    {
      OpsRec(identityVerified, vmProviderABI, vcpuProviderABI, providerEpoch, callbacks)
    }
  }

  /** Every callback of the table is present. */
  predicate AllPresent(callbacks: seq<nat>)
  {
    callbacks != [] && forall c <- callbacks :: c != 0
  }

  /** `VZTxnOwnerValid`; the owner pointer of the handle is the record itself. */
  predicate OwnerValid(o: OpsRec, s: OwnerRec, h: Handle, thread: nat)
  {
    && o.identityVerified && o.vmProviderABI == 13 && o.vcpuProviderABI == 13 && o.providerEpoch != 0
    && s.owned && s.idValid && s.id < 64 && h.id == s.id
    && s.generation != 0 && h.generation == s.generation && s.leaseEpoch != 0 && h.leaseEpoch == s.leaseEpoch
    && s.stateEpoch != 0 && s.ownerThread != 0 && thread == s.ownerThread && s.neverRun && !s.quarantined
  }

  /** What native memory says of the CPU as a whole: where its context is, and the version word inside it. */
  datatype NativeRec = NativeRec(context: nat, version: nat)

  class Native {
    var context: nat
    var version: nat

    function Rec(): NativeRec
      reads this
    {
      NativeRec(context, version)
    }
  }

  /** The native CPU behind the callbacks.  `regs` is what native memory holds for each register, at the
      width of its field.  Registers change only in `Set`, which may fail, write other registers or write
      nothing, and may leave another context behind.  A read of native memory that succeeds is truthful; a typed
      getter may return anything. */
  class Cpu {
    const owner: Owner
    const ops: Ops
    const native: Native
    const nature: Nature
    var regs: Regs
    var dirty: seq<nat>
    var thread: nat
    ghost var log: seq<Event>

    constructor (owner: Owner, ops: Ops, native: Native, nature: Nature, regs: Regs, thread: nat)
      ensures this.owner == owner && this.ops == ops && this.native == native && this.nature == nature
      ensures this.regs == regs && |dirty| == 3 && this.thread == thread && log == []
    {
      this.owner, this.ops, this.native, this.nature, this.regs, this.thread :=
        owner, ops, native, nature, regs, thread;
      dirty, log := [0, 0, 0], [];
    }

    predicate IsQuiet() { nature != Hostile }

    predicate IsFaithful() { nature == Faithful }

    /** The callback did not meddle, unless the CPU is hostile. */
    twostate predicate Quietly()
      reads owner, ops, native
    {
      IsQuiet() ==> owner.Rec() == old(owner.Rec()) && ops.Rec() == old(ops.Rec()) && native.Rec() == old(native.Rec())
    }

    /** What a callback may do to the shared records besides its job. */
    method Interfere()
      modifies owner, ops, native
      ensures Quietly()
    {
      if !IsQuiet() {
        owner.id, owner.generation, owner.ownerThread, owner.leaseEpoch, owner.stateEpoch := *, *, *, *, *;
        owner.owned, owner.idValid, owner.neverRun, owner.quarantined := *, *, *, *;
        ops.identityVerified, ops.vmProviderABI, ops.vcpuProviderABI, ops.providerEpoch, ops.callbacks := *, *, *, *, *;
        owner.activeLease, native.context, native.version := *, *, *;
      }
    }

    method Context() returns (c: nat)
      modifies owner, ops, native
      ensures Quietly() && c == native.context
    {
      Interfere();
      c := native.context;
    }

    method ReadVersion() returns (ok: bool, v: nat)
      modifies owner, ops, native
      ensures Quietly() && (ok ==> v == native.version) && (IsFaithful() ==> ok)
    {
      Interfere();
      ok, v := *, native.version;
      if IsFaithful() { ok := true; }
    }

    method Get(id: RegId) returns (rc: int, v: Value)
      modifies owner, ops, native
      ensures Quietly() && (IsFaithful() ==> rc == 0 && v == regs[id])
    {
      Interfere();
      rc, v := *, *;
      if IsFaithful() { rc, v := 0, regs[id]; }
    }

    method ReadField(id: RegId) returns (ok: bool, v: Value)
      modifies owner, ops, native
      ensures Quietly() && (ok ==> v == regs[id]) && (IsFaithful() ==> ok)
    {
      Interfere();
      ok, v := *, regs[id];
      if IsFaithful() { ok := true; }
    }

    method ReadDirtyWord(j: nat) returns (ok: bool, v: nat)
      requires j < |dirty|
      modifies owner, ops, native
      ensures Quietly() && (ok ==> v == dirty[j]) && (IsFaithful() ==> ok)
    {
      Interfere();
      ok, v := *, dirty[j];
      if IsFaithful() { ok := true; }
    }

    method Set(id: RegId, v: Value, ghost e: Event) returns (rc: int)
      requires |dirty| == 3
      modifies this`regs, this`dirty, this`log, owner, ops, native
      ensures IsQuiet() ==> owner.Rec() == old(owner.Rec()) && ops.Rec() == old(ops.Rec())
      ensures log == old(log) + [e] && |dirty| == 3
      ensures IsFaithful() ==> rc == 0 && regs == old(regs)[id := v] && native.Rec() == old(native.Rec())
    {
      log := log + [e];
      Interfere();
      rc := *;
      var d: seq<nat> := *;
      if |d| == 3 { dirty := d; }
      if IsFaithful() {
        rc, regs := 0, regs[id := v];
      } else {
        regs, native.context, native.version := *, *, *;
      }
    }
  }

  /** `VZTxnResult`; a return code is None until a setter has returned. */
  datatype Result = Result(status: Status, triggerStatus: Status, failedIndex: Option<nat>,
                           setRC: Option<int>, restoreRC: Option<int>,
                           attempted: set<nat>, restoreAttempted: set<nat>, ownerEpochBefore: nat, ownerEpochAfter: nat,
                           valuesCommitted: bool, fullReadbackVerified: bool, registerValuesExactlyRestored: bool,
                           nativeDirtyExactlyRestored: bool, dirtyObserved: bool, restoreCallsSucceeded: bool,
                           foreignRestoreBlocked: bool, quarantined: bool, dirtyBefore: seq<nat>, dirtyAfter: seq<nat>)
  {
    function End(s: Status): (r: Result)
      ensures r.status == s && r.Follows(this)
    {
      this.(status := s)
    }

    function Trigger(s: Status, a: set<nat>): (r: Result)
      ensures r.triggerStatus == s && r.attempted == a
    {
      this.(triggerStatus := s, attempted := a)
    }

    function Blocked(): (r: Result) ensures r.Follows(this) { this.(foreignRestoreBlocked := true) }

    function Quarantine(): (r: Result) ensures r.Follows(this) { this.(quarantined := true) }

    function Epoch(e: nat): Result { this.(ownerEpochAfter := e) }

    function Restoring(i: nat): (r: Result)
      ensures r.Follows(this) && r.restoreRC == restoreRC
    {
      this.(restoreAttempted := restoreAttempted + {i})
    }

    function RestoreReturned(rc: int): (r: Result)
      ensures r.Follows(this) && (rc == 0 && NoRestoreError() ==> r.NoRestoreError())
    {
      if rc != 0 then this.(restoreRC := Some(rc)) else if restoreRC == None then this.(restoreRC := Some(0)) else this
    }

    function Failed(i: nat): (r: Result)
      ensures r.failedIndex == Some(i) && r.restoreRC == restoreRC && r.setRC == setRC
    {
      this.(failedIndex := Some(i))
    }

    function SetReturned(rc: int): (r: Result)
      ensures r.setRC == Some(rc) && r.restoreRC == restoreRC { this.(setRC := Some(rc)) }

    function ReadBack(fine: bool, exact: bool): (r: Result)
      ensures r.Follows(this)
    {
      this.(restoreCallsSucceeded := fine, registerValuesExactlyRestored := exact)
    }

    /** `ReportDirty` */
    function Dirty(before: seq<nat>, after: seq<nat>): (r: Result)
      ensures r.Follows(this)
    {
      this.(dirtyBefore := before, dirtyAfter := after, dirtyObserved := true,
            nativeDirtyExactlyRestored := before == after)
    }

    function Verified(a: set<nat>): Result { this.(attempted := a, valuesCommitted := true,
                      fullReadbackVerified := true) }

    lemma RollbackReport(before: seq<nat>, after: seq<nat>, epoch: nat)
      requires NoRestoreError()
      ensures ReadBack(true, true).Dirty(before, after).Epoch(epoch).End(triggerStatus)
              .TellsRollback(triggerStatus, attempted, epoch)
    {
    }

    lemma CommitReport(a: set<nat>, before: seq<nat>, after: seq<nat>, epoch: nat)
      requires NoSetError()
      ensures Epoch(epoch).Verified(a).Dirty(before, after).End(OK).TellsCommit(a, epoch)
    {
    }

    /** No setter of the rollback, or of the commit, has reported an error. */
    predicate NoRestoreError() { restoreRC == None || restoreRC == Some(0) }

    predicate NoSetError() { setRC == None || setRC == Some(0) }

    /** It names the trigger of the same rollback. */
    predicate Follows(r: Result) { triggerStatus == r.triggerStatus && attempted == r.attempted }
    /** It reports the commit of the fields in `a`. */
    predicate TellsCommit(a: set<nat>, epoch: nat)
    {
      status == OK && NoSetError() && valuesCommitted && fullReadbackVerified && dirtyObserved && attempted == a
        && ownerEpochAfter == epoch
    }
    /** It reports the exact rollback of the fields in `a`. */
    predicate TellsRollback(trigger: Status, a: set<nat>, epoch: nat)
    {
      && status == triggerStatus == trigger && attempted == a && ownerEpochAfter == epoch && NoRestoreError()
      && registerValuesExactlyRestored && restoreCallsSucceeded && dirtyObserved
    }
  }

  /** The indices whose two values differ. */
  function Diff(a: seq<Value>, b: seq<Value>): set<nat>
    requires |a| == |b|
  {
    set i: nat | 0 <= i < |a| && a[i] != b[i]
  }

  function Zeros(n: nat): seq<Value> { seq(n, _ => 0) }

  ghost function ValuesOf(p: Profile, regs: Regs): (v: seq<Value>)
    ensures |v| == p.N()
  {
    seq(p.N(), i requires 0 <= i < p.N() => regs[p.fields[i].id])
  }

  /** What binding fixed: the callback table as it was, the lifetime, the native context and the epochs. */
  datatype Lease = Lease(frozen: seq<nat>, handle: Handle, context: nat, providerEpoch: nat, stateEpoch: U64)

  /** The values and masks of a transaction. */
  datatype Journal = Journal(serial: U64, originals: seq<Value>, baseline: seq<Value>, requested: seq<Value>,
                             committed: seq<Value>, pending: set<nat>, attempted: set<nat>,
                             snapshotDirty: seq<nat>, committedDirty: seq<nat>)

  const NO_LEASE := Lease([], Handle(0, 0, 0), 0, 0, 0)

  function NoJournal(p: Profile): Journal
  {
    Journal(0, Zeros(|p.rules|), Zeros(p.N()), Zeros(p.N()), Zeros(p.N()), {}, {}, [0, 0, 0], [0, 0, 0])
  }

  /** The arrays have their sizes. */
  ghost predicate Sized(p: Profile, j: Journal)
  {
    && |j.baseline| == |j.requested| == |j.committed| == p.N() && |j.originals| == |p.rules|
    && |j.snapshotDirty| == |j.committedDirty| == 3
  }

  /** Every requested value is one that may be staged. */
  ghost predicate Permitted(p: Profile, j: Journal)
  {
    forall i :: 0 <= i < |j.requested| ==> p.Allows(j, i, j.requested[i])
  }

  /** A pending bit is set exactly where the requested value differs from the baseline, and the state
      says whether there is one; a committed transaction still holds what it wrote. */
  ghost predicate Consistent(p: Profile, magic: nat, state: State, j: Journal)
  {
    && Sized(p, j) && Permitted(p, j) && j.pending == Diff(j.requested, j.baseline)
    && (magic == 0 <==> state == UNBOUND) && (magic != 0 ==> magic == p.magic)
    && (state == STAGED || state == COMMIT_STATE ==> j.pending != {})
    && (state == UNBOUND || state == BOUND || state == SNAPSHOT || state == RECOVERED ==> j.pending == {})
    && (state == COMMIT_STATE ==> j.committed == j.requested && j.attempted == j.pending)
    && (state != COMMIT_STATE && state != POISON_STATE ==> j.attempted == {})
  }

  /** The table is well formed and the CPU has its three dirty words. */
  ghost predicate Serves(p: Profile, dirty: seq<nat>)
  {
    p.Valid() && |dirty| == 3
  }

  /** A call of the interface. */
  datatype Call = CallBind(h: Handle) | CallObserve | CallSnapshot | CallStage(id: RegId, v: Value) | CallCancel
                | CallCommit | CallVerify | CallRestore | CallRelease

  /** The part of a transaction that decides who holds the lease. */
  datatype View = View(magic: nat, state: State, lease: Lease)

  /** The transaction is live, and its lease names the owner's present lifetime and state epoch. */
  ghost predicate Holder(t: Txn, v: View, s: OwnerRec)
  {
    && v.state != UNBOUND && v.state != POISON_STATE && s.activeLease == t
    && v.lease.handle == Handle(s.id, s.generation, s.leaseEpoch) && v.lease.stateEpoch == s.stateEpoch
  }

  /** What one call on transaction `t` may do: `v` and `v'` are the transaction before and after, `s` and
      `s'` the owner record, and `calls` the native setters it called. */
  ghost predicate Step(t: Txn, v: View, s: OwnerRec, v': View, s': OwnerRec, calls: seq<Event>)
  {
    || Idle(v, s, v', s', calls) || Taking(t, v, s, v', s', calls)
    || Leaving(t, v, s, v', s', calls) || Working(t, v, s, v', s', calls)
  }

  ghost predicate Idle(v: View, s: OwnerRec, v': View, s': OwnerRec, calls: seq<Event>)
  {
    v' == v && s' == s && calls == []
  }

  ghost predicate Taking(t: Txn, v: View, s: OwnerRec, v': View, s': OwnerRec, calls: seq<Event>)
  {
    && v.state == UNBOUND && s.activeLease == null && calls == []
    && v'.state == BOUND && s' == s.(activeLease := t) && Holder(t, v', s')
  }

  ghost predicate Leaving(t: Txn, v: View, s: OwnerRec, v': View, s': OwnerRec, calls: seq<Event>)
  {
    && Holder(t, v, s) && (v.state == BOUND || v.state == SNAPSHOT || v.state == RECOVERED) && calls == []
    && v'.state == UNBOUND && s' == s.(activeLease := null)
  }

  ghost predicate Working(t: Txn, v: View, s: OwnerRec, v': View, s': OwnerRec, calls: seq<Event>)
  {
    && Holder(t, v, s) && (v'.state == POISON_STATE || Holder(t, v', s'))
    && (calls != [] ==> v.state == STAGED || v.state == COMMIT_STATE) && AllGuarded(t, calls)
    && (v.state == COMMIT_STATE ==> v'.state == COMMIT_STATE || v'.state == RECOVERED || v'.state == POISON_STATE)
    && (|| s' == s
        || (s' == Advanced(s) && s.stateEpoch < UINT64_MAX)
        || (s' == s.(quarantined := true) && v'.state == POISON_STATE))
  }

  /** Every setter was called by this transaction while its guard conditions held, on a journalled field and
      with a value that may be staged. */
  ghost predicate AllGuarded(t: Txn, calls: seq<Event>)
  {
    forall e <- calls ::
      && e.txn == t && e.guarded && e.journalled
      && t.p.Permits(e.index, e.value, e.snapshot, e.originals)
  }

  lemma {:induction false} ForwardIsGuarded(t: Txn, j: Journal, k: nat)
    requires Sized(t.p, j) && Permitted(t.p, j) && k <= t.p.N()
    ensures AllGuarded(t, Forward(t, j, k))
  {
    if k > 0 {
      ForwardIsGuarded(t, j, k - 1);
      assert t.p.Allows(j, k - 1, j.requested[k - 1]);
    }
  }

  lemma {:induction false} BackwardIsGuarded(t: Txn, j: Journal, lo: nat)
    requires Sized(t.p, j) && lo <= t.p.N()
    ensures AllGuarded(t, Backward(t, j, lo))
    decreases t.p.N() - lo
  {
    if lo < t.p.N() { BackwardIsGuarded(t, j, lo + 1); }
  }

  lemma AttemptIsGuarded(t: Txn, j: Journal, k: nat, lo: nat)
    requires Sized(t.p, j) && Permitted(t.p, j) && k <= t.p.N() && lo <= t.p.N()
    ensures AllGuarded(t, Attempt(t, j, k, lo))
  {
    hide Forward, Backward;
    ForwardIsGuarded(t, j, k);
    BackwardIsGuarded(t, j.(attempted := UpTo(j.pending, k)), lo);
  }

  class Txn {
    const p: Profile
    const cpu: Cpu
    var magic: nat
    var state: State
    var lease: Lease
    var j: Journal

    ghost predicate Shaped()
      reads this, cpu
    {
      Serves(p, cpu.dirty) && Sized(p, j)
    }

    ghost predicate Valid()
      reads this, cpu
    {
      && Serves(p, cpu.dirty) && Consistent(p, magic, state, j)
      && (state == UNBOUND ==> lease == NO_LEASE && j == NoJournal(p))
    }

    /** The native values of this transaction's fields. */
    ghost function Current(): (v: seq<Value>)
      reads this, cpu
      ensures |v| == p.N()
    {
      ValuesOf(p, cpu.regs)
    }

    constructor (p: Profile, cpu: Cpu)
      requires Serves(p, cpu.dirty)
      ensures Valid() && state == UNBOUND && this.p == p && this.cpu == cpu
    {
      DiffSame(Zeros(p.N()));
      this.p, this.cpu, magic, state, lease, j := p, cpu, 0, UNBOUND, NO_LEASE, NoJournal(p);
    }

    // ------------------------------------------------------------ guard

    /** `CallbacksStable` */
    predicate CallbacksStable()
      reads this`lease, cpu.ops
    {
      AllPresent(cpu.ops.callbacks) && cpu.ops.callbacks == lease.frozen
    }

    /** This transaction holds the owner's lease, for the lifetime and the epochs it was bound to. */
    predicate Holds()
      reads this`magic, this`lease, cpu`thread, cpu.owner, cpu.ops
    {
      && magic == p.magic && CallbacksStable()
      && OwnerValid(cpu.ops.Rec(), cpu.owner.Rec(), lease.handle, cpu.thread)
      && cpu.owner.activeLease == this
      && cpu.ops.providerEpoch == lease.providerEpoch && cpu.owner.stateEpoch == lease.stateEpoch
    }

    /** The conditions `Guard` checks before and after it consults the CPU. */
    predicate Checks()
      reads this`magic, this`lease, this`state, cpu`thread, cpu.owner, cpu.ops
    {
      state != UNBOUND && state != POISON_STATE && Holds()
    }

    /** The context is the one the transaction was bound to, and carries the expected version. */
    predicate Genuine()
      reads this`lease, cpu.native
    {
      lease.context == cpu.native.context && lease.context != 0 && cpu.native.version == p.nativeVersion
    }

    /** What a successful guard says of this moment: a hostile callback may have changed the context since. */
    predicate Guarded()
      reads this`magic, this`lease, this`state, cpu`thread, cpu.owner, cpu.ops, cpu.native
    {
      Checks() && (cpu.IsQuiet() ==> Genuine())
    }

    /** On a faithful CPU nothing makes a guard fail that held before. */
    ghost predicate Trusted()
      reads this`magic, this`lease, this`state, cpu`thread, cpu.owner, cpu.ops, cpu.native
    {
      Checks() && cpu.IsFaithful() && Genuine()
    }

    /** The shared records are what they were, unless the CPU's callbacks meddle. */
    twostate predicate Undisturbed()
      reads cpu.owner, cpu.ops
    {
      cpu.IsQuiet() ==> cpu.owner.Rec() == old(cpu.owner.Rec()) && cpu.ops.Rec() == old(cpu.ops.Rec())
    }

    function Face(): View
      reads this`magic, this`state, this`lease
    {
      View(magic, state, lease)
    }

    /** On a quiet CPU the call was a step of the lease protocol. */
    twostate predicate Lawful()
      reads this, cpu, cpu.owner
    {
      cpu.IsQuiet() ==>
        && old(cpu.log) <= cpu.log
        && Step(this, old(Face()), old(cpu.owner.Rec()), Face(), cpu.owner.Rec(), cpu.log[|old(cpu.log)|..])
    }

    lemma CheckedIsHolder()
      requires Checks()
      ensures Holder(this, Face(), cpu.owner.Rec())
    {
    }

    twostate lemma RefusalIsLawful()
      requires Undisturbed() && Face() == old(Face()) && cpu.log == old(cpu.log)
      ensures Lawful()
    {
    }

    twostate lemma StagingIsLawful()
      requires Undisturbed() && lease == old(lease) && cpu.log == old(cpu.log) && old(state) != COMMIT_STATE
      requires old(Checks()) && Checks()
      ensures Lawful()
    {
      hide OwnerValid, CallbacksStable;
      if cpu.IsQuiet() {
        CheckedIsHolder();
        assert old(Holder(this, Face(), cpu.owner.Rec())) by { OldCheckedIsHolder(); }
      }
    }

    twostate lemma BindingIsLawful()
      requires cpu.IsQuiet() ==>
                 cpu.owner.Rec() == old(cpu.owner.Rec()).(activeLease := this) && old(cpu.owner.activeLease) == null
      requires old(state) == UNBOUND && state == BOUND && Checks() && cpu.log == old(cpu.log)
      ensures Lawful()
    {
      hide OwnerValid, CallbacksStable;
      CheckedIsHolder();
    }

    twostate lemma ReleaseIsLawful()
      requires cpu.IsQuiet() ==> cpu.owner.Rec() == old(cpu.owner.Rec()).(activeLease := null)
      requires old(state) == BOUND || old(state) == SNAPSHOT || old(state) == RECOVERED
      requires old(Checks()) && state == UNBOUND && cpu.log == old(cpu.log)
      ensures Lawful()
    {
      hide OwnerValid, CallbacksStable;
      OldCheckedIsHolder();
    }

    twostate lemma WritingIsLawful(calls: seq<Event>)
      requires old(Checks()) && (old(state) == STAGED || old(state) == COMMIT_STATE)
      requires state == POISON_STATE || (Checks() && (old(state) == COMMIT_STATE ==> state == RECOVERED))
      requires cpu.IsQuiet() ==> EpochStep(old(cpu.owner.Rec()), cpu.owner.Rec(), this)
      requires cpu.log == old(cpu.log) + calls && AllGuarded(this, calls)
      ensures Lawful()
    {
      hide CallbacksStable, AllGuarded;
      OldCheckedIsHolder();
      if state != POISON_STATE { CheckedIsHolder(); }
      if cpu.IsQuiet() {
        assert cpu.log[|old(cpu.log)|..] == calls;
        assert Working(this, old(Face()), old(cpu.owner.Rec()), Face(), cpu.owner.Rec(), calls);
      }
    }

    twostate lemma OldCheckedIsHolder()
      requires old(Checks())
      ensures old(Holder(this, Face(), cpu.owner.Rec()))
    {
    }

    method Guard() returns (ok: bool)
      modifies cpu.owner, cpu.ops, cpu.native
      ensures Undisturbed()
      ensures ok ==> old(Checks()) && Guarded()
      ensures old(Trusted()) ==> ok && Trusted()
    {
      if !Checks() { return false; }
      var current := cpu.Context();
      if current == 0 || current != lease.context { return false; }
      var read, version := cpu.ReadVersion();
      if !read || version != p.nativeVersion { return false; }
      ok := Checks();
    }

    /** `ReadNative`: the typed value, cross-checked against native memory. */
    method ReadNative(i: nat) returns (code: Status, v: Value)
      requires Serves(p, cpu.dirty)
      modifies cpu.owner, cpu.ops, cpu.native
      ensures Undisturbed()
      ensures code == OK ==> i < p.N() && v == Current()[i] && Checks()
      ensures code == OK || code == NOT_READY || code == NATIVE_ERROR || code == MISMATCH
              || (code == UNSUPPORTED && i >= p.N())
      ensures old(Trusted()) && i < p.N() ==> code == OK && Trusted()
    {
      v := 0;
      if i >= p.N() { return UNSUPPORTED, v; }
      var ok := Guard();
      if !ok { return NOT_READY, v; }
      var id := p.fields[i].id;
      var rc, actual := cpu.Get(id);
      if rc != 0 { return NATIVE_ERROR, v; }
      ok := Guard();
      if !ok { return NOT_READY, v; }
      var read, raw := cpu.ReadField(id);
      if !read { return MISMATCH, v; }
      ok := Guard();
      if !ok { return NOT_READY, v; }
      if actual != raw { return MISMATCH, v; }
      return OK, actual;
    }

    /** `ReadDirty`: the three audited native words. */
    method ReadDirty() returns (code: Status, values: seq<nat>)
      requires Serves(p, cpu.dirty)
      modifies cpu.owner, cpu.ops, cpu.native
      ensures Undisturbed()
      ensures code == OK ==> values == cpu.dirty && Checks()
      ensures code == OK || code == NOT_READY || code == MISMATCH
      ensures old(Trusted()) ==> code == OK && Trusted()
    {
      values := [];
      var ok := Guard();
      if !ok { return NOT_READY, values; }
      for i := 0 to 3
        invariant Undisturbed() && values == cpu.dirty[..i]
        invariant old(Trusted()) ==> Trusted()
      {
        ok := Guard();
        if !ok { return NOT_READY, values; }
        var read, w := cpu.ReadDirtyWord(i);
        if !read { return MISMATCH, values; }
        values := values + [w];
        ok := Guard();
        if !ok { return NOT_READY, values; }
      }
      ok := Guard();
      code := if ok then OK else NOT_READY;
    }

    /** `VZTxnObserve`: every field and the dirty words, which must not change meanwhile. */
    method Observe() returns (code: Status, values: seq<Value>, dirty: seq<nat>)
      requires Serves(p, cpu.dirty)
      modifies cpu.owner, cpu.ops, cpu.native
      ensures Undisturbed()
      ensures code == OK ==> values == Current() && dirty == cpu.dirty && Checks()
      ensures code == OK || code == NOT_READY || code == NATIVE_ERROR || code == MISMATCH || code == CONFLICT
      ensures old(Trusted()) ==> code == OK && Trusted()
    {
      hide Checks, Trusted;
      values := [];
      code, dirty := ReadDirty();
      if code != OK { return; }
      for i := 0 to p.N()
        invariant Undisturbed() && values == Current()[..i]
        invariant old(Trusted()) ==> Trusted()
      {
        var v;
        code, v := ReadNative(i);
        if code != OK { return; }
        values := values + [v];
      }
      var after;
      code, after := ReadDirty();
      if code != OK { return; }
      if dirty != after { code := CONFLICT; }
    }

    /** `SetNative`, logged with the state of the guard and of the journal at the call. */
    method SetNative(i: nat, v: Value) returns (rc: int)
      requires Shaped() && i < p.N()
      modifies cpu`regs, cpu`dirty, cpu`log, cpu.owner, cpu.ops, cpu.native
      ensures Undisturbed() && Serves(p, cpu.dirty)
      ensures cpu.log == old(cpu.log) +
                [Event(this, i, v, old(Guarded()), i in j.attempted, j.baseline[i], j.originals)]
      ensures old(Trusted()) ==> rc == 0 && Trusted() && Current() == old(Current())[i := v]
    {
      ghost var e := Event(this, i, v, Guarded(), i in j.attempted, j.baseline[i], j.originals);
      rc := cpu.Set(p.fields[i].id, v, e);
      if old(Trusted()) {
        WrittenValue(p, old(cpu.regs), i, v);
      }
    }

    /** `Poison`: the owner is quarantined only while it still names exactly this lifetime. */
    method Poison(r: Result) returns (r': Result)
      modifies this`state, cpu.owner`quarantined
      ensures state == POISON_STATE
      ensures cpu.owner.quarantined == (old(cpu.owner.quarantined) || NamesThisLifetime())
      ensures r' == if NamesThisLifetime() then r.Quarantine() else r
    {
      r' := r;
      if NamesThisLifetime() {
        cpu.owner.quarantined := true;
        r' := r.Quarantine();
      }
      state := POISON_STATE;
    }

    /** The owner record still names exactly this transaction's lifetime, on its own thread. */
    predicate NamesThisLifetime()
      reads this`lease, cpu`thread, cpu.owner
    {
      && cpu.owner.activeLease == this && cpu.owner.id == lease.handle.id
         && cpu.owner.generation == lease.handle.generation
      && cpu.owner.leaseEpoch == lease.handle.leaseEpoch && cpu.thread == cpu.owner.ownerThread
    }

    // ------------------------------------------------------------ bind, snapshot, stage, cancel, release

    /** `*t = {0}` */
    method Clear()
      requires Serves(p, cpu.dirty)
      modifies this
      ensures Valid() && Face() == View(0, UNBOUND, NO_LEASE) && j == NoJournal(p)
    {
      DiffSame(Zeros(p.N()));
      magic, state, lease, j := 0, UNBOUND, NO_LEASE, NoJournal(p);
    }

    /** The values the guarded fields had at bind time. */
    ghost predicate Bound(values: seq<Value>)
      reads this, cpu
      requires Serves(p, cpu.dirty)
    {
      |values| == |p.rules| && forall k :: 0 <= k < |values| ==>
        p.rules[k].index < p.N() && values[k] == Current()[p.rules[k].index]
    }

    method ReadOriginals() returns (code: Status, values: seq<Value>)
      requires Serves(p, cpu.dirty) && p.rules != []
      modifies cpu.owner, cpu.ops, cpu.native
      ensures Undisturbed()
      ensures code == OK ==> Bound(values) && Checks()
      ensures code == OK || code == NOT_READY || code == NATIVE_ERROR || code == MISMATCH
      ensures old(Trusted()) ==> code == OK && Trusted()
    {
      hide Checks, Trusted, ValuesOf;
      values, code := [], OK;
      for k := 0 to |p.rules|
        invariant Undisturbed() && |values| == k && code == OK && (k > 0 ==> Checks())
        invariant forall q :: 0 <= q < k ==> p.rules[q].index < p.N() && values[q] == Current()[p.rules[q].index]
        invariant old(Trusted()) ==> Trusted()
      {
        assert p.rules[k] in p.rules;
        var v;
        code, v := ReadNative(p.rules[k].index);
        if code != OK { return; }
        values := values + [v];
      }
    }

    /** On a faithful CPU with a valid owner and nobody else in the way, binding succeeds. */
    ghost predicate CanBind(h: Handle)
      reads this`state, cpu`thread, cpu.owner, cpu.ops, cpu.native
    {
      && state == UNBOUND && cpu.IsFaithful() && cpu.native.context != 0 && cpu.native.version == p.nativeVersion
      && cpu.owner.activeLease == null
      && AllPresent(cpu.ops.callbacks) && OwnerValid(cpu.ops.Rec(), cpu.owner.Rec(), h, cpu.thread)
    }

    /** `VZTxnBind`: takes the owner's lease when nobody holds it. */
    method Bind(h: Handle) returns (code: Status)
      requires Valid() && p.rules != []
      modifies this, cpu.owner, cpu.ops, cpu.native
      ensures Valid()
      ensures old(state) != UNBOUND ==> code == PENDING
      ensures code == OK ==> state == BOUND && Checks() && lease.handle == h && Bound(j.originals)
      ensures code != OK ==> Face() == old(Face()) && j == old(j)
      ensures cpu.IsQuiet() ==> cpu.ops.Rec() == old(cpu.ops.Rec())
      ensures cpu.IsQuiet() ==> cpu.owner.Rec() == if code == OK then old(cpu.owner.Rec()).(activeLease := this)
              else old(cpu.owner.Rec())
      ensures cpu.IsQuiet() && code == OK ==> old(cpu.owner.activeLease) == null
      ensures old(CanBind(h)) ==> code == OK && Trusted()
    {
      hide Diff, ValuesOf, Profile.Valid;
      if magic != 0 || state != UNBOUND { return PENDING; }
      if !AllPresent(cpu.ops.callbacks)
        || !OwnerValid(cpu.ops.Rec(), cpu.owner.Rec(), h, cpu.thread) { return NOT_READY; }
      if cpu.owner.activeLease != null { return PENDING; }
      var frozen, epoch := cpu.ops.callbacks, cpu.ops.providerEpoch;
      var context := cpu.Context();
      if context == 0 || !AllPresent(cpu.ops.callbacks) || cpu.ops.callbacks != frozen
         || !OwnerValid(cpu.ops.Rec(), cpu.owner.Rec(), h, cpu.thread)
         || cpu.owner.activeLease != null { return NOT_READY; }
      code := TakeLease(Lease(frozen, h, context, epoch, cpu.owner.stateEpoch));
    }

    /** The second half of `VZTxnBind`: the lease is taken, the originals are read, and a failure gives the
        lease back. */
    method TakeLease(l: Lease) returns (code: Status)
      requires Valid() && state == UNBOUND && p.rules != [] && cpu.owner.activeLease == null
      requires OwnerValid(cpu.ops.Rec(), cpu.owner.Rec(), l.handle, cpu.thread)
      requires l.frozen == cpu.ops.callbacks && l.stateEpoch == cpu.owner.stateEpoch && AllPresent(l.frozen)
      modifies this, cpu.owner, cpu.ops, cpu.native
      ensures Valid()
      ensures code == OK ==> state == BOUND && Checks() && lease == l && Bound(j.originals)
      ensures code != OK ==> Face() == View(0, UNBOUND, NO_LEASE) && j == NoJournal(p)
      ensures (&& old(CanBind(l.handle)) && l.context == old(cpu.native.context)
               && l.providerEpoch == old(cpu.ops.providerEpoch)) ==>
                code == OK && Trusted()
      ensures cpu.IsQuiet() ==> cpu.ops.Rec() == old(cpu.ops.Rec())
      ensures cpu.IsQuiet() ==> cpu.owner.Rec() == if code == OK then old(cpu.owner.Rec()).(activeLease := this)
              else old(cpu.owner.Rec())
    {
      hide Diff, ValuesOf, Profile.Valid, Permitted;
      ProfileHasMagic(p);
      DiffSame(Zeros(p.N()));
      BaselineIsPermitted(p, NoJournal(p));
      magic, state, lease, j := p.magic, BOUND, l, NoJournal(p);
      cpu.owner.activeLease := this;
      var values;
      code, values := ReadOriginals();
      if code == OK {
        j := j.(originals := values);
        BaselineIsPermitted(p, j);
      } else {
        if NamesThisLifetime() { cpu.owner.activeLease := null; }
        Clear();
      }
    }

    /** `VZTxnSnapshot` */
    method Snapshot() returns (code: Status)
      requires Valid()
      modifies this, cpu.owner, cpu.ops, cpu.native
      ensures Valid() && Undisturbed()
      ensures code == OK ==> state == SNAPSHOT && Checks() && lease == old(lease) && j.originals == old(j.originals)
      ensures code == OK ==> j.baseline == j.requested == Current() && j.snapshotDirty == cpu.dirty
      ensures code == OK ==> old(Checks()) && (old(state) == BOUND || old(state) == SNAPSHOT || old(state) == RECOVERED)
      ensures code != OK ==> unchanged(this)
      ensures old(Trusted()) && old(state) != COMMIT_STATE && old(j.pending) == {} && old(j.serial) != UINT64_MAX ==>
                code == OK && Trusted()
    {
      hide Diff, ValuesOf, Profile.Valid, OwnerValid, AllPresent;
      var ok := Guard();
      if !ok { return NOT_READY; }
      if state == COMMIT_STATE { return COMMITTED; }
      if j.pending != {} { return PENDING; }
      if j.serial == UINT64_MAX { return EPOCH_EXHAUSTED; }
      var values, dirty;
      code, values, dirty := Observe();
      if code != OK { return; }
      DiffSame(values);
      j := j.(baseline := values, requested := values, snapshotDirty := dirty, committed := Zeros(p.N()),
              attempted := {}, serial := j.serial + 1);
      state := SNAPSHOT;
    }

    /** `Stage`: the last staged value of a field wins, and staging the baseline cancels.  The mask test of
        the original cannot fail: a pending bit is always a field. */
    method Stage(id: RegId, v: Value) returns (code: Status)
      requires Valid()
      modifies this`j, this`state, cpu.owner, cpu.ops, cpu.native
      ensures Valid() && Undisturbed()
      ensures code == OK ==> p.Target(id, v).Some? && (old(state) == SNAPSHOT || old(state) == STAGED)
                             && p.Allows(old(j), p.Target(id, v).value, v) && old(Checks()) && Checks()
      ensures code == OK ==>
                j == old(j).(requested := old(j.requested)[p.Target(id, v).value := v], pending := j.pending)
                             && state == if j.requested == j.baseline then SNAPSHOT else STAGED
      ensures code != OK ==> unchanged(this)
      ensures old(Trusted()) ==> Trusted()
      ensures old(Trusted()) ==>
                (code == OK <==> p.Target(id, v).Some? && (old(state) == SNAPSHOT || old(state) == STAGED)
                                                  && p.Allows(old(j), p.Target(id, v).value, v))
    {
      hide Diff, ValuesOf, Profile.Valid, Profile.Permits, Permitted, OwnerValid, AllPresent, Serves;
      var target := p.Target(id, v);
      if target == None { return UNSUPPORTED; }
      var i := target.value;
      var ok := Guard();
      if !ok { return NOT_READY; }
      if state == COMMIT_STATE { return COMMITTED; }
      if state != SNAPSHOT && state != STAGED { return NOT_READY; }
      if !p.Allows(j, i, v) { return UNSUPPORTED; }
      StagedDiff(j.requested, j.baseline, i, v);
      var pending := if v == j.baseline[i] then j.pending - {i} else j.pending + {i};
      StagedIsPermitted(p, j, i, v, pending);
      j := j.(requested := j.requested[i := v], pending := pending);
      state := if j.pending != {} then STAGED else SNAPSHOT;
      return OK;
    }

    /** `VZTxnCancelStaged` */
    method CancelStaged() returns (code: Status)
      requires Valid()
      modifies this`j, this`state, cpu.owner, cpu.ops, cpu.native
      ensures Valid() && Undisturbed()
      ensures code == OK ==>
                (old(state) == SNAPSHOT || old(state) == STAGED) && state == SNAPSHOT && old(Checks()) && Checks()
                             && j == old(j).(requested := j.baseline, pending := {})
      ensures code != OK ==> unchanged(this)
      ensures old(Trusted()) ==> Trusted() && (code == OK <==> old(state) == SNAPSHOT || old(state) == STAGED)
    {
      hide Diff, ValuesOf, Profile.Valid, OwnerValid, AllPresent;
      DiffSame(j.baseline);
      var ok := Guard();
      if !ok { return NOT_READY; }
      if state == COMMIT_STATE { return COMMITTED; }
      if state != SNAPSHOT && state != STAGED { return NOT_READY; }
      j, state := j.(requested := j.baseline, pending := {}), SNAPSHOT;
      return OK;
    }

    /** `VZTxnRelease`: a committed transaction keeps its lease, and so does one with pending values. */
    method Release() returns (code: Status)
      requires Valid()
      modifies this, cpu.owner, cpu.ops, cpu.native
      ensures Valid()
      ensures code == OK ==> state == UNBOUND && cpu.owner.activeLease == null
      ensures code == OK ==> old(state) == BOUND || old(state) == SNAPSHOT || old(state) == RECOVERED
      ensures code != OK ==> unchanged(this)
      ensures old(Trusted()) && (old(state) == BOUND || old(state) == SNAPSHOT || old(state) == RECOVERED) ==>
                code == OK
      ensures cpu.IsQuiet() ==> cpu.ops.Rec() == old(cpu.ops.Rec())
      ensures cpu.IsQuiet() ==> cpu.owner.Rec() == if code == OK then old(cpu.owner.Rec()).(activeLease := null)
              else old(cpu.owner.Rec())
      ensures code == OK ==> old(Checks())
    {
      hide Diff, ValuesOf, Profile.Valid, OwnerValid, AllPresent;
      var ok := Guard();
      if !ok { return NOT_READY; }
      if state == COMMIT_STATE { return COMMITTED; }
      if j.pending != {} { return PENDING; }
      cpu.owner.activeLease := null;
      Clear();
      return OK;
    }

    // ------------------------------------------------------------ epochs and rollback

    /** `StartResult` */
    function StartResult(): Result
      reads this`lease, cpu.owner
    {
      Result(NOT_READY, OK, None, None, None, {}, {}, lease.stateEpoch, cpu.owner.stateEpoch,
             false, false, false, false, false, false, false, false, [0, 0, 0], [0, 0, 0])
    }

    /** `AdvanceEpoch`: the owner's state epoch goes up by one and never wraps. */
    method AdvanceEpoch(r: Result) returns (ok: bool, r': Result)
      modifies this`lease, cpu.owner, cpu.ops, cpu.native
      ensures ok ==>
                Checks() && old(lease).stateEpoch < UINT64_MAX
                && lease == old(lease).(stateEpoch := old(lease).stateEpoch + 1)
      ensures ok ==> r' == r.Epoch(lease.stateEpoch)
      ensures !ok ==> lease == old(lease) && r' == r
      ensures cpu.IsQuiet() ==> cpu.ops.Rec() == old(cpu.ops.Rec())
      ensures cpu.IsQuiet() && ok ==> cpu.owner.Rec() == Advanced(old(cpu.owner.Rec()))
      ensures cpu.IsQuiet() && !ok ==> cpu.owner.Rec() == old(cpu.owner.Rec())
      ensures old(Trusted()) && old(lease).stateEpoch < UINT64_MAX ==> ok && Trusted()
    {
      r' := r;
      ok := Guard();
      if !ok || lease.stateEpoch == UINT64_MAX { return false, r; }
      cpu.owner.stateEpoch := cpu.owner.stateEpoch + 1;
      lease := lease.(stateEpoch := cpu.owner.stateEpoch);
      r' := r.Epoch(lease.stateEpoch);
    }

    /** Rolls field `i` back.  Native trouble is reported and the rollback goes on; a broken guard blocks
        it, because the CPU may no longer be this transaction's. */
    method RestoreField(i: nat, r: Result) returns (r': Result, fine: bool, blocked: bool)
      requires Shaped() && i < p.N() && i in j.attempted
      modifies cpu`regs, cpu`dirty, cpu`log, cpu.owner, cpu.ops, cpu.native
      ensures Undisturbed() && Shaped() && r'.Follows(r)
      ensures !blocked ==> cpu.log == old(cpu.log) + [Setting(this, j, i, j.baseline[i])]
      ensures blocked ==>
                cpu.log == old(cpu.log) || cpu.log == old(cpu.log) + [Setting(this, j, i, j.baseline[i])]
      ensures fine ==> Current()[i] == j.baseline[i] && (r.NoRestoreError() ==> r'.NoRestoreError())
      ensures old(Trusted()) ==> fine && !blocked && Trusted() && Current() == old(Current())[i := j.baseline[i]]
    {
      hide Trusted, Profile.Valid, ValuesOf, OwnerValid, AllPresent, Result.Restoring, Result.RestoreReturned;
      r', fine, blocked := r, false, true;
      var ok := Guard();
      if !ok { return; }
      r' := r.Restoring(i);
      var rc := SetNative(i, j.baseline[i]);
      r' := r'.RestoreReturned(rc);
      ok := Guard();
      if !ok { return; }
      var code, v := ReadNative(i);
      fine, blocked := rc == 0 && code == OK && v == j.baseline[i], false;
    }

    /** The rollback loop: every attempted field, last to first, from its baseline. */
    method RestoreFields(r: Result) returns (r': Result, allFine: bool, blocked: bool, ghost lo: nat)
      requires Shaped()
      modifies cpu`regs, cpu`dirty, cpu`log, cpu.owner, cpu.ops, cpu.native
      ensures Undisturbed() && Shaped() && r'.Follows(r)
      ensures lo <= p.N() && cpu.log == old(cpu.log) + Backward(this, j, lo)
      ensures !blocked ==> lo == 0
      ensures allFine && !blocked && r.NoRestoreError() ==> r'.NoRestoreError()
      ensures old(Trusted()) ==> allFine && !blocked && Trusted() && Current() == Overwritten(old(Current()), j, 0)
    {
      hide Trusted, Checks, Serves, ValuesOf;
      r', allFine, blocked, lo := r, true, false, p.N();
      var cursor := p.N();
      StartBackward(this, j);
      while cursor > 0
        invariant 0 <= cursor <= p.N() && Undisturbed() && Shaped() && r'.Follows(r)
        invariant lo == cursor && cpu.log == old(cpu.log) + Backward(this, j, cursor)
        invariant allFine && r.NoRestoreError() ==> r'.NoRestoreError()
        invariant old(Trusted()) ==> allFine && Trusted() && Current() == Overwritten(old(Current()), j, cursor)
      {
        cursor := cursor - 1;
        BackwardStep(this, j, cursor);
        if cursor in j.attempted {
          var fine;
          r', fine, blocked := RestoreField(cursor, r');
          if blocked {
            if cpu.log == old(cpu.log) + Backward(this, j, cursor) { lo := cursor; }
            return;
          }
          if !fine { allFine := false; }
        }
        lo := cursor;
        if old(Trusted()) { OverwrittenStep(old(Current()), j, cursor); }
      }
    }

    /** The registers are exactly the baseline again, the epoch has advanced by one, and the journal is
        empty. */
    twostate predicate RolledBack()
      reads this, cpu, cpu.owner, cpu.ops
      requires Serves(p, cpu.dirty)
    {
      && state == RECOVERED && Checks() && Current() == j.baseline
      && old(lease).stateEpoch < UINT64_MAX && lease == old(lease).(stateEpoch := old(lease).stateEpoch + 1)
      && j == old(j).(requested := j.baseline, pending := {}, attempted := {})
    }

    /** The transaction is poisoned and keeps its journal and its lifetime. */
    twostate predicate Poisoned()
      reads this
    {
      state == POISON_STATE && j == old(j) && lease == old(lease) && magic == old(magic)
    }

    /** `RestoreAttempted`: rolls every attempted field back and reads all fields again.  Either the
        registers are exactly the baseline and the trigger is returned, or the transaction is poisoned and
        the result says so. */
    method RestoreAttempted(r: Result, trigger: Status) returns (status: Status, r': Result, ghost lo: nat)
      requires Shaped() && trigger != RESTORE_FAILED && r.NoRestoreError()
      modifies this`state, this`lease, this`j, cpu`regs, cpu`dirty, cpu`log, cpu.owner, cpu.ops, cpu.native
      ensures Shaped() && r'.status == status && (status == trigger || status == RESTORE_FAILED)
      ensures lo <= p.N() && cpu.log == old(cpu.log) + Backward(this, old(j), lo)
      ensures status == trigger ==>
                RolledBack() && lo == 0 && r'.TellsRollback(trigger, old(j).attempted, lease.stateEpoch)
      ensures status == RESTORE_FAILED ==> Poisoned() && r'.Follows(r.Trigger(trigger, old(j).attempted))
      ensures (&& old(Trusted()) && old(lease).stateEpoch < UINT64_MAX
               && Overwritten(old(Current()), old(j), 0) == old(j).baseline) ==>
                status == trigger && Trusted()
      ensures cpu.IsQuiet() ==>
                cpu.ops.Rec() == old(cpu.ops.Rec()) && EpochStep(old(cpu.owner.Rec()), cpu.owner.Rec(), this)
    {
      hide Trusted, Profile.Valid, ValuesOf, Holds, Overwritten;
      var allFine, blocked;
      r', allFine, blocked, lo := RestoreFields(r.Trigger(trigger, j.attempted));
      if blocked {
        r' := Poison(r'.Blocked());
        status, r' := RESTORE_FAILED, r'.End(RESTORE_FAILED);
      } else {
        status, r' := FinishRestore(r', allFine, trigger);
      }
    }

    /** The end of `RestoreAttempted`: the complete read-back decides. */
    method FinishRestore(r: Result, allFine: bool, trigger: Status) returns (status: Status, r': Result)
      requires Shaped() && trigger != RESTORE_FAILED && r.triggerStatus == trigger
      requires allFine ==> r.NoRestoreError()
      modifies this`state, this`lease, this`j, cpu.owner, cpu.ops, cpu.native
      ensures Shaped() && r'.status == status && (status == trigger || status == RESTORE_FAILED)
      ensures status == trigger ==> RolledBack() && r'.TellsRollback(trigger, r.attempted, lease.stateEpoch)
      ensures status == RESTORE_FAILED ==> Poisoned() && r'.Follows(r)
      ensures old(Trusted()) && old(lease).stateEpoch < UINT64_MAX && allFine && old(Current()) == old(j).baseline ==>
                status == trigger && Trusted()
      ensures cpu.IsQuiet() ==>
                cpu.ops.Rec() == old(cpu.ops.Rec()) && EpochStep(old(cpu.owner.Rec()), cpu.owner.Rec(), this)
    {
      hide Profile.Valid, ValuesOf, Checks, Trusted, Owner.Rec, Ops.Rec, Serves;
      hide Result.End, Result.Epoch, Result.ReadBack, Result.Dirty, Result.TellsRollback;
      var code, values, dirty := Observe();
      var exact := allFine && code == OK && values == j.baseline;
      r' := r.ReadBack(allFine, exact);
      if code == OK { r' := r'.Dirty(j.snapshotDirty, dirty); }
      var accepted := false;
      if exact { accepted, r' := Accept(r'); }
      if accepted {
        status, r' := trigger, r'.End(trigger);
        r.RollbackReport(j.snapshotDirty, dirty, lease.stateEpoch);
      } else {
        status := RESTORE_FAILED;
        r' := GiveUp(r');
      }
    }

    /** Closes a rollback whose read-back is exact, unless the guard is broken or the epoch exhausted. */
    method Accept(r: Result) returns (ok: bool, r': Result)
      requires Shaped() && Current() == j.baseline
      modifies this`state, this`lease, this`j, cpu.owner, cpu.ops, cpu.native
      ensures ok ==> RolledBack() && r' == r.Epoch(lease.stateEpoch)
      ensures !ok ==> lease == old(lease) && j == old(j) && r' == r
      ensures old(Trusted()) && old(lease).stateEpoch < UINT64_MAX ==> ok && Trusted()
      ensures cpu.IsQuiet() ==> cpu.ops.Rec() == old(cpu.ops.Rec())
      ensures cpu.IsQuiet() && ok ==> cpu.owner.Rec() == Advanced(old(cpu.owner.Rec()))
      ensures cpu.IsQuiet() && !ok ==> cpu.owner.Rec() == old(cpu.owner.Rec())
    {
      hide Profile.Valid, ValuesOf, Holds, Serves;
      ok, r' := AdvanceEpoch(r);
      if ok {
        j := j.(requested := j.baseline, pending := {}, attempted := {});
        state := RECOVERED;
      }
    }

    method GiveUp(r: Result) returns (r': Result)
      modifies this`state, cpu.owner, cpu.ops, cpu.native
      ensures state == POISON_STATE && r'.status == RESTORE_FAILED && r'.Follows(r)
      ensures cpu.IsQuiet() ==>
                cpu.ops.Rec() == old(cpu.ops.Rec()) && EpochStep(old(cpu.owner.Rec()), cpu.owner.Rec(), this)
    {
      hide Holds, OwnerValid, Result.End, Result.Blocked, Result.Quarantine;
      r' := r;
      var ok := Guard();
      if !ok { r' := r.Blocked(); }
      r' := Poison(r');
      r' := r'.End(RESTORE_FAILED);
    }

    // ------------------------------------------------------------ commit, verify, restore

    /** `Preflight`: the native state is exactly what is expected, dirty words included. */
    method Preflight(expected: seq<Value>, expectedDirty: seq<nat>) returns (code: Status)
      requires Serves(p, cpu.dirty)
      modifies cpu.owner, cpu.ops, cpu.native
      ensures Undisturbed()
      ensures code == OK ==> Current() == expected && cpu.dirty == expectedDirty && Checks()
      ensures code == OK || code == NOT_READY || code == NATIVE_ERROR || code == MISMATCH || code == CONFLICT
      ensures old(Trusted()) ==> Trusted() && (code == OK <==> Current() == expected && cpu.dirty == expectedDirty)
    {
      hide Checks, Trusted, ValuesOf;
      var values, dirty;
      code, values, dirty := Observe();
      if code == OK && !(values == expected && dirty == expectedDirty) { code := CONFLICT; }
    }

    /** One round of the commit loop.  The field joins the journal of attempted fields before its setter is
        called; any trouble names the trigger of the rollback. */
    method ApplyField(i: nat, r: Result) returns (r': Result, trigger: Option<Status>)
      requires Shaped() && i < p.N()
      modifies this`j, cpu`regs, cpu`dirty, cpu`log, cpu.owner, cpu.ops, cpu.native
      ensures Undisturbed() && Shaped()
      ensures || (j == old(j) && cpu.log == old(cpu.log) && trigger.Some?)
              || (j == old(j).(attempted := old(j.attempted) + {i})
                  && cpu.log == old(cpu.log) + [Setting(this, j, i, j.requested[i])])
      ensures trigger.Some? ==> trigger.value != OK && trigger.value != RESTORE_FAILED
      ensures r'.restoreRC == r.restoreRC && (trigger == None ==> r'.NoSetError() && Current()[i] == j.requested[i])
      ensures old(Trusted()) ==> trigger == None && Trusted() && Current() == old(Current())[i := j.requested[i]]
    {
      hide Trusted, Profile.Valid, ValuesOf, Holds, Result.SetReturned, Result.Failed;
      var ok := Guard();
      if !ok { return r, Some(NOT_READY); }
      j := j.(attempted := j.attempted + {i});
      var rc := SetNative(i, j.requested[i]);
      r' := r.SetReturned(rc);
      ok := Guard();
      if !ok { return r'.Failed(i), Some(NOT_READY); }
      var code, v := ReadNative(i);
      if rc != 0 || code != OK || v != j.requested[i] {
        return r'.Failed(i), Some(if rc != 0 then NATIVE_ERROR else if code == OK then MISMATCH else code);
      }
      return r', None;
    }

    /** The commit loop: the pending fields in order, until one of them fails. */
    method ApplyPending(r: Result) returns (r': Result, trigger: Option<Status>, ghost k: nat)
      requires Shaped() && j.attempted == {} && forall i <- j.pending :: i < p.N()
      modifies this`j, cpu`regs, cpu`dirty, cpu`log, cpu.owner, cpu.ops, cpu.native
      ensures Undisturbed() && Shaped() && k <= p.N()
      ensures j == old(j).(attempted := UpTo(old(j.pending), k)) && cpu.log == old(cpu.log) + Forward(this, old(j), k)
      ensures trigger == None ==> k == p.N() && (r.NoSetError() ==> r'.NoSetError())
      ensures r'.restoreRC == r.restoreRC
      ensures trigger.Some? ==> trigger.value != OK && trigger.value != RESTORE_FAILED
      ensures old(Trusted()) ==> trigger == None && Trusted() && Current() == Applied(old(Current()), old(j), p.N())
    {
      hide Trusted, Checks, Serves, ValuesOf;
      r', trigger, k := r, None, 0;
      UpToNothing(j.pending);
      ghost var j0 := j;
      for i := 0 to p.N()
        invariant Undisturbed() && Shaped() && k == i && trigger == None
        invariant r'.restoreRC == r.restoreRC && (r.NoSetError() ==> r'.NoSetError())
        invariant j == j0.(attempted := UpTo(j0.pending, i)) && cpu.log == old(cpu.log) + Forward(this, j0, i)
        invariant old(Trusted()) ==> Trusted() && Current() == Applied(old(Current()), j0, i)
      {
        ForwardStep(this, j0, i);
        UpToStep(j0.pending, i);
        if i in j.pending {
          r', trigger := ApplyField(i, r');
          if trigger.Some? {
            if j.attempted != UpTo(j0.pending, i) || cpu.log != old(cpu.log) + Forward(this, j0, i) { k := i + 1; }
            return;
          }
        }
        k := i + 1;
        if old(Trusted()) { AppliedStep(old(Current()), j0, i); }
      }
    }

    /** Every field holds its requested value, one setter call was made per pending field, and the epoch
        has advanced by one. */
    twostate predicate Committed()
      reads this, cpu, cpu.owner, cpu.ops
      requires old(Shaped()) && Serves(p, cpu.dirty)
    {
      && state == COMMIT_STATE && Checks() && Current() == j.requested && cpu.dirty == j.committedDirty
      && old(lease).stateEpoch < UINT64_MAX && lease == old(lease).(stateEpoch := old(lease).stateEpoch + 1)
      && j == old(j).(committed := j.requested, committedDirty := j.committedDirty, attempted := j.pending)
      && cpu.log == old(cpu.log) + old(Forward(this, j, p.N()))
    }

    /** The setter calls of a commit that failed: some pending fields in order, then attempted ones back
        down to field `lo`. */
    twostate predicate CommitCalls(k: nat, lo: nat)
      reads this, cpu
      requires old(Sized(p, j)) && k <= p.N() && lo <= p.N()
    {
      cpu.log == old(cpu.log) + Attempt(this, old(j), k, lo)
    }

    /** From the preflight on.  Whatever the setters did, the outcome is all, nothing, or poison. */
    method RunCommit(r: Result) returns (status: Status, r': Result, ghost k: nat, ghost lo: nat)
      requires Valid() && state == STAGED && r.NoSetError() && r.NoRestoreError()
      modifies this`state, this`lease, this`j, cpu`regs, cpu`dirty, cpu`log, cpu.owner, cpu.ops, cpu.native
      ensures Shaped() && r'.status == status && k <= p.N() && lo <= p.N()
      ensures status == OK ==> Committed() && r'.TellsCommit(j.attempted, lease.stateEpoch)
      ensures status != OK ==> CommitCalls(k, lo)
      ensures status != OK && status != RESTORE_FAILED ==>
                RolledBack() && lo == 0 && r'.TellsRollback(status, UpTo(old(j.pending), k), lease.stateEpoch)
      ensures status == RESTORE_FAILED ==> state == POISON_STATE && lease.handle == old(lease).handle
                                           && j == old(j).(attempted := UpTo(old(j.pending), k))
      ensures old(Trusted()) && old(lease).stateEpoch < UINT64_MAX && old(Current()) == old(j.baseline) ==>
                status == OK && Trusted()
      ensures cpu.IsQuiet() ==>
                cpu.ops.Rec() == old(cpu.ops.Rec()) && EpochStep(old(cpu.owner.Rec()), cpu.owner.Rec(), this)
    {
      hide Profile.Valid, ValuesOf, Checks, Trusted, Owner.Rec, Ops.Rec, Diff, Serves, Committed;
      var trigger;
      trigger, r', k := TryCommit(r);
      if trigger == None { return OK, r'.End(OK), k, 0; }
      ghost var after := cpu.log;
      status, r', lo := RestoreAttempted(r', trigger.value);
      assert cpu.log == after + Backward(this, old(j).(attempted := UpTo(old(j.pending), k)), lo);
    }

    /** Applies the pending fields and seals the result, or names the trigger of the rollback. */
    method TryCommit(r: Result) returns (trigger: Option<Status>, r': Result, ghost k: nat)
      requires Valid() && state == STAGED && r.NoSetError()
      modifies this`state, this`lease, this`j, cpu`regs, cpu`dirty, cpu`log, cpu.owner, cpu.ops, cpu.native
      ensures Shaped() && k <= p.N() && (trigger.Some? ==> r'.restoreRC == r.restoreRC)
      ensures trigger == None ==> Committed() && r'.End(OK).TellsCommit(j.attempted, lease.stateEpoch)
      ensures trigger.Some? ==>
                trigger.value != OK && trigger.value != RESTORE_FAILED && lease == old(lease) && state == old(state)
      ensures trigger.Some? ==>
                j == old(j).(attempted := UpTo(old(j.pending), k)) && cpu.log == old(cpu.log) + Forward(this, old(j), k)
      ensures old(Trusted()) && old(lease).stateEpoch < UINT64_MAX && old(Current()) == old(j.baseline) ==>
                trigger == None && Trusted()
      ensures cpu.IsQuiet() ==> cpu.ops.Rec() == old(cpu.ops.Rec())
      ensures cpu.IsQuiet() ==>
                cpu.owner.Rec() == if trigger == None then Advanced(old(cpu.owner.Rec())) else old(cpu.owner.Rec())
    {
      hide Profile.Valid, ValuesOf, Checks, Trusted, Owner.Rec, Ops.Rec, Diff, Serves;
      PendingAreFields(p, j);
      UpToAll(j.pending, p.N());
      if old(Current()) == j.baseline { AppliedAll(j); }
      r', trigger, k := ApplyPending(r);
      if trigger == None { trigger, r' := Seal(r'); }
    }

    /** The end of a commit whose setters all succeeded: a complete read-back, then the epoch. */
    method Seal(r: Result) returns (trigger: Option<Status>, r': Result)
      requires Shaped() && j.attempted == j.pending && r.NoSetError()
      modifies this`state, this`lease, this`j, cpu.owner, cpu.ops, cpu.native
      ensures trigger == None ==>
        && state == COMMIT_STATE && Checks() && Current() == j.requested && cpu.dirty == j.committedDirty
        && old(lease).stateEpoch < UINT64_MAX && lease == old(lease).(stateEpoch := old(lease).stateEpoch + 1)
        && j == old(j).(committed := j.requested, committedDirty := j.committedDirty)
        && r'.End(OK).TellsCommit(j.attempted, lease.stateEpoch)
      ensures trigger.Some? ==> trigger.value != OK && trigger.value != RESTORE_FAILED
      ensures trigger.Some? ==> j == old(j) && lease == old(lease) && state == old(state) && r' == r
      ensures Shaped()
      ensures old(Trusted()) && old(lease).stateEpoch < UINT64_MAX && old(Current()) == j.requested ==>
                trigger == None && Trusted()
      ensures cpu.IsQuiet() ==> cpu.ops.Rec() == old(cpu.ops.Rec())
      ensures cpu.IsQuiet() ==>
                cpu.owner.Rec() == if trigger == None then Advanced(old(cpu.owner.Rec())) else old(cpu.owner.Rec())
    {
      hide Profile.Valid, ValuesOf, Holds, Owner.Rec, Ops.Rec;
      hide Result.End, Result.Epoch, Result.Verified, Result.Dirty, Result.TellsCommit;
      var code, values, dirty := Observe();
      if code != OK || values != j.requested { return Some(if code == OK then MISMATCH else code), r; }
      var ok;
      ok, r' := AdvanceEpoch(r);
      if !ok { return Some(NOT_READY), r'; }
      r.CommitReport(j.attempted, j.snapshotDirty, dirty, lease.stateEpoch);
      j, state := j.(committed := values, committedDirty := dirty), COMMIT_STATE;
      return None, r'.Verified(j.attempted).Dirty(j.snapshotDirty, dirty);
    }

    /** No setter was called, and neither the transaction nor the registers changed. */
    twostate predicate Untouched()
      reads this, cpu
    {
      && state == old(state) && lease == old(lease) && j == old(j) && magic == old(magic)
      && cpu.log == old(cpu.log) && cpu.regs == old(cpu.regs) && cpu.dirty == old(cpu.dirty)
    }

    /** On a faithful CPU, staged values will commit and a commit will be undone. */
    ghost predicate MayCommitFaithfully()
      reads this, cpu, cpu.owner, cpu.ops, cpu.native
      requires Serves(p, cpu.dirty)
    {
      && Trusted() && state == STAGED && lease.stateEpoch < UINT64_MAX
      && Current() == j.baseline && cpu.dirty == j.snapshotDirty
    }

    ghost predicate MayRestoreFaithfully()
      reads this, cpu, cpu.owner, cpu.ops, cpu.native
      requires Serves(p, cpu.dirty)
    {
      Trusted() && state == COMMIT_STATE && Current() == j.requested && cpu.dirty == j.committedDirty
    }

    /** What `VZTxnCommit` checks before the first setter. */
    method MayCommit() returns (code: Status)
      requires Valid()
      modifies cpu.owner, cpu.ops, cpu.native
      ensures Undisturbed() && code != RESTORE_FAILED
      ensures code == OK ==> old(Checks()) && state == STAGED && Current() == j.baseline && cpu.dirty == j.snapshotDirty
      ensures old(Trusted()) ==> Trusted()
      ensures (&& old(Trusted()) && state == STAGED && lease.stateEpoch < UINT64_MAX
               && Current() == j.baseline && cpu.dirty == j.snapshotDirty) ==>
                code == OK && Trusted()
    {
      hide Profile.Valid, ValuesOf, Checks, Owner.Rec, Ops.Rec, Diff, Serves, Trusted;
      var ok := Guard();
      if !ok { return NOT_READY; }
      if state == COMMIT_STATE { return COMMITTED; }
      if state != STAGED || j.pending == {} { return PENDING; }
      if lease.stateEpoch == UINT64_MAX { return EPOCH_EXHAUSTED; }
      code := Preflight(j.baseline, j.snapshotDirty);
    }

    /** `VZTxnCommit`: all, nothing, or poison.  OK means every field holds its requested value; a failed
        rollback means the transaction is poisoned; any other status means either that no setter was called
        and nothing changed, or that every field holds its baseline again. */
    method Commit() returns (status: Status, r: Result, ghost k: nat, ghost lo: nat)
      requires Valid()
      modifies this`state, this`lease, this`j, cpu`regs, cpu`dirty, cpu`log, cpu.owner, cpu.ops, cpu.native
      ensures Valid() && r.status == status && k <= p.N() && lo <= p.N()
      ensures status == OK ==> old(state) == STAGED && Committed() && r.TellsCommit(j.attempted, lease.stateEpoch)
      ensures status == RESTORE_FAILED ==>
                old(state) == STAGED && state == POISON_STATE && lease.handle == old(lease).handle && CommitCalls(k, lo)
      ensures status != OK && status != RESTORE_FAILED ==>
                || (Untouched() && Undisturbed())
                || (old(state) == STAGED && RolledBack() && CommitCalls(k, lo) && lo == 0
                    && r.TellsRollback(status, UpTo(old(j.pending), k), lease.stateEpoch))
      ensures old(MayCommitFaithfully()) ==> status == OK && Trusted()
      ensures old(Trusted()) && Untouched() ==> Trusted()
      ensures cpu.IsQuiet() ==>
                cpu.ops.Rec() == old(cpu.ops.Rec()) && EpochStep(old(cpu.owner.Rec()), cpu.owner.Rec(), this)
      ensures !Untouched() ==>
                old(Checks()) && old(Current()) == old(j.baseline) && old(cpu.dirty) == old(j.snapshotDirty)
    {
      hide Profile.Valid, ValuesOf, Checks, Owner.Rec, Ops.Rec, Diff, Serves, Trusted;
      r, k, lo := StartResult(), 0, 0;
      var code := MayCommit();
      if code != OK { return code, r.End(code), k, lo; }
      status, r, k, lo := RunCommit(r);
      RollbackIsConsistent(p, magic, old(j));
    }

    /** `VZTxnVerify` */
    method Verify() returns (status: Status, r: Result)
      requires Valid()
      modifies cpu.owner, cpu.ops, cpu.native
      ensures Undisturbed() && r.status == status
      ensures status == OK ==>
                state == COMMIT_STATE && Current() == j.requested && cpu.dirty == j.committedDirty && Checks()
      ensures old(Trusted()) ==>
                (status == OK <==> state == COMMIT_STATE && Current() == j.requested && cpu.dirty == j.committedDirty)
    {
      hide Profile.Valid, ValuesOf, Holds, Diff, Serves;
      r := StartResult();
      status := r.status;
      var ok := Guard();
      if !ok || state != COMMIT_STATE { return; }
      status := Preflight(j.committed, j.committedDirty);
      r := if status == OK then r.Verified(j.attempted).Dirty(j.snapshotDirty, j.committedDirty).End(OK)
      else r.End(status);
    }

    /** What `VZTxnRestore` checks before the first setter. */
    method MayRestore() returns (code: Status)
      requires Valid()
      modifies cpu.owner, cpu.ops, cpu.native
      ensures Undisturbed() && code != RESTORE_FAILED
      ensures code == OK ==>
                old(Checks()) && state == COMMIT_STATE && Current() == j.committed && cpu.dirty == j.committedDirty
      ensures old(Trusted()) ==> Trusted()
      ensures old(Trusted()) && state == COMMIT_STATE && Current() == j.committed && cpu.dirty == j.committedDirty ==>
                (if lease.stateEpoch < UINT64_MAX then code == OK && Trusted() else code == EPOCH_EXHAUSTED)
    {
      hide Profile.Valid, ValuesOf, Checks, Owner.Rec, Ops.Rec, Diff, Serves, Trusted;
      var ok := Guard();
      if !ok || state != COMMIT_STATE { return NOT_READY; }
      if lease.stateEpoch == UINT64_MAX { return EPOCH_EXHAUSTED; }
      code := Preflight(j.committed, j.committedDirty);
    }

    /** `VZTxnRestore`: undoes a commit, provided the native state is exactly what the commit left. */
    method Restore() returns (status: Status, r: Result, ghost lo: nat)
      requires Valid()
      modifies this`state, this`lease, this`j, cpu`regs, cpu`dirty, cpu`log, cpu.owner, cpu.ops, cpu.native
      ensures Valid() && r.status == status && lo <= p.N()
      ensures status == OK ==>
                old(state) == COMMIT_STATE && RolledBack() && lo == 0
                && cpu.log == old(cpu.log) + Backward(this, old(j), lo)
      ensures status == OK ==> r.TellsRollback(OK, old(j.attempted), lease.stateEpoch)
      ensures status == RESTORE_FAILED ==>
                old(state) == COMMIT_STATE && Poisoned() && cpu.log == old(cpu.log) + Backward(this, old(j), lo)
      ensures status != OK && status != RESTORE_FAILED ==> Untouched() && Undisturbed()
      ensures old(Trusted()) && Untouched() ==> Trusted()
      ensures old(MayRestoreFaithfully()) ==>
                if old(lease).stateEpoch < UINT64_MAX then status == OK && Trusted() else status == EPOCH_EXHAUSTED
      ensures cpu.IsQuiet() ==>
                cpu.ops.Rec() == old(cpu.ops.Rec()) && EpochStep(old(cpu.owner.Rec()), cpu.owner.Rec(), this)
      ensures !Untouched() ==>
                old(Checks()) && old(Current()) == old(j.committed) && old(cpu.dirty) == old(j.committedDirty)
    {
      hide Profile.Valid, ValuesOf, Checks, Owner.Rec, Ops.Rec, Diff, Serves, Trusted;
      r, lo := StartResult(), 0;
      var code := MayRestore();
      if code != OK { return code, r.End(code), lo; }
      OverwrittenAll(j);
      status, r, lo := RestoreAttempted(r, OK);
      RollbackIsConsistent(p, magic, old(j));
    }

    // ------------------------------------------------------------ any call

    /** Every call of the interface, with any arguments and on any CPU, keeps the transaction valid; on a
        quiet CPU it is a step of the lease protocol. */
    method Perform(call: Call) returns (code: Status)
      requires Valid() && p.rules != []
      modifies this, cpu`regs, cpu`dirty, cpu`log, cpu.owner, cpu.ops, cpu.native
      ensures Valid() && Lawful()
    {
      hide Profile.Valid, ValuesOf, Checks, Owner.Rec, Ops.Rec, Diff, Serves, Trusted, Lawful;
      match call
      case CallBind(h) => code := PerformBind(h);
      case CallObserve =>
        var values, dirty;
        code, values, dirty := Observe();
        RefusalIsLawful();
      case CallSnapshot =>
        code := Snapshot();
        if code == OK { StagingIsLawful(); } else { RefusalIsLawful(); }
      case CallStage(id, v) =>
        code := Stage(id, v);
        if code == OK { StagingIsLawful(); } else { RefusalIsLawful(); }
      case CallCancel =>
        code := CancelStaged();
        if code == OK { StagingIsLawful(); } else { RefusalIsLawful(); }
      case CallCommit => code := PerformCommit();
      case CallVerify =>
        var r;
        code, r := Verify();
        RefusalIsLawful();
      case CallRestore => code := PerformRestore();
      case CallRelease => code := PerformRelease();
    }

    method PerformBind(h: Handle) returns (code: Status)
      requires Valid() && p.rules != []
      modifies this, cpu.owner, cpu.ops, cpu.native
      ensures Valid() && Lawful()
    {
      hide Profile.Valid, ValuesOf, Checks, Ops.Rec, Diff, Serves, Trusted, Lawful;
      code := Bind(h);
      if code == OK { BindingIsLawful(); } else { RefusalIsLawful(); }
    }

    method PerformRelease() returns (code: Status)
      requires Valid()
      modifies this, cpu.owner, cpu.ops, cpu.native
      ensures Valid() && Lawful()
    {
      hide Profile.Valid, ValuesOf, Checks, Ops.Rec, Diff, Serves, Trusted, Lawful;
      code := Release();
      if code == OK { ReleaseIsLawful(); } else { RefusalIsLawful(); }
    }

    method PerformCommit() returns (code: Status)
      requires Valid()
      modifies this, cpu`regs, cpu`dirty, cpu`log, cpu.owner, cpu.ops, cpu.native
      ensures Valid() && Lawful()
    {
      hide Profile.Valid, ValuesOf, Checks, Ops.Rec, Diff, Serves, Trusted, Lawful;
      ghost var k, lo;
      var r;
      code, r, k, lo := Commit();
      if code != OK && code != RESTORE_FAILED && Untouched() {
        RefusalIsLawful();
      } else if code == OK {
        ForwardIsGuarded(this, old(j), p.N());
        WritingIsLawful(Forward(this, old(j), p.N()));
      } else {
        AttemptIsGuarded(this, old(j), k, lo);
        WritingIsLawful(Attempt(this, old(j), k, lo));
      }
    }

    method PerformRestore() returns (code: Status)
      requires Valid()
      modifies this, cpu`regs, cpu`dirty, cpu`log, cpu.owner, cpu.ops, cpu.native
      ensures Valid() && Lawful()
    {
      hide Profile.Valid, ValuesOf, Checks, Ops.Rec, Diff, Serves, Trusted, Lawful;
      ghost var lo;
      var r;
      code, r, lo := Restore();
      if code == OK || code == RESTORE_FAILED {
        BackwardIsGuarded(this, old(j), lo);
        WritingIsLawful(Backward(this, old(j), lo));
      } else {
        RefusalIsLawful();
      }
    }
  }

  /** Who may act on the CPU: the live holder of the owner's lease, on the owner's thread, while the owner is the
      one it was bound to, has never run and is not quarantined, and neither its provider nor its callbacks have
      changed. */
  lemma ChecksIff(t: Txn)
    ensures var o, s, l := t.cpu.ops, t.cpu.owner, t.lease;
      t.Checks() <==>
        && t.state in {BOUND, SNAPSHOT, STAGED, COMMIT_STATE, RECOVERED} && t.magic == t.p.magic
        && s.activeLease == t && t.cpu.thread == s.ownerThread != 0
        && l.handle == Handle(s.id, s.generation, s.leaseEpoch) && s.generation != 0 && s.leaseEpoch != 0 && s.id < 64
        && s.owned && s.idValid && s.neverRun && !s.quarantined
        && l.stateEpoch == s.stateEpoch != 0 && l.providerEpoch == o.providerEpoch != 0
        && o.identityVerified && o.vmProviderABI == 13 && o.vcpuProviderABI == 13
        && l.frozen == o.callbacks != [] && 0 !in o.callbacks
  {
    assert AllPresent(t.cpu.ops.callbacks) <==> t.cpu.ops.callbacks != [] && 0 !in t.cpu.ops.callbacks;
  }

  /** Whom a failed rollback quarantines: the owner of exactly this lease, seen from its own thread. */
  lemma NamesThisLifetimeIff(t: Txn)
    ensures var s := t.cpu.owner;
      t.NamesThisLifetime() <==>
        && s.activeLease == t && t.lease.handle == Handle(s.id, s.generation, s.leaseEpoch)
        && t.cpu.thread == s.ownerThread
  {
  }

  /** The journal a rollback leaves behind is consistent. */
  lemma RollbackIsConsistent(p: Profile, magic: nat, j: Journal)
    requires Sized(p, j) && magic != 0 && magic == p.magic
    ensures Consistent(p, magic, RECOVERED, j.(requested := j.baseline, pending := {}, attempted := {}))
  {
    DiffSame(j.baseline);
  }

  /** Rolling every changed field of a committed transaction back yields the baseline. */
  lemma OverwrittenAll(j: Journal)
    requires |j.requested| == |j.baseline| && j.attempted == Diff(j.requested, j.baseline)
    ensures Overwritten(j.requested, j, 0) == j.baseline
  {
    var a := Overwritten(j.requested, j, 0);
    forall i | 0 <= i < |a| ensures a[i] == j.baseline[i] {
      assert i in Diff(j.requested, j.baseline) <==> j.requested[i] != j.baseline[i];
    }
  }

  lemma PendingAreFields(p: Profile, j: Journal)
    requires Sized(p, j) && j.pending == Diff(j.requested, j.baseline)
    ensures forall i <- j.pending :: i < p.N()
  {
  }

  /** Applying every pending field to the baseline yields the requested values. */
  lemma AppliedAll(j: Journal)
    requires |j.requested| == |j.baseline| && j.pending == Diff(j.requested, j.baseline)
    ensures Applied(j.baseline, j, |j.baseline|) == j.requested
  {
    var a := Applied(j.baseline, j, |j.baseline|);
    forall i | 0 <= i < |a| ensures a[i] == j.requested[i] {
      assert i in Diff(j.requested, j.baseline) <==> j.requested[i] != j.baseline[i];
    }
  }

  /** The attempted fields when the commit loop has reached `k`. */
  function UpTo(pending: set<nat>, k: nat): set<nat> { set i | i in pending && i < k }

  lemma UpToNothing(pending: set<nat>)
    ensures UpTo(pending, 0) == {}
  {
  }

  lemma UpToStep(pending: set<nat>, k: nat)
    ensures UpTo(pending, k + 1) == if k in pending then UpTo(pending, k) + {k} else UpTo(pending, k)
    ensures k !in UpTo(pending, k)
  {
  }

  lemma UpToAll(pending: set<nat>, k: nat)
    requires forall i <- pending :: i < k
    ensures UpTo(pending, k) == pending
  {
  }

  /** A guarded, journalled setter call. */
  ghost function Setting(t: Txn, j: Journal, i: nat, v: Value): Event
    requires i < |j.baseline|
  {
    Event(t, i, v, true, true, j.baseline[i], j.originals)
  }

  /** The setter calls of a commit that has reached `k`. */
  ghost function Forward(t: Txn, j: Journal, k: nat): seq<Event>
    requires |j.baseline| == |j.requested| == t.p.N() && k <= t.p.N()
  {
    if k == 0 then []
    else Forward(t, j, k - 1) + (if k - 1 in j.pending then [Setting(t, j, k - 1, j.requested[k - 1])] else [])
  }

  lemma ForwardStep(t: Txn, j: Journal, k: nat)
    requires |j.baseline| == |j.requested| == t.p.N() && k < t.p.N()
    ensures Forward(t, j, k + 1)
            == Forward(t, j, k) + (if k in j.pending then [Setting(t, j, k, j.requested[k])] else [])
    ensures k !in j.pending ==> Forward(t, j, k + 1) == Forward(t, j, k)
  {
  }

  /** Register values after the commit loop has reached `k` on a faithful CPU. */
  ghost function Applied(values: seq<Value>, j: Journal, k: nat): (r: seq<Value>)
    requires |values| == |j.requested|
    ensures |r| == |values|
  {
    seq(|values|, i requires 0 <= i < |values| => if i < k && i in j.pending then j.requested[i] else values[i])
  }

  lemma AppliedStep(values: seq<Value>, j: Journal, k: nat)
    requires |values| == |j.requested| && k < |values|
    ensures Applied(values, j, k + 1) == if k in j.pending then Applied(values, j, k)[k := j.requested[k]]
            else Applied(values, j, k)
  {
  }

  function Advanced(s: OwnerRec): OwnerRec { s.(stateEpoch := s.stateEpoch + 1) }

  /** What a rollback may do to the owner record: advance the epoch by one, or quarantine it. */
  ghost predicate EpochStep(s: OwnerRec, s': OwnerRec, t: Txn)
  {
    s' == s || s' == Advanced(s) || (s' == s.(quarantined := true) && s.activeLease == t)
  }

  /** The setter calls of a rollback from the last field down to `lo`. */
  ghost function Backward(t: Txn, j: Journal, lo: nat): seq<Event>
    requires |j.baseline| == t.p.N() && lo <= t.p.N()
    decreases t.p.N() - lo
  {
    if lo == t.p.N() then []
    else Backward(t, j, lo + 1) + (if lo in j.attempted then [Setting(t, j, lo, j.baseline[lo])] else [])
  }

  /** The setter calls of a commit that failed at `k` and was rolled back down to `lo`. */
  ghost function Attempt(t: Txn, j: Journal, k: nat, lo: nat): seq<Event>
    requires Sized(t.p, j) && k <= t.p.N() && lo <= t.p.N()
  {
    Forward(t, j, k) + Backward(t, j.(attempted := UpTo(j.pending, k)), lo)
  }

  lemma StartBackward(t: Txn, j: Journal)
    requires |j.baseline| == t.p.N()
    ensures Backward(t, j, t.p.N()) == []
  {
  }

  lemma BackwardStep(t: Txn, j: Journal, lo: nat)
    requires |j.baseline| == t.p.N() && lo < t.p.N()
    ensures Backward(t, j, lo)
            == Backward(t, j, lo + 1) + (if lo in j.attempted then [Setting(t, j, lo, j.baseline[lo])] else [])
    ensures lo !in j.attempted ==> Backward(t, j, lo) == Backward(t, j, lo + 1)
  {
  }

  /** Register values after the fields from `lo` up have been rolled back. */
  ghost function Overwritten(values: seq<Value>, j: Journal, lo: nat): (r: seq<Value>)
    requires |values| == |j.baseline|
    ensures |r| == |values|
  {
    seq(|values|, i requires 0 <= i < |values| => if lo <= i && i in j.attempted then j.baseline[i] else values[i])
  }

  lemma OverwrittenStep(values: seq<Value>, j: Journal, lo: nat)
    requires |values| == |j.baseline| && lo < |values|
    ensures Overwritten(values, j, lo) ==
            if lo in j.attempted then Overwritten(values, j, lo + 1)[lo := j.baseline[lo]]
            else Overwritten(values, j, lo + 1)
  {
  }

  lemma ProfileHasMagic(p: Profile)
    requires p.Valid()
    ensures p.magic != 0
  {
  }

  lemma DiffSame(a: seq<Value>)
    ensures Diff(a, a) == {}
  {
  }

  /** The snapshot may always be requested, and whatever was staged may be. */
  lemma BaselineIsPermitted(p: Profile, j: Journal)
    requires Sized(p, j) && j.requested == j.baseline
    ensures Permitted(p, j)
  {
  }

  lemma StagedIsPermitted(p: Profile, j: Journal, i: nat, v: Value, pending: set<nat>)
    requires Sized(p, j) && Permitted(p, j) && i < p.N() && p.Allows(j, i, v)
    ensures Permitted(p, j.(requested := j.requested[i := v], pending := pending))
  {
    var j' := j.(requested := j.requested[i := v], pending := pending);
    forall q | 0 <= q < |j'.requested| ensures p.Allows(j', q, j'.requested[q]) {
      assert p.Allows(j, q, j.requested[q]);
    }
  }

  lemma StagedDiff(requested: seq<Value>, baseline: seq<Value>, i: nat, v: Value)
    requires |requested| == |baseline| && i < |baseline|
    ensures Diff(requested[i := v], baseline) ==
            if v == baseline[i] then Diff(requested, baseline) - {i} else Diff(requested, baseline) + {i}
    ensures Diff(requested[i := v], baseline) == {} <==> requested[i := v] == baseline
  {
    var r := requested[i := v];
    if Diff(r, baseline) == {} {
      forall j | 0 <= j < |r| ensures r[j] == baseline[j] {
        assert j !in Diff(r, baseline);
      }
    }
  }

  lemma WrittenValue(p: Profile, regs: Regs, i: nat, v: Value)
    requires p.Valid() && i < p.N()
    ensures ValuesOf(p, regs[p.fields[i].id := v]) == ValuesOf(p, regs)[i := v]
  {
    var regs' := regs[p.fields[i].id := v];
    assert forall j :: 0 <= j < p.N() ==> p.fields[j] in p.fields;
    assert forall j :: 0 <= j < p.N() && j != i ==> regs'[p.fields[j].id] == regs[p.fields[j].id];
  }
}

/** The atomic wait table: 256 buckets of a mutex, a condition variable, a sequence number and a waiter
    count, as a state machine over any number of threads and addresses.  The hash is any function; a step
    is one access of one thread to its bucket, so threads interleave between any two statements. */
module WaitTable {
  import opened Words
  import opened Wrappers

  type Address = nat
  type Thread = nat

  /** A monitor ticket: the sequence number read, and (for the argument only) how many notifications the
      bucket had seen by then. */
  datatype Ticket = Ticket(bits: nat, at: nat)

  /** Where a thread is: about to lock, or holding the mutex about to do what the name says, or asleep. */
  datatype Stage = MonitorLock | MonitorRead | WaitLock | WaitEnter | WaitCheck | Asleep | Woken | WaitLeave
                 | NotifyLock | NotifyCount | NotifyBroadcast | Unlock

  datatype Pc = Idle | At(stage: Stage, address: Address, ticket: Ticket)

  /** `notified` counts the notifications without wrapping. */
  datatype Bucket = Bucket(mutex: Option<Thread>, sequence: nat, waiters: nat, notified: nat)

  datatype Table = Table(buckets: seq<Bucket>, threads: map<Thread, Pc>, issued: set<(Address, Ticket)>)

  datatype Action =
    | Monitor(a: Address) | Wait(a: Address, ticket: Ticket) | Notify(a: Address)
    | Acquire | Proceed | Spurious

  type Hash = Address -> nat

  /** `Entry` */
  function Slot(h: Hash, a: Address): (b: nat)
    ensures b < 256
  {
    h(a) % 256
  }

  predicate Holding(stage: Stage)
  {
    stage.MonitorRead? || stage.WaitEnter? || stage.WaitCheck? || stage.WaitLeave? || stage.NotifyCount?
    || stage.NotifyBroadcast? || stage.Unlock?
  }

  predicate Locking(stage: Stage) { stage.MonitorLock? || stage.WaitLock? || stage.NotifyLock? || stage.Woken? }

  /** Between counting itself in and counting itself out. */
  predicate Counted(stage: Stage) { stage.WaitCheck? || stage.Asleep? || stage.Woken? || stage.WaitLeave? }

  predicate Waiting(stage: Stage) { Counted(stage) || stage.WaitLock? || stage.WaitEnter? }

  function Acquired(stage: Stage): Stage
    requires Locking(stage)
  {
    match stage
    case MonitorLock => MonitorRead
    case WaitLock => WaitEnter
    case NotifyLock => NotifyCount
    case _ => WaitCheck
  }

  predicate Enabled(h: Hash, s: Table, t: Thread, act: Action)
    requires |s.buckets| == 256 && t in s.threads
  {
    var pc := s.threads[t];
    match act
    case Monitor(_) => pc.Idle?
    case Wait(a, ticket) => pc.Idle? && (a, ticket) in s.issued
    case Notify(_) => pc.Idle?
    case Acquire => pc.At? && Locking(pc.stage) && s.buckets[Slot(h, pc.address)].mutex == None
    case Proceed => pc.At? && Holding(pc.stage)
    case Spurious => pc.At? && pc.stage.Asleep?
  }

  function Goto(s: Table, t: Thread, pc: Pc): Table { s.(threads := s.threads[t := pc]) }

  function Put(s: Table, b: nat, bucket: Bucket): Table
    requires b < |s.buckets|
  {
    s.(buckets := s.buckets[b := bucket])
  }

  /** `pthread_cond_broadcast`: every sleeper of the bucket will contend for the mutex. */
  function Broadcast(h: Hash, s: Table, b: nat): Table
  {
    s.(threads := map u | u in s.threads :: Roused(h, s.threads[u], b))
  }

  function Roused(h: Hash, pc: Pc, b: nat): Pc
  {
    if pc.At? && pc.stage.Asleep? && Slot(h, pc.address) == b then pc.(stage := Woken) else pc
  }

  /** One statement of a thread that holds its bucket's mutex. */
  function Work(h: Hash, s: Table, t: Thread): Table
    requires |s.buckets| == 256 && t in s.threads && s.threads[t].At? && Holding(s.threads[t].stage)
  {
    var pc := s.threads[t];
    var b := Slot(h, pc.address);
    var k := s.buckets[b];
    match pc.stage
    case MonitorRead => Goto(s.(issued := s.issued + {(pc.address, Ticket(k.sequence, k.notified))}), t,
                             pc.(stage := Unlock))
    case WaitEnter => Goto(Put(s, b, k.(waiters := (k.waiters + 1) % WORD32)), t, pc.(stage := WaitCheck))
    case WaitCheck =>
      if k.sequence == pc.ticket.bits then Goto(Put(s, b, k.(mutex := None)), t, pc.(stage := Asleep))
      else Goto(s, t, pc.(stage := WaitLeave))
    case WaitLeave => Goto(Put(s, b, k.(waiters := (k.waiters - 1) % WORD32)), t, pc.(stage := Unlock))
    case NotifyCount =>
      Goto(Put(s, b, k.(sequence := (k.sequence + 1) % WORD64, notified := k.notified + 1)), t,
           pc.(stage := NotifyBroadcast))
    case NotifyBroadcast => Goto(Broadcast(h, s, b), t, pc.(stage := Unlock))
    case _ => Goto(Put(s, b, k.(mutex := None)), t, Idle)
  }

  function Apply(h: Hash, s: Table, t: Thread, act: Action): Table
    requires |s.buckets| == 256 && t in s.threads && Enabled(h, s, t, act)
  {
    match act
    case Monitor(a) => Goto(s, t, At(MonitorLock, a, Ticket(0, 0)))
    case Wait(a, ticket) => Goto(s, t, At(WaitLock, a, ticket))
    case Notify(a) => Goto(s, t, At(NotifyLock, a, Ticket(0, 0)))
    case Acquire =>
      var pc := s.threads[t];
      var b := Slot(h, pc.address);
      Goto(Put(s, b, s.buckets[b].(mutex := Some(t))), t, pc.(stage := Acquired(pc.stage)))
    case Proceed => Work(h, s, t)
    case Spurious => Goto(s, t, s.threads[t].(stage := Woken))
  }

  // -------------------------------------------------------------- invariant

  /** The threads that have counted themselves in on bucket `b` and not yet out. */
  function Inside(h: Hash, s: Table, b: nat): set<Thread>
  {
    set u | u in s.threads && s.threads[u].At? && Counted(s.threads[u].stage) && Slot(h, s.threads[u].address) == b
  }

  /** The holder of the bucket's mutex has counted a notification and is about to broadcast it. */
  predicate Casting(h: Hash, s: Table, b: nat)
    requires b < |s.buckets|
  {
    && s.buckets[b].mutex.Some? && s.buckets[b].mutex.value in s.threads
    && var pc := s.threads[s.buckets[b].mutex.value]; pc.At? && pc.stage.NotifyBroadcast? && Slot(h, pc.address) == b
  }

  ghost predicate BucketOk(h: Hash, s: Table, b: nat)
    requires b < |s.buckets|
  {
    var k := s.buckets[b];
    && k.sequence == k.notified % WORD64 && k.waiters == |Inside(h, s, b)| % WORD32
    && (k.mutex.Some? ==>
          && k.mutex.value in s.threads
          && var pc := s.threads[k.mutex.value]; pc.At? && Holding(pc.stage) && Slot(h, pc.address) == b)
  }

  ghost predicate ThreadOk(h: Hash, s: Table, u: Thread)
    requires |s.buckets| == 256 && u in s.threads
  {
    s.threads[u].At? ==>
      var stage, a, ticket := s.threads[u].stage, s.threads[u].address, s.threads[u].ticket;
      var b := Slot(h, a);
      && (Holding(stage) ==> s.buckets[b].mutex == Some(u))
      && (Waiting(stage) ==> (a, ticket) in s.issued)
      && (stage.Asleep? ==> s.buckets[b].sequence == ticket.bits || Casting(h, s, b))
      && (stage.WaitLeave? ==> s.buckets[b].sequence != ticket.bits)
  }

  ghost predicate TicketOk(h: Hash, s: Table, a: Address, ticket: Ticket)
    requires |s.buckets| == 256
  {
    ticket.bits == ticket.at % WORD64 && ticket.at <= s.buckets[Slot(h, a)].notified
  }

  ghost predicate Inv(h: Hash, s: Table)
  {
    && |s.buckets| == 256
    && (forall b :: 0 <= b < 256 ==> BucketOk(h, s, b))
    && (forall u <- s.threads :: ThreadOk(h, s, u))
    && (forall p <- s.issued :: TicketOk(h, s, p.0, p.1))
  }

  /** Nobody is in a call, and every bucket is as it was initialised. */
  ghost predicate Initial(s: Table)
  {
    && |s.buckets| == 256 && s.issued == {}
    && (forall k <- s.buckets :: k == Bucket(None, 0, 0, 0)) && (forall u <- s.threads :: s.threads[u].Idle?)
  }

  lemma InitialHolds(h: Hash, s: Table)
    requires Initial(s)
    ensures Inv(h, s)
  {
    forall b | 0 <= b < 256 ensures BucketOk(h, s, b) {
      assert s.buckets[b] in s.buckets;
      assert Inside(h, s, b) == {};
    }
  }

  /** Moving one thread changes the threads inside a bucket by that thread at most. */
  lemma MovedInside(h: Hash, s: Table, s': Table, t: Thread, pc: Pc, b: nat)
    requires t in s.threads && s'.threads == s.threads[t := pc]
    ensures Inside(h, s', b) ==
            if pc.At? && Counted(pc.stage) && Slot(h, pc.address) == b then Inside(h, s, b) + {t}
            else Inside(h, s, b) - {t}
  {
  }

  /** `s'` differs from `s` in thread `t`, in the bucket it works on, and in what that step issued. */
  ghost predicate Local(h: Hash, s: Table, s': Table, t: Thread, b: nat)
  {
    && |s.buckets| == |s'.buckets| == 256 && b < 256 && t in s.threads && t in s'.threads
    && s'.threads == s.threads[t := s'.threads[t]]
    && s'.buckets == s.buckets[b := s'.buckets[b]] && s.issued <= s'.issued
    && (s.threads[t].At? && Holding(s.threads[t].stage) ==> Slot(h, s.threads[t].address) == b)
    && (s'.threads[t].At? ==> Slot(h, s'.threads[t].address) == b || s'.buckets[b] == s.buckets[b])
  }

  /** What a step of `t` may do to the bucket it works on without disturbing the other threads. */
  ghost predicate Courteous(h: Hash, s: Table, s': Table, t: Thread, b: nat)
    requires Local(h, s, s', t, b)
  {
    var k, k' := s.buckets[b], s'.buckets[b];
    && (k'.mutex == k.mutex || (k.mutex == None && k'.mutex == Some(t)) || (k.mutex == Some(t) && k'.mutex == None))
    && (k'.sequence != k.sequence ==> k.mutex == Some(t) && Casting(h, s', b))
    && !(k.mutex == Some(t) && Casting(h, s, b)) && k.notified <= k'.notified
  }

  lemma OthersKeep(h: Hash, s: Table, s': Table, t: Thread, b: nat, u: Thread)
    requires Inv(h, s) && Local(h, s, s', t, b) && Courteous(h, s, s', t, b) && u in s.threads && u != t
    ensures u in s'.threads && ThreadOk(h, s', u)
  {
    hide BucketOk, TicketOk;
    assert ThreadOk(h, s, u);
  }

  lemma OtherBucketsKeep(h: Hash, s: Table, s': Table, t: Thread, b: nat, c: nat)
    requires Inv(h, s) && Local(h, s, s', t, b) && c < 256 && c != b
    requires s'.threads[t].At? ==> Slot(h, s'.threads[t].address) == b
    requires s.threads[t].At? ==> Slot(h, s.threads[t].address) == b
    ensures BucketOk(h, s', c)
  {
    hide TicketOk, ThreadOk;
    MovedInside(h, s, s', t, s'.threads[t], c);
    assert Inside(h, s', c) == Inside(h, s, c);
    assert BucketOk(h, s, c);
  }

  lemma TicketsKeep(h: Hash, s: Table, s': Table, t: Thread, b: nat, a: Address, ticket: Ticket)
    requires Inv(h, s) && Local(h, s, s', t, b) && Courteous(h, s, s', t, b) && (a, ticket) in s.issued
    ensures TicketOk(h, s', a, ticket)
  {
    hide BucketOk, ThreadOk;
    assert TicketOk(h, s, (a, ticket).0, (a, ticket).1);
  }

  /** A step that is courteous to the others keeps the invariant if it keeps its own part. */
  lemma LocalKeeps(h: Hash, s: Table, s': Table, t: Thread, b: nat)
    requires Inv(h, s) && Local(h, s, s', t, b) && Courteous(h, s, s', t, b)
    requires s'.threads[t].At? ==> Slot(h, s'.threads[t].address) == b
    requires s.threads[t].At? ==> Slot(h, s.threads[t].address) == b
    requires ThreadOk(h, s', t) && BucketOk(h, s', b)
    requires forall p <- s'.issued :: p in s.issued || TicketOk(h, s', p.0, p.1)
    ensures Inv(h, s')
  {
    hide BucketOk, ThreadOk, TicketOk, Courteous;
    forall c | 0 <= c < 256 ensures BucketOk(h, s', c) { if c != b { OtherBucketsKeep(h, s, s', t, b, c); } }
    forall u | u in s'.threads ensures ThreadOk(h, s', u) { if u != t { OthersKeep(h, s, s', t, b, u); } }
    forall p | p in s'.issued ensures TicketOk(h, s', p.0, p.1) {
      if p in s.issued { TicketsKeep(h, s, s', t, b, p.0, p.1); }
    }
  }

  lemma StartedThreadIsOk(h: Hash, s: Table, t: Thread, stage: Stage, a: Address, ticket: Ticket)
    requires Inv(h, s) && t in s.threads
    requires stage.MonitorLock? || stage.NotifyLock? || (stage.WaitLock? && (a, ticket) in s.issued)
    ensures ThreadOk(h, Goto(s, t, At(stage, a, ticket)), t)
  {
    hide TicketOk, BucketOk;
  }

  lemma StartedBucketIsOk(h: Hash, s: Table, t: Thread, stage: Stage, a: Address, ticket: Ticket, b: nat)
    requires Inv(h, s) && t in s.threads && s.threads[t].Idle? && !Counted(stage) && b < 256
    ensures BucketOk(h, Goto(s, t, At(stage, a, ticket)), b)
  {
    hide TicketOk, ThreadOk;
    var s' := Goto(s, t, At(stage, a, ticket));
    MovedInside(h, s, s', t, s'.threads[t], b);
    assert Inside(h, s', b) == Inside(h, s, b);
    hide Inside;
    assert BucketOk(h, s, b);
  }

  lemma StartKeeps(h: Hash, s: Table, t: Thread, stage: Stage, a: Address, ticket: Ticket)
    requires Inv(h, s) && t in s.threads && s.threads[t].Idle?
    requires stage.MonitorLock? || stage.NotifyLock? || (stage.WaitLock? && (a, ticket) in s.issued)
    ensures Inv(h, Goto(s, t, At(stage, a, ticket)))
  {
    hide TicketOk, ThreadOk, BucketOk;
    StartedThreadIsOk(h, s, t, stage, a, ticket);
    StartedBucketIsOk(h, s, t, stage, a, ticket, Slot(h, a));
    assert s.buckets[Slot(h, a)] == Goto(s, t, At(stage, a, ticket)).buckets[Slot(h, a)];
    assert !(s.buckets[Slot(h, a)].mutex == Some(t) && Casting(h, s, Slot(h, a)));
    LocalKeeps(h, s, Goto(s, t, At(stage, a, ticket)), t, Slot(h, a));
  }

  lemma AcquireKeeps(h: Hash, s: Table, t: Thread)
    requires Inv(h, s) && t in s.threads && Enabled(h, s, t, Acquire)
    ensures Inv(h, Apply(h, s, t, Acquire))
  {
    hide TicketOk;
    var s' := Apply(h, s, t, Acquire);
    var b := Slot(h, s'.threads[t].address);
    MovedInside(h, s, s', t, s'.threads[t], b);
    assert Inside(h, s', b) == Inside(h, s, b);
    assert BucketOk(h, s, b) && ThreadOk(h, s, t);
    LocalKeeps(h, s, s', t, b);
  }

  lemma SpuriousKeeps(h: Hash, s: Table, t: Thread)
    requires Inv(h, s) && t in s.threads && Enabled(h, s, t, Spurious)
    ensures Inv(h, Apply(h, s, t, Spurious))
  {
    hide TicketOk;
    var s' := Apply(h, s, t, Spurious);
    var b := Slot(h, s'.threads[t].address);
    MovedInside(h, s, s', t, s'.threads[t], b);
    assert Inside(h, s', b) == Inside(h, s, b);
    assert BucketOk(h, s, b) && ThreadOk(h, s, t);
    LocalKeeps(h, s, s', t, b);
  }

  /** Counting in and out, modulo the width of the counter. */
  lemma CountWraps(n: nat)
    ensures (n + 1) % WORD32 == (n % WORD32 + 1) % WORD32
    ensures n > 0 ==> (n - 1) % WORD32 == (n % WORD32 - 1) % WORD32
  {
  }

  lemma SequenceWraps(n: nat)
    ensures (n + 1) % WORD64 == (n % WORD64 + 1) % WORD64
  {
  }

  lemma InsideMoved(h: Hash, s: Table, s': Table, t: Thread, b: nat)
    requires Local(h, s, s', t, b) && s.threads[t].At? && Slot(h, s.threads[t].address) == b
    requires s'.threads[t].At? ==> Slot(h, s'.threads[t].address) == b
    ensures var was, now := Counted(s.threads[t].stage), s'.threads[t].At? && Counted(s'.threads[t].stage);
      |Inside(h, s', b)| == |Inside(h, s, b)| + (if now && !was then 1 else if was && !now then -1 else 0)
  {
    MovedInside(h, s, s', t, s'.threads[t], b);
    assert t in Inside(h, s, b) <==> Counted(s.threads[t].stage);
    var was, now := Counted(s.threads[t].stage), s'.threads[t].At? && Counted(s'.threads[t].stage);
    if was == now { assert Inside(h, s', b) == Inside(h, s, b); }
  }

  lemma MonitorReadKeeps(h: Hash, s: Table, t: Thread)
    requires Inv(h, s) && t in s.threads && s.threads[t].At? && s.threads[t].stage.MonitorRead?
    ensures Inv(h, Work(h, s, t))
  {
    var s', b := Work(h, s, t), Slot(h, s.threads[t].address);
    assert BucketOk(h, s, b) && ThreadOk(h, s, t);
    InsideMoved(h, s, s', t, b);
    hide Inside;
    LocalKeeps(h, s, s', t, b);
  }

  lemma WaitEnterKeeps(h: Hash, s: Table, t: Thread)
    requires Inv(h, s) && t in s.threads && s.threads[t].At? && s.threads[t].stage.WaitEnter?
    ensures Inv(h, Work(h, s, t))
  {
    hide TicketOk;
    var s', b := Work(h, s, t), Slot(h, s.threads[t].address);
    assert BucketOk(h, s, b) && ThreadOk(h, s, t);
    InsideMoved(h, s, s', t, b);
    CountWraps(|Inside(h, s, b)|);
    hide Inside;
    LocalKeeps(h, s, s', t, b);
  }

  lemma WaitCheckKeeps(h: Hash, s: Table, t: Thread)
    requires Inv(h, s) && t in s.threads && s.threads[t].At? && s.threads[t].stage.WaitCheck?
    ensures Inv(h, Work(h, s, t))
  {
    hide TicketOk;
    var s', b := Work(h, s, t), Slot(h, s.threads[t].address);
    assert BucketOk(h, s, b) && ThreadOk(h, s, t);
    InsideMoved(h, s, s', t, b);
    hide Inside;
    LocalKeeps(h, s, s', t, b);
  }

  lemma WaitLeaveKeeps(h: Hash, s: Table, t: Thread)
    requires Inv(h, s) && t in s.threads && s.threads[t].At? && s.threads[t].stage.WaitLeave?
    ensures Inv(h, Work(h, s, t))
  {
    hide TicketOk;
    var s', b := Work(h, s, t), Slot(h, s.threads[t].address);
    assert BucketOk(h, s, b) && ThreadOk(h, s, t);
    InsideMoved(h, s, s', t, b);
    CountWraps(|Inside(h, s, b)|);
    hide Inside;
    LocalKeeps(h, s, s', t, b);
  }

  lemma NotifyCountKeeps(h: Hash, s: Table, t: Thread)
    requires Inv(h, s) && t in s.threads && s.threads[t].At? && s.threads[t].stage.NotifyCount?
    ensures Inv(h, Work(h, s, t))
  {
    hide TicketOk;
    var s', b := Work(h, s, t), Slot(h, s.threads[t].address);
    assert BucketOk(h, s, b) && ThreadOk(h, s, t);
    InsideMoved(h, s, s', t, b);
    SequenceWraps(s.buckets[b].notified);
    hide Inside;
    LocalKeeps(h, s, s', t, b);
  }

  lemma UnlockKeeps(h: Hash, s: Table, t: Thread)
    requires Inv(h, s) && t in s.threads && s.threads[t].At? && s.threads[t].stage.Unlock?
    ensures Inv(h, Work(h, s, t))
  {
    hide TicketOk;
    var s', b := Work(h, s, t), Slot(h, s.threads[t].address);
    assert BucketOk(h, s, b) && ThreadOk(h, s, t);
    InsideMoved(h, s, s', t, b);
    hide Inside;
    LocalKeeps(h, s, s', t, b);
  }

  lemma BroadcastKeeps(h: Hash, s: Table, t: Thread)
    requires Inv(h, s) && t in s.threads && s.threads[t].At? && s.threads[t].stage.NotifyBroadcast?
    ensures Inv(h, Work(h, s, t))
    ensures forall u <- s.threads :: u in Work(h, s, t).threads && !Work(h, s, t).threads[u].Idle? ==>
              !(Work(h, s, t).threads[u].stage.Asleep?
                && Slot(h, Work(h, s, t).threads[u].address) == Slot(h, s.threads[t].address))
  {
    hide TicketOk;
    var s', b := Work(h, s, t), Slot(h, s.threads[t].address);
    assert ThreadOk(h, s, t);
    forall c | 0 <= c < 256 ensures BucketOk(h, s', c) {
      assert BucketOk(h, s, c);
      assert Inside(h, s', c) == Inside(h, s, c);
    }
    forall u | u in s'.threads ensures ThreadOk(h, s', u) { assert ThreadOk(h, s, u); }
    forall p | p in s'.issued ensures TicketOk(h, s', p.0, p.1) { TicketSame(h, s, s', p.0, p.1); }
  }

  lemma TicketSame(h: Hash, s: Table, s': Table, a: Address, ticket: Ticket)
    requires |s.buckets| == 256 && s'.buckets == s.buckets && TicketOk(h, s, a, ticket)
    ensures TicketOk(h, s', a, ticket)
  {
  }

  lemma WorkKeeps(h: Hash, s: Table, t: Thread)
    requires Inv(h, s) && t in s.threads && Enabled(h, s, t, Proceed)
    ensures Inv(h, Work(h, s, t))
  {
    hide Inv, Work;
    match s.threads[t].stage
    case MonitorRead => MonitorReadKeeps(h, s, t);
    case WaitEnter => WaitEnterKeeps(h, s, t);
    case WaitCheck => WaitCheckKeeps(h, s, t);
    case WaitLeave => WaitLeaveKeeps(h, s, t);
    case NotifyCount => NotifyCountKeeps(h, s, t);
    case NotifyBroadcast => BroadcastKeeps(h, s, t);
    case Unlock => UnlockKeeps(h, s, t);
  }

  lemma StepKeeps(h: Hash, s: Table, t: Thread, act: Action)
    requires Inv(h, s) && t in s.threads && Enabled(h, s, t, act)
    ensures Inv(h, Apply(h, s, t, act))
  {
    hide Inv, Work;
    match act
    case Monitor(a) => StartKeeps(h, s, t, MonitorLock, a, Ticket(0, 0));
    case Wait(a, ticket) => StartKeeps(h, s, t, WaitLock, a, ticket);
    case Notify(a) => StartKeeps(h, s, t, NotifyLock, a, Ticket(0, 0));
    case Acquire => AcquireKeeps(h, s, t);
    case Proceed => WorkKeeps(h, s, t);
    case Spurious => SpuriousKeeps(h, s, t);
  }

  // -------------------------------------------------------------- runs

  ghost predicate Moved(h: Hash, s: Table, s': Table)
  {
    |s.buckets| == 256 && exists t, act :: t in s.threads && Enabled(h, s, t, act) && s' == Apply(h, s, t, act)
  }

  /** Any interleaving of any threads. */
  ghost predicate Run(h: Hash, r: seq<Table>)
  {
    r != [] && Initial(r[0]) && forall i :: 0 <= i < |r| - 1 ==> Moved(h, r[i], r[i + 1])
  }

  lemma {:induction false} RunKeeps(h: Hash, r: seq<Table>)
    requires Run(h, r)
    ensures Inv(h, r[|r| - 1])
    decreases |r|
  {
    hide Inv, Enabled, Apply, Initial;
    var n := |r| - 1;
    if n == 0 {
      InitialHolds(h, r[0]);
    } else {
      RunKeeps(h, r[..n]);
      assert Moved(h, r[n - 1], r[n]);
      var t, act :| t in r[n - 1].threads && Enabled(h, r[n - 1], t, act) && r[n] == Apply(h, r[n - 1], t, act);
      StepKeeps(h, r[n - 1], t, act);
    }
  }

  /** Mutual exclusion: of all threads that hold a bucket's mutex there is one. */
  lemma OneHolder(h: Hash, s: Table, t: Thread, u: Thread)
    requires Inv(h, s) && t in s.threads && u in s.threads && s.threads[t].At? && s.threads[u].At?
    requires Holding(s.threads[t].stage) && Holding(s.threads[u].stage)
    requires Slot(h, s.threads[t].address) == Slot(h, s.threads[u].address)
    ensures t == u
  {
    assert ThreadOk(h, s, t) && ThreadOk(h, s, u);
  }

  /** `waiters` is the number of threads inside `wait`, modulo the width of the counter. */
  lemma WaitersAreCounted(h: Hash, s: Table, b: nat)
    requires Inv(h, s) && b < 256
    ensures s.buckets[b].waiters == |Inside(h, s, b)| % WORD32
    ensures s.buckets[b].waiters == |Inside(h, s, b)| <==> |Inside(h, s, b)| < WORD32
  {
    assert BucketOk(h, s, b);
  }

  /** The test of `wait` tells old tickets from current ones, except when the sequence number has come all
      the way round: it sends the thread to sleep if and only if the number of notifications since the ticket
      is a multiple of 2^64. */
  lemma CheckSleepsIff(h: Hash, s: Table, t: Thread)
    requires Inv(h, s) && t in s.threads && s.threads[t].At? && s.threads[t].stage.WaitCheck?
    ensures var pc := s.threads[t]; var k := s.buckets[Slot(h, pc.address)];
      Work(h, s, t).threads[t].stage.Asleep? <==> (k.notified - pc.ticket.at) % WORD64 == 0
  {
    var pc := s.threads[t];
    var b := Slot(h, pc.address);
    assert ThreadOk(h, s, t) && BucketOk(h, s, b);
    assert TicketOk(h, s, (pc.address, pc.ticket).0, (pc.address, pc.ticket).1);
    SameResidue(s.buckets[b].notified, pc.ticket.at);
  }

  lemma SameResidue(x: nat, y: nat)
    requires y <= x
    ensures x % WORD64 == y % WORD64 <==> (x - y) % WORD64 == 0
  {
    var q, p := x / WORD64, y / WORD64;
    assert x - y == (q - p) * WORD64 + (x % WORD64 - y % WORD64);
    if x % WORD64 >= y % WORD64 {
      assert (x - y) / WORD64 == q - p;
    } else {
      assert x - y == (q - p - 1) * WORD64 + (WORD64 + x % WORD64 - y % WORD64);
      assert (x - y) % WORD64 == WORD64 + x % WORD64 - y % WORD64;
    }
  }

  /** A thread that leaves `wait` has been notified since its ticket, on this bucket if not on its address. */
  lemma LeavesOnlyNotified(h: Hash, s: Table, t: Thread)
    requires Inv(h, s) && t in s.threads && s.threads[t].At? && s.threads[t].stage.WaitLeave?
    ensures s.threads[t].ticket.at < s.buckets[Slot(h, s.threads[t].address)].notified
  {
    var pc := s.threads[t];
    assert ThreadOk(h, s, t) && BucketOk(h, s, Slot(h, pc.address));
    assert TicketOk(h, s, (pc.address, pc.ticket).0, (pc.address, pc.ticket).1);
  }

  /** No wake-up is lost.  A thread asleep although its bucket was notified since its ticket, fewer than 2^64
      times, sees a notifier that holds the mutex and whose next statement wakes it. */
  lemma NoLostWakeup(h: Hash, s: Table, t: Thread)
    requires Inv(h, s) && t in s.threads && s.threads[t].At? && s.threads[t].stage.Asleep?
    requires var pc := s.threads[t]; pc.ticket.at < s.buckets[Slot(h, pc.address)].notified < pc.ticket.at + WORD64
    ensures var b := Slot(h, s.threads[t].address);
      && Casting(h, s, b)
      && var u := s.buckets[b].mutex.value;
         Enabled(h, s, u, Proceed) && Apply(h, s, u, Proceed).threads[t] == s.threads[t].(stage := Woken)
  {
    var pc := s.threads[t];
    var b := Slot(h, pc.address);
    assert ThreadOk(h, s, t) && BucketOk(h, s, b);
    assert TicketOk(h, s, (pc.address, pc.ticket).0, (pc.address, pc.ticket).1);
    SameResidue(s.buckets[b].notified, pc.ticket.at);
  }

  // -------------------------------------------------------------- progress

  function Rank(pc: Pc): nat
  {
    if pc.Idle? then 0 else
      match pc.stage
      case WaitEnter => 4
      case WaitCheck => 3
      case NotifyCount => 3
      case Unlock => 1
      case _ => 2
  }

  /** Thread `u` goes on alone while it holds the mutex. */
  function Drain(h: Hash, s: Table, u: Thread): (r: Table)
    requires |s.buckets| == 256 && u in s.threads
    ensures |r.buckets| == 256 && r.threads.Keys == s.threads.Keys
    decreases Rank(s.threads[u])
  {
    if s.threads[u].At? && Holding(s.threads[u].stage) then Drain(h, Work(h, s, u), u) else s
  }

  /** No critical section blocks: its thread gives the mutex up within four statements of its own, and leaves
      every other thread alone, except that a broadcast wakes the sleepers of the bucket. */
  lemma {:induction false} DrainReleases(h: Hash, s: Table, u: Thread)
    requires Inv(h, s) && u in s.threads && s.threads[u].At? && Holding(s.threads[u].stage)
    ensures var s', b := Drain(h, s, u), Slot(h, s.threads[u].address);
      && Inv(h, s') && s'.buckets[b].mutex == None && s'.threads.Keys == s.threads.Keys
      && s'.threads[u] == LastPc(h, s, u)
      && s'.buckets[b].notified == s.buckets[b].notified + (if s.threads[u].stage.NotifyCount? then 1 else 0)
      && var wakes := s.threads[u].stage.NotifyCount? || s.threads[u].stage.NotifyBroadcast?;
         forall v <- s.threads :: v != u ==> s'.threads[v] == if wakes then Roused(h, s.threads[v], b) else s.threads[v]
    decreases Rank(s.threads[u])
  {
    hide BucketOk, ThreadOk, TicketOk;
    var s1 := Work(h, s, u);
    WorkKeeps(h, s, u);
    if s1.threads[u].At? && Holding(s1.threads[u].stage) { DrainReleases(h, s1, u); }
  }

  /** Where a thread ends up when it has given the mutex up. */
  function LastPc(h: Hash, s: Table, u: Thread): Pc
    requires |s.buckets| == 256 && u in s.threads && s.threads[u].At?
  {
    var pc := s.threads[u];
    if (pc.stage.WaitEnter? || pc.stage.WaitCheck?) && s.buckets[Slot(h, pc.address)].sequence == pc.ticket.bits
    then pc.(stage := Asleep) else Idle
  }

  /** A woken thread with an old ticket returns as soon as the mutex is free. */
  lemma WokenReturns(h: Hash, s: Table, t: Thread)
    requires Inv(h, s) && t in s.threads && s.threads[t].At? && s.threads[t].stage.Woken?
    requires s.buckets[Slot(h, s.threads[t].address)].mutex == None
    requires var pc := s.threads[t]; pc.ticket.at < s.buckets[Slot(h, pc.address)].notified < pc.ticket.at + WORD64
    ensures Enabled(h, s, t, Acquire) && Drain(h, Apply(h, s, t, Acquire), t).threads[t].Idle?
  {
    hide Inside, Drain;
    var pc := s.threads[t];
    var b := Slot(h, pc.address);
    assert ThreadOk(h, s, t) && BucketOk(h, s, b);
    assert TicketOk(h, s, (pc.address, pc.ticket).0, (pc.address, pc.ticket).1);
    SameResidue(s.buckets[b].notified, pc.ticket.at);
    AcquireKeeps(h, s, t);
    DrainReleases(h, Apply(h, s, t, Acquire), t);
  }

  /** A sleeper that was notified returns: its notifier finishes, the mutex is free, and the sleeper runs to
      the end of `wait`. */
  lemma NotifiedSleeperReturns(h: Hash, s: Table, t: Thread)
    requires Inv(h, s) && t in s.threads && s.threads[t].At? && s.threads[t].stage.Asleep?
    requires var pc := s.threads[t]; pc.ticket.at < s.buckets[Slot(h, pc.address)].notified < pc.ticket.at + WORD64
    ensures var b := Slot(h, s.threads[t].address);
      && Casting(h, s, b)
      && var s1 := Drain(h, s, s.buckets[b].mutex.value);
         && t in s1.threads && Enabled(h, s1, t, Acquire)
         && Drain(h, Apply(h, s1, t, Acquire), t).threads[t].Idle?
  {
    hide Drain, BucketOk, ThreadOk, TicketOk;
    NoLostWakeup(h, s, t);
    var b := Slot(h, s.threads[t].address);
    DrainReleases(h, s, s.buckets[b].mutex.value);
    WokenReturns(h, Drain(h, s, s.buckets[b].mutex.value), t);
  }

  lemma NotifiedGrows(h: Hash, s: Table, s': Table, b: nat)
    requires Moved(h, s, s') && b < 256
    ensures |s'.buckets| == 256 && s.buckets[b].notified <= s'.buckets[b].notified
  {
  }

  lemma {:induction false} NotifiedGrowsOverRuns(h: Hash, r: seq<Table>, i: nat, b: nat)
    requires Run(h, r) && i < |r| && b < 256
    ensures |r[i].buckets| == |r[|r| - 1].buckets| == 256
    ensures r[i].buckets[b].notified <= r[|r| - 1].buckets[b].notified
    decreases |r|
  {
    hide Moved;
    RunKeeps(h, r);
    if i < |r| - 1 {
      NotifiedGrowsOverRuns(h, r[..|r| - 1], i, b);
      NotifiedGrows(h, r[|r| - 2], r[|r| - 1], b);
    }
  }

  // -------------------------------------------------------------- whole calls

  /** The thread is about to count a notification of `a`. */
  predicate Notifying(pc: Pc, a: Address)
  {
    pc.At? && pc.address == a && (pc.stage.NotifyLock? || pc.stage.NotifyCount?)
  }

  predicate Entering(act: Action) { act.Monitor? || act.Wait? || act.Notify? }

  function AddressOf(act: Action): Address
    requires Entering(act)
  {
    match act
    case Monitor(a) => a
    case Wait(a, _) => a
    case Notify(a) => a
    case _ => 0
  }

  predicate MayCall(h: Hash, s: Table, t: Thread, act: Action)
  {
    && |s.buckets| == 256 && t in s.threads && Entering(act) && Enabled(h, s, t, act)
    && s.buckets[Slot(h, AddressOf(act))].mutex == None
  }

  /** A thread makes a call and goes on alone while it can. */
  function CallAlone(h: Hash, s: Table, t: Thread, act: Action): (r: Table)
    requires MayCall(h, s, t, act)
    ensures |r.buckets| == 256 && r.threads.Keys == s.threads.Keys
  {
    var s1 := Apply(h, s, t, act);
    Drain(h, Apply(h, s1, t, Acquire), t)
  }

  lemma DrainStep(h: Hash, s: Table, u: Thread)
    requires |s.buckets| == 256 && u in s.threads
    ensures s.threads[u].At? && Holding(s.threads[u].stage) ==> Drain(h, s, u) == Drain(h, Work(h, s, u), u)
    ensures !(s.threads[u].At? && Holding(s.threads[u].stage)) ==> Drain(h, s, u) == s
  {
  }

  /** `monitor` returns the sequence number of the bucket, and changes nothing. */
  lemma MonitorIssuesTheTicket(h: Hash, s: Table, t: Thread, a: Address)
    requires MayCall(h, s, t, Monitor(a))
    ensures var k := s.buckets[Slot(h, a)];
      CallAlone(h, s, t, Monitor(a)) == s.(issued := s.issued + {(a, Ticket(k.sequence, k.notified))})
  {
    hide Drain;
    var s1 := Apply(h, Apply(h, s, t, Monitor(a)), t, Acquire);
    var s2 := Work(h, s1, t);
    var s3 := Work(h, s2, t);
    DrainStep(h, s1, t);
    DrainStep(h, s2, t);
    DrainStep(h, s3, t);
    assert s3.buckets == s.buckets && s3.threads == s.threads;
  }

  /** `notify` counts one notification of the bucket, wakes every thread that sleeps on it, and changes nothing
      else. */
  lemma NotifyCountsAndWakes(h: Hash, s: Table, t: Thread, a: Address)
    requires MayCall(h, s, t, Notify(a))
    ensures var b := Slot(h, a); var k, s' := s.buckets[b], CallAlone(h, s, t, Notify(a));
      && s'.buckets == s.buckets[b := k.(sequence := (k.sequence + 1) % 0x1_0000_0000_0000_0000,
                                         notified := k.notified + 1)]
      && s'.issued == s.issued
      && forall u <- s.threads ::
           s'.threads[u] == if s.threads[u].At? && s.threads[u].stage.Asleep? && Slot(h, s.threads[u].address) == b
                            then s.threads[u].(stage := Woken) else s.threads[u]
  {
    hide Drain;
    var s1 := Apply(h, Apply(h, s, t, Notify(a)), t, Acquire);
    var s2 := Work(h, s1, t);
    var s3 := Work(h, s2, t);
    var s4 := Work(h, s3, t);
    DrainStep(h, s1, t);
    DrainStep(h, s2, t);
    DrainStep(h, s3, t);
    DrainStep(h, s4, t);
  }

  /** `wait` returns at once when the bucket was notified since the ticket, unless a multiple of 2^64 times, and
      leaves no trace; otherwise the thread is asleep and counted. */
  lemma WaitReturnsIff(h: Hash, s: Table, t: Thread, a: Address, ticket: Ticket)
    requires Inv(h, s) && MayCall(h, s, t, Wait(a, ticket))
    ensures var b := Slot(h, a); var k, s' := s.buckets[b], CallAlone(h, s, t, Wait(a, ticket));
      if (k.notified - ticket.at) % 0x1_0000_0000_0000_0000 != 0 then s' == s
      else s' == s.(threads := s.threads[t := At(Asleep, a, ticket)],
                    buckets := s.buckets[b := k.(waiters := (k.waiters + 1) % 0x1_0000_0000)])
  {
    hide Drain, Inside, ThreadOk;
    var b := Slot(h, a);
    var k := s.buckets[b];
    assert BucketOk(h, s, b);
    assert TicketOk(h, s, (a, ticket).0, (a, ticket).1);
    SameResidue(k.notified, ticket.at);
    WaitAlone(h, s, t, a, ticket);
  }

  lemma WaitAlone(h: Hash, s: Table, t: Thread, a: Address, ticket: Ticket)
    requires MayCall(h, s, t, Wait(a, ticket)) && s.buckets[Slot(h, a)].waiters < WORD32
    ensures var b := Slot(h, a); var k, s' := s.buckets[b], CallAlone(h, s, t, Wait(a, ticket));
      if k.sequence != ticket.bits then s' == s
      else s' == s.(threads := s.threads[t := At(Asleep, a, ticket)],
                    buckets := s.buckets[b := k.(waiters := (k.waiters + 1) % 0x1_0000_0000)])
  {
    hide Drain;
    WaitCountsItselfIn(h, s, t, a, ticket);
    hide Apply, CallAlone;
    var b := Slot(h, a);
    var k, s2 := s.buckets[b], Checking(h, s, t, a, ticket);
    DrainStep(h, s2, t);
    if k.sequence != ticket.bits {
      LeaveUndoesEnter(h, s, t, a, ticket);
    } else {
      DrainStep(h, Work(h, s2, t), t);
    }
  }

  /** The thread has the mutex and has counted itself in. */
  function Checking(h: Hash, s: Table, t: Thread, a: Address, ticket: Ticket): Table
    requires |s.buckets| == 256
  {
    var k := s.buckets[Slot(h, a)];
    s.(threads := s.threads[t := At(WaitCheck, a, ticket)],
       buckets := s.buckets[Slot(h, a) := k.(waiters := (k.waiters + 1) % WORD32, mutex := Some(t))])
  }

  lemma WaitCountsItselfIn(h: Hash, s: Table, t: Thread, a: Address, ticket: Ticket)
    requires MayCall(h, s, t, Wait(a, ticket))
    ensures CallAlone(h, s, t, Wait(a, ticket)) == Drain(h, Checking(h, s, t, a, ticket), t)
  {
    hide Drain;
    var s1 := Apply(h, Apply(h, s, t, Wait(a, ticket)), t, Acquire);
    DrainStep(h, s1, t);
    var s2, c := Work(h, s1, t), Checking(h, s, t, a, ticket);
    assert s2.buckets == c.buckets && s2.threads == c.threads;
  }

  lemma LeaveUndoesEnter(h: Hash, s: Table, t: Thread, a: Address, ticket: Ticket)
    requires MayCall(h, s, t, Wait(a, ticket)) && s.buckets[Slot(h, a)].waiters < WORD32
    requires s.buckets[Slot(h, a)].sequence != ticket.bits
    ensures Drain(h, Checking(h, s, t, a, ticket), t) == s
  {
    hide Drain;
    var s2 := Checking(h, s, t, a, ticket);
    var s3 := Work(h, s2, t);
    var s4 := Work(h, s3, t);
    var s5 := Work(h, s4, t);
    DrainStep(h, s2, t);
    DrainStep(h, s3, t);
    DrainStep(h, s4, t);
    DrainStep(h, s5, t);
    assert s5.buckets[Slot(h, a)] == s.buckets[Slot(h, a)];
    assert s5.buckets == s.buckets && s5.threads == s.threads;
  }

  /** Until it has counted its notification, a notifier stays inside its call. */
  lemma NotifyStep(h: Hash, s: Table, s': Table, u: Thread, a: Address)
    requires Moved(h, s, s') && u in s.threads && Notifying(s.threads[u], a)
    ensures u in s'.threads && |s'.buckets| == 256
    ensures Notifying(s'.threads[u], a) || s'.buckets[Slot(h, a)].notified > s.buckets[Slot(h, a)].notified
  {
  }

  /** A call of `notify` that has returned has counted. */
  lemma {:induction false} ReturnedNotifyCounted(h: Hash, r: seq<Table>, j: nat, u: Thread, a: Address)
    requires Run(h, r) && j < |r| && u in r[j].threads && Notifying(r[j].threads[u], a)
    ensures |r[j].buckets| == |r[|r| - 1].buckets| == 256 && u in r[|r| - 1].threads
    ensures Notifying(r[|r| - 1].threads[u], a)
            || r[|r| - 1].buckets[Slot(h, a)].notified > r[j].buckets[Slot(h, a)].notified
    decreases |r|
  {
    hide Moved, Notifying;
    RunKeeps(h, r);
    var n := |r| - 1;
    if j < n {
      ReturnedNotifyCounted(h, r[..n], j, u, a);
      NotifiedGrowsOverRuns(h, r[..n], j, Slot(h, a));
      assert Moved(h, r[n - 1], r[n]);
      ThreadsStay(h, r[n - 1], r[n], u);
      NotifiedGrows(h, r[n - 1], r[n], Slot(h, a));
      if Notifying(r[n - 1].threads[u], a) { NotifyStep(h, r[n - 1], r[n], u, a); }
    }
  }

  lemma ThreadsStay(h: Hash, s: Table, s': Table, u: Thread)
    requires Moved(h, s, s') && u in s.threads
    ensures u in s'.threads
  {
  }

  /** Over whole runs: thread `t` had its ticket for `a` at moment `i`; after that some thread called `notify`
      for `a`, or for any address of the same bucket, at moment `j`, and had returned at moment `k`.  If `t` is
      asleep on that ticket at the end, and the bucket has seen fewer than 2^64 notifications since, another
      notifier is about to wake it and `t` returns. */
  lemma RunLosesNoWakeup(h: Hash, r: seq<Table>, t: Thread, i: nat, j: nat, k: nat, u: Thread, c: Address)
    requires Run(h, r) && i <= j < k < |r|
    requires var s := r[|r| - 1]; t in s.threads && s.threads[t].At? && s.threads[t].stage.Asleep?
    requires (r[|r| - 1].threads[t].address, r[|r| - 1].threads[t].ticket) in r[i].issued
    requires Slot(h, c) == Slot(h, r[|r| - 1].threads[t].address)
    requires |r[j].buckets| == 256 && u in r[j].threads && Enabled(h, r[j], u, Notify(c))
    requires r[j + 1] == Apply(h, r[j], u, Notify(c)) && u in r[k].threads && r[k].threads[u].Idle?
    requires |r[|r| - 1].buckets| == 256
    requires var s := r[|r| - 1];
             s.buckets[Slot(h, s.threads[t].address)].notified < s.threads[t].ticket.at + WORD64
    ensures var s, b := r[|r| - 1], Slot(h, r[|r| - 1].threads[t].address);
      && Casting(h, s, b)
      && var s1 := Drain(h, s, s.buckets[b].mutex.value);
         && t in s1.threads && Enabled(h, s1, t, Acquire)
         && Drain(h, Apply(h, s1, t, Acquire), t).threads[t].Idle?
  {
    hide Moved, Drain, BucketOk, ThreadOk;
    var s := r[|r| - 1];
    var a, ticket := s.threads[t].address, s.threads[t].ticket;
    var b := Slot(h, a);
    RunKeeps(h, r[..i + 1]);
    assert TicketOk(h, r[i], (a, ticket).0, (a, ticket).1);
    NotifiedGrowsOverRuns(h, r[..j + 1], i, b);
    ReturnedNotifyCounted(h, r[..k + 1], j + 1, u, c);
    NotifiedGrowsOverRuns(h, r, k, b);
    RunKeeps(h, r);
    NotifiedSleeperReturns(h, s, t);
  }
}

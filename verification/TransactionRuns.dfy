/** Runs of the register transaction: any interleaving of calls on any number of transactions that share an
    owner. */
module TransactionRuns {
  import opened Transaction

  // -------------------------------------------------------------- exclusion

  /** The owner record, every transaction that was ever given to it, and the setter calls so far. */
  datatype World = World(owner: OwnerRec, views: map<Txn, View>, log: seq<Event>)

  /** One call on transaction `t`. */
  ghost predicate Called(w: World, w': World, t: Txn)
  {
    && t in w.views && t in w'.views && w'.views == w.views[t := w'.views[t]] && w.log <= w'.log
    && Step(t, w.views[t], w.owner, w'.views[t], w'.owner, w'.log[|w.log|..])
  }

  /** The surroundings change the owner record, but neither the lease nor the state epoch. */
  ghost predicate Meddled(w: World, w': World)
  {
    && w'.views == w.views && w'.log == w.log
    && w'.owner.activeLease == w.owner.activeLease && w'.owner.stateEpoch == w.owner.stateEpoch
  }

  ghost predicate Moved(w: World, w': World)
  {
    Meddled(w, w') || exists t | t in w.views :: Called(w, w', t)
  }

  /** Any interleaving of calls and changes by the surroundings. */
  ghost predicate Run(r: seq<World>)
  {
    r != [] && forall i :: 0 <= i < |r| - 1 ==> Moved(r[i], r[i + 1])
  }

  /** Exactly the lease holder is live, so at most one transaction is. */
  ghost predicate Exclusive(w: World)
  {
    && (w.owner.activeLease != null ==> w.owner.activeLease in w.views)
    && (forall t <- w.views :: w.views[t].state != UNBOUND <==> w.owner.activeLease == t)
  }

  lemma CallKeepsExclusion(w: World, w': World, t: Txn)
    requires Exclusive(w) && Called(w, w', t)
    ensures Exclusive(w')
  {
    assert w.views.Keys == w'.views.Keys;
    var v, v' := w.views[t], w'.views[t];
    if Working(t, v, w.owner, v', w'.owner, w'.log[|w.log|..]) {
      assert w'.owner.activeLease == t;
    }
  }

  lemma {:induction false} RunKeepsExclusion(r: seq<World>)
    requires Run(r) && Exclusive(r[0])
    ensures forall w <- r :: Exclusive(w)
    ensures forall w <- r, t <- w.views, u <- w.views :: w.views[t].state != UNBOUND && w.views[u].state != UNBOUND ==>
              t == u
    decreases |r|
  {
    var n := |r| - 1;
    if n > 0 {
      RunKeepsExclusion(r[..n]);
      MoveKeepsExclusion(r[n - 1], r[n]);
      assert r == r[..n] + [r[n]];
    }
  }

  lemma MoveKeepsExclusion(w: World, w': World)
    requires Exclusive(w) && Moved(w, w')
    ensures Exclusive(w')
  {
    hide Called;
    if !Meddled(w, w') {
      var t :| t in w.views && Called(w, w', t);
      CallKeepsExclusion(w, w', t);
    }
  }

  /** One move calls setters only for the transaction that holds the lease, with the lifetime and the epoch
      of the owner record as they are, while the guard conditions hold. */
  lemma WritesAreTheHolders(w: World, w': World)
    requires Moved(w, w') && w'.log != w.log
    ensures w.log <= w'.log && w.owner.activeLease != null && w.owner.activeLease in w.views
    ensures Holder(w.owner.activeLease, w.views[w.owner.activeLease], w.owner)
    ensures AllGuarded(w.owner.activeLease, w'.log[|w.log|..])
  {
    var t :| t in w.views && Called(w, w', t);
    assert w' .log == w.log + w'.log[|w.log|..];
  }

  /** Every setter call of a run was made by the transaction that held the lease at that moment, guarded,
      journalled and with a value its policy permits. */
  lemma {:induction false} EveryWriteIsTheHolders(r: seq<World>, k: nat) returns (i: nat)
    requires Run(r) && |r[0].log| <= k < |r[|r| - 1].log|
    ensures i + 1 < |r| && |r[i].log| <= k < |r[i + 1].log| <= |r[|r| - 1].log|
    ensures var e := r[|r| - 1].log[k];
      e == r[i + 1].log[k] && r[i].owner.activeLease == e.txn && e.guarded && e.journalled
      && e.txn.p.Permits(e.index, e.value, e.snapshot, e.originals)
      && e.txn in r[i].views && Holder(e.txn, r[i].views[e.txn], r[i].owner)
    decreases |r|
  {
    var n := |r| - 1;
    if k < |r[n - 1].log| {
      LogGrows(r[n - 1], r[n]);
      i := EveryWriteIsTheHolders(r[..n], k);
    } else {
      i := n - 1;
      WritesAreTheHolders(r[i], r[n]);
      assert r[n].log[|r[i].log|..][k - |r[i].log|] == r[n].log[k];
    }
  }

  lemma LogGrows(w: World, w': World)
    requires Moved(w, w')
    ensures w.log <= w'.log
  {
  }

  /** Poison is absorbing: the transaction stays as it is and keeps its lease, and as nobody else can take it,
      no setter is called again through any transaction of the owner. */
  lemma {:induction false} PoisonIsForever(r: seq<World>, t: Txn)
    requires Run(r) && Exclusive(r[0]) && t in r[0].views && r[0].views[t].state == POISON_STATE
    ensures forall w <- r ::
              t in w.views && w.views[t] == r[0].views[t] && w.owner.activeLease == t && w.log == r[0].log
    decreases |r|
  {
    var n := |r| - 1;
    if n > 0 {
      PoisonIsForever(r[..n], t);
      RunKeepsExclusion(r[..n]);
      assert r[..n][n - 1] == r[n - 1];
      PoisonStays(r[n - 1], r[n], t);
      assert r == r[..n] + [r[n]];
    }
  }

  lemma PoisonStays(w: World, w': World, t: Txn)
    requires Moved(w, w') && Exclusive(w) && t in w.views && w.views[t].state == POISON_STATE
    ensures t in w'.views && w'.views[t] == w.views[t] && w'.owner.activeLease == t && w'.log == w.log
  {
    if u :| u in w.views && Called(w, w', u) { PoisonRefuses(w, w', t, u); }
  }

  lemma PoisonRefuses(w: World, w': World, t: Txn, u: Txn)
    requires Called(w, w', u) && Exclusive(w) && t in w.views && w.views[t].state == POISON_STATE
    ensures w' == w
  {
    assert w'.log == w.log + w'.log[|w.log|..];
  }

  ghost predicate Sealed(v: View) { v.state == COMMIT_STATE || v.state == POISON_STATE }

  /** A committed transaction gives up its lease only after its rollback: while every later state is committed
      or poisoned the lease stays, and the first other state is the recovered one. */
  lemma CommitLeavesByRollback(w: World, w': World, t: Txn)
    requires Moved(w, w') && Exclusive(w) && t in w.views && Sealed(w.views[t])
    ensures t in w'.views && w'.owner.activeLease == t && (Sealed(w'.views[t]) || w'.views[t].state == RECOVERED)
  {
    if !Meddled(w, w') {
      var u :| u in w.views && Called(w, w', u);
    }
  }

  lemma {:induction false} CommitKeepsTheLease(r: seq<World>, t: Txn)
    requires Run(r) && Exclusive(r[0]) && t in r[0].views && Sealed(r[0].views[t])
    requires r[|r| - 1].owner.activeLease != t
    ensures exists i ::
              0 <= i < |r| && t in r[i].views && r[i].views[t].state == RECOVERED && r[i].owner.activeLease == t
    decreases |r|
  {
    if |r| > 1 {
      CommitLeavesByRollback(r[0], r[1], t);
      MoveKeepsExclusion(r[0], r[1]);
      if Sealed(r[1].views[t]) {
        CommitKeepsTheLease(r[1..], t);
        var i :| 0 <= i < |r[1..]| && t in r[1..][i].views && r[1..][i].views[t].state == RECOVERED
          && r[1..][i].owner.activeLease == t;
        assert r[1..][i] == r[i + 1];
      }
    }
  }

  /** The state epoch never falls and never wraps. */
  lemma {:induction false} EpochNeverFalls(r: seq<World>)
    requires Run(r) && r[0].owner.stateEpoch <= UINT64_MAX
    ensures r[0].owner.stateEpoch <= r[|r| - 1].owner.stateEpoch <= UINT64_MAX
    decreases |r|
  {
    var n := |r| - 1;
    if n > 0 {
      EpochNeverFalls(r[..n]);
      assert Moved(r[n - 1], r[n]);
    }
  }

  ghost function WorldOf(txns: set<Txn>, cpu: Cpu): World
    reads txns, cpu, cpu.owner
  {
    World(cpu.owner.Rec(), map t | t in txns :: t.Face(), cpu.log)
  }

  /** Transactions of any of the three kinds that share one quiet CPU and its owner. */
  ghost predicate Ready(txns: set<Txn>, cpu: Cpu)
    reads txns, cpu
  {
    cpu.IsQuiet() && forall t <- txns :: t.cpu == cpu && t.Valid() && t.p.rules != []
  }

  /** World after world, the calls of the schedule. */
  ghost predicate Follows(r: seq<World>, schedule: seq<(Txn, Call)>, n: nat)
    requires n <= |schedule|
  {
    |r| == n + 1 && forall i :: 0 <= i < n ==> Called(r[i], r[i + 1], schedule[i].0)
  }

  /** Any schedule of calls is such a run, one call after the other, so everything above holds of it. */
  method Interleave(txns: set<Txn>, cpu: Cpu, schedule: seq<(Txn, Call)>) returns (ghost r: seq<World>)
    requires Ready(txns, cpu) && forall c <- schedule :: c.0 in txns
    modifies txns, cpu`regs, cpu`dirty, cpu`log, cpu.owner, cpu.ops, cpu.native
    ensures Ready(txns, cpu) && Run(r) && Follows(r, schedule, |schedule|)
    ensures r[0] == old(WorldOf(txns, cpu)) && r[|r| - 1] == WorldOf(txns, cpu)
    ensures old(Exclusive(WorldOf(txns, cpu))) ==> Exclusive(WorldOf(txns, cpu))
  {
    hide Step, Owner.Rec, Exclusive, Moved, Called;
    r := [WorldOf(txns, cpu)];
    for i := 0 to |schedule|
      invariant Ready(txns, cpu) && Run(r) && Follows(r, schedule, i)
      invariant r[0] == old(WorldOf(txns, cpu)) && r[|r| - 1] == WorldOf(txns, cpu)
    {
      PerformOne(txns, cpu, schedule[i].0, schedule[i].1);
      CallIsMove(r[|r| - 1], WorldOf(txns, cpu), schedule[i].0);
      r := r + [WorldOf(txns, cpu)];
    }
    if Exclusive(r[0]) { RunKeepsExclusion(r); }
  }

  method PerformOne(txns: set<Txn>, cpu: Cpu, t: Txn, call: Call)
    requires Ready(txns, cpu) && t in txns
    modifies txns, cpu`regs, cpu`dirty, cpu`log, cpu.owner, cpu.ops, cpu.native
    ensures Ready(txns, cpu) && Called(old(WorldOf(txns, cpu)), WorldOf(txns, cpu), t)
  {
    hide Step, Owner.Rec, Profile.Valid, Consistent;
    var code := t.Perform(call);
  }

  lemma CallIsMove(w: World, w': World, t: Txn)
    requires Called(w, w', t)
    ensures Moved(w, w')
  {
  }
}

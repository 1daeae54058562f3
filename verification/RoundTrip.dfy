/** The round trip of a register transaction on a faithful CPU: snapshot, stage, commit, restore. */
module RoundTrip {
  import opened Transaction
  import opened Wrappers

  /** `Stage` accepts the value. */
  predicate Accepts(p: Profile, j: Journal, stage: (RegId, Value))
  {
    var target := p.Target(stage.0, stage.1);
    target.Some? && p.Allows(j, target.value, stage.1)
  }

  /** The values requested after some calls of `Stage` on a fresh snapshot. */
  function Asked(p: Profile, j: Journal, stages: seq<(RegId, Value)>): (r: seq<Value>)
    requires |j.baseline| == p.N()
    ensures |r| == p.N()
  {
    if stages == [] then j.baseline else
      var n := |stages| - 1;
      var before := Asked(p, j, stages[..n]);
      if Accepts(p, j, stages[n]) then before[p.Target(stages[n].0, stages[n].1).value := stages[n].1] else before
  }

  /** Stage `k` is the last accepted one for field `i`. */
  ghost predicate LastFor(p: Profile, j: Journal, stages: seq<(RegId, Value)>, i: nat, k: nat)
  {
    k < |stages| && For(p, j, stages[k], i) && forall q :: k < q < |stages| ==> !For(p, j, stages[q], i)
  }

  ghost predicate For(p: Profile, j: Journal, stage: (RegId, Value), i: nat)
  {
    Accepts(p, j, stage) && p.Target(stage.0, stage.1) == Some(i)
  }

  lemma AskedStep(p: Profile, j: Journal, stages: seq<(RegId, Value)>, i: nat)
    requires |j.baseline| == p.N() && i < p.N() && stages != []
    ensures var n := |stages| - 1;
      Asked(p, j, stages)[i] == if For(p, j, stages[n], i) then stages[n].1 else Asked(p, j, stages[..n])[i]
  {
  }

  /** The last accepted stage of a field wins; a field that was never staged keeps its baseline. */
  lemma {:induction false} LastStageWins(p: Profile, j: Journal, stages: seq<(RegId, Value)>, i: nat)
    requires |j.baseline| == p.N() && i < p.N()
    ensures forall k: nat :: LastFor(p, j, stages, i, k) ==> Asked(p, j, stages)[i] == stages[k].1
    ensures (forall k :: 0 <= k < |stages| ==> !For(p, j, stages[k], i)) ==> Asked(p, j, stages)[i] == j.baseline[i]
  {
    hide For, Accepts;
    if stages != [] {
      hide Asked;
      var n := |stages| - 1;
      LastStageWins(p, j, stages[..n], i);
      AskedStep(p, j, stages, i);
      forall k: nat | LastFor(p, j, stages, i, k) ensures Asked(p, j, stages)[i] == stages[k].1 {
        if k < n { LastInFront(p, j, stages, i, k); }
      }
    }
  }

  lemma LastInFront(p: Profile, j: Journal, stages: seq<(RegId, Value)>, i: nat, k: nat)
    requires k < |stages| - 1 && LastFor(p, j, stages, i, k)
    ensures LastFor(p, j, stages[..|stages| - 1], i, k) && !For(p, j, stages[|stages| - 1], i)
  {
    hide For;
  }

  ghost predicate Sets(f: seq<Event>, i: nat)
  {
    exists a :: 0 <= a < |f| && f[a].index == i
  }

  /** A commit calls one setter per pending field below `k`, in ascending order, with its requested value. */
  lemma {:induction false} OneCallPerField(t: Txn, j: Journal, k: nat)
    requires |j.baseline| == |j.requested| == t.p.N() && k <= t.p.N()
    ensures var f := Forward(t, j, k);
      && (forall a :: 0 <= a < |f| ==>
            f[a].index < k && f[a].index in j.pending && f[a].value == j.requested[f[a].index])
      && (forall a, b :: 0 <= a < b < |f| ==> f[a].index < f[b].index)
      && (forall i :: i in j.pending && i < k ==> Sets(f, i))
  {
    if k > 0 {
      OneCallPerField(t, j, k - 1);
      ForwardStep(t, j, k - 1);
      hide Forward;
      forall i | i in j.pending && i < k ensures Sets(Forward(t, j, k), i) {
        FieldIsCalled(t, j, k, i);
      }
    }
  }

  lemma FieldIsCalled(t: Txn, j: Journal, k: nat, i: nat)
    requires |j.baseline| == |j.requested| == t.p.N() && 0 < k <= t.p.N() && i in j.pending && i < k
    requires i < k - 1 ==> Sets(Forward(t, j, k - 1), i)
    ensures Sets(Forward(t, j, k), i)
  {
    ForwardStep(t, j, k - 1);
    hide Forward;
    var g, f := Forward(t, j, k - 1), Forward(t, j, k);
    if i < k - 1 {
      var a :| 0 <= a < |g| && g[a].index == i;
      assert f[a] == g[a];
    } else {
      assert f[|f| - 1] == Setting(t, j, i, j.requested[i]);
    }
  }

  /** Calls for attempted fields from `lo` up, in descending order, each with its baseline. */
  ghost predicate Descends(t: Txn, j: Journal, lo: nat, f: seq<Event>)
    requires |j.baseline| == t.p.N()
  {
    && (forall a :: 0 <= a < |f| ==>
          lo <= f[a].index < t.p.N() && f[a].index in j.attempted && f[a].value == j.baseline[f[a].index])
    && (forall a, b :: 0 <= a < b < |f| ==> f[a].index > f[b].index)
  }

  lemma DescendsOn(t: Txn, j: Journal, lo: nat, f: seq<Event>)
    requires |j.baseline| == t.p.N() && lo < t.p.N() && Descends(t, j, lo + 1, f)
    ensures Descends(t, j, lo, f)
    ensures lo in j.attempted ==> Descends(t, j, lo, f + [Setting(t, j, lo, j.baseline[lo])])
  {
  }

  /** A rollback calls one setter per attempted field from `lo` up, in descending order, with its baseline. */
  lemma {:induction false} RollbackIsReversed(t: Txn, j: Journal, lo: nat)
    requires |j.baseline| == t.p.N() && lo <= t.p.N()
    ensures Descends(t, j, lo, Backward(t, j, lo))
    ensures forall i :: i in j.attempted && lo <= i < t.p.N() ==> Sets(Backward(t, j, lo), i)
    decreases t.p.N() - lo
  {
    if lo < t.p.N() {
      RollbackIsReversed(t, j, lo + 1);
      BackwardStep(t, j, lo);
      hide Backward, Descends;
      DescendsOn(t, j, lo, Backward(t, j, lo + 1));
      forall i | i in j.attempted && lo <= i < t.p.N() ensures Sets(Backward(t, j, lo), i) {
        FieldIsRestored(t, j, lo, i);
      }
    }
  }

  lemma FieldIsRestored(t: Txn, j: Journal, lo: nat, i: nat)
    requires |j.baseline| == t.p.N() && lo < t.p.N() && i in j.attempted && lo <= i < t.p.N()
    requires lo < i ==> Sets(Backward(t, j, lo + 1), i)
    ensures Sets(Backward(t, j, lo), i)
  {
    BackwardStep(t, j, lo);
    hide Backward;
    var g, f := Backward(t, j, lo + 1), Backward(t, j, lo);
    if lo < i {
      var a :| 0 <= a < |g| && g[a].index == i;
      assert f[a] == g[a];
    } else {
      assert f[|f| - 1] == Setting(t, j, i, j.baseline[i]);
    }
  }

  /** Stages every value in turn. */
  method StageAll(t: Txn, stages: seq<(RegId, Value)>)
    requires t.Valid() && t.Trusted() && t.state == SNAPSHOT && t.j.requested == t.j.baseline
    modifies t`j, t`state, t.cpu.owner, t.cpu.ops, t.cpu.native
    ensures t.Valid() && t.Trusted() && t.lease == old(t.lease) && t.Undisturbed()
    ensures t.j == old(t.j).(requested := Asked(t.p, old(t.j), stages), pending := t.j.pending)
    ensures t.state == if t.j.requested == t.j.baseline then SNAPSHOT else STAGED
  {
    hide Txn.Trusted, Profile.Valid, Consistent, Profile.Allows, Profile.Target;
    ghost var j0 := t.j;
    for n := 0 to |stages|
      invariant t.Valid() && t.Trusted() && t.lease == old(t.lease) && t.Undisturbed() && |j0.baseline| == t.p.N()
      invariant t.j == j0.(requested := Asked(t.p, j0, stages[..n]), pending := t.j.pending)
      invariant t.state == if t.j.requested == t.j.baseline then SNAPSHOT else STAGED
    {
      StageNext(t, stages, n, j0);
    }
    assert stages[..|stages|] == stages;
  }

  method StageNext(t: Txn, stages: seq<(RegId, Value)>, n: nat, ghost j0: Journal)
    requires n < |stages| && |j0.baseline| == t.p.N()
    requires t.Valid() && t.Trusted() && t.j == j0.(requested := Asked(t.p, j0, stages[..n]), pending := t.j.pending)
    requires t.state == if t.j.requested == t.j.baseline then SNAPSHOT else STAGED
    modifies t`j, t`state, t.cpu.owner, t.cpu.ops, t.cpu.native
    ensures t.Valid() && t.Trusted() && t.Undisturbed()
    ensures t.j == j0.(requested := Asked(t.p, j0, stages[..n + 1]), pending := t.j.pending)
    ensures t.state == if t.j.requested == t.j.baseline then SNAPSHOT else STAGED
  {
    hide Txn.Trusted, Profile.Valid, Consistent, Profile.Target;
    assert stages[..n + 1][..n] == stages[..n];
    var code := t.Stage(stages[n].0, stages[n].1);
  }

  /** The setter calls of a commit of `held` and of its rollback. */
  ghost function Both(t: Txn, originals: seq<Value>, baseline: seq<Value>, held: seq<Value>): seq<Event>
    requires |baseline| == |held| == t.p.N()
  {
    var changed := Diff(held, baseline);
    var j := NoJournal(t.p).(originals := originals, baseline := baseline, requested := held,
                             pending := changed, attempted := changed);
    Forward(t, j, t.p.N()) + Backward(t, j, 0)
  }

  lemma {:induction false} ForwardDependsOn(t: Txn, j: Journal, j': Journal, k: nat)
    requires j.requested == j'.requested && j.pending == j'.pending && k <= t.p.N()
    requires j.baseline == j'.baseline && j.originals == j'.originals && |j.requested| == |j.baseline| == t.p.N()
    ensures Forward(t, j, k) == Forward(t, j', k)
  {
    if k > 0 { ForwardDependsOn(t, j, j', k - 1); }
  }

  lemma {:induction false} BackwardDependsOn(t: Txn, j: Journal, j': Journal, lo: nat)
    requires j.baseline == j'.baseline && j.originals == j'.originals && j.attempted == j'.attempted
    requires |j.baseline| == t.p.N() && lo <= t.p.N()
    ensures Backward(t, j, lo) == Backward(t, j', lo)
    decreases t.p.N() - lo
  {
    if lo < t.p.N() { BackwardDependsOn(t, j, j', lo + 1); }
  }

  /** Staged values commit and are undone. */
  method CommitThenRestore(t: Txn) returns (committed: Status, restored: Status, ghost held: seq<Value>)
    requires t.Valid() && t.MayCommitFaithfully() && t.lease.stateEpoch <= UINT64_MAX - 2
    modifies t`j, t`state, t`lease, t.cpu`regs, t.cpu`dirty, t.cpu`log, t.cpu.owner, t.cpu.ops, t.cpu.native
    ensures committed == OK && restored == OK && t.Valid() && t.Trusted() && t.state == RECOVERED
    ensures held == old(t.j.requested) && t.Current() == t.j.baseline == old(t.j.baseline)
    ensures t.j.originals == old(t.j.originals)
    ensures t.lease.stateEpoch == old(t.lease.stateEpoch) + 2
    ensures t.cpu.log == old(t.cpu.log) + Both(t, old(t.j.originals), old(t.j.baseline), held)
  {
    hide Txn.Trusted, Txn.Checks, Profile.Valid, ValuesOf, Forward, Backward, Diff;
    ghost var k, lo;
    var r;
    committed, r, k, lo := t.Commit();
    held := t.Current();
    ghost var j := t.j;
    restored, r, lo := t.Restore();
    ghost var both :=
      NoJournal(t.p).(originals := j.originals, baseline := j.baseline, requested := held,
                      pending := j.pending, attempted := j.pending);
    ForwardDependsOn(t, old(t.j), both, t.p.N());
    BackwardDependsOn(t, j, both, 0);
  }

  /** At the last epoch but one the commit succeeds and cannot be undone: its restore is refused and the committed
      values stay. */
  method CommitAtTheLastEpoch(t: Txn) returns (committed: Status, restored: Status)
    requires t.Valid() && t.MayCommitFaithfully() && t.lease.stateEpoch == UINT64_MAX - 1
    modifies t`j, t`state, t`lease, t.cpu`regs, t.cpu`dirty, t.cpu`log, t.cpu.owner, t.cpu.ops, t.cpu.native
    ensures committed == OK && restored == EPOCH_EXHAUSTED && t.Valid() && t.state == COMMIT_STATE
    ensures t.Current() == old(t.j.requested)
  {
    hide Txn.Trusted, Txn.Checks, Profile.Valid, ValuesOf, Forward, Backward, Diff;
    ghost var k, lo;
    var r;
    committed, r, k, lo := t.Commit();
    restored, r, lo := t.Restore();
  }

  /** Without a changed field there is nothing to commit and nothing to restore. */
  method CommitNothing(t: Txn) returns (committed: Status, restored: Status)
    requires t.Valid() && t.Trusted() && t.state == SNAPSHOT
    modifies t`j, t`state, t`lease, t.cpu`regs, t.cpu`dirty, t.cpu`log, t.cpu.owner, t.cpu.ops, t.cpu.native
    ensures committed != OK && restored != OK && t.Valid() && t.Trusted() && t.Untouched() && t.Undisturbed()
  {
    hide Txn.Trusted, Txn.Checks, Profile.Valid, ValuesOf, Forward, Backward, Diff, Owner.Rec, Ops.Rec;
    ghost var k, lo;
    var r;
    committed, r, k, lo := t.Commit();
    restored, r, lo := t.Restore();
  }

  /** The round trip.  With at least one field changed and room for two epochs, commit and restore both
      succeed, the registers hold what was asked in between and the snapshot at the end, every changed field is
      set exactly twice, and the epoch is up by two.  With no field changed the commit is refused. */
  method CommitAndRestore(t: Txn, stages: seq<(RegId, Value)>)
      returns (committed: Status, restored: Status, ghost held: seq<Value>)
    requires t.Valid() && t.Trusted() && (t.state == BOUND || t.state == SNAPSHOT || t.state == RECOVERED)
    requires t.j.serial < UINT64_MAX && t.lease.stateEpoch <= UINT64_MAX - 2
    modifies t, t.cpu`regs, t.cpu`dirty, t.cpu`log, t.cpu.owner, t.cpu.ops, t.cpu.native
    ensures t.Valid() && t.Trusted() && t.Current() == old(t.Current())
    ensures t.j.baseline == old(t.Current()) && |held| == t.p.N() && t.j.originals == old(t.j.originals)
    ensures held == Asked(t.p, t.j, stages)
    ensures if held == t.j.baseline then
              committed != OK && restored != OK && t.cpu.log == old(t.cpu.log)
                && t.cpu.owner.stateEpoch == old(t.cpu.owner.stateEpoch)
            else
              && committed == OK && restored == OK && t.state == RECOVERED
              && t.cpu.owner.stateEpoch == old(t.cpu.owner.stateEpoch) + 2
              && t.cpu.log == old(t.cpu.log) + Both(t, t.j.originals, t.j.baseline, held)
  {
    hide Profile.Valid, ValuesOf, Both, OwnerValid, AllPresent, Profile.Allows, Profile.Target, Diff, Accepts;
    assert t.j.pending == {} && t.lease.stateEpoch == t.cpu.owner.stateEpoch;
    var code := t.Snapshot();
    ghost var j := t.j;
    StageAll(t, stages);
    held := t.j.requested;
    if t.state == SNAPSHOT {
      committed, restored := CommitNothing(t);
    } else {
      committed, restored, held := CommitThenRestore(t);
    }
    AskedDependsOn(t.p, j, t.j, stages);
  }

  lemma {:induction false} AskedDependsOn(p: Profile, j: Journal, j': Journal, stages: seq<(RegId, Value)>)
    requires j.baseline == j'.baseline && j.originals == j'.originals && |j.baseline| == p.N()
    ensures Asked(p, j, stages) == Asked(p, j', stages)
  {
    if stages != [] { AskedDependsOn(p, j, j', stages[..|stages| - 1]); }
  }
}

/** The three instances of the register transaction, as field tables and value policies. */
module TransactionProfiles {
  import opened Transaction
  import TransactionRuns
  import opened Wrappers

  const NATIVE_VERSION := 0x206879700000000e

  function Simd(n: nat): Field { Field(RegId(SIMD, n), 0x140 + 16 * n, 16) }

  function General(n: nat): Field { Field(RegId(REG, n), 8 + 8 * n, 8) }

  const SCTLR := Field(RegId(SYS, 0xc080), 0x400, 8)
  const PC := Field(RegId(REG, 31), 0x108, 8)
  const FPCR := Field(RegId(REG, 32), 0x344, 4)
  const FPSR := Field(RegId(REG, 33), 0x340, 4)
  const CPSR := Field(RegId(REG, 34), 0x110, 4)
  const SP_EL0 := Field(RegId(SYS, 0xc208), 0x370, 8)
  const SP_EL1 := Field(RegId(SYS, 0xe208), 0x378, 8)

  /** `VZTxnFields` */
  function Fields69(): seq<Field>
  {
    seq(32, i requires 0 <= i < 32 => Simd(i)) + [SCTLR] + seq(31, i requires 0 <= i < 31 => General(i))
    + [PC, FPCR, FPSR, SP_EL0, SP_EL1]
  }

  const CONTEXT69 := Profile(0x565a54584e363900, NATIVE_VERSION, Fields69(), [Exactly(32, 0x30800180)])

  const CONTEXT70 :=
    Profile(0x565a54584e373000, NATIVE_VERSION, Fields69() + [CPSR], [Exactly(32, 0x30800180), Exactly(69, 0x3c5)])

  const SYSTEM4 := Profile(0x565a535953545834, NATIVE_VERSION,
                           [Field(RegId(SYS, 0xc684), 0x358, 8), Field(RegId(SYS, 0xde82), 0x360, 8),
                            Field(RegId(SYS, 0xde83), 0x368, 8), Field(RegId(SYS, 0xd000), 0x388, 8)], [AtMost(3, 0xf)])

  /** The three native words a transaction audits. */
  const DIRTY_OFFSETS := [0x670, 0x678, 0x748]

  /** The native bytes of a field. */
  predicate Apart(f: Field, offset: nat, width: nat)
  {
    f.offset + f.width <= offset || offset + width <= f.offset
  }

  /** Every field has its own register and its own native bytes, apart from the audited words. */
  ghost predicate Sound(p: Profile)
  {
    && p.Valid() && p.rules != []
    && (forall i, j :: 0 <= i < j < p.N() ==> Apart(p.fields[i], p.fields[j].offset, p.fields[j].width))
    && (forall f <- p.fields, o <- DIRTY_OFFSETS :: Apart(f, o, 8))
  }

  lemma FieldOf(i: nat)
    requires i < 69
    ensures |Fields69()| == 69
    ensures Fields69()[i] ==
            if i < 32 then Simd(i) else if i == 32 then SCTLR else if i < 64 then General(i - 33)
            else [PC, FPCR, FPSR, SP_EL0, SP_EL1][i - 64]
  {
  }

  lemma DifferentFields(i: nat, j: nat)
    requires i < j < 69
    ensures |Fields69()| == 69 && Fields69()[i].id != Fields69()[j].id
    ensures Apart(Fields69()[i], Fields69()[j].offset, Fields69()[j].width)
  {
    hide Fields69;
    FieldOf(i);
    FieldOf(j);
  }

  lemma CPSRIsNew(i: nat)
    requires i < 69
    ensures |Fields69()| == 69 && Fields69()[i].id != CPSR.id && Apart(Fields69()[i], CPSR.offset, CPSR.width)
  {
    hide Fields69;
    FieldOf(i);
  }

  lemma AwayFromDirtyWords(f: Field)
    requires f in Fields69()
    ensures forall o <- DIRTY_OFFSETS :: Apart(f, o, 8)
  {
    hide Fields69;
    FieldOf(0);
    var i :| 0 <= i < 69 && Fields69()[i] == f;
    FieldOf(i);
  }

  lemma ProfilesAreSound()
    ensures Sound(CONTEXT69) && CONTEXT69.N() == 69
    ensures Sound(CONTEXT70) && CONTEXT70.N() == 70
    ensures Sound(SYSTEM4) && SYSTEM4.N() == 4
  {
    hide Fields69, Apart;
    FieldOf(0);
    forall i, j | 0 <= i < j < 69
      ensures Fields69()[i].id != Fields69()[j].id && Apart(Fields69()[i], Fields69()[j].offset, Fields69()[j].width)
    {
      DifferentFields(i, j);
    }
    forall f | f in Fields69() ensures forall o <- DIRTY_OFFSETS :: Apart(f, o, 8) { AwayFromDirtyWords(f); }
    assert Sound(CONTEXT69);
    forall i | 0 <= i < 69
      ensures Fields69()[i].id != CPSR.id && Apart(Fields69()[i], CPSR.offset, CPSR.width) { CPSRIsNew(i); }
    assert CONTEXT70.fields[69] == CPSR;
    SystemIsSound();
    CPSRIsAway();
  }

  lemma CPSRIsAway()
    ensures forall o <- DIRTY_OFFSETS :: Apart(CPSR, o, 8)
  {
  }

  lemma SystemIsSound()
    ensures Sound(SYSTEM4)
  {
  }

  // ------------------------------------------------------------ what may be staged

  /** A field is found by its register, and a 32-bit field takes no wider value. */
  lemma TargetIff(p: Profile, id: RegId, v: Value, i: nat)
    requires p.Valid() && i < p.N()
    ensures p.Target(id, v) == Some(i) <==>
              p.fields[i].id == id && (p.fields[i].width == 4 ==> v <= 0xFFFF_FFFF)
  {
  }

  /** SCTLR_EL1 is 0x30800180, its snapshot or what it was at bind time; every other field is free. */
  lemma Policy69(i: nat, v: Value, snapshot: Value, originals: seq<Value>)
    requires i < 69 && |originals| == 1
    ensures CONTEXT69.N() == 69 && CONTEXT69.fields[32].id == RegId(SYS, 0xc080)
    ensures CONTEXT69.Permits(i, v, snapshot, originals) <==>
              (i == 32 ==> v == 0x30800180 || v == snapshot || v == originals[0])
  {
    hide Fields69;
    FieldOf(32);
    assert CONTEXT69.rules[0] == Exactly(32, 0x30800180);
  }

  /** And so is CPSR, with 0x3c5. */
  lemma Policy70(i: nat, v: Value, snapshot: Value, originals: seq<Value>)
    requires i < 70 && |originals| == 2
    ensures CONTEXT70.N() == 70 && CONTEXT70.fields[32].id == RegId(SYS, 0xc080)
    ensures CONTEXT70.fields[69].id == RegId(REG, 34)
    ensures CONTEXT70.Permits(i, v, snapshot, originals) <==>
              && (i == 32 ==> v == 0x30800180 || v == snapshot || v == originals[0])
              && (i == 69 ==> v == 0x3c5 || v == snapshot || v == originals[1])
  {
    hide Fields69;
    FieldOf(32);
    assert CONTEXT70.rules[0] == Exactly(32, 0x30800180) && CONTEXT70.rules[1] == Exactly(69, 0x3c5);
  }

  /** CSSELR_EL1 is at most 0xf, or one of the two. */
  lemma PolicySystem4(i: nat, v: Value, snapshot: Value, originals: seq<Value>)
    requires i < 4 && |originals| == 1
    ensures SYSTEM4.fields[3].id == RegId(SYS, 0xd000)
    ensures SYSTEM4.Permits(i, v, snapshot, originals) <==>
              (i == 3 ==> v <= 0xf || v == snapshot || v == originals[0])
  {
    assert SYSTEM4.rules[0] == AtMost(3, 0xf);
  }

  /** What a transaction of each kind may hold as requested values. */
  ghost predicate Tame(p: Profile, i: nat, v: Value, snapshot: Value, originals: seq<Value>)
  {
    && (p == CONTEXT69 && i == 32 ==>
          |originals| == 1 && (v == 0x30800180 || v == snapshot || v == originals[0]))
    && (p == CONTEXT70 && i == 32 ==>
          |originals| == 2 && (v == 0x30800180 || v == snapshot || v == originals[0]))
    && (p == CONTEXT70 && i == 69 ==>
          |originals| == 2 && (v == 0x3c5 || v == snapshot || v == originals[1]))
    && (p == SYSTEM4 && i == 3 ==> |originals| == 1 && (v <= 0xf || v == snapshot || v == originals[0]))
  }

  lemma PermittedIsTame(p: Profile, i: nat, v: Value, snapshot: Value, originals: seq<Value>)
    requires p.Permits(i, v, snapshot, originals)
    ensures Tame(p, i, v, snapshot, originals)
  {
    hide Fields69, Profile.Permits;
    assert |originals| == |p.rules| by { LengthsAgree(p, i, v, snapshot, originals); }
    if p == CONTEXT69 && i == 32 { Policy69(i, v, snapshot, originals); }
    if p == CONTEXT70 && (i == 32 || i == 69) { Policy70(i, v, snapshot, originals); }
    if p == SYSTEM4 && i == 3 { PolicySystem4(i, v, snapshot, originals); }
  }

  lemma LengthsAgree(p: Profile, i: nat, v: Value, snapshot: Value, originals: seq<Value>)
    requires p.Permits(i, v, snapshot, originals)
    ensures |originals| == |p.rules|
  {
  }

  /** Whatever calls came before, a transaction requests only such values of the guarded registers. */
  lemma RequestedIsTame(t: Txn, i: nat)
    requires t.Valid() && i < t.p.N()
    ensures Tame(t.p, i, t.j.requested[i], t.j.baseline[i], t.j.originals)
  {
    hide Fields69, Profile.Permits, Profile.Valid, Diff, Tame;
    assert t.p.Allows(t.j, i, t.j.requested[i]);
    PermittedIsTame(t.p, i, t.j.requested[i], t.j.baseline[i], t.j.originals);
  }

  /** And every setter call of any run writes only such a value. */
  lemma EveryWriteIsTame(r: seq<TransactionRuns.World>, k: nat)
    requires TransactionRuns.Run(r) && |r[0].log| <= k < |r[|r| - 1].log|
    ensures var e := r[|r| - 1].log[k]; Tame(e.txn.p, e.index, e.value, e.snapshot, e.originals)
  {
    hide Fields69, Profile.Permits, Tame;
    var i := TransactionRuns.EveryWriteIsTheHolders(r, k);
    var e := r[|r| - 1].log[k];
    PermittedIsTame(e.txn.p, e.index, e.value, e.snapshot, e.originals);
  }
}

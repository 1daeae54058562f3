/** Short sections that `rewrite_adrp` accepts: four whose rewritten text forms a wrong address, and a right one. */
module AdrpWitnesses {
  import opened A64Words
  import opened AdrpRewrite
  import opened AdrpRuns
  import opened AdrpText
  import opened Dataflow
  import opened Relayout
  import opened Words
  import opened Worklist
  import opened Wrappers

  // ---------------------------------------------------------------- sections with one ADRP

  ghost predicate OneAdrp(s: Section, a: nat)
  {
    a < |s.code| && forall k :: 0 <= k < |s.code| ==> (s.code[k].Adrp? <==> k == a)
  }

  lemma Something(defs: set<nat>)
    ensures defs == {} || exists d :: d in defs
  {
    if forall d :: d !in defs { assert defs == {}; }
  }

  lemma OnlyDefinition(s: Section, a: nat, st: State, r: Reg)
    requires OneAdrp(s, a) && DefsAreAdrps(s, st) && r in st
    ensures st[r].page == s.code[a].page && a in st[r].defs
  {
    Something(st[r].defs);
    var d :| d in st[r].defs;
    assert IsAdrpOf(s, d, st[r].page);
  }

  /** Every consumer of the ADRP can be rewritten, with page `p`, and so can the ADRP. */
  ghost predicate AllWant(s: Section, words: seq<Word>, a: nat, p: int)
    requires |s.code| == |words| && OneAdrp(s, a)
  {
    var page := s.code[a].page;
    && (EagerPage(s, page).Some? ==> EagerPage(s, page).value == p)
    && forall k: nat :: k < |s.code| && UseOf(s, k).Some? && NewTarget(s, page, UseOf(s, k).value.disp).Some? ==>
         var disp := UseOf(s, k).value.disp;
         && DesiredPage(s, page, disp) == p && 0 <= NewDisp(s, page, disp) < 0x1000
         && ConsumerWord(s, words[k], page, disp).Rewritten?
  }

  lemma OnlyPage(s: Section, words: seq<Word>, a: nat, p: int, v: Visit, d: nat)
    requires |s.code| == |words| && OneAdrp(s, a) && AllWant(s, words, a, p) && v.pos < |s.code|
    requires DefsAreAdrps(s, v.st)
    ensures PageGiven(s, v, d).Some? ==> PageGiven(s, v, d).value == p
    ensures Encodable(s, words, v)
  {
    hide NewTarget, EagerPage, DesiredPage, NewDisp, ConsumerWord, DefsAreAdrps;
    if Relocates(s, v.pos, v.st) { OnlyDefinition(s, a, v.st, UseOf(s, v.pos).value.base); }
  }

  lemma OneAdrpPasses(s: Section, words: seq<Word>, a: nat, p: int)
    requires |s.code| == |words| && OneAdrp(s, a) && AllWant(s, words, a, p)
    ensures Result(s, words).Some? && |Result(s, words).value.words| == |words|
  {
    hide PageGiven, Encodable, AllWant, Visits, DefsAreAdrps, TextIs, Ordered, VisitsWeaken, OneAdrp, RewriteAll;
    ResultIff(s, words);
    VisitsAreGood(s, words);
    forall v, v', d: nat | v in Visits(s, words) && v' in Visits(s, words)
                           && PageGiven(s, v, d).Some? && PageGiven(s, v', d).Some?
      ensures PageGiven(s, v, d) == PageGiven(s, v', d)
    {
      OnlyPage(s, words, a, p, v, d);
      OnlyPage(s, words, a, p, v', d);
    }
    forall v | v in Visits(s, words) ensures Encodable(s, words, v) { OnlyPage(s, words, a, p, v, 0); }
  }

  /** When the only ADRP and the only function start are the first instruction, that is the only seed. */
  lemma OneSeed(s: Section, words: seq<Word>)
    requires |s.code| == |words| && OneAdrp(s, 0) && s.starts == [0]
    ensures Seeds(s, words) == {0}
  {
    hide IsFixpoint, FinalFacts, Weakened;
    FactsAreGreatest(s, words);
    assert 0 in InCodeStarts(s);
    forall k | k in Seeds(s, words) ensures k == 0 {}
  }

  // ---------------------------------------------------------------- the eager repair

  /** `__TEXT` before `__DATA`, the other way round in the cache. */
  const EAGER_LAYOUT :=
    Layout([Segment("__TEXT", 0x8000, 0x4000, 0, 0x4000), Segment("__DATA", 0x4000, 0x4000, 0x4000, 0x4000)],
           None, 0, 0x1_0000)

  /** ADRP x8, 0x7000; LDR x8, [x8, #0x1000] reads the first word of the text. */
  ghost function EagerSection(): Section
  {
    Section([Adrp(8, 0x7000), Other(Some(Use(8, 0x1000)), false, {8}, Fall)], [0], 0x8000, 0x8000,
            Deltas(EAGER_LAYOUT, 2), map[])
  }

  const EAGER_WORDS: seq<Word> := [0xF0FF_FFE8, 0xF948_0108]

  lemma EagerDeltas()
    ensures WellFormed(EAGER_LAYOUT) && Aligned(EAGER_LAYOUT) && Deltas(EAGER_LAYOUT, 2)
            == [Range(0x8000, 0xC000, 0x8000), Range(0x4000, 0x8000, 0x1_0000)]
  {
    var l := EAGER_LAYOUT;
    assert Start(l, 0) == 0x1_0000;
    assert SlotSize(l, l.segs[0]) == 0x4000 by { assert Extent(l.segs[0]) + Extra(l, l.segs[0]) == 0x4000; }
    assert Start(l, 1) == 0x1_4000;
    assert Deltas(l, 1) == [Range(0x8000, 0xC000, 0x8000)];
  }

  lemma TwoRanges(r: Range, q: Range, a: int)
    ensures DeltaOf([r, q], a) == if r.lo <= a < r.hi then Some(r.d) else if q.lo <= a < q.hi then Some(q.d) else None
  {
    assert [r, q][1..] == [q];
    assert [q][1..] == [] && DeltaOf([], a) == None;
    assert DeltaOf([q], a) == if q.lo <= a < q.hi then Some(q.d) else None;
  }

  lemma EagerWants()
    ensures var s := EagerSection();
            OneAdrp(s, 0) && AllWant(s, EAGER_WORDS, 0, 0x1_7000) && Stays(s, 0x7000, 0x1000)
            && EagerPage(s, 0x7000) == Some(0x1_7000)
  {
    EagerDeltas();
    TwoRanges(Range(0x8000, 0xC000, 0x8000), Range(0x4000, 0x8000, 0x1_0000), 0x7000);
    TwoRanges(Range(0x8000, 0xC000, 0x8000), Range(0x4000, 0x8000, 0x1_0000), 0x8000);
  }

  lemma EagerWordsDecode()
    ensures WellDecoded(EagerSection(), EAGER_WORDS) && EncodedDisp(EAGER_WORDS[1]) == 0x1000
  {
    assert AdrpTarget(0xF0FF_FFE8, 0x8000) == 0x7000;
    LoadDisp(0xF948_0108);
  }

  /** The displacement of LDR (immediate, 64-bit). */
  lemma LoadDisp(w: Word)
    requires w / 0x40_0000 == 0x3E5
    ensures EncodedDisp(w) == 8 * (w / 0x400 % 0x1000) && !IsAdd(w) && ArchScale(w) == CodeScale(w) == 3
  {
    var h := w / 0x40_0000;
    assert w / 0x80_0000 == h / 2 && w / 0x100_0000 == h / 4 && w / 0x400_0000 == h / 16;
    assert w / 0x800_0000 == h / 32 && w / 0x4000_0000 == h / 256;
    Eight();
  }

  lemma Eight()
    ensures Pow2(3) == 8
  {
    assert Pow2(2) == 4;
  }

  /** The ADRP in front is known wherever some fixpoint knows it. */
  lemma KnownBehindAdrp(s: Section, words: seq<Word>, g: Facts, k: nat, r: Reg)
    requires |s.code| == |words| && OneAdrp(s, 0) && s.starts == [0]
    requires IsFixpoint(s, words, g, {0}) && k in g && r in g[k] && k in FinalFacts(s, words)
    ensures r in FinalFacts(s, words)[k] && FinalFacts(s, words)[k][r].page == s.code[0].page
    ensures 0 in FinalFacts(s, words)[k][r].defs && Visit(k, FinalFacts(s, words)[k]) in Visits(s, words)
  {
    hide IsFixpoint, FinalFacts, VisitsBetween, Visits, VisitsWeaken, Ordered, OneAdrp, DefsAreAdrps;
    FactsAreGreatest(s, words);
    OneSeed(s, words);
    VisitsAreSound(s, words);
    VisitsAreGood(s, words);
    var facts := FinalFacts(s, words);
    assert Weaker(g[k], facts[k]);
    assert DefsAreAdrps(s, Visit(k, facts[k]).st);
    OnlyDefinition(s, 0, facts[k], r);
  }

  /** A run from the first instruction into the second. */
  lemma TwoSteps(s: Section, words: seq<Word>, t: Text) returns (ms: seq<Machine>)
    requires Passed(s, words, t) && |s.code| >= 2 && s.code[0].Adrp? && OneAdrp(s, 0) && s.starts == [0]
    ensures Reaches(s, words, t, [0, 1], ms, 1) && |ms| == 2
    ensures ms[1](s.code[0].rd) == Cell(AdrpTarget(t.words[0], NewPc(s, 0)), 0)
  {
    hide AdrpTarget, Seeds, Result, WellDecoded, NewPc;
    OneSeed(s, words);
    var cell := Cell(AdrpTarget(t.words[0], NewPc(s, 0)), 0);
    var m: Machine := r => Cell(0, 0);
    var m': Machine := r => if r == s.code[0].rd then cell else Cell(0, 0);
    ms := [m, m'];
  }

  ghost function EagerFacts(): Facts { map[0 := map[], 1 := map[8 := Def(0x7000, {0})]] }

  lemma EagerFactsSettle()
    ensures IsFixpoint(EagerSection(), EAGER_WORDS, EagerFacts(), {0})
  {
    hide Deltas;
    var s, g := EagerSection(), EagerFacts();
    assert Transfer(s, EAGER_WORDS, 0, map[]) == map[8 := Def(0x7000, {0})];
    assert Settled(s, EAGER_WORDS, g, 0);
    assert Settled(s, EAGER_WORDS, g, 1);
  }

  /** The pass accepts this section, whose load from 0x8000 is to become one from 0x1_0000; along the run from its
      start the rewritten load reads 0x1_8000. */
  lemma EagerRepairMisdirects() returns (t: Text, ms: seq<Machine>)
    ensures WellFormed(EAGER_LAYOUT) && Aligned(EAGER_LAYOUT) && Passed(EagerSection(), EAGER_WORDS, t)
    ensures Amap(EagerSection().deltas, 0x7000 + 0x1000) == Some(0x1_0000)
    ensures Reaches(EagerSection(), EAGER_WORDS, t, [0, 1], ms, 1)
    ensures |ms| == 2 && ms[1](8).value + EncodedDisp(t.words[1]) != 0x1_0000
  {
    hide Result, WellDecoded, FinalFacts, Visits, Deltas, AllWant, Reaches, EncodedDisp, KeepsPage, WellFormed, Aligned;
    hide IsFixpoint, EagerPage, OneAdrp;
    var s, words := EagerSection(), EAGER_WORDS;
    EagerDeltas();
    EagerWants();
    EagerWordsDecode();
    OneAdrpPasses(s, words, 0, 0x1_7000);
    t := Result(s, words).value;
    ms := TwoSteps(s, words, t);
    EagerFactsSettle();
    FinishedRun(s, words, t, [0, 1], ms, 1);
    KnownBehindAdrp(s, words, EagerFacts(), 1, 8);
    RunsKeepStayingTargets(s, words, t, [0, 1], ms, 1, Use(8, 0x1000));
    EagerPageIsTaken();
  }

  lemma EagerPageIsTaken()
    ensures !KeepsPage(EagerSection(), EAGER_WORDS, 0)
  {
    hide Visits, Deltas;
    EagerWants();
    assert !SamePage(0x1_7000, 0x7000 + 0x8000);
  }

  // ---------------------------------------------------------------- two consumers of one ADRP

  /** `__DATA` begins in the page that `__TEXT` ends in. */
  const SHARED_LAYOUT :=
    Layout([Segment("__TEXT", 0x8000, 0x1400, 0, 0x1400), Segment("__DATA", 0x9400, 0x1000, 0x1400, 0x1000)],
           None, 0, 0x1_0000)

  /** ADRP x8, 0x8000; LDR x0, [x8, #8] from the text; LDR x1, [x8, #0x1800] from the data. */
  ghost function SharedSection(): Section
  {
    Section([Adrp(8, 0x8000), Other(Some(Use(8, 8)), false, {0}, Fall), Other(Some(Use(8, 0x1800)), false, {1}, Fall)],
            [0], 0x8000, 0x8000, Deltas(SHARED_LAYOUT, 2), map[])
  }

  const SHARED_WORDS: seq<Word> := [0x9000_0008, 0xF940_0500, 0xF94C_0101]

  lemma SharedDeltas()
    ensures WellFormed(SHARED_LAYOUT) && Deltas(SHARED_LAYOUT, 2)
            == [Range(0x8000, 0x9400, 0x8000), Range(0x9400, 0xA400, 0xAC00)]
  {
    var l := SHARED_LAYOUT;
    assert Start(l, 0) == 0x1_0000;
    assert SlotSize(l, l.segs[0]) == 0x4000 by { assert Extent(l.segs[0]) + Extra(l, l.segs[0]) == 0x1400; }
    assert Start(l, 1) == 0x1_4000;
    assert Deltas(l, 1) == [Range(0x8000, 0x9400, 0x8000)];
  }

  lemma SharedMoves()
    ensures var s := SharedSection();
            && DeltaOf(s.deltas, 0x8000) == DeltaOf(s.deltas, 0x8008) == Some(0x8000)
            && DeltaOf(s.deltas, 0x9800) == Some(0xAC00)
  {
    hide DeltaOf;
    SharedDeltas();
    TwoRanges(Range(0x8000, 0x9400, 0x8000), Range(0x9400, 0xA400, 0xAC00), 0x8000);
    TwoRanges(Range(0x8000, 0x9400, 0x8000), Range(0x9400, 0xA400, 0xAC00), 0x8008);
    TwoRanges(Range(0x8000, 0x9400, 0x8000), Range(0x9400, 0xA400, 0xAC00), 0x9800);
  }

  lemma SharedWants()
    ensures var s := SharedSection();
            && OneAdrp(s, 0) && AllWant(s, SHARED_WORDS, 0, 0x1_4000) && Stays(s, 0x8000, 8)
            && NewTarget(s, 0x8000, 0x1800).Some? && DesiredPage(s, 0x8000, 0x1800) == 0x1_4000
  {
    hide Deltas, DeltaOf;
    SharedMoves();
    LoadTakes(0xF94C_0101, 0x400);
  }

  lemma LoadTakes(w: Word, disp: int)
    requires w / 0x40_0000 == 0x3E5 && 0 <= disp < 0x1000 && disp % 8 == 0
    ensures SetConsumerDisp(w, disp).Rewritten?
  {
    LoadDisp(w);
    Eight();
    var h := w / 0x40_0000;
    assert w / 0x800_0000 == h / 32 && w / 0x100_0000 == h / 4;
  }

  lemma SharedWordsDecode()
    ensures WellDecoded(SharedSection(), SHARED_WORDS) && EncodedDisp(SHARED_WORDS[1]) == 8
  {
    assert AdrpTarget(0x9000_0008, 0x8000) == 0x8000;
    LoadDisp(0xF940_0500);
  }

  ghost function SharedFacts(): Facts
  {
    var known := map[8 := Def(0x8000, {0})];
    map[0 := map[], 1 := known, 2 := known]
  }

  lemma SharedFactsSettle()
    ensures IsFixpoint(SharedSection(), SHARED_WORDS, SharedFacts(), {0})
  {
    hide Deltas;
    var s, g := SharedSection(), SharedFacts();
    var known := map[8 := Def(0x8000, {0})];
    assert Transfer(s, SHARED_WORDS, 0, map[]) == known;
    assert Transfer(s, SHARED_WORDS, 1, known) == known;
    assert Settled(s, SHARED_WORDS, g, 0);
    assert Settled(s, SHARED_WORDS, g, 1);
    assert Settled(s, SHARED_WORDS, g, 2);
  }

  /** The load from the data is visited with its base known, and takes the page. */
  lemma SharedPageIsTaken()
    ensures !KeepsPage(SharedSection(), SHARED_WORDS, 0)
  {
    hide Visits, Deltas, FinalFacts, DesiredPage, NewTarget, IsFixpoint, Seeds, AllWant, OneAdrp, Weakened;
    var s, words := SharedSection(), SHARED_WORDS;
    SharedWants();
    SharedFactsSettle();
    FactsAreGreatest(s, words);
    OneSeed(s, words);
    SharedReached();
    KnownBehindAdrp(s, words, SharedFacts(), 2, 8);
    var v := Visit(2, FinalFacts(s, words)[2]);
    assert Relocates(s, 2, v.st) && BaseOf(s, v).page == 0x8000 && DispOf(s, v) == 0x1800;
    assert !SamePage(0x1_4000, 0x8000 + 0x8000);
  }

  lemma SharedReached()
    ensures 2 in FinalFacts(SharedSection(), SHARED_WORDS)
  {
    hide FinalFacts, Deltas, Transfer, Weaker, Seeds, Weakened, OneAdrp;
    var s, words := SharedSection(), SHARED_WORDS;
    FactsAreGreatest(s, words);
    assert OneAdrp(s, 0) by { SharedWants(); }
    OneSeed(s, words);
    assert Settled(s, words, FinalFacts(s, words), 0) && 1 in Successors(s, words, 0);
    assert Settled(s, words, FinalFacts(s, words), 1) && 2 in Successors(s, words, 1);
  }

  /** The pass accepts this section too.  The load from 0x8008 is to become one from 0x1_0008, and is left as it was,
      but its ADRP was given the page of the other load: along the run it reads elsewhere. */
  lemma SharedAdrpMisdirects() returns (t: Text, ms: seq<Machine>)
    ensures WellFormed(SHARED_LAYOUT) && Passed(SharedSection(), SHARED_WORDS, t)
    ensures Amap(SharedSection().deltas, 0x8000 + 8) == Some(0x1_0008)
    ensures Reaches(SharedSection(), SHARED_WORDS, t, [0, 1], ms, 1)
    ensures |ms| == 2 && ms[1](8).value + EncodedDisp(t.words[1]) != 0x1_0008
  {
    hide Result, WellDecoded, FinalFacts, Visits, Deltas, AllWant, Reaches, EncodedDisp, KeepsPage, WellFormed;
    hide DesiredPage, NewTarget, IsFixpoint;
    var s, words := SharedSection(), SHARED_WORDS;
    SharedDeltas();
    SharedWants();
    SharedWordsDecode();
    OneAdrpPasses(s, words, 0, 0x1_4000);
    t := Result(s, words).value;
    ms := TwoSteps(s, words, t);
    SharedFactsSettle();
    FinishedRun(s, words, t, [0, 1], ms, 1);
    KnownBehindAdrp(s, words, SharedFacts(), 1, 8);
    RunsKeepStayingTargets(s, words, t, [0, 1], ms, 1, Use(8, 8));
    SharedPageIsTaken();
  }

  // ---------------------------------------------------------------- a merge after the rewrite

  /** The image is `__TEXT` alone; what is at 0x2_0008 has a rebuilt slot. */
  const MERGED_LAYOUT := Layout([Segment("__TEXT", 0x8000, 0x4000, 0, 0x4000)], None, 0, 0x1_0000)

  /** CBZ over a branch; B to the load; ADRP x8, 0x2_0000; LDR x0, [x8, #8]. */
  ghost function MergedSection(): Section
  {
    Section([Other(None, false, {}, Branch(2)), Other(None, false, {}, Jump(3)), Adrp(8, 0x2_0000),
             Other(Some(Use(8, 8)), false, {0}, Fall)],
            [0], 0x8000, 0x8000, Deltas(MERGED_LAYOUT, 1), map[0x2_0008 := 0x1_4010])
  }

  const MERGED_WORDS: seq<Word> := [0xB400_0040, 0x1400_0002, 0x9000_00C8, 0xF940_0500]

  lemma MergedDeltas()
    ensures WellFormed(MERGED_LAYOUT) && Deltas(MERGED_LAYOUT, 1) == [Range(0x8000, 0xC000, 0x8000)]
  {
    var l := MERGED_LAYOUT;
    assert Start(l, 0) == 0x1_0000;
  }

  lemma OneRange(r: Range, a: int)
    ensures DeltaOf([r], a) == if r.lo <= a < r.hi then Some(r.d) else None
  {
    assert [r][1..] == [] && DeltaOf([], a) == None;
  }

  lemma MergedWants()
    ensures var s := MergedSection();
            && OneAdrp(s, 2) && AllWant(s, MERGED_WORDS, 2, 0x1_4000)
            && NewTarget(s, 0x2_0000, 8) == Some(0x1_4010) && NewDisp(s, 0x2_0000, 8) == 0x10
  {
    hide Deltas, DeltaOf;
    MergedDeltas();
    OneRange(Range(0x8000, 0xC000, 0x8000), 0x2_0000);
    OneRange(Range(0x8000, 0xC000, 0x8000), 0x2_0008);
    LoadTakes(0xF940_0500, 0x10);
  }

  lemma MergedWordsDecode()
    ensures WellDecoded(MergedSection(), MERGED_WORDS)
    ensures EncodedDisp(MERGED_WORDS[3]) == 8 && ArchScale(MERGED_WORDS[3]) == CodeScale(MERGED_WORDS[3])
  {
    assert AdrpTarget(0x9000_00C8, 0x8008) == 0x2_0000;
    LoadDisp(0xF940_0500);
  }

  const KNOWN: State := map[8 := Def(0x2_0000, {2})]

  ghost function MergedFlow(n: nat): Flow
  {
    var e: State := map[];
    if n == 0 then Flow(map[0 := e], [0])
    else if n == 1 then Flow(map[0 := e, 1 := e, 2 := e], [1, 2])
    else Flow(map[0 := e, 1 := e, 2 := e, 3 := KNOWN], [1, 3])
  }

  lemma MergeFresh(s: Section, f: Flow, pos: nat, st: State)
    requires pos < |s.code| && pos !in f.facts
    ensures MergeState(s, f, pos, st) == Flow(f.facts[pos := st], f.work + [pos])
  {
  }

  lemma MergeOne(s: Section, f: Flow, a: int, st: State)
    ensures MergeAll(s, f, [a], st) == MergeState(s, f, a, st)
  {
    hide MergeState;
    assert [a][1..] == [];
    assert MergeAll(s, MergeState(s, f, a, st), [], st) == MergeState(s, f, a, st);
  }

  lemma MergeTwo(s: Section, f: Flow, a: int, b: int, st: State)
    ensures MergeAll(s, f, [a, b], st) == MergeState(s, MergeState(s, f, a, st), b, st)
  {
    hide MergeState;
    assert [a, b][1..] == [b];
    MergeOne(s, MergeState(s, f, a, st), b, st);
  }

  lemma MergedBegins()
    ensures Begin(MergedSection()) == MergedFlow(0)
  {
    hide Deltas, MergeAll, MergeState;
    var s := MergedSection();
    MergeOne(s, Flow(map[], []), 0, map[]);
    MergeFresh(s, Flow(map[], []), 0, map[]);
  }

  lemma MergedFirst()
    ensures Next(MergedSection(), MERGED_WORDS, MergedFlow(0)) == MergedFlow(1)
  {
    hide Deltas, MergeAll, MergeState;
    var s := MergedSection();
    var f := Rest(MergedFlow(0));
    assert f.work == [] && Successors(s, MERGED_WORDS, 0) == [1, 2];
    assert Transfer(s, MERGED_WORDS, 0, map[]) == map[];
    MergeTwo(s, f, 1, 2, map[]);
    MergeFresh(s, f, 1, map[]);
    MergeFresh(s, Flow(f.facts[1 := map[]], f.work + [1]), 2, map[]);
    assert f.facts[1 := map[]][2 := map[]] == MergedFlow(1).facts && f.work + [1] + [2] == [1, 2];
  }

  lemma MergedSecond()
    ensures Next(MergedSection(), MERGED_WORDS, MergedFlow(1)) == MergedFlow(2)
  {
    hide Deltas, MergeAll, MergeState;
    var s := MergedSection();
    var f := Rest(MergedFlow(1));
    assert f.work == [1] && Successors(s, MERGED_WORDS, 2) == [3];
    assert Transfer(s, MERGED_WORDS, 2, map[]) == KNOWN;
    MergeOne(s, f, 3, KNOWN);
    MergeFresh(s, f, 3, KNOWN);
    assert f.facts[3 := KNOWN] == MergedFlow(2).facts && f.work + [3] == [1, 3];
  }

  lemma DrainOnce(s: Section, words: seq<Word>, f: Flow)
    requires |s.code| == |words| && FlowOk(s, f) && f.work != []
    ensures Top(f) < |s.code| && Top(f) in f.facts && FlowOk(s, Next(s, words, f))
    ensures Drain(s, words, f).visits == [Visit(Top(f), f.facts[Top(f)])] + Drain(s, words, Next(s, words, f)).visits
  {
    hide Next, FlowOk;
    NextIsOk(s, words, f);
  }

  /** The load is visited before the branch to it, with its base known. */
  lemma MergedVisit()
    ensures Visit(3, KNOWN) in Visits(MergedSection(), MERGED_WORDS)
  {
    hide Deltas, Next, Drain, FlowOk, Begin;
    var s, words := MergedSection(), MERGED_WORDS;
    BeginIsOk(s);
    MergedBegins();
    DrainOnce(s, words, MergedFlow(0));
    MergedFirst();
    DrainOnce(s, words, MergedFlow(1));
    MergedSecond();
    DrainOnce(s, words, MergedFlow(2));
  }

  /** In the end its base is not known. */
  lemma MergedForgets()
    ensures var facts := FinalFacts(MergedSection(), MERGED_WORDS); 3 in facts && facts[3] == map[]
  {
    hide FinalFacts, Deltas, Seeds, Weakened;
    var s, words := MergedSection(), MERGED_WORDS;
    var facts := FinalFacts(s, words);
    FactsAreGreatest(s, words);
    assert 0 in InCodeStarts(s) && InCodeStarts(s) <= Seeds(s, words) by { StartsAreSeeds(s, words); }
    assert Settled(s, words, facts, 0) && 1 in Successors(s, words, 0);
    NothingWeaker(facts[1]);
    assert Settled(s, words, facts, 1) && 3 in Successors(s, words, 1);
    NothingWeaker(facts[3]);
  }

  /** The pass accepts this section and gives the load its slot's displacement.  Along the path that goes round the
      ADRP, where x8 holds whatever it held, the old text reads 8 bytes behind it and the new one 16. */
  lemma MergedLoadIsMisplaced() returns (t: Text, path: seq<nat>, ms: seq<Machine>)
    ensures WellFormed(MERGED_LAYOUT) && Passed(MergedSection(), MERGED_WORDS, t)
    ensures 3 in FinalFacts(MergedSection(), MERGED_WORDS) && 8 !in FinalFacts(MergedSection(), MERGED_WORDS)[3]
    ensures IsRun(MergedSection(), MERGED_WORDS, path, ms) && IsNewRun(MergedSection(), t.words, path, ms)
    ensures path == [0, 1, 3] && EncodedDisp(MERGED_WORDS[3]) == 8 && EncodedDisp(t.words[3]) == 0x10
  {
    hide Result, WellDecoded, FinalFacts, Visits, Deltas, AllWant, EncodedDisp, WellFormed, NewTarget, NewDisp, IsRun;
    hide ArchScale, CodeScale, IsAdd, OneAdrp, IsNewRun;
    var s, words := MergedSection(), MERGED_WORDS;
    MergedDeltas();
    MergedWants();
    MergedWordsDecode();
    OneAdrpPasses(s, words, 2, 0x1_4000);
    t := Result(s, words).value;
    MergedForgets();
    path, ms := MergedPath(t);
    MergedDisp(t);
  }

  lemma MergedDisp(t: Text)
    requires Passed(MergedSection(), MERGED_WORDS, t)
    ensures EncodedDisp(t.words[3]) == 0x10
  {
    hide Result, WellDecoded, FinalFacts, Visits, Deltas, EncodedDisp, NewTarget, NewDisp, ArchScale, CodeScale, IsAdd;
    hide AllWant, RewriteAll, PagesAre, AdrpsAre, ConsumerWord, MovesByPages;
    var s, words := MergedSection(), MERGED_WORDS;
    MergedWants();
    MergedWordsDecode();
    MergedVisit();
    ResultIff(s, words);
    var v := Visit(3, KNOWN);
    assert Relocates(s, 3, v.st) && BaseOf(s, v).page == 0x2_0000 && DispOf(s, v) == 8;
    assert Encodable(s, words, v);
    ConsumerAddsNewDisp(s, words[3], 0x2_0000, 8);
  }

  lemma MergedPath(t: Text) returns (path: seq<nat>, ms: seq<Machine>)
    requires |t.words| == 4
    ensures path == [0, 1, 3]
    ensures IsRun(MergedSection(), MERGED_WORDS, path, ms) && IsNewRun(MergedSection(), t.words, path, ms)
  {
    hide Deltas;
    var s, m: Machine := MergedSection(), r => Cell(0, 0);
    path, ms := [0, 1, 3], [m, m, m];
  }

  // ---------------------------------------------------------------- a register across a call

  /** ADRP xr, 0x2_0000; BL; LDR x0, [xr, #8]. */
  ghost function CallSection(r: Reg): Section
  {
    Section([Adrp(r, 0x2_0000), Other(None, true, {}, Fall), Other(Some(Use(r, 8)), false, {0}, Fall)],
            [0], 0x8000, 0x8000, Deltas(MERGED_LAYOUT, 1), map[0x2_0008 := 0x1_4010])
  }

  function CallWords(r: Reg): (words: seq<Word>)
    requires r < 0x20
    ensures |words| == 3
  {
    [0x9000_00C0 + r, 0x9400_0000, 0xF940_0400 + 0x20 * r]
  }

  ghost function CallFacts(r: Reg): Facts
  {
    var known := map[r := Def(0x2_0000, {0})];
    map[0 := map[], 1 := known, 2 := if r > 18 then known else map[]]
  }

  lemma CallFactsSettle(r: Reg)
    requires r < 0x20
    ensures IsFixpoint(CallSection(r), CallWords(r), CallFacts(r), {0})
  {
    hide Deltas;
    var s, words, g := CallSection(r), CallWords(r), CallFacts(r);
    assert Transfer(s, words, 0, map[]) == map[r := Def(0x2_0000, {0})];
    CallsKeep(s, words, 1, g[1], r);
    assert Transfer(s, words, 1, g[1]) == g[2];
    assert Settled(s, words, g, 0);
    assert Settled(s, words, g, 1);
    assert Settled(s, words, g, 2);
  }

  /** The ADRP's register is known behind the call exactly if it is one of x19 and up. */
  lemma KnownBehindCallIff(r: Reg)
    requires r < 31
    ensures OneAdrp(CallSection(r), 0)
    ensures var facts := FinalFacts(CallSection(r), CallWords(r));
            && 1 in facts && 2 in facts && r in facts[1] && (r in facts[2] <==> r > 18)
            && forall q <- facts[1] :: q == r
  {
    hide FinalFacts, Deltas, Transfer, Seeds, Weakened, CallWords;
    var s, words := CallSection(r), CallWords(r);
    CallFactsSettle(r);
    FactsAreGreatest(s, words);
    OneSeed(s, words);
    assert Settled(s, words, FinalFacts(s, words), 0) && 1 in Successors(s, words, 0);
    assert Settled(s, words, FinalFacts(s, words), 1) && 2 in Successors(s, words, 1);
    assert 0 in Seeds(s, words) && FinalFacts(s, words)[0] == map[];
    AfterFirst(s, words, r);
    KnownBehindAdrp(s, words, CallFacts(r), 1, r);
    if r > 18 { KnownBehindAdrp(s, words, CallFacts(r), 2, r); }
    CallsKeep(s, words, 1, FinalFacts(s, words)[1], r);
  }

  lemma AfterFirst(s: Section, words: seq<Word>, r: Reg)
    requires |s.code| == |words| > 1 && s.code[0] == Adrp(r, 0x2_0000) && 0 in FinalFacts(s, words)
    requires FinalFacts(s, words)[0] == map[] && Settled(s, words, FinalFacts(s, words), 0)
    ensures 1 in FinalFacts(s, words) && forall q <- FinalFacts(s, words)[1] :: q == r
  {
    hide FinalFacts;
    assert 1 in Successors(s, words, 0);
  }

  lemma CallWants(r: Reg)
    requires r < 0x20
    ensures var s := CallSection(r);
            && OneAdrp(s, 0) && AllWant(s, CallWords(r), 0, 0x1_4000)
            && NewTarget(s, 0x2_0000, 8) == Some(0x1_4010) && NewDisp(s, 0x2_0000, 8) == 0x10
  {
    hide Deltas, DeltaOf;
    MergedDeltas();
    OneRange(Range(0x8000, 0xC000, 0x8000), 0x2_0000);
    OneRange(Range(0x8000, 0xC000, 0x8000), 0x2_0008);
    LoadTakes(0xF940_0400 + 0x20 * r, 0x10);
  }

  lemma CallWordsDecode(r: Reg)
    requires r < 0x20
    ensures WellDecoded(CallSection(r), CallWords(r)) && EncodedDisp(CallWords(r)[2]) == 8
    ensures ArchScale(CallWords(r)[2]) == CodeScale(CallWords(r)[2])
  {
    assert AdrpTarget(0x9000_00C0 + r, 0x8000) == 0x2_0000;
    LoadDisp(0xF940_0400 + 0x20 * r);
  }

  /** Behind the call the load gets its slot's displacement when its base is one of x19 and up.  That is right for all
      of them but the link register, which the call itself writes: there is a machine that reads 8 bytes behind what
      the call left there in the old text and 16 in the new. */
  lemma LoadBehindCall(r: Reg) returns (t: Text, path: seq<nat>, ms: seq<Machine>)
    requires 18 < r < 31
    ensures Passed(CallSection(r), CallWords(r), t)
    ensures EncodedDisp(CallWords(r)[2]) == 8 && EncodedDisp(t.words[2]) == 0x10
    ensures LinkClear(CallSection(r), CallWords(r)) <==> r != LINK
    ensures r == LINK ==> path == [0, 1, 2] && IsNewRun(CallSection(r), t.words, path, ms) && ms[2](r) == Cell(0, 1)
  {
    hide Result, WellDecoded, Visits, AllWant, EncodedDisp, NewTarget, NewDisp, ArchScale, CodeScale,
      FinalFacts, Deltas;
    hide IsAdd, CallWords, RewriteAll, PagesAre, AdrpsAre, OthersAre, ConsumerWord, MovesByPages, IsNewRun;
    var s, words := CallSection(r), CallWords(r);
    CallWants(r);
    CallWordsDecode(r);
    OneAdrpPasses(s, words, 0, 0x1_4000);
    t := Result(s, words).value;
    LoadTaken(r, t);
    LinkClearIff(r);
    path, ms := CallPath(r, t);
  }

  lemma LoadTaken(r: Reg, t: Text)
    requires 18 < r < 31 && Passed(CallSection(r), CallWords(r), t)
    ensures EncodedDisp(t.words[2]) == 0x10
  {
    hide Result, WellDecoded, Visits, AllWant, EncodedDisp, NewTarget, NewDisp, ArchScale, CodeScale,
      FinalFacts, Deltas;
    hide IsAdd, CallWords, RewriteAll, PagesAre, AdrpsAre, ConsumerWord, MovesByPages, OneAdrp;
    var s, words := CallSection(r), CallWords(r);
    CallWants(r);
    CallWordsDecode(r);
    KnownBehindCallIff(r);
    CallFactsSettle(r);
    KnownBehindAdrp(s, words, CallFacts(r), 2, r);
    ResultIff(s, words);
    var v := Visit(2, FinalFacts(s, words)[2]);
    assert Relocates(s, 2, v.st) && BaseOf(s, v).page == 0x2_0000 && DispOf(s, v) == 8;
    assert Encodable(s, words, v);
    ConsumerAddsNewDisp(s, words[2], 0x2_0000, 8);
  }

  lemma LinkClearIff(r: Reg)
    requires r < 31
    ensures LinkClear(CallSection(r), CallWords(r)) <==> r != LINK
  {
    hide FinalFacts, Deltas;
    KnownBehindCallIff(r);
  }

  lemma CallPath(r: Reg, t: Text) returns (path: seq<nat>, ms: seq<Machine>)
    requires 18 < r < 31 && |t.words| == 3
    ensures r == LINK ==> path == [0, 1, 2] && IsNewRun(CallSection(r), t.words, path, ms) && ms[2](r) == Cell(0, 1)
  {
    hide Deltas, AdrpTarget;
    var s := CallSection(r);
    var page := AdrpTarget(t.words[0], NewPc(s, 0));
    var m0: Machine := q => Cell(0, 0);
    var m1: Machine := q => if q == r then Cell(page, 0) else Cell(0, 0);
    var m2: Machine := q => if q == r then Cell(0, 1) else Cell(0, 0);
    path, ms := [0, 1, 2], [m0, m1, m2];
  }
}

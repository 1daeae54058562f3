/** Running the text that `rewrite_adrp` leaves behind: the addresses its consumers form along every path. */
module AdrpRuns {
  import opened A64Words
  import opened AdrpRewrite
  import opened AdrpText
  import opened Dataflow
  import opened Relayout
  import opened Worklist
  import opened Wrappers

  /** A run of the rewritten text at its new address: an ADRP computes what its word now says. */
  ghost predicate ExecutesNew(s: Section, text: seq<Word>, k: nat, m: Machine, m': Machine)
    requires k < |s.code| == |text|
  {
    ExecutesAs(s, text[k], k, AdrpTarget(text[k], NewPc(s, k)), m, m')
  }

  ghost predicate IsNewRun(s: Section, text: seq<Word>, path: seq<nat>, ms: seq<Machine>)
    requires |s.code| == |text|
  {
    && |path| == |ms| > 0
    && (forall i :: 0 <= i < |path| ==> path[i] < |s.code|)
    && forall i :: 0 <= i < |path| - 1 ==>
         GoesTo(s, text[path[i]], path[i], path[i + 1]) && ExecutesNew(s, text, path[i], ms[i], ms[i + 1])
  }

  /** A register the facts speak of holds what one of its ADRPs now computes. */
  ghost predicate Sourced(s: Section, text: seq<Word>, m: Machine, st: State)
    requires |s.code| == |text|
  {
    forall r :: r in st ==>
      var o := m(r).origin;
      o in st[r].defs && 0 <= o < |s.code| && m(r).value == AdrpTarget(text[o], NewPc(s, o))
  }

  lemma TransferIsSourced(s: Section, text: seq<Word>, k: nat, st: State, m: Machine, m': Machine)
    requires k < |s.code| == |text| && Sourced(s, text, m, st) && ExecutesNew(s, text, k, m, m')
    requires Calls(s, text[k], k) ==> LINK !in st
    ensures Sourced(s, text, m', Transfer(s, text, k, st))
  {
    hide AdrpTarget, NewPc, Kills, LeavesAlone, Calls;
    var after := Transfer(s, text, k, st);
    if s.code[k].Adrp? { AdrpKills(s, text, k); }
    forall r | r in after
      ensures m'(r).origin in after[r].defs && 0 <= m'(r).origin < |s.code|
      ensures m'(r).value == AdrpTarget(text[m'(r).origin], NewPc(s, m'(r).origin))
    {
      KillsAre(s, text, k, r);
    }
  }

  lemma WeakerIsSourced(s: Section, text: seq<Word>, m: Machine, st: State, st': State)
    requires |s.code| == |text| && Sourced(s, text, m, st) && Weaker(st', st)
    ensures Sourced(s, text, m, st')
  {
    hide AdrpTarget, NewPc;
  }

  /** The facts found in the old text speak of the new one too. */
  lemma {:induction false} NewRunsAreSourced(s: Section, words: seq<Word>, visits: seq<Visit>, t: Text, facts: Facts,
                                             seeds: set<nat>, path: seq<nat>, ms: seq<Machine>)
    requires |s.code| == |words| == |t.words| && IsFixpoint(s, words, facts, seeds) && LinkUnknown(s, words, facts)
    requires InCodeVisits(s, visits) && OthersAre(s, words, visits, t)
    requires IsNewRun(s, t.words, path, ms) && path[0] in seeds
    ensures path[|path| - 1] in facts && Sourced(s, t.words, ms[|path| - 1], facts[path[|path| - 1]])
    decreases |path|
  {
    hide Sourced, OthersAre, Transfer, Successors, ExecutesNew, Weaker, GoesTo, Calls;
    var n := |path| - 1;
    if n == 0 {
      NothingIsSourced(s, t.words, ms[0]);
    } else {
      NewRunsAreSourced(s, words, visits, t, facts, seeds, path[..n], ms[..n]);
      var k, q := path[n - 1], path[n];
      assert path[..n][n - 1] == k && ms[..n][n - 1] == ms[n - 1];
      EffectsAreStable(s, words, visits, t, k, facts[k]);
      assert GoesTo(s, t.words[path[n - 1]], path[n - 1], path[n - 1 + 1]);
      assert ExecutesNew(s, t.words, path[n - 1], ms[n - 1], ms[n - 1 + 1]);
      SuccessorsAre(s, t.words, k, q);
      assert Settled(s, words, facts, k) && InCode(s, q);
      TransferIsSourced(s, t.words, k, facts[k], ms[n - 1], ms[n]);
      WeakerIsSourced(s, t.words, ms[n], Transfer(s, t.words, k, facts[k]), facts[q]);
    }
  }

  lemma NothingIsSourced(s: Section, text: seq<Word>, m: Machine)
    requires |s.code| == |text|
    ensures Sourced(s, text, m, map[])
  {
  }

  /** The pass turns the words into `t`, and the disassembler had reported the words faithfully. */
  ghost predicate Passed(s: Section, words: seq<Word>, t: Text)
  {
    |s.code| == |words| == |t.words| && Result(s, words) == Some(t) && WellDecoded(s, words)
  }

  /** A run of the rewritten text from a function start, or another seed, to position `k`. */
  ghost predicate Reaches(s: Section, words: seq<Word>, t: Text, path: seq<nat>, ms: seq<Machine>, k: nat)
    requires Passed(s, words, t)
  {
    IsNewRun(s, t.words, path, ms) && path[0] in Seeds(s, words) && path[|path| - 1] == k
  }

  /** Definitions recorded at the end were visited. */
  lemma DefsAreVisited(s: Section, words: seq<Word>, k: nat, r: Reg, d: nat)
    requires |s.code| == |words| && k in FinalFacts(s, words) && r in FinalFacts(s, words)[k]
    requires d in FinalFacts(s, words)[k][r].defs
    ensures d < |s.code| && s.code[d].Adrp? && s.code[d].page == FinalFacts(s, words)[k][r].page
    ensures exists v <- Visits(s, words) :: v.pos == d
  {
    hide Visits, FinalFacts, VisitsWeaken, VisitsBetween;
    VisitsAreSound(s, words);
    VisitsAreGood(s, words);
    var visits, st := Visits(s, words), FinalFacts(s, words)[k];
    assert Visit(k, st) in visits;
    assert DefsAreAdrps(s, st) && IsAdrpOf(s, d, st[r].page);
    var i :| 0 <= i < |visits| && visits[i] == Visit(k, st);
    assert Knows({} + Positions(visits[..i]), st) && d in Positions(visits[..i]);
    var v :| v in visits[..i] && v.pos == d;
    assert v in visits;
  }

  lemma FinishedRun(s: Section, words: seq<Word>, t: Text, path: seq<nat>, ms: seq<Machine>, k: nat)
    requires Passed(s, words, t) && Reaches(s, words, t, path, ms, k) && LinkClear(s, words)
    ensures |path| == |ms| > 0 && k < |s.code| && k in FinalFacts(s, words)
    ensures Visit(k, FinalFacts(s, words)[k]) in Visits(s, words)
    ensures Sourced(s, t.words, ms[|path| - 1], FinalFacts(s, words)[k])
  {
    hide Sourced, IsFixpoint, WellDecoded, OthersAre, AdrpsAre, PagesAre, Repointable, RewriteAll, Visits, FinalFacts;
    hide Seeds, VisitsBetween, VisitsWeaken, Ordered, Weakened;
    ResultIff(s, words);
    FactsAreGreatest(s, words);
    VisitsAreSound(s, words);
    NewRunsAreSourced(s, words, Visits(s, words), t, FinalFacts(s, words), Seeds(s, words), path, ms);
  }

  /** Along every run of the rewritten text, a consumer whose target moves forms the relocated target if and only if
      its page is in reach of the ADRP that set its base on this run (for every ADD and every load or store of up to
      64 bits). */
  lemma RunsReachTheirTargets(s: Section, words: seq<Word>, t: Text, path: seq<nat>, ms: seq<Machine>, k: nat, u: Use)
    requires Passed(s, words, t) && Reaches(s, words, t, path, ms, k) && LinkClear(s, words)
    requires k < |s.code| && UseOf(s, k) == Some(u)
    requires k in FinalFacts(s, words) ==> Relocates(s, k, FinalFacts(s, words)[k])
    requires EncodedDisp(words[k]) == u.disp && (IsAdd(words[k]) || ArchScale(words[k]) == CodeScale(words[k]))
    ensures k in FinalFacts(s, words) && u.base in FinalFacts(s, words)[k]
    ensures var base, page := ms[|path| - 1](u.base), FinalFacts(s, words)[k][u.base].page;
            && NewTarget(s, page, u.disp).Some?
            && (base.value + EncodedDisp(t.words[k]) == NewTarget(s, page, u.disp).value <==>
                InAdrpReach(NewPc(s, base.origin), DesiredPage(s, page, u.disp)))
  {
    hide IsFixpoint, AdrpTarget, NewPc, EncodedDisp, InAdrpReach, DesiredPage, NewTarget, IsAdd, CodeScale, Visits;
    hide ArchScale, Reaches, Result, WellDecoded, FinalFacts;
    FinishedRun(s, words, t, path, ms, k);
    ConsumersReachTheirTargets(s, words, t, Visit(k, FinalFacts(s, words)[k]));
  }

  // ---------------------------------------------------------------- consumers whose target moves with the text

  /** The same 4 KB page, up to the 8 GB that the bits of an ADRP span. */
  predicate SamePage(a: int, page: int) { (PageOf(a) - page) % 0x2_0000_0000 == 0 }

  /** Nobody takes the page of ADRP `d` away: neither does its page move otherwise than the text, nor is it recorded
      for a consumer that needs another page. */
  ghost predicate KeepsPage(s: Section, words: seq<Word>, d: nat)
    requires d < |s.code| == |words| && s.code[d].Adrp?
  {
    var page := s.code[d].page;
    && (EagerPage(s, page).Some? ==> SamePage(EagerPage(s, page).value, page + s.textDelta))
    && forall v <- Visits(s, words) :: v.pos < |s.code| && Relocates(s, v.pos, v.st) && d in BaseOf(s, v).defs ==>
         SamePage(DesiredPage(s, BaseOf(s, v).page, DispOf(s, v)), page + s.textDelta)
  }

  lemma KeepsIff(s: Section, words: seq<Word>, pages: Pages, d: nat)
    requires d < |s.code| == |words| && s.code[d].Adrp? && PagesAre(s, Visits(s, words), pages)
    requires exists v <- Visits(s, words) :: v.pos == d
    ensures KeepsPage(s, words, d) <==> (d in pages ==> SamePage(pages[d], s.code[d].page + s.textDelta))
  {
    hide EagerPage, DesiredPage, NewTarget, SamePage, Visits;
    var visits := Visits(s, words);
    var v :| v in visits && v.pos == d;
    assert PageGiven(s, v, d) == EagerPage(s, s.code[d].page);
    forall v' | v' in visits && v'.pos < |s.code| && Relocates(s, v'.pos, v'.st) && d in BaseOf(s, v').defs
      ensures d in pages && pages[d] == DesiredPage(s, BaseOf(s, v').page, DispOf(s, v'))
    {
      NotAnAdrp(s, v');
      assert PageGiven(s, v', d).Some?;
    }
    if d in pages {
      var v' :| v' in visits && PageGiven(s, v', d) == Some(pages[d]);
    }
  }

  lemma KeptPage(s: Section, words: seq<Word>, t: Text, d: nat)
    requires d < |s.code| == |words| == |t.words| && s.code[d].Adrp? && s.textDelta % 0x1000 == 0
    requires AdrpsAre(s, words, t) && WellDecoded(s, words)
    ensures AdrpTarget(t.words[d], NewPc(s, d)) == s.code[d].page + s.textDelta <==>
            (d in t.pages ==> SamePage(t.pages[d], s.code[d].page + s.textDelta))
  {
    hide AdrpTarget, SetAdrp, PageOf, InAdrpReach;
    OwnPageInReach(words[d], OldPc(s, d), s.textDelta);
    if d in t.pages {
      SetAdrpCongruent(words[d], NewPc(s, d), t.pages[d], s.code[d].page + s.textDelta);
    } else {
      UntouchedAdrpMovesWithText(words[d], OldPc(s, d), s.textDelta);
    }
  }

  /** The target of the consumer moves exactly as the text does. */
  predicate Stays(s: Section, page: int, disp: int) { DeltaOf(s.deltas, page + disp) == Some(s.textDelta) }

  /** Along every run of the rewritten text, a consumer whose target moves with the text is as it was, and forms the
      relocated target if and only if the ADRP that set its base on this run keeps its page. */
  lemma RunsKeepStayingTargets(s: Section, words: seq<Word>, t: Text, path: seq<nat>, ms: seq<Machine>, k: nat, u: Use)
    requires Passed(s, words, t) && Reaches(s, words, t, path, ms, k) && LinkClear(s, words)
    requires k < |s.code| && UseOf(s, k) == Some(u)
    requires s.textDelta % 0x1000 == 0 && EncodedDisp(words[k]) == u.disp
    requires k in FinalFacts(s, words) ==>
               u.base in FinalFacts(s, words)[k] && Stays(s, FinalFacts(s, words)[k][u.base].page, u.disp)
    ensures k in FinalFacts(s, words) && u.base in FinalFacts(s, words)[k] && t.words[k] == words[k]
    ensures var base, page := ms[|path| - 1](u.base), FinalFacts(s, words)[k][u.base].page;
            && 0 <= base.origin < |s.code| && s.code[base.origin].Adrp? && s.code[base.origin].page == page
            && (base.value + EncodedDisp(t.words[k]) == page + u.disp + s.textDelta <==>
                KeepsPage(s, words, base.origin))
  {
    hide IsFixpoint, AdrpTarget, NewPc, EncodedDisp, Reaches, KeepsPage, Stays, WellDecoded, AdrpsAre, FinalFacts;
    hide Repointable, Visits, RewriteAll, PagesAre, OthersAre;
    FinishedRun(s, words, t, path, ms, k);
    ResultIff(s, words);
    StayingIsUntouched(s, words, t, k, u);
    var d := ms[|path| - 1](u.base).origin;
    DefsAreVisited(s, words, k, u.base, d);
    KeepsIff(s, words, t.pages, d);
    KeptPage(s, words, t, d);
  }

  lemma StayingIsUntouched(s: Section, words: seq<Word>, t: Text, k: nat, u: Use)
    requires k < |s.code| == |words| == |t.words| && InCodeVisits(s, Visits(s, words))
    requires OthersAre(s, words, Visits(s, words), t) && k in FinalFacts(s, words)
    requires UseOf(s, k) == Some(u) && u.base in FinalFacts(s, words)[k]
    requires Stays(s, FinalFacts(s, words)[k][u.base].page, u.disp)
    ensures t.words[k] == words[k]
  {
    hide Visits, FinalFacts, ConsumerWord, VisitsWeaken, Ordered, DefsAreAdrps;
    VisitsAreSound(s, words);
    forall v | v in Visits(s, words) && v.pos == k ensures !Relocates(s, k, v.st) {
      assert VisitBetween(s, v, FinalFacts(s, words), map[]);
      assert Weaker(FinalFacts(s, words)[k], v.st);
    }
  }

  /** An eager page is the page the ADRP computes anyway only if both moves agree modulo 8 GB. */
  lemma EagerPageKeepsIff(s: Section, page: int)
    requires page % 0x1000 == 0 && EagerPage(s, page).Some?
    ensures SamePage(EagerPage(s, page).value, page + s.textDelta) <==>
            (DeltaOf(s.deltas, page).value - s.textDelta) % 0x2_0000_0000 == 0
  {
    AlignedPage(EagerPage(s, page).value);
  }

  /** In a segment without a gap a displacement below 4 KB keeps page and target together, so the eager repair
      passes over the ADRPs of staying consumers. */
  lemma EagerRepairPassesOver(l: Layout, s: Section, i: nat, page: int, disp: int)
    requires WellFormed(l) && Aligned(l) && s.deltas == Deltas(l, |l.segs|) && i < |l.segs|
    requires page % 0x1000 == 0 && 0 <= disp < 0x1000 && InSegment(l.segs[i], page + disp)
    requires Splits(l, l.segs[i]) ==> Shift(l) == 0
    requires Stays(s, page, disp)
    ensures EagerPage(s, page) == None
  {
    PageStaysInside(l, i, page, disp);
    DeltasFind(l, |l.segs|, i, page + disp);
    DeltasFind(l, |l.segs|, i, page);
  }

  lemma PageStaysInside(l: Layout, i: nat, page: int, disp: int)
    requires Aligned(l) && i < |l.segs| && page % 0x1000 == 0 && 0 <= disp < 0x1000 && InSegment(l.segs[i], page + disp)
    ensures InSegment(l.segs[i], page)
  {
  }

  /** And then another consumer of the same page that the pass can repoint is one of a rebuilt slot: on 4 KB segments
      only a target outside the image can take the page of a staying consumer away. */
  lemma OnlySlotsTakeThePage(l: Layout, s: Section, i: nat, page: int, disp: int, disp': int)
    requires WellFormed(l) && Aligned(l) && s.deltas == Deltas(l, |l.segs|) && i < |l.segs|
    requires page % 0x1000 == 0 && 0 <= disp < 0x1000 && InSegment(l.segs[i], page + disp)
    requires (Splits(l, l.segs[i]) ==> Shift(l) == 0) && Stays(s, page, disp)
    requires NewTarget(s, page, disp').Some? && 0 <= NewDisp(s, page, disp') < 0x1000
    ensures DeltaOf(s.deltas, page + disp') == None && page + disp' in s.got
  {
    hide WellFormed, Aligned, Deltas, InSegment;
    AmapKeepsPageOffset(l, page + disp');
    if DeltaOf(s.deltas, page + disp').Some? { NeighbourStays(l, s, i, page, disp, disp'); }
  }

  /** Two targets on one page of the image move alike. */
  lemma NeighbourStays(l: Layout, s: Section, i: nat, page: int, disp: int, disp': int)
    requires WellFormed(l) && Aligned(l) && s.deltas == Deltas(l, |l.segs|) && i < |l.segs|
    requires page % 0x1000 == 0 && 0 <= disp < 0x1000 && 0 <= disp' < 0x1000 && InSegment(l.segs[i], page + disp)
    requires (Splits(l, l.segs[i]) ==> Shift(l) == 0) && DeltaOf(s.deltas, page + disp').Some?
    ensures DeltaOf(s.deltas, page + disp') == DeltaOf(s.deltas, page + disp)
  {
    hide WellFormed, Aligned, Deltas, InSegment;
    AmapIsSegmentwise(l, page + disp');
    var j :| 0 <= j < |l.segs| && InSegment(l.segs[j], page + disp');
    PageStaysInside(l, i, page, disp);
    PageStaysInside(l, j, page, disp');
    OneSegment(l, i, j, page);
    DeltasFind(l, |l.segs|, i, page + disp);
    DeltasFind(l, |l.segs|, i, page + disp');
    SameMove(l, i, page + disp, page + disp');
  }

  lemma OneSegment(l: Layout, i: nat, j: nat, a: int)
    requires WellFormed(l) && i < |l.segs| && j < |l.segs| && InSegment(l.segs[i], a) && InSegment(l.segs[j], a)
    ensures i == j
  {
  }

  lemma SameMove(l: Layout, i: nat, a: int, b: int)
    requires i < |l.segs| && (Splits(l, l.segs[i]) ==> Shift(l) == 0)
    ensures Moved(l, i, a) - a == Moved(l, i, b) - b
  {
  }

  // ---------------------------------------------------------------- the new address of an old one

  lemma DesiredPageIsTargets(s: Section, page: int, disp: int)
    requires page % 0x1000 == 0 && NewTarget(s, page, disp).Some? && 0 <= NewDisp(s, page, disp) < 0x1000
    ensures DesiredPage(s, page, disp) == PageOf(NewTarget(s, page, disp).value)
  {
    DesiredPageIsAligned(s, page, disp);
  }

  /** Along every run of the rewritten text, a consumer whose base is known and whose old address has a new one
      forms the new one: if it moves as the text does, exactly if the ADRP that set its base on this run keeps its
      page; else exactly if the new address is in reach of that ADRP. */
  lemma RunsFormNewAddresses(s: Section, words: seq<Word>, t: Text, path: seq<nat>, ms: seq<Machine>, k: nat, u: Use,
                             a: int)
    requires Passed(s, words, t) && Reaches(s, words, t, path, ms, k) && LinkClear(s, words)
    requires k < |s.code| && UseOf(s, k) == Some(u) && s.textDelta % 0x1000 == 0
    requires EncodedDisp(words[k]) == u.disp && (IsAdd(words[k]) || ArchScale(words[k]) == CodeScale(words[k]))
    requires k in FinalFacts(s, words) ==> u.base in FinalFacts(s, words)[k]
                                           && IsNewAddressOf(s, FinalFacts(s, words)[k][u.base].page + u.disp, a)
    ensures k in FinalFacts(s, words) && u.base in FinalFacts(s, words)[k]
    ensures var base, target := ms[|path| - 1](u.base), FinalFacts(s, words)[k][u.base].page + u.disp;
            && 0 <= base.origin < |s.code| && s.code[base.origin].Adrp?
            && (base.value + EncodedDisp(t.words[k]) == a <==>
                if Amap(s.deltas, target) == Some(target + s.textDelta) then KeepsPage(s, words, base.origin)
                else InAdrpReach(NewPc(s, base.origin), a))
  {
    hide IsFixpoint, AdrpTarget, NewPc, EncodedDisp, InAdrpReach, NewTarget, IsAdd, CodeScale, Visits, KeepsPage;
    hide ArchScale, Reaches, Result, WellDecoded, FinalFacts, DesiredPage, NewDisp, Relocates;
    FinishedRun(s, words, t, path, ms, k);
    var st := FinalFacts(s, words)[k];
    var d := ms[|path| - 1](u.base).origin;
    DefsAreVisited(s, words, k, u.base, d);
    RelocatesIff(s, k, st, u);
    StaysIff(s, st[u.base].page, u.disp);
    if Relocates(s, k, st) {
      RunsReachTheirTargets(s, words, t, path, ms, k, u);
      TakenPage(s, words, t, k, d, u);
    } else {
      RunsKeepStayingTargets(s, words, t, path, ms, k, u);
    }
  }

  lemma StaysIff(s: Section, page: int, disp: int)
    ensures Stays(s, page, disp) <==> Amap(s.deltas, page + disp) == Some(page + disp + s.textDelta)
  {
  }

  /** The page of a relocated consumer is that of its new address. */
  lemma TakenPage(s: Section, words: seq<Word>, t: Text, k: nat, d: nat, u: Use)
    requires Passed(s, words, t) && k < |s.code| && UseOf(s, k) == Some(u) && k in FinalFacts(s, words)
    requires Relocates(s, k, FinalFacts(s, words)[k]) && Visit(k, FinalFacts(s, words)[k]) in Visits(s, words)
    requires d < |s.code| && s.code[d].Adrp? && s.code[d].page == FinalFacts(s, words)[k][u.base].page
    ensures var page := FinalFacts(s, words)[k][u.base].page;
            InAdrpReach(NewPc(s, d), DesiredPage(s, page, u.disp)) <==>
            InAdrpReach(NewPc(s, d), NewTarget(s, page, u.disp).value)
  {
    hide AdrpTarget, NewTarget, DesiredPage, NewDisp, Visits, FinalFacts, RewriteAll, PagesAre, AdrpsAre, OthersAre;
    hide ConsumerWord, PageOf;
    ResultIff(s, words);
    var v := Visit(k, FinalFacts(s, words)[k]);
    assert Encodable(s, words, v);
    AdrpPagesAreAligned(words[d], OldPc(s, d));
    DesiredPageIsTargets(s, BaseOf(s, v).page, u.disp);
    AlignedTwice(NewTarget(s, BaseOf(s, v).page, u.disp).value);
  }

  lemma AlignedTwice(a: int)
    ensures PageOf(PageOf(a)) == PageOf(a)
  {
  }

  /** Every ADRP whose page is mapped by whole pages, otherwise than the text moves, computes the image of its
      page, when that is in reach; whether or not any consumer is known for it. */
  lemma EagerAdrpsFollowTheMap(s: Section, words: seq<Word>, t: Text, d: nat, a: int)
    requires Passed(s, words, t) && d < |s.code| && s.code[d].Adrp? && Amap(s.deltas, s.code[d].page) == Some(a)
    requires (a - s.code[d].page) % 0x1000 == 0 && a != s.code[d].page + s.textDelta
    ensures AdrpTarget(t.words[d], NewPc(s, d)) == a <==> InAdrpReach(NewPc(s, d), a)
  {
    hide AdrpTarget, InAdrpReach, Result, NewPc, PageOf, SetAdrp, EagerPage;
    EagerIs(s, s.code[d].page, a);
    EagerGiven(s, words, t, d);
    PageIsAligned(s, words, d);
    AlignedPage(a);
    SetAdrpDecodes(words[d], NewPc(s, d), a);
  }

  lemma EagerIs(s: Section, page: int, a: int)
    requires Amap(s.deltas, page) == Some(a) && (a - page) % 0x1000 == 0 && a != page + s.textDelta
    ensures EagerPage(s, page) == Some(a)
  {
  }

  lemma EagerGiven(s: Section, words: seq<Word>, t: Text, d: nat)
    requires Passed(s, words, t) && d < |s.code| && s.code[d].Adrp? && EagerPage(s, s.code[d].page).Some?
    ensures t.words[d] == SetAdrp(words[d], NewPc(s, d), EagerPage(s, s.code[d].page).value)
  {
    hide SetAdrp, Visits, FinalFacts, Seeds, RewriteAll, OthersAre, Repointable, NewPc, IsFixpoint, EagerPage;
    hide Weakened, VisitsBetween, VisitsWeaken, Ordered, WellDecoded;
    ResultIff(s, words);
    FactsAreGreatest(s, words);
    VisitsAreSound(s, words);
    var v := Visit(d, FinalFacts(s, words)[d]);
    assert v in Visits(s, words) && PageGiven(s, v, d) == EagerPage(s, s.code[d].page);
  }

  lemma PageIsAligned(s: Section, words: seq<Word>, d: nat)
    requires |s.code| == |words| && WellDecoded(s, words) && d < |s.code| && s.code[d].Adrp?
    ensures s.code[d].page % 0x1000 == 0
  {
    AdrpPagesAreAligned(words[d], OldPc(s, d));
  }

  // ---------------------------------------------------------------- consumers rewritten for only some of their paths

  /** A consumer keeps its displacement if and only if no visit at which its base was known asked for another one,
      whether or not the facts at the end still know its base. */
  lemma DispKeptIff(s: Section, words: seq<Word>, t: Text, k: nat, u: Use)
    requires Passed(s, words, t) && k < |s.code| && UseOf(s, k) == Some(u)
    requires EncodedDisp(words[k]) == u.disp && (IsAdd(words[k]) || ArchScale(words[k]) == CodeScale(words[k]))
    ensures EncodedDisp(t.words[k]) == u.disp <==>
            forall v <- Visits(s, words) :: v.pos == k && Relocates(s, k, v.st) ==>
              NewDisp(s, v.st[u.base].page, u.disp) == u.disp
  {
    hide EncodedDisp, NewTarget, NewDisp, IsAdd, ArchScale, CodeScale, Visits, RewriteAll, WellDecoded;
    hide PagesAre, AdrpsAre;
    hide ConsumerWord, MovesByPages;
    ResultIff(s, words);
    forall v | v in Visits(s, words) && v.pos == k && Relocates(s, k, v.st)
      ensures EncodedDisp(t.words[k]) == NewDisp(s, v.st[u.base].page, u.disp)
    {
      assert Encodable(s, words, v);
      ConsumerAddsNewDisp(s, words[k], BaseOf(s, v).page, u.disp);
    }
    if NeverRelocates(s, Visits(s, words), k) { assert t.words[k] == words[k]; }
  }

  /** What is left of a consumer whose base the facts at the end do not know: its word is the old one, or the one asked
      for by the visits that did know its base; these agree on the page. */
  lemma ForgottenConsumer(s: Section, words: seq<Word>, t: Text, k: nat)
    requires Passed(s, words, t) && k < |s.code| && !s.code[k].Adrp?
    ensures InCodeVisits(s, Visits(s, words))
    ensures if NeverRelocates(s, Visits(s, words), k) then t.words[k] == words[k]
            else forall v <- Visits(s, words) :: v.pos == k && Relocates(s, k, v.st) ==>
                   WordGiven(s, words, v) == Rewritten(t.words[k])
  {
    hide Visits, RewriteAll, WellDecoded, PagesAre, AdrpsAre, ConsumerWord, Encodable;
    ResultIff(s, words);
  }
}

/** `rewrite_adrp`: the pass that repoints ADRPs and their consumers after the segments have moved. */
module AdrpRewrite {
  import opened A64Words
  import opened AdrpText
  import opened Dataflow
  import opened Relayout
  import opened Worklist
  import opened Wrappers

  // ---------------------------------------------------------------- the rounds of the pass

  lemma RoundTold(s: Section, words: seq<Word>, visits: seq<Visit>, v: Visit, t: Text)
    requires |s.code| == |words| && InCodeVisits(s, visits) && v.pos < |s.code|
    requires RewriteAll(s, words, visits) == Some(t)
    ensures InCodeVisits(s, visits + [v]) && RewriteAll(s, words, visits + [v]) == RewriteOne(s, t, v)
  {
    hide RewriteOne;
    assert (visits + [v])[..|visits|] == visits;
  }

  lemma {:induction false} RaisesForGood(s: Section, words: seq<Word>, visits: seq<Visit>, more: seq<Visit>)
    requires |s.code| == |words| && InCodeVisits(s, visits) && InCodeVisits(s, visits + more)
    requires RewriteAll(s, words, visits) == None
    ensures RewriteAll(s, words, visits + more) == None
    decreases |more|
  {
    hide RewriteOne;
    if more == [] {
      assert visits + more == visits;
    } else {
      var n := |more| - 1;
      assert (visits + more)[..|visits + more| - 1] == visits + more[..n];
      assert forall v <- visits + more[..n] :: v in visits + more;
      RaisesForGood(s, words, visits, more[..n]);
    }
  }

  lemma NoResult(s: Section, words: seq<Word>, visits: seq<Visit>, more: seq<Visit>)
    requires |s.code| == |words| && InCodeVisits(s, visits) && RewriteAll(s, words, visits) == None
    requires visits + more == Visits(s, words)
    ensures Result(s, words) == None
  {
    hide RewriteAll, Visits;
    VisitsInCode(s, words);
    RaisesForGood(s, words, visits, more);
  }

  lemma {:induction false} FrontIsGood(s: Section, visits: seq<Visit>, more: seq<Visit>)
    requires GoodVisits(s, visits + more)
    ensures GoodVisits(s, visits)
    decreases |more|
  {
    hide GoodVisits;
    if more == [] {
      assert visits + more == visits;
    } else {
      var n := |more| - 1;
      assert (visits + more)[..|visits + more| - 1] == visits + more[..n];
      PrefixIsGood(s, visits + more);
      FrontIsGood(s, visits, more[..n]);
    }
  }

  /** The control and register effects of a word never change, neither for the pass nor for the machine. */
  lemma EffectsAreStable(s: Section, words: seq<Word>, visits: seq<Visit>, t: Text, k: nat, st: State)
    requires k < |s.code| == |words| == |t.words| && InCodeVisits(s, visits) && OthersAre(s, words, visits, t)
    ensures Calls(s, t.words[k], k) == Calls(s, words[k], k)
    ensures Successors(s, t.words, k) == Successors(s, words, k)
    ensures Transfer(s, t.words, k, st) == Transfer(s, words, k, st)
  {
    hide NewTarget, ConsumerWord;
    if s.code[k].Undecoded? { assert NeverRelocates(s, visits, k); }
  }

  lemma StableSoFar(s: Section, words: seq<Word>, visits: seq<Visit>, more: seq<Visit>, t: Text, k: nat, st: State)
    requires k < |s.code| == |words| == |t.words| && InCodeVisits(s, visits)
    requires visits + more == Visits(s, words) && RewriteAll(s, words, visits) == Some(t)
    ensures Successors(s, t.words, k) == Successors(s, words, k)
    ensures Transfer(s, t.words, k, st) == Transfer(s, words, k, st)
  {
    hide Visits, GoodVisits, RewriteAll, Repointable, Successors, Transfer, OthersAre;
    VisitsAreGood(s, words);
    FrontIsGood(s, visits, more);
    RewriteAllIs(s, words, visits);
    EffectsAreStable(s, words, visits, t, k, st);
  }

  /** The definitions at positions below `d`. */
  function Below(defs: set<nat>, d: nat): set<nat> { set q <- defs | q < d }

  lemma NothingRepaired(s: Section, t: Text, defs: set<nat>, page: int)
    ensures Agreed(t.pages, Below(defs, 0), page) && Repaired(s, t, Below(defs, 0), page) == t
  {
    assert Below(defs, 0) == {};
    assert Repaired(s, t, {}, page).words == t.words;
  }

  lemma RepairFirst(s: Section, t: Text, defs: set<nat>, d: nat, page: int)
    requires d < |t.words| && d !in defs && d !in t.pages
    ensures Repaired(s, t, defs + {d}, page) == Assign(s, Repaired(s, t, defs, page), d, page)
  {
    hide SetAdrp, NewPc;
    var r, r' := Repaired(s, t, defs, page), Repaired(s, t, defs + {d}, page);
    assert r'.pages == r.pages[d := page];
    assert r'.words == Assign(s, r, d, page).words;
  }

  lemma RepairAgain(s: Section, t: Text, defs: set<nat>, d: nat, page: int)
    requires d < |t.words| && d in t.pages && t.pages[d] == page
    ensures Repaired(s, t, defs + {d}, page) == Repaired(s, t, defs, page)
  {
    hide SetAdrp, NewPc;
    assert Repaired(s, t, defs + {d}, page).pages == Repaired(s, t, defs, page).pages;
    assert Repaired(s, t, defs + {d}, page).words == Repaired(s, t, defs, page).words;
  }

  lemma RepairedHas(s: Section, t: Text, defs: set<nat>, d: nat, page: int)
    requires d !in defs
    ensures var r := Repaired(s, t, defs, page);
            && (d in r.pages <==> d in t.pages)
            && (d in t.pages ==> r.pages[d] == t.pages[d])
  {
  }

  lemma OneMoreRepair(s: Section, t: Text, defs: set<nat>, d: nat, page: int)
    requires d < |t.words| && Agreed(t.pages, Below(defs, d), page)
    ensures var r, r' := Repaired(s, t, Below(defs, d), page), Repaired(s, t, Below(defs, d + 1), page);
            if d !in defs then r' == r && Agreed(t.pages, Below(defs, d + 1), page)
            else if d !in r.pages then r' == Assign(s, r, d, page) && Agreed(t.pages, Below(defs, d + 1), page)
            else if r.pages[d] == page then r' == r && Agreed(t.pages, Below(defs, d + 1), page)
            else !Agreed(t.pages, defs, page)
  {
    hide Repaired, Assign;
    if d !in defs {
      assert Below(defs, d + 1) == Below(defs, d);
    } else {
      assert Below(defs, d + 1) == Below(defs, d) + {d};
      RepairedHas(s, t, Below(defs, d), d, page);
      if d !in t.pages {
        RepairFirst(s, t, Below(defs, d), d, page);
      } else if t.pages[d] == page {
        RepairAgain(s, t, Below(defs, d), d, page);
      }
    }
  }

  /** One round of the run ahead. */
  lemma RoundAhead(s: Section, words: seq<Word>, f: Flow, visits: seq<Visit>) returns (more: seq<Visit>)
    requires |s.code| == |words| && FlowOk(s, f) && f.work != []
    ensures Top(f) < |s.code| && Top(f) in f.facts && DefsAreAdrps(s, f.facts[Top(f)])
    ensures FlowOk(s, Next(s, words, f)) && LowerOrSame(s, Rest(f), Next(s, words, f))
    ensures var v := Visit(Top(f), f.facts[Top(f)]);
            && more == Drain(s, words, Next(s, words, f)).visits
            && visits + Drain(s, words, f).visits == visits + [v] + more
            && Drain(s, words, Next(s, words, f)).facts == Drain(s, words, f).facts
  {
    hide Next, DefsAreAdrps, LowerOrSame;
    NextIsOk(s, words, f);
    more := Drain(s, words, Next(s, words, f)).visits;
    var v := Visit(Top(f), f.facts[Top(f)]);
    assert visits + ([v] + more) == visits + [v] + more;
  }

  lemma UnreachedIs(s: Section, facts: Facts)
    ensures var p := FirstUnreached(s, facts, 0);
            p.Some? ==> p.value < |s.code| && s.code[p.value].Adrp? && p.value !in facts
  {
  }

  lemma StartsAreSeeds(s: Section, words: seq<Word>)
    requires |s.code| == |words|
    ensures InCodeStarts(s) <= Seeds(s, words)
  {
  }

  /** Every function start, or the first instruction of a section without any, is entered with nothing known. */
  lemma EntriesAreSeeds(s: Section, words: seq<Word>, k: nat)
    requires |s.code| == |words| && k < |s.code|
    requires (k as int) in s.starts || (s.starts == [] && k == 0)
    ensures k in Seeds(s, words)
  {
    StartsAreSeeds(s, words);
  }

  lemma ResultOf(s: Section, words: seq<Word>)
    requires |s.code| == |words|
    ensures InCodeVisits(s, Visits(s, words)) && Result(s, words) == RewriteAll(s, words, Visits(s, words))
  {
    VisitsInCode(s, words);
  }

  /** The pass before its first round. */
  lemma PassBegins(s: Section, words: seq<Word>)
    requires |s.code| == |words|
    ensures FlowOk(s, Begin(s)) && RewriteAll(s, words, []) == Some(Text(words, map[]))
    ensures [] + Drain(s, words, Begin(s)).visits == Visits(s, words)
    ensures Drain(s, words, Begin(s)).facts == FinalFacts(s, words)
  {
    hide Begin, Drain;
    BeginIsOk(s);
  }

  /** The pass when nothing is left to do. */
  lemma PassEnds(s: Section, words: seq<Word>, f: Flow, visits: seq<Visit>)
    requires |s.code| == |words| && FlowOk(s, f) && f.work == [] && FirstUnreached(s, f.facts, 0) == None
    requires visits + Drain(s, words, f).visits == Visits(s, words) && Drain(s, words, f).facts == FinalFacts(s, words)
    ensures visits == Visits(s, words) && f.facts == FinalFacts(s, words)
  {
    hide Visits, FinalFacts;
    assert visits + [] == visits;
  }

  // ---------------------------------------------------------------- the pass

  class Pass {
    const s: Section
    const text: array<Word>
    ghost const old_: seq<Word>
    var facts: Facts
    var work: seq<nat>
    var pages: Pages
    ghost var visits: seq<Visit>

    /** The text is what the visits so far make of it, and the rest of the run is ahead. */
    ghost predicate Valid()
      reads this, text
    {
      && text.Length == |s.code| == |old_| && FlowOk(s, Flow(facts, work)) && InCodeVisits(s, visits)
      && RewriteAll(s, old_, visits) == Some(Text(text[..], pages)) && Ahead()
    }

    /** The worklist will go on as it does on the section alone. */
    ghost predicate Ahead()
      reads this
      requires |s.code| == |old_| && FlowOk(s, Flow(facts, work))
    {
      var o := Drain(s, old_, Flow(facts, work));
      visits + o.visits == Visits(s, old_) && o.facts == FinalFacts(s, old_)
    }

    constructor (section: Section, words: array<Word>)
      requires words.Length == |section.code|
      ensures s == section && text == words && old_ == words[..]
      ensures facts == map[] && work == [] && pages == map[] && visits == []
    {
      s, text, old_ := section, words, words[..];
      facts, work, pages, visits := map[], [], map[], [];
    }

    /** `merge_state` */
    method Merge(pos: int, st: State)
      modifies this`facts, this`work
      ensures Flow(facts, work) == MergeState(s, old(Flow(facts, work)), pos, st)
    {
      if !InCode(s, pos) { return; }
      var merged := Dataflow.Merge(Lookup(facts, pos), st);
      if pos !in facts || merged != facts[pos] {
        facts := facts[pos := merged];
        work := work + [pos];
      }
    }

    /** The loop that merges a state into every target. */
    method MergeInto(targets: seq<int>, st: State)
      modifies this`facts, this`work
      ensures Flow(facts, work) == MergeAll(s, old(Flow(facts, work)), targets, st)
    {
      var i := 0;
      while i < |targets|
        invariant 0 <= i <= |targets|
        invariant MergeAll(s, Flow(facts, work), targets[i..], st) == MergeAll(s, old(Flow(facts, work)), targets, st)
      {
        Merge(targets[i], st);
        assert targets[i..][1..] == targets[i + 1..];
        i := i + 1;
      }
    }

    /** The loop over a consumer's definitions; a definition already given another page raises. */
    method RepairDefinitions(defs: set<nat>, page: int) returns (ok: bool)
      requires text.Length == |s.code| && forall d <- defs :: d < |s.code|
      modifies this`pages, text
      ensures ok <==> Agreed(old(pages), defs, page)
      ensures ok ==> Text(text[..], pages) == Repaired(s, old(Text(text[..], pages)), defs, page)
    {
      ok := true;
      hide Agreed, Repaired, SetAdrp;
      ghost var t := Text(text[..], pages);
      NothingRepaired(s, t, defs, page);
      for d := 0 to |s.code|
        invariant Agreed(t.pages, Below(defs, d), page)
        invariant Text(text[..], pages) == Repaired(s, t, Below(defs, d), page)
      {
        OneMoreRepair(s, t, defs, d, page);
        if d in defs {
          if d in pages {
            if pages[d] != page { return false; }
          } else {
            text[d] := SetAdrp(text[d], NewPc(s, d), page);
            pages := pages[d := page];
          }
        }
      }
      assert Below(defs, |s.code|) == defs;
    }

    /** Repoints consumer `k` and its ADRPs; conflicting pages, a displacement of 4 KB or more and an
        unsupported word raise. */
    method RewriteConsumer(k: nat, e: Def, disp: int) returns (ok: bool)
      requires k < |s.code| == text.Length && forall d <- e.defs :: d < |s.code|
      modifies this`pages, text
      ensures (if ok then Some(Text(text[..], pages)) else None)
              == RewriteUse(s, old(Text(text[..], pages)), k, e, disp)
    {
      hide Agreed, Repaired, DesiredPage, NewDisp, ConsumerWord;
      var target := NewTarget(s, e.page, disp);
      if target == None { return true; }
      var page := DesiredPage(s, e.page, disp);
      ok := RepairDefinitions(e.defs, page);
      if !ok { return; }
      if !(0 <= NewDisp(s, e.page, disp) < 0x1000) { return false; }
      var w := ConsumerWord(s, text[k], e.page, disp);
      if w.Refused? { return false; }
      text[k] := w.w;
    }

    /** The text half of processing `k`. */
    method RewriteAt(k: nat) returns (ok: bool)
      requires k < |s.code| == text.Length && k in facts && DefsInCode(s, facts[k])
      modifies this`pages, text
      ensures (if ok then Some(Text(text[..], pages)) else None) ==
              RewriteOne(s, old(Text(text[..], pages)), Visit(k, facts[k]))
    {
      hide RewriteUse;
      ok := true;
      if s.code[k].Adrp? {
        var eager := EagerPage(s, s.code[k].page);
        if eager.Some? {
          text[k] := SetAdrp(text[k], NewPc(s, k), eager.value);
          pages := pages[k := eager.value];
        }
      } else {
        var use := UseOf(s, k);
        if use.Some? && use.value.base in facts[k] {
          ok := RewriteConsumer(k, facts[k][use.value.base], use.value.disp);
        }
      }
    }

    /** One round of the worklist: pop a position, rewrite the text it concerns, pass its outgoing
        state on.  A raise means that the pass has no result. */
    method Step() returns (ok: bool)
      requires Valid() && work != []
      modifies this`facts, this`work, this`pages, this`visits, text
      ensures text.Length == |s.code| == |old_| && if ok then Valid() else Result(s, old_) == None
      ensures ok ==> visits == old(visits + [Visit(work[|work| - 1], facts[work[|work| - 1]])])
      ensures ok ==> Flow(facts, work) == old(Next(s, old_, Flow(facts, work)))
      ensures ok ==> LowerOrSame(s, old(Flow(facts, work[..|work| - 1])), Flow(facts, work))
    {
      hide RewriteOne, MergeAll, Transfer, Successors, LowerOrSame, DefsAreAdrps, Drain, Result, RewriteAll, Visits;
      hide FinalFacts;
      ghost var f, v := Flow(facts, work), Visit(work[|work| - 1], facts[work[|work| - 1]]);
      ghost var more := RoundAhead(s, old_, f, visits);
      AdrpsInCode(s, facts[v.pos]);
      var k := work[|work| - 1];
      work := work[..|work| - 1];
      ok := RewriteAt(k);
      RoundTold(s, old_, visits, v, Text(old(text[..]), old(pages)));
      if !ok {
        NoResult(s, old_, visits + [v], more);
        return;
      }
      visits := visits + [v];
      StableSoFar(s, old_, visits, more, Text(text[..], pages), k, facts[k]);
      MergeInto(Successors(s, text[..], k), Transfer(s, text[..], k, facts[k]));
    }

    /** The first ADRP, in order, that no path has reached. */
    method NextUnreached() returns (pos: Option<nat>)
      ensures pos == FirstUnreached(s, facts, 0)
    {
      for k := 0 to |s.code|
        invariant FirstUnreached(s, facts, k) == FirstUnreached(s, facts, 0)
      {
        if k !in facts && s.code[k].Adrp? { return Some(k); }
      }
      return None;
    }

    /** Seeds an unreached ADRP with no knowledge. */
    method Reseed(pos: nat)
      requires Valid() && work == [] && FirstUnreached(s, facts, 0) == Some(pos)
      modifies this`facts, this`work
      ensures Valid() && Flow(facts, work) == Seeded(s, old(Flow(facts, work)), pos)
    {
      hide RewriteAll, MergeState;
      SeededIsOk(s, Flow(facts, work), pos);
      Merge(pos, map[]);
    }

    /** The loop that seeds the function starts. */
    method Start()
      requires text.Length == |s.code| && old_ == text[..]
      requires facts == map[] && work == [] && pages == map[] && visits == []
      modifies this`facts, this`work
      ensures Valid() && Flow(facts, work) == Begin(s)
    {
      hide RewriteAll, MergeAll, Visits, FinalFacts, Drain;
      PassBegins(s, old_);
      MergeInto(StartsOf(s), map[]);
    }

    /** The whole pass over one section.  It raises exactly when the visits cannot all be granted.  Otherwise the
        text is the result of the visits, and the facts are the greatest fixpoint from the seeds; these include every
        function start, and every position with facts, every ADRP among them, has been visited. */
    method Run() returns (ok: bool)
      requires text.Length == |s.code| && old_ == text[..]
      requires facts == map[] && work == [] && pages == map[] && visits == []
      modifies this, text
      ensures text.Length == |s.code| == |old_|
      ensures ok <==> Result(s, old_).Some?
      ensures ok <==> InCodeVisits(s, Visits(s, old_)) && Repointable(s, old_, Visits(s, old_))
      ensures ok ==> Result(s, old_) == Some(Text(text[..], pages)) && facts == FinalFacts(s, old_) && work == []
      ensures ok ==> IsFixpoint(s, old_, facts, Seeds(s, old_)) && InCodeStarts(s) <= Seeds(s, old_)
      ensures ok ==> forall g: Facts :: IsFixpoint(s, old_, g, Seeds(s, old_)) ==> Weakened(g, facts)
      ensures ok ==> visits == Visits(s, old_) && forall k <- facts :: Visit(k, facts[k]) in visits
      ensures ok ==> forall k :: 0 <= k < |s.code| && s.code[k].Adrp? ==> k in facts
    {
      hide RewriteAll, MergeAll, Repointable, IsFixpoint, Visits, FinalFacts, Result, Unvisited, Held, Missing, Begin;
      hide FlowOk, Drain, Seeds, InCodeStarts, Weakened, Next, FirstUnreached, StartsOf;
      FactsAreGreatest(s, old_);
      VisitsAreSound(s, old_);
      ResultIff(s, old_);
      StartsAreSeeds(s, old_);
      PassBegins(s, old_);
      Start();
      while true
        invariant Valid()
        decreases Unvisited(s, facts), Held(facts), Missing(s, facts), |work|
      {
        if work == [] {
          var pos := NextUnreached();
          if pos == None { break; }
          UnreachedIs(s, facts);
          SeedLowers(s, Flow(facts, work), pos.value);
          Reseed(pos.value);
        } else {
          ok := Step();
          if !ok { return; }
        }
      }
      PassEnds(s, old_, Flow(facts, work), visits);
      ResultOf(s, old_);
      ok := true;
    }
  }

  // ---------------------------------------------------------------- what the rewritten text computes

  /** What the disassembler is taken to report: the page of each ADRP at its old address. */
  ghost predicate WellDecoded(s: Section, words: seq<Word>)
    requires |s.code| == |words|
  {
    forall k :: 0 <= k < |s.code| && s.code[k].Adrp? ==> s.code[k].page == AdrpTarget(words[k], OldPc(s, k))
  }

  lemma AdrpPagesAreAligned(w: Word, pc: int)
    ensures AdrpTarget(w, pc) % 0x1000 == 0
  {
  }

  lemma DesiredPageIsAligned(s: Section, page: int, disp: int)
    requires NewTarget(s, page, disp).Some? && page % 0x1000 == 0
    ensures PageOf(DesiredPage(s, page, disp)) == DesiredPage(s, page, disp)
  {
  }

  /** The displacement a settled consumer adds: the new one, unless the word was rewritten at a scale
      the code does not know (a 128-bit access with a displacement other than zero). */
  lemma ConsumerAddsNewDisp(s: Section, w: Word, page: int, disp: int)
    requires NewTarget(s, page, disp).Some? && 0 <= NewDisp(s, page, disp) < 0x1000
    requires ConsumerWord(s, w, page, disp).Rewritten? && EncodedDisp(w) == disp
    ensures EncodedDisp(ConsumerWord(s, w, page, disp).w) == NewDisp(s, page, disp) <==>
            IsAdd(w) || ArchScale(w) == CodeScale(w) || NewDisp(s, page, disp) == 0
            || (MovesByPages(s, page, disp) && NewDisp(s, page, disp) == disp)
  {
    if !(MovesByPages(s, page, disp) && NewDisp(s, page, disp) == disp) {
      SetConsumerDispDecodes(w, NewDisp(s, page, disp));
    }
  }

  /** An ADRP that was given a page computes it at its new address exactly when it is in reach. */
  lemma AdrpCarriesItsPage(s: Section, words: seq<Word>, t: Text, d: nat, disp: int)
    requires |s.code| == |words| == |t.words| && WellDecoded(s, words) && AdrpsAre(s, words, t)
    requires d in t.pages && d < |s.code| && s.code[d].Adrp? && NewTarget(s, s.code[d].page, disp).Some?
    requires t.pages[d] == DesiredPage(s, s.code[d].page, disp)
    ensures AdrpTarget(t.words[d], NewPc(s, d)) == t.pages[d] <==> InAdrpReach(NewPc(s, d), t.pages[d])
  {
    AdrpPagesAreAligned(words[d], OldPc(s, d));
    DesiredPageIsAligned(s, s.code[d].page, disp);
    SetAdrpDecodes(words[d], NewPc(s, d), t.pages[d]);
  }

  /** The definitions of a granted consumer. */
  lemma DefinitionsCarryThePage(s: Section, words: seq<Word>, visits: seq<Visit>, t: Text, v: Visit)
    requires |s.code| == |words| == |t.words| && WellDecoded(s, words) && AdrpsAre(s, words, t)
    requires v.pos < |s.code| && Relocates(s, v.pos, v.st) && DefsAreAdrps(s, v.st)
    requires PagesAre(s, visits, t.pages) && v in visits
    ensures var page := DesiredPage(s, BaseOf(s, v).page, DispOf(s, v));
            forall d <- BaseOf(s, v).defs ::
              d < |s.code| && (AdrpTarget(t.words[d], NewPc(s, d)) == page <==> InAdrpReach(NewPc(s, d), page))
  {
    hide AdrpTarget, InAdrpReach, DesiredPage, NewTarget;
    NotAnAdrp(s, v);
    var e, page := BaseOf(s, v), DesiredPage(s, BaseOf(s, v).page, DispOf(s, v));
    forall d | d in e.defs
      ensures d < |s.code| && (AdrpTarget(t.words[d], NewPc(s, d)) == page <==> InAdrpReach(NewPc(s, d), page))
    {
      DefsOnlyAdrps(s, v, d);
      assert IsAdrpOf(s, d, e.page);
      assert PageGiven(s, v, d) == Some(page);
      AdrpCarriesItsPage(s, words, t, d, DispOf(s, v));
    }
  }

  lemma TargetIsNear(s: Section, page: int, disp: int)
    requires NewTarget(s, page, disp).Some? && 0 <= NewDisp(s, page, disp) < 0x1000
    ensures var p := DesiredPage(s, page, disp);
            p <= NewTarget(s, page, disp).value < p + 0x1000
              && p + NewDisp(s, page, disp) == NewTarget(s, page, disp).value
  {
  }

  /** The pass's theorem.  Take a pass that does not raise and any visit of a consumer whose base register is known and
      whose target moves.  Its ADRPs all carry one page; each computes that page at its new address exactly
      when the page is in ADRP reach of it; and that page plus the displacement the consumer now
      encodes is the relocated target, for every ADD and every load or store of up to 64 bits. */
  lemma ConsumersReachTheirTargets(s: Section, words: seq<Word>, t: Text, v: Visit)
    requires |s.code| == |words| && Result(s, words) == Some(t) && WellDecoded(s, words)
    requires v in Visits(s, words) && v.pos < |s.code| && Relocates(s, v.pos, v.st)
    requires EncodedDisp(words[v.pos]) == DispOf(s, v)
    ensures |t.words| == |words|
    ensures var e, disp := BaseOf(s, v), DispOf(s, v);
            var target, page := NewTarget(s, e.page, disp).value, DesiredPage(s, e.page, disp);
            && page <= target < page + 0x1000
            && (forall d <- e.defs ::
                  && d < |s.code|
                  && (AdrpTarget(t.words[d], NewPc(s, d)) == page <==> InAdrpReach(NewPc(s, d), page)))
            && (IsAdd(words[v.pos]) || ArchScale(words[v.pos]) == CodeScale(words[v.pos]) ==>
                  page + EncodedDisp(t.words[v.pos]) == target)
  {
    hide AdrpTarget, InAdrpReach, DesiredPage, NewTarget, NewDisp, IsAdd, ArchScale, CodeScale, EncodedDisp, Visits;
    hide RewriteAll, Repointable, WellDecoded, PagesAre, AdrpsAre, ConsumerWord, MovesByPages, DefsAreAdrps;
    ResultIff(s, words);
    VisitsAreGood(s, words);
    DefinitionsCarryThePage(s, words, Visits(s, words), t, v);
    assert Encodable(s, words, v);
    TargetIsNear(s, BaseOf(s, v).page, DispOf(s, v));
    ConsumerAddsNewDisp(s, words[v.pos], BaseOf(s, v).page, DispOf(s, v));
  }

  /** The link register is not claimed at any call. */
  ghost predicate LinkClear(s: Section, words: seq<Word>)
    requires |s.code| == |words|
  {
    LinkUnknown(s, words, FinalFacts(s, words))
  }

  /** Over a run of the old code, the relocated target is the address map's image of the address the
      consumer formed (or its rebuilt slot, outside the image): along every path the base register
      held the recorded page, put there by one of the ADRPs the pass repaired. */
  lemma TargetIsTheAmapOfTheOldOne(s: Section, words: seq<Word>, path: seq<nat>, ms: seq<Machine>, k: nat, u: Use)
    requires |s.code| == |words| && IsRun(s, words, path, ms) && path[0] in Seeds(s, words) && LinkClear(s, words)
    requires path[|path| - 1] == k && k < |s.code| && UseOf(s, k) == Some(u)
    requires k in FinalFacts(s, words) ==> Relocates(s, k, FinalFacts(s, words)[k])
    ensures k in FinalFacts(s, words) && u.base in FinalFacts(s, words)[k]
    ensures Visit(k, FinalFacts(s, words)[k]) in Visits(s, words)
    ensures var e, base := FinalFacts(s, words)[k][u.base], ms[|path| - 1](u.base);
            && base.origin in e.defs && NewTarget(s, e.page, u.disp).Some?
            && IsNewAddressOf(s, base.value + u.disp, NewTarget(s, e.page, u.disp).value)
  {
    hide Visits, FinalFacts, Seeds, NewTarget, Settled, VisitsBetween, VisitsWeaken, Ordered, Weakened, Agrees;
    FactsAreGreatest(s, words);
    VisitsAreSound(s, words);
    FactsAreSound(s, words, FinalFacts(s, words), Seeds(s, words), path, ms);
    KnownBase(s, k, FinalFacts(s, words)[k], ms[|path| - 1]);
  }

  /** Which consumers are to be relocated, and where to: those whose address is mapped otherwise than the text
      moves, and those whose address is outside the image and has a slot. */
  lemma RelocatesIff(s: Section, k: nat, st: State, u: Use)
    requires k < |s.code| && UseOf(s, k) == Some(u) && u.base in st
    ensures var a := st[u.base].page + u.disp;
            && (Relocates(s, k, st) <==>
                match Amap(s.deltas, a) case Some(b) => b != a + s.textDelta case None => a in s.got)
            && (Relocates(s, k, st) ==> IsNewAddressOf(s, a, NewTarget(s, st[u.base].page, u.disp).value))
  {
  }

  /** The new address of an old one: where the map sends it, or its slot when it is outside the image. */
  predicate IsNewAddressOf(s: Section, old_: int, new_: int)
  {
    match Amap(s.deltas, old_)
    case Some(a) => new_ == a
    case None => old_ in s.got && new_ == s.got[old_]
  }

  lemma KnownBase(s: Section, k: nat, st: State, m: Machine)
    requires k < |s.code| && Relocates(s, k, st) && Agrees(m, st)
    ensures var u := UseOf(s, k).value;
            && m(u.base).origin in st[u.base].defs
            && IsNewAddressOf(s, m(u.base).value + u.disp, NewTarget(s, st[u.base].page, u.disp).value)
  {
  }
}

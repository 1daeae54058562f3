/** The worklist of `rewrite_adrp` as a function of the section alone: which positions it visits, in which order and
    with which states.  The rewriting of the text never changes what the dataflow reads, so this is also the order in
    which the text is rewritten. */
module Worklist {
  import opened A64Words
  import opened Dataflow
  import opened Wrappers

  /** A popped position and the state it is processed with. */
  datatype Visit = Visit(pos: nat, st: State)

  predicate IsAdrpOf(s: Section, d: nat, page: int) { d < |s.code| && s.code[d].Adrp? && s.code[d].page == page }

  /** Every known register has a definition, and every definition is an ADRP of the page it is said to produce. */
  ghost predicate DefsAreAdrps(s: Section, st: State)
  {
    && (forall r <- st :: st[r].defs != {})
    && forall r, d :: r in st && d in st[r].defs ==> IsAdrpOf(s, d, st[r].page)
  }

  ghost predicate FlowOk(s: Section, f: Flow)
  {
    && (forall k <- f.facts :: k < |s.code| && DefsAreAdrps(s, f.facts[k]))
    && forall k <- f.work :: k in f.facts
  }

  function Top(f: Flow): nat
    requires f.work != []
  {
    f.work[|f.work| - 1]
  }

  function Rest(f: Flow): Flow
    requires f.work != []
  {
    Flow(f.facts, f.work[..|f.work| - 1])
  }

  /** The flow after one round: the top position's outgoing state merged into its successors. */
  function Next(s: Section, words: seq<Word>, f: Flow): Flow
    requires |s.code| == |words| && f.work != [] && Top(f) < |s.code| && Top(f) in f.facts
  {
    MergeAll(s, Rest(f), Successors(s, words, Top(f)), Transfer(s, words, Top(f), f.facts[Top(f)]))
  }

  /** The first ADRP from `k` on that no path has reached. */
  function FirstUnreached(s: Section, facts: Facts, k: nat): (p: Option<nat>)
    requires k <= |s.code|
    ensures p.Some? ==> k <= p.value < |s.code| && s.code[p.value].Adrp? && p.value !in facts
    ensures p == None ==> forall q :: k <= q < |s.code| && s.code[q].Adrp? ==> q in facts
    decreases |s.code| - k
  {
    if k == |s.code| then None
    else if k !in facts && s.code[k].Adrp? then Some(k)
    else FirstUnreached(s, facts, k + 1)
  }

  /** A position seeded with no knowledge. */
  function Seeded(s: Section, f: Flow, pos: int): Flow { MergeState(s, f, pos, map[]) }

  // ---------------------------------------------------------------- one round

  lemma TransferIsOk(s: Section, words: seq<Word>, k: nat, st: State)
    requires k < |s.code| == |words| && DefsAreAdrps(s, st)
    ensures DefsAreAdrps(s, Transfer(s, words, k, st))
  {
  }

  lemma MergeIsOk(s: Section, p: State, st: State)
    requires DefsAreAdrps(s, p) && DefsAreAdrps(s, st)
    ensures DefsAreAdrps(s, Merge(Some(p), st))
  {
  }

  lemma MergeStateIsOk(s: Section, f: Flow, pos: int, st: State)
    requires FlowOk(s, f) && DefsAreAdrps(s, st)
    ensures FlowOk(s, MergeState(s, f, pos, st))
  {
    hide DefsAreAdrps, Merge;
    if InCode(s, pos) {
      var m := Merge(Lookup(f.facts, pos), st);
      if pos in f.facts { MergeIsOk(s, f.facts[pos], st); } else { FreshMerge(st); }
      assert DefsAreAdrps(s, m);
    }
  }

  lemma FreshMerge(st: State)
    ensures Merge(None, st) == st
  {
  }

  lemma {:induction false} MergeAllIsOk(s: Section, f: Flow, targets: seq<int>, st: State)
    requires FlowOk(s, f) && DefsAreAdrps(s, st)
    ensures FlowOk(s, MergeAll(s, f, targets, st))
    decreases |targets|
  {
    hide FlowOk, DefsAreAdrps, MergeState;
    if targets != [] {
      MergeStateIsOk(s, f, targets[0], st);
      MergeAllIsOk(s, MergeState(s, f, targets[0], st), targets[1..], st);
    }
  }

  lemma AdrpsInCode(s: Section, st: State)
    requires DefsAreAdrps(s, st)
    ensures DefsInCode(s, st)
  {
    forall r, d | r in st && d in st[r].defs ensures d < |s.code| { assert IsAdrpOf(s, d, st[r].page); }
  }

  /** A round keeps the flow in order and lowers the measure. */
  lemma NextIsOk(s: Section, words: seq<Word>, f: Flow)
    requires |s.code| == |words| && FlowOk(s, f) && f.work != []
    ensures Top(f) < |s.code| && Top(f) in f.facts && FlowOk(s, Next(s, words, f))
    ensures LowerOrSame(s, Rest(f), Next(s, words, f))
  {
    hide DefsAreAdrps, Lower, MergeAll, Transfer, Successors;
    assert Top(f) in f.work;
    TransferIsOk(s, words, Top(f), f.facts[Top(f)]);
    MergeAllIsOk(s, Rest(f), Successors(s, words, Top(f)), Transfer(s, words, Top(f), f.facts[Top(f)]));
    AdrpsInCode(s, Transfer(s, words, Top(f), f.facts[Top(f)]));
    MergeAllLowers(s, Rest(f), Successors(s, words, Top(f)), Transfer(s, words, Top(f), f.facts[Top(f)]));
  }

  lemma SeededIsOk(s: Section, f: Flow, pos: int)
    requires FlowOk(s, f)
    ensures FlowOk(s, Seeded(s, f, pos))
  {
    MergeStateIsOk(s, f, pos, map[]);
  }

  lemma SeedLowers(s: Section, f: Flow, pos: nat)
    requires pos < |s.code| && pos !in f.facts && FlowOk(s, f)
    ensures Unvisited(s, Seeded(s, f, pos).facts) < Unvisited(s, f.facts)
  {
    assert pos in Unvisited(s, f.facts);
  }

  // ---------------------------------------------------------------- the whole run

  /** What a run of the worklist leaves: its visits, the facts at the end, and the ADRPs it had to seed. */
  datatype Outcome = Outcome(visits: seq<Visit>, facts: Facts, seeds: set<nat>)

  /** The rest of the run from `f` on. */
  ghost function Drain(s: Section, words: seq<Word>, f: Flow): (o: Outcome)
    requires |s.code| == |words| && FlowOk(s, f)
    decreases Unvisited(s, f.facts), Held(f.facts), Missing(s, f.facts), |f.work|
  {
    if f.work != [] then
      NextIsOk(s, words, f);
      var o := Drain(s, words, Next(s, words, f));
      Outcome([Visit(Top(f), f.facts[Top(f)])] + o.visits, o.facts, o.seeds)
    else
      match FirstUnreached(s, f.facts, 0)
      case None => Outcome([], f.facts, {})
      case Some(p) =>
        SeededIsOk(s, f, p);
        SeedLowers(s, f, p);
        var o := Drain(s, words, Seeded(s, f, p));
        Outcome(o.visits, o.facts, o.seeds + {p})
  }

  /** The function starts; a section without any starts at its first instruction. */
  function StartsOf(s: Section): seq<int> { if s.starts == [] then [0] else s.starts }

  /** The flow before the first round. */
  function Begin(s: Section): Flow { MergeAll(s, Flow(map[], []), StartsOf(s), map[]) }

  lemma BeginIsOk(s: Section)
    ensures FlowOk(s, Begin(s))
  {
    MergeAllIsOk(s, Flow(map[], []), StartsOf(s), map[]);
  }

  ghost function Whole(s: Section, words: seq<Word>): Outcome
    requires |s.code| == |words|
  {
    BeginIsOk(s);
    Drain(s, words, Begin(s))
  }

  /** The visits of the pass, in order. */
  ghost function Visits(s: Section, words: seq<Word>): seq<Visit>
    requires |s.code| == |words|
  {
    Whole(s, words).visits
  }

  ghost function FinalFacts(s: Section, words: seq<Word>): Facts
    requires |s.code| == |words|
  {
    Whole(s, words).facts
  }

  ghost function InCodeStarts(s: Section): set<nat> { set k: nat | k < |s.code| && k in StartsOf(s) }

  /** Every position that is entered with nothing known: function starts, and ADRPs no earlier path had reached. */
  ghost function Seeds(s: Section, words: seq<Word>): set<nat>
    requires |s.code| == |words|
  {
    InCodeStarts(s) + Whole(s, words).seeds
  }

  // ---------------------------------------------------------------- facts at the end

  /** `after` claims no more than `before`, wherever that says anything. */
  ghost predicate Weakened(after: Facts, before: Facts)
  {
    forall k <- before :: k in after && Weaker(after[k], before[k])
  }

  lemma WeakenedTransitive(a: Facts, b: Facts, c: Facts)
    requires Weakened(a, b) && Weakened(b, c)
    ensures Weakened(a, c)
  {
    forall k | k in c ensures k in a && Weaker(a[k], c[k]) { assert Weaker(a[k], b[k]) && Weaker(b[k], c[k]); }
  }

  lemma RoundWeakens(s: Section, words: seq<Word>, f: Flow)
    requires |s.code| == |words| && FlowOk(s, f) && f.work != []
    ensures Top(f) < |s.code| && Top(f) in f.facts && Weakened(Next(s, words, f).facts, f.facts)
  {
    hide Weaker, Successors, Transfer, MergeAll, DefsAreAdrps;
    assert Top(f) in f.work;
    MergeAllEvolves(s, Rest(f), Successors(s, words, Top(f)), Transfer(s, words, Top(f), f.facts[Top(f)]));
  }

  lemma SeedWeakens(s: Section, f: Flow, p: nat)
    ensures Weakened(Seeded(s, f, p).facts, f.facts)
  {
    MergeStateEvolves(s, f, p, map[]);
  }

  lemma RoundSettles(s: Section, words: seq<Word>, f: Flow)
    requires |s.code| == |words| && FlowOk(s, f) && f.work != [] && AllSettled(s, words, f, {})
    ensures Top(f) < |s.code| && Top(f) in f.facts && AllSettled(s, words, Next(s, words, f), {})
  {
    hide Settled, DefsAreAdrps, Successors, Transfer, MergeAll;
    assert Top(f) in f.work;
    forall q | q in f.facts && q !in Rest(f).work && q != Top(f) ensures q !in f.work {
      assert f.work == Rest(f).work + [Top(f)];
    }
    StepSettles(s, words, Rest(f), Top(f));
  }

  /** What holds when the run ends. */
  ghost predicate Ends(s: Section, words: seq<Word>, f: Flow, o: Outcome)
    requires |s.code| == |words|
  {
    && (forall k <- o.facts :: Settled(s, words, o.facts, k)) && Weakened(o.facts, f.facts)
    && (forall k :: 0 <= k < |s.code| && s.code[k].Adrp? ==> k in o.facts)
    && (forall k <- o.seeds :: k < |s.code| && s.code[k].Adrp? && k in o.facts && o.facts[k] == map[])
  }

  lemma NothingWeaker(a: State)
    requires Weaker(a, map[])
    ensures a == map[]
  {
  }

  lemma {:induction false} DrainEnds(s: Section, words: seq<Word>, f: Flow)
    requires |s.code| == |words| && FlowOk(s, f) && AllSettled(s, words, f, {})
    ensures Ends(s, words, f, Drain(s, words, f))
    decreases Unvisited(s, f.facts), Held(f.facts), Missing(s, f.facts), |f.work|
  {
    hide Settled, FlowOk, Weakened, Seeded, Next;
    var o := Drain(s, words, f);
    if f.work != [] {
      NextIsOk(s, words, f);
      RoundSettles(s, words, f);
      RoundWeakens(s, words, f);
      DrainEnds(s, words, Next(s, words, f));
      WeakenedTransitive(o.facts, Next(s, words, f).facts, f.facts);
    } else if FirstUnreached(s, f.facts, 0).Some? {
      var p := FirstUnreached(s, f.facts, 0).value;
      SeededIsOk(s, f, p);
      SeedLowers(s, f, p);
      SeedEnds(s, words, f, p);
      DrainEnds(s, words, Seeded(s, f, p));
      WeakenedTransitive(o.facts, Seeded(s, f, p).facts, f.facts);
      SeedStays(s, f, p, o.facts);
    } else {
      NothingLeft(s, words, f);
    }
  }

  lemma SeedEnds(s: Section, words: seq<Word>, f: Flow, p: nat)
    requires |s.code| == |words| && AllSettled(s, words, f, {})
    ensures AllSettled(s, words, Seeded(s, f, p), {}) && Weakened(Seeded(s, f, p).facts, f.facts)
  {
    SeedingSettles(s, words, f, p);
    SeedWeakens(s, f, p);
  }

  lemma SeedStays(s: Section, f: Flow, p: nat, after: Facts)
    requires p < |s.code| && Weakened(after, Seeded(s, f, p).facts)
    ensures p in after && after[p] == map[]
  {
    MergeStateEvolves(s, f, p, map[]);
    assert Weaker(after[p], Seeded(s, f, p).facts[p]);
    NothingWeaker(after[p]);
  }

  lemma NothingLeft(s: Section, words: seq<Word>, f: Flow)
    requires |s.code| == |words| && FlowOk(s, f) && AllSettled(s, words, f, {}) && f.work == []
    requires FirstUnreached(s, f.facts, 0) == None
    ensures Ends(s, words, f, Outcome([], f.facts, {}))
  {
  }

  // ---------------------------------------------------------------- the greatest fixpoint

  lemma TransferIsMonotone(s: Section, words: seq<Word>, k: nat, a: State, b: State)
    requires k < |s.code| == |words| && Weaker(a, b)
    ensures Weaker(Transfer(s, words, k, a), Transfer(s, words, k, b))
  {
  }

  lemma MergeIsBound(x: State, p: State, st: State)
    requires Weaker(x, p) && Weaker(x, st)
    ensures Weaker(x, Merge(Some(p), st))
  {
  }

  lemma MergeStateIsBound(s: Section, f: Flow, pos: int, st: State, g: Facts)
    requires Weakened(g, f.facts) && (InCode(s, pos) ==> pos in g && Weaker(g[pos], st))
    ensures Weakened(g, MergeState(s, f, pos, st).facts)
  {
    hide Weaker;
    if InCode(s, pos) && pos in f.facts { MergeIsBound(g[pos], f.facts[pos], st); }
  }

  lemma {:induction false} MergeAllIsBound(s: Section, f: Flow, targets: seq<int>, st: State, g: Facts)
    requires Weakened(g, f.facts) && forall t <- targets :: InCode(s, t) ==> t in g && Weaker(g[t], st)
    ensures Weakened(g, MergeAll(s, f, targets, st).facts)
    decreases |targets|
  {
    hide MergeState, Weakened, Weaker;
    if targets != [] {
      assert targets[0] in targets;
      MergeStateIsBound(s, f, targets[0], st, g);
      MergeAllIsBound(s, MergeState(s, f, targets[0], st), targets[1..], st, g);
    }
  }

  lemma WeakerTransitive(a: State, b: State, c: State)
    requires Weaker(a, b) && Weaker(b, c)
    ensures Weaker(a, c)
  {
  }

  lemma NextIsBound(s: Section, words: seq<Word>, f: Flow, g: Facts, seeds: set<nat>)
    requires |s.code| == |words| && FlowOk(s, f) && f.work != [] && IsFixpoint(s, words, g, seeds)
    requires Weakened(g, f.facts)
    ensures Top(f) < |s.code| && Top(f) in f.facts && Weakened(g, Next(s, words, f).facts)
  {
    hide Weaker, Transfer, Successors, DefsAreAdrps, MergeAll;
    var k := Top(f);
    assert k in f.work;
    var st := Transfer(s, words, k, f.facts[k]);
    TransferIsMonotone(s, words, k, g[k], f.facts[k]);
    forall t | t in Successors(s, words, k) && InCode(s, t) ensures t in g && Weaker(g[t], st) {
      assert Settled(s, words, g, k);
      WeakerTransitive(g[t], Transfer(s, words, k, g[k]), st);
    }
    MergeAllIsBound(s, Rest(f), Successors(s, words, k), st, g);
  }

  lemma SeedIsBound(s: Section, f: Flow, p: nat, g: Facts)
    requires Weakened(g, f.facts) && p in g && g[p] == map[]
    ensures Weakened(g, Seeded(s, f, p).facts)
  {
    MergeStateIsBound(s, f, p, map[], g);
  }

  lemma {:induction false} DrainIsGreatest(s: Section, words: seq<Word>, f: Flow, g: Facts, seeds: set<nat>)
    requires |s.code| == |words| && FlowOk(s, f) && IsFixpoint(s, words, g, seeds) && Weakened(g, f.facts)
    requires Drain(s, words, f).seeds <= seeds
    ensures Weakened(g, Drain(s, words, f).facts)
    decreases Unvisited(s, f.facts), Held(f.facts), Missing(s, f.facts), |f.work|
  {
    hide Settled, FlowOk, Weakened, Seeded, Next;
    if f.work != [] {
      NextIsOk(s, words, f);
      NextIsBound(s, words, f, g, seeds);
      DrainIsGreatest(s, words, Next(s, words, f), g, seeds);
    } else if FirstUnreached(s, f.facts, 0).Some? {
      var p := FirstUnreached(s, f.facts, 0).value;
      SeededIsOk(s, f, p);
      SeedLowers(s, f, p);
      SeedIsBound(s, f, p, g);
      DrainIsGreatest(s, words, Seeded(s, f, p), g, seeds);
    }
  }

  lemma BeginSettles(s: Section, words: seq<Word>)
    requires |s.code| == |words|
    ensures AllSettled(s, words, Begin(s), {})
    ensures forall k <- InCodeStarts(s) :: k in Begin(s).facts && Begin(s).facts[k] == map[]
  {
    MergeAllEvolves(s, Flow(map[], []), StartsOf(s), map[]);
    forall k | k in InCodeStarts(s) ensures k in Begin(s).facts && Begin(s).facts[k] == map[] {
      NothingWeaker(Begin(s).facts[k]);
    }
  }

  /** The facts at the end are a fixpoint from the seeds, the greatest one: no other claims more.  Every ADRP is
      reached, and every seed is a function start or an ADRP. */
  lemma FactsAreGreatest(s: Section, words: seq<Word>)
    requires |s.code| == |words|
    ensures IsFixpoint(s, words, FinalFacts(s, words), Seeds(s, words))
    ensures forall g: Facts :: IsFixpoint(s, words, g, Seeds(s, words)) ==> Weakened(g, FinalFacts(s, words))
    ensures forall k :: 0 <= k < |s.code| && s.code[k].Adrp? ==> k in FinalFacts(s, words)
    ensures forall k <- Seeds(s, words) :: k in InCodeStarts(s) || (k < |s.code| && s.code[k].Adrp?)
  {
    hide Settled, Begin, Drain, InCodeStarts, StartsOf;
    BeginIsOk(s);
    BeginSettles(s, words);
    DrainEnds(s, words, Begin(s));
    var end := FinalFacts(s, words);
    forall k | k in InCodeStarts(s) ensures k in end && end[k] == map[] {
      assert Weaker(end[k], Begin(s).facts[k]);
      NothingWeaker(end[k]);
    }
    forall g: Facts | IsFixpoint(s, words, g, Seeds(s, words)) ensures Weakened(g, end) {
      BeginIsBound(s, g);
      DrainIsGreatest(s, words, Begin(s), g, Seeds(s, words));
    }
  }

  lemma BeginIsBound(s: Section, g: Facts)
    requires forall k <- InCodeStarts(s) :: k in g && g[k] == map[]
    ensures Weakened(g, Begin(s).facts)
  {
    forall t | t in StartsOf(s) && InCode(s, t) ensures t in g && Weaker(g[t], map[]) {
      assert t in InCodeStarts(s);
    }
    MergeAllIsBound(s, Flow(map[], []), StartsOf(s), map[], g);
  }

  // ---------------------------------------------------------------- the visits

  /** Every visit is of a position of the code, with definitions that are ADRPs, and claims no less than the facts at
      the end and no more than the facts at the start of the run. */
  ghost predicate VisitBetween(s: Section, v: Visit, after: Facts, before: Facts)
  {
    && v.pos < |s.code| && DefsAreAdrps(s, v.st) && v.pos in after && Weaker(after[v.pos], v.st)
    && (v.pos in before ==> Weaker(v.st, before[v.pos]))
  }

  ghost predicate VisitsBetween(s: Section, visits: seq<Visit>, after: Facts, before: Facts)
  {
    forall v <- visits :: VisitBetween(s, v, after, before)
  }

  /** A later visit of a position claims no more than an earlier one. */
  ghost predicate VisitsWeaken(visits: seq<Visit>)
  {
    forall i, j :: 0 <= i < j < |visits| && visits[i].pos == visits[j].pos ==> Weaker(visits[j].st, visits[i].st)
  }

  lemma BetweenLater(s: Section, visits: seq<Visit>, after: Facts, middle: Facts, before: Facts)
    requires VisitsBetween(s, visits, after, middle) && Weakened(middle, before)
    ensures VisitsBetween(s, visits, after, before)
  {
    hide Weaker, DefsAreAdrps;
    forall v | v in visits ensures VisitBetween(s, v, after, before) {
      assert VisitBetween(s, v, after, middle);
      if v.pos in before { WeakerTransitive(v.st, middle[v.pos], before[v.pos]); }
    }
  }

  lemma WeakerReflexive(a: State)
    ensures Weaker(a, a)
  {
  }

  lemma FirstVisit(s: Section, f: Flow, visits: seq<Visit>, after: Facts)
    requires FlowOk(s, f) && f.work != [] && Weakened(after, f.facts)
    requires VisitsBetween(s, visits, after, f.facts) && VisitsWeaken(visits)
    ensures Top(f) in f.facts
    ensures var all := [Visit(Top(f), f.facts[Top(f)])] + visits;
            VisitsBetween(s, all, after, f.facts) && VisitsWeaken(all)
  {
    hide Weaker, DefsAreAdrps;
    assert Top(f) in f.work;
    var first := Visit(Top(f), f.facts[Top(f)]);
    var all := [first] + visits;
    WeakerReflexive(first.st);
    assert VisitBetween(s, first, after, f.facts);
    forall v | v in all ensures VisitBetween(s, v, after, f.facts) {}
    forall i, j | 0 <= i < j < |all| && all[i].pos == all[j].pos ensures Weaker(all[j].st, all[i].st) {
      assert all[j] in visits;
      if i == 0 { assert VisitBetween(s, all[j], after, f.facts); }
    }
  }

  lemma {:induction false} DrainVisits(s: Section, words: seq<Word>, f: Flow)
    requires |s.code| == |words| && FlowOk(s, f)
    ensures var o := Drain(s, words, f);
            Weakened(o.facts, f.facts) && VisitsBetween(s, o.visits, o.facts, f.facts) && VisitsWeaken(o.visits)
    decreases Unvisited(s, f.facts), Held(f.facts), Missing(s, f.facts), |f.work|
  {
    hide FlowOk, Weakened, Seeded, Next, VisitsBetween, VisitsWeaken;
    var o := Drain(s, words, f);
    if f.work != [] {
      NextIsOk(s, words, f);
      var g := Next(s, words, f);
      RoundWeakens(s, words, f);
      DrainVisits(s, words, g);
      WeakenedTransitive(o.facts, g.facts, f.facts);
      BetweenLater(s, o.visits[1..], o.facts, g.facts, f.facts);
      FirstVisit(s, f, o.visits[1..], o.facts);
    } else if FirstUnreached(s, f.facts, 0).Some? {
      var p := FirstUnreached(s, f.facts, 0).value;
      SeededIsOk(s, f, p);
      SeedLowers(s, f, p);
      SeedWeakens(s, f, p);
      DrainVisits(s, words, Seeded(s, f, p));
      WeakenedTransitive(o.facts, Seeded(s, f, p).facts, f.facts);
      BetweenLater(s, o.visits, o.facts, Seeded(s, f, p).facts, f.facts);
    } else {
      NoVisits(s, f);
    }
  }

  lemma NoVisits(s: Section, f: Flow)
    ensures Weakened(f.facts, f.facts) && VisitsBetween(s, [], f.facts, f.facts) && VisitsWeaken([])
  {
  }

  /** What the facts say at the end was there from the start, unqueued, or some visit saw it. */
  ghost predicate Seen(f: Flow, visits: seq<Visit>, after: Facts)
  {
    forall k <- after :: (k in f.facts && k !in f.work && f.facts[k] == after[k]) || Visit(k, after[k]) in visits
  }

  lemma SeenLater(f: Flow, g: Flow, visits: seq<Visit>, after: Facts)
    requires Evolves(f, g) && Seen(g, visits, after)
    ensures Seen(f, visits, after)
  {
    hide Weaker;
  }

  lemma SeenFirst(f: Flow, visits: seq<Visit>, after: Facts)
    requires f.work != [] && Top(f) in f.facts && Seen(Rest(f), visits, after)
    ensures Seen(f, [Visit(Top(f), f.facts[Top(f)])] + visits, after)
  {
    var first := Visit(Top(f), f.facts[Top(f)]);
    forall k | k in after
      ensures (k in f.facts && k !in f.work && f.facts[k] == after[k]) || Visit(k, after[k]) in [first] + visits
    {
      assert f.work == Rest(f).work + [Top(f)];
      if Visit(k, after[k]) in visits { assert Visit(k, after[k]) in [first] + visits; }
    }
  }

  lemma {:induction false} DrainSees(s: Section, words: seq<Word>, f: Flow)
    requires |s.code| == |words| && FlowOk(s, f)
    ensures Seen(f, Drain(s, words, f).visits, Drain(s, words, f).facts)
    decreases Unvisited(s, f.facts), Held(f.facts), Missing(s, f.facts), |f.work|
  {
    hide DefsAreAdrps, Weakened, Seen, MergeAll, MergeState, Evolves;
    var o := Drain(s, words, f);
    if f.work != [] {
      NextIsOk(s, words, f);
      DrainSees(s, words, Next(s, words, f));
      MergeAllEvolves(s, Rest(f), Successors(s, words, Top(f)), Transfer(s, words, Top(f), f.facts[Top(f)]));
      SeenLater(Rest(f), Next(s, words, f), o.visits[1..], o.facts);
      SeenFirst(f, o.visits[1..], o.facts);
    } else if FirstUnreached(s, f.facts, 0).Some? {
      var p := FirstUnreached(s, f.facts, 0).value;
      SeededIsOk(s, f, p);
      SeedLowers(s, f, p);
      DrainSees(s, words, Seeded(s, f, p));
      MergeStateEvolves(s, f, p, map[]);
      SeenLater(f, Seeded(s, f, p), o.visits, o.facts);
    } else {
      SeenAtRest(f);
    }
  }

  lemma SeenAtRest(f: Flow)
    requires f.work == []
    ensures Seen(f, [], f.facts)
  {
  }

  /** Every definition a state knows of is in `done`. */
  ghost predicate Knows(done: set<nat>, st: State)
  {
    forall r, d :: r in st && d in st[r].defs ==> d in done
  }

  ghost predicate FlowKnows(done: set<nat>, facts: Facts)
  {
    forall k <- facts :: Knows(done, facts[k])
  }

  function Positions(visits: seq<Visit>): set<nat> { set v <- visits :: v.pos }

  /** The definitions known at a visit were visited before it. */
  ghost predicate Ordered(done: set<nat>, visits: seq<Visit>)
  {
    forall i :: 0 <= i < |visits| ==> Knows(done + Positions(visits[..i]), visits[i].st)
  }

  lemma MergeStateKnows(s: Section, f: Flow, pos: int, st: State, done: set<nat>)
    requires FlowKnows(done, f.facts) && Knows(done, st)
    ensures FlowKnows(done, MergeState(s, f, pos, st).facts)
  {
    if InCode(s, pos) && pos in f.facts { MergeKnows(f.facts[pos], st, done); }
  }

  lemma MergeKnows(p: State, st: State, done: set<nat>)
    requires Knows(done, p) && Knows(done, st)
    ensures Knows(done, Merge(Some(p), st))
  {
  }

  lemma {:induction false} MergeAllKnows(s: Section, f: Flow, targets: seq<int>, st: State, done: set<nat>)
    requires FlowKnows(done, f.facts) && Knows(done, st)
    ensures FlowKnows(done, MergeAll(s, f, targets, st).facts)
    decreases |targets|
  {
    hide MergeState, FlowKnows, Knows;
    if targets != [] {
      MergeStateKnows(s, f, targets[0], st, done);
      MergeAllKnows(s, MergeState(s, f, targets[0], st), targets[1..], st, done);
    }
  }

  lemma NextKnows(s: Section, words: seq<Word>, f: Flow, done: set<nat>)
    requires |s.code| == |words| && FlowOk(s, f) && f.work != [] && FlowKnows(done, f.facts)
    ensures Top(f) < |s.code| && Top(f) in f.facts && FlowKnows(done + {Top(f)}, Next(s, words, f).facts)
  {
    hide MergeAll, Successors, DefsAreAdrps;
    var k := Top(f);
    assert k in f.work;
    forall q | q in f.facts ensures Knows(done + {k}, f.facts[q]) { assert Knows(done, f.facts[q]); }
    TransferKnows(s, words, k, f.facts[k], done + {k});
    MergeAllKnows(s, Rest(f), Successors(s, words, k), Transfer(s, words, k, f.facts[k]), done + {k});
  }

  lemma TransferKnows(s: Section, words: seq<Word>, k: nat, st: State, done: set<nat>)
    requires k < |s.code| == |words| && Knows(done, st) && k in done
    ensures Knows(done, Transfer(s, words, k, st))
  {
  }

  lemma OrderedFirst(done: set<nat>, v: Visit, visits: seq<Visit>)
    requires Knows(done, v.st) && Ordered(done + {v.pos}, visits)
    ensures Ordered(done, [v] + visits)
  {
    hide Knows;
    var all := [v] + visits;
    forall i | 0 <= i < |all| ensures Knows(done + Positions(all[..i]), all[i].st) {
      if i == 0 {
        assert done + Positions(all[..0]) == done;
      } else {
        assert all[..i] == [v] + visits[..i - 1];
        assert done + Positions(all[..i]) == done + {v.pos} + Positions(visits[..i - 1]);
        assert Knows(done + {v.pos} + Positions(visits[..i - 1]), visits[i - 1].st);
      }
    }
  }

  lemma {:induction false} DrainIsOrdered(s: Section, words: seq<Word>, f: Flow, done: set<nat>)
    requires |s.code| == |words| && FlowOk(s, f) && FlowKnows(done, f.facts)
    ensures Ordered(done, Drain(s, words, f).visits)
    decreases Unvisited(s, f.facts), Held(f.facts), Missing(s, f.facts), |f.work|
  {
    hide FlowOk, Ordered, Seeded, Next, Knows;
    var o := Drain(s, words, f);
    if f.work != [] {
      NextIsOk(s, words, f);
      NextKnows(s, words, f, done);
      DrainIsOrdered(s, words, Next(s, words, f), done + {Top(f)});
      OrderedFirst(done, o.visits[0], o.visits[1..]);
    } else if FirstUnreached(s, f.facts, 0).Some? {
      var p := FirstUnreached(s, f.facts, 0).value;
      SeededIsOk(s, f, p);
      SeedLowers(s, f, p);
      SeededKnows(s, f, p, done);
      DrainIsOrdered(s, words, Seeded(s, f, p), done);
    } else {
      NoneOrdered(done);
    }
  }

  lemma SeededKnows(s: Section, f: Flow, p: nat, done: set<nat>)
    requires FlowKnows(done, f.facts)
    ensures FlowKnows(done, Seeded(s, f, p).facts)
  {
    MergeStateKnows(s, f, p, map[], done);
  }

  lemma NoneOrdered(done: set<nat>)
    ensures Ordered(done, [])
  {
  }

  /** The visits of a whole run: each claims no less than the facts at the end, later ones no more than earlier ones of
      their position, what the facts say at the end was seen, and definitions are visited before their uses. */
  lemma VisitsAreSound(s: Section, words: seq<Word>)
    requires |s.code| == |words|
    ensures VisitsBetween(s, Visits(s, words), FinalFacts(s, words), map[])
    ensures VisitsWeaken(Visits(s, words)) && Ordered({}, Visits(s, words))
    ensures forall k <- FinalFacts(s, words) :: Visit(k, FinalFacts(s, words)[k]) in Visits(s, words)
  {
    hide VisitsBetween, VisitsWeaken, Ordered, Begin, Drain, FlowOk;
    BeginIsOk(s);
    DrainVisits(s, words, Begin(s));
    BetweenLater(s, Visits(s, words), FinalFacts(s, words), Begin(s).facts, map[]);
    DrainSees(s, words, Begin(s));
    BeginIsQueued(s);
    DrainIsOrdered(s, words, Begin(s), {});
  }

  lemma BeginIsQueued(s: Section)
    ensures FlowKnows({}, Begin(s).facts) && forall k <- Begin(s).facts :: k in Begin(s).work
  {
    MergeAllEvolves(s, Flow(map[], []), StartsOf(s), map[]);
    MergeAllKnows(s, Flow(map[], []), StartsOf(s), map[], {});
  }
}

/** What `rewrite_adrp` does to the text, as a function of the visits of its worklist: which pages ADRPs are given, how
    consumers are rewritten, and when the pass raises. */
module AdrpText {
  import opened A64Words
  import opened Dataflow
  import opened Relayout
  import opened Worklist
  import opened Wrappers

  function OldPc(s: Section, k: int): int { s.oldBase + 4 * k }

  function NewPc(s: Section, k: int): int { OldPc(s, k) + s.textDelta }

  /** The page an ADRP is given at once, when its whole page moves by a 4 KB multiple other than the
      text's own move. */
  function EagerPage(s: Section, page: int): Option<int>
  {
    var d := DeltaOf(s.deltas, page);
    if d.Some? && d.value != s.textDelta && d.value % 0x1000 == 0 then Some(page + d.value) else None
  }

  /** The relocated target of a consumer, when it needs one. */
  function NewTarget(s: Section, page: int, disp: int): Option<int>
  {
    var t := page + disp;
    var d := DeltaOf(s.deltas, t);
    if d.Some? then (if d.value != s.textDelta then Some(t + d.value) else None)
    else if t in s.got then Some(s.got[t]) else None
  }

  predicate MovesByPages(s: Section, page: int, disp: int)
  {
    var d := DeltaOf(s.deltas, page + disp);
    d.Some? && d.value % 0x1000 == 0
  }

  /** The page the consumer's ADRPs must produce. */
  function DesiredPage(s: Section, page: int, disp: int): int
    requires NewTarget(s, page, disp).Some?
  {
    if MovesByPages(s, page, disp) then page + DeltaOf(s.deltas, page + disp).value
    else PageOf(NewTarget(s, page, disp).value)
  }

  function NewDisp(s: Section, page: int, disp: int): int
    requires NewTarget(s, page, disp).Some?
  {
    NewTarget(s, page, disp).value - DesiredPage(s, page, disp)
  }

  /** The consumer's word once rewritten; a refusal raises in the original. */
  function ConsumerWord(s: Section, w: Word, page: int, disp: int): Rewritten
    requires NewTarget(s, page, disp).Some?
  {
    if MovesByPages(s, page, disp) && NewDisp(s, page, disp) == disp then Rewritten(w)
    else SetConsumerDisp(w, NewDisp(s, page, disp))
  }

  function UseOf(s: Section, k: nat): Option<Use>
    requires k < |s.code|
  {
    match s.code[k]
    case Other(use, _, _, _) => use
    case _ => None
  }

  /** The base register of consumer `k` is known in `st` and its target moves. */
  predicate Relocates(s: Section, k: nat, st: State)
    requires k < |s.code|
  {
    var u := UseOf(s, k);
    u.Some? && u.value.base in st && NewTarget(s, st[u.value.base].page, u.value.disp).Some?
  }

  // ---------------------------------------------------------------- one visit

  type Pages = map<nat, int>

  /** The words of the section and the pages given to ADRPs so far. */
  datatype Text = Text(words: seq<Word>, pages: Pages)

  /** No definition has another page already. */
  predicate Agreed(pages: Pages, defs: set<nat>, page: int)
  {
    forall d <- defs :: d in pages ==> pages[d] == page
  }

  /** ADRP `d` given a page. */
  function Assign(s: Section, t: Text, d: nat, page: int): Text
    requires d < |t.words|
  {
    Text(t.words[d := SetAdrp(t.words[d], NewPc(s, d), page)], t.pages[d := page])
  }

  /** Every definition that has no page yet given this one. */
  function Repaired(s: Section, t: Text, defs: set<nat>, page: int): (r: Text)
    ensures |r.words| == |t.words|
  {
    Text(seq(|t.words|, i requires 0 <= i < |t.words| =>
               if i in defs && i !in t.pages then SetAdrp(t.words[i], NewPc(s, i), page) else t.words[i]),
         t.pages + map d | d in defs :: page)
  }

  /** A consumer of what `e` says of its base register, repointed together with its definitions; None raises. */
  function RewriteUse(s: Section, t: Text, k: nat, e: Def, disp: int): Option<Text>
    requires k < |s.code| == |t.words|
  {
    if NewTarget(s, e.page, disp) == None then Some(t)
    else
      var page := DesiredPage(s, e.page, disp);
      if !Agreed(t.pages, e.defs, page) || !(0 <= NewDisp(s, e.page, disp) < 0x1000) then None
      else
        var r := Repaired(s, t, e.defs, page);
        match ConsumerWord(s, r.words[k], e.page, disp)
        case Refused => None
        case Rewritten(w) => Some(Text(r.words[k := w], r.pages))
  }

  /** What a visit does to the text: an ADRP is repaired eagerly, a consumer is repointed. */
  function RewriteOne(s: Section, t: Text, v: Visit): Option<Text>
    requires v.pos < |s.code| == |t.words|
  {
    match s.code[v.pos]
    case Undecoded => Some(t)
    case Adrp(_, page) =>
      (match EagerPage(s, page) case None => Some(t) case Some(e) => Some(Assign(s, t, v.pos, e)))
    case Other(use, _, _, _) =>
      if use.Some? && use.value.base in v.st then RewriteUse(s, t, v.pos, v.st[use.value.base], use.value.disp)
      else Some(t)
  }

  ghost predicate InCodeVisits(s: Section, visits: seq<Visit>)
  {
    forall v <- visits :: v.pos < |s.code|
  }

  /** What some visits, one after the other, do to the text. */
  ghost function RewriteAll(s: Section, words: seq<Word>, visits: seq<Visit>): (t: Option<Text>)
    requires |s.code| == |words| && InCodeVisits(s, visits)
    ensures t.Some? ==> |t.value.words| == |words|
  {
    if visits == [] then Some(Text(words, map[]))
    else
      var n := |visits| - 1;
      match RewriteAll(s, words, visits[..n])
      case None => None
      case Some(t) => RewriteOne(s, t, visits[n])
  }

  lemma VisitsInCode(s: Section, words: seq<Word>)
    requires |s.code| == |words|
    ensures InCodeVisits(s, Visits(s, words))
  {
    hide Visits, FinalFacts;
    VisitsAreSound(s, words);
    forall v | v in Visits(s, words) ensures v.pos < |s.code| {
      assert VisitBetween(s, v, FinalFacts(s, words), map[]);
    }
  }

  /** The result of the pass; None raises. */
  ghost function Result(s: Section, words: seq<Word>): Option<Text>
    requires |s.code| == |words|
  {
    VisitsInCode(s, words);
    RewriteAll(s, words, Visits(s, words))
  }

  // ---------------------------------------------------------------- what the visits ask for

  /** The page that a visit gives to ADRP `d`: its own when it is eager, that of a relocating consumer when it is one
      of its definitions. */
  ghost function PageGiven(s: Section, v: Visit, d: nat): Option<int>
  {
    if v.pos >= |s.code| then None
    else if s.code[v.pos].Adrp? then if d == v.pos then EagerPage(s, s.code[d].page) else None
    else if Relocates(s, v.pos, v.st) && d in BaseOf(s, v).defs then
      Some(DesiredPage(s, BaseOf(s, v).page, DispOf(s, v)))
    else None
  }

  /** What a relocating visit knows of its base register. */
  function BaseOf(s: Section, v: Visit): Def
    requires v.pos < |s.code| && Relocates(s, v.pos, v.st)
  {
    v.st[UseOf(s, v.pos).value.base]
  }

  function DispOf(s: Section, v: Visit): int
    requires v.pos < |s.code| && UseOf(s, v.pos).Some?
  {
    UseOf(s, v.pos).value.disp
  }

  /** The consumer's word that a relocating visit asks for. */
  function WordGiven(s: Section, words: seq<Word>, v: Visit): Rewritten
    requires v.pos < |s.code| == |words| && Relocates(s, v.pos, v.st)
  {
    ConsumerWord(s, words[v.pos], BaseOf(s, v).page, DispOf(s, v))
  }

  /** A relocating visit whose displacement fits and whose word can take it. */
  predicate Encodable(s: Section, words: seq<Word>, v: Visit)
    requires v.pos < |s.code| == |words|
  {
    Relocates(s, v.pos, v.st) ==>
      0 <= NewDisp(s, BaseOf(s, v).page, DispOf(s, v)) < 0x1000 && WordGiven(s, words, v).Rewritten?
  }

  /** No two visits give an ADRP different pages, and every consumer can be rewritten. */
  ghost predicate Repointable(s: Section, words: seq<Word>, visits: seq<Visit>)
    requires |s.code| == |words| && InCodeVisits(s, visits)
  {
    && (forall v <- visits, v' <- visits, d: nat :: PageGiven(s, v, d).Some? && PageGiven(s, v', d).Some? ==>
          PageGiven(s, v, d) == PageGiven(s, v', d))
    && forall v <- visits :: Encodable(s, words, v)
  }

  /** The pages are those the visits give. */
  ghost predicate PagesAre(s: Section, visits: seq<Visit>, pages: Pages)
  {
    && (forall d <- pages :: exists v <- visits :: PageGiven(s, v, d) == Some(pages[d]))
    && forall v <- visits, d: nat :: PageGiven(s, v, d).Some? ==> d in pages && pages[d] == PageGiven(s, v, d).value
  }

  /** Every ADRP carries the page it was given, or is as it was. */
  ghost predicate AdrpsAre(s: Section, words: seq<Word>, t: Text)
    requires |s.code| == |words| == |t.words|
  {
    forall d :: 0 <= d < |s.code| && s.code[d].Adrp? ==>
      t.words[d] == if d in t.pages then SetAdrp(words[d], NewPc(s, d), t.pages[d]) else words[d]
  }

  /** Every other word is what its relocating visits ask for, or as it was when it has none. */
  ghost predicate OthersAre(s: Section, words: seq<Word>, visits: seq<Visit>, t: Text)
    requires |s.code| == |words| == |t.words| && InCodeVisits(s, visits)
  {
    && (forall v <- visits :: Relocates(s, v.pos, v.st) ==> WordGiven(s, words, v) == Rewritten(t.words[v.pos]))
    && forall k: nat :: k < |s.code| && !s.code[k].Adrp? && NeverRelocates(s, visits, k) ==> t.words[k] == words[k]
  }

  ghost predicate NeverRelocates(s: Section, visits: seq<Visit>, k: nat)
    requires k < |s.code|
  {
    forall v <- visits :: v.pos == k ==> !Relocates(s, k, v.st)
  }

  /** The text after some visits. */
  ghost predicate TextIs(s: Section, words: seq<Word>, visits: seq<Visit>, t: Text)
    requires |s.code| == |words| == |t.words| && InCodeVisits(s, visits)
  {
    && PagesAre(s, visits, t.pages) && AdrpsAre(s, words, t) && OthersAre(s, words, visits, t)
    && forall v <- visits :: Encodable(s, words, v)
  }

  /** Visits as the worklist makes them. */
  ghost predicate GoodVisits(s: Section, visits: seq<Visit>)
  {
    && InCodeVisits(s, visits) && VisitsWeaken(visits) && Ordered({}, visits)
    && forall v <- visits :: DefsAreAdrps(s, v.st)
  }

  // ---------------------------------------------------------------- the text after some visits

  lemma AgreedIff(s: Section, visits: seq<Visit>, pages: Pages, v: Visit)
    requires v.pos < |s.code| && Relocates(s, v.pos, v.st) && PagesAre(s, visits, pages)
    ensures Agreed(pages, BaseOf(s, v).defs, DesiredPage(s, BaseOf(s, v).page, DispOf(s, v))) <==>
            forall v' <- visits, d: nat :: PageGiven(s, v, d).Some? && PageGiven(s, v', d).Some? ==>
              PageGiven(s, v, d) == PageGiven(s, v', d)
  {
    hide DesiredPage, NewTarget;
    NotAnAdrp(s, v);
    var defs, page := BaseOf(s, v).defs, DesiredPage(s, BaseOf(s, v).page, DispOf(s, v));
    if !Agreed(pages, defs, page) {
      var d :| d in defs && d in pages && pages[d] != page;
      var v' :| v' in visits && PageGiven(s, v', d) == Some(pages[d]);
      assert PageGiven(s, v, d) == Some(page);
    }
  }

  lemma NotAnAdrp(s: Section, v: Visit)
    requires v.pos < |s.code| && Relocates(s, v.pos, v.st)
    ensures !s.code[v.pos].Adrp?
  {
  }

  lemma RepairedPages(s: Section, visits: seq<Visit>, t: Text, v: Visit)
    requires v.pos < |s.code| && Relocates(s, v.pos, v.st) && PagesAre(s, visits, t.pages)
    requires Agreed(t.pages, BaseOf(s, v).defs, DesiredPage(s, BaseOf(s, v).page, DispOf(s, v)))
    ensures PagesAre(s, visits + [v],
                     Repaired(s, t, BaseOf(s, v).defs, DesiredPage(s, BaseOf(s, v).page, DispOf(s, v))).pages)
  {
    hide DesiredPage, NewTarget;
    NotAnAdrp(s, v);
    var defs, page := BaseOf(s, v).defs, DesiredPage(s, BaseOf(s, v).page, DispOf(s, v));
    var after := Repaired(s, t, defs, page).pages;
    forall d | d in after ensures exists v' <- visits + [v] :: PageGiven(s, v', d) == Some(after[d]) {
      if d in defs {
        assert v in visits + [v] && PageGiven(s, v, d) == Some(after[d]);
      } else {
        var v' :| v' in visits && PageGiven(s, v', d) == Some(t.pages[d]);
        assert v' in visits + [v];
      }
    }
    forall v', d: nat | v' in visits + [v] && PageGiven(s, v', d).Some?
      ensures d in after && after[d] == PageGiven(s, v', d).value
    {
      if v' in visits { assert d in t.pages && t.pages[d] == PageGiven(s, v', d).value; }
    }
  }

  lemma RepairedAdrps(s: Section, words: seq<Word>, t: Text, defs: set<nat>, page: int)
    requires |s.code| == |words| == |t.words| && AdrpsAre(s, words, t) && Agreed(t.pages, defs, page)
    ensures AdrpsAre(s, words, Repaired(s, t, defs, page))
  {
    hide SetAdrp;
  }

  /** The consumer's word as computed from what the text holds now is the word computed from what it held first. */
  lemma WordStable(s: Section, words: seq<Word>, visits: seq<Visit>, t: Text, v: Visit)
    requires v.pos < |s.code| == |words| == |t.words| && Relocates(s, v.pos, v.st) && InCodeVisits(s, visits)
    requires OthersAre(s, words, visits, t) && VisitsWeaken(visits + [v])
    ensures ConsumerWord(s, t.words[v.pos], BaseOf(s, v).page, DispOf(s, v)) == WordGiven(s, words, v)
  {
    hide NewTarget, DesiredPage;
    NotAnAdrp(s, v);
    if NeverRelocates(s, visits, v.pos) { return; }
    var v' :| v' in visits && v'.pos == v.pos && Relocates(s, v.pos, v'.st);
    SameBase(s, visits, v, v');
    var nd := NewDisp(s, BaseOf(s, v).page, DispOf(s, v));
    assert WordGiven(s, words, v') == Rewritten(t.words[v.pos]);
    if SetConsumerDisp(words[v.pos], nd).Rewritten? { SetConsumerDispTwice(words[v.pos], nd); }
  }

  lemma SameBase(s: Section, visits: seq<Visit>, v: Visit, v': Visit)
    requires VisitsWeaken(visits + [v]) && v' in visits && v'.pos == v.pos < |s.code|
    requires Relocates(s, v.pos, v.st) && Relocates(s, v.pos, v'.st)
    ensures BaseOf(s, v').page == BaseOf(s, v).page && DispOf(s, v') == DispOf(s, v)
  {
    var i :| 0 <= i < |visits| && visits[i] == v';
    var all := visits + [v];
    assert all[i].pos == all[|visits|].pos;
    assert Weaker(v.st, v'.st);
  }

  /** The words after a consumer was rewritten. */
  lemma UseKeepsOthers(s: Section, words: seq<Word>, visits: seq<Visit>, t: Text, v: Visit, t': Text)
    requires |s.code| == |words| == |t.words| == |t'.words| && InCodeVisits(s, visits) && v.pos < |s.code|
    requires OthersAre(s, words, visits, t) && Relocates(s, v.pos, v.st) && VisitsWeaken(visits + [v])
    requires WordGiven(s, words, v) == Rewritten(t'.words[v.pos])
    requires forall k :: 0 <= k < |s.code| && !s.code[k].Adrp? && k != v.pos ==> t'.words[k] == t.words[k]
    ensures InCodeVisits(s, visits + [v]) && OthersAre(s, words, visits + [v], t')
  {
    hide ConsumerWord;
    var all := visits + [v];
    forall v' | v' in all && Relocates(s, v'.pos, v'.st)
      ensures WordGiven(s, words, v') == Rewritten(t'.words[v'.pos]) {
      if v' in visits {
        NotAnAdrp(s, v');
        if v'.pos == v.pos { SameBase(s, visits, v, v'); }
      }
    }
    forall k: nat | k < |s.code| && !s.code[k].Adrp? && NeverRelocates(s, all, k) ensures t'.words[k] == words[k] {
      assert v in all;
      assert forall v' <- visits :: v' in all;
      assert NeverRelocates(s, visits, k);
    }
  }

  lemma AdrpsUnderConsumer(s: Section, words: seq<Word>, t: Text, t': Text, k: nat)
    requires |s.code| == |words| == |t.words| && AdrpsAre(s, words, t) && k < |s.code| && !s.code[k].Adrp?
    requires |t'.words| == |t.words| && t'.pages == t.pages && forall i :: 0 <= i < |t.words| && i != k ==>
               t'.words[i] == t.words[i]
    ensures AdrpsAre(s, words, t')
  {
    hide SetAdrp;
  }

  lemma DefsOnlyAdrps(s: Section, v: Visit, d: nat)
    requires v.pos < |s.code| && Relocates(s, v.pos, v.st) && DefsAreAdrps(s, v.st) && d in BaseOf(s, v).defs
    ensures d < |s.code| && s.code[d].Adrp?
  {
    assert IsAdrpOf(s, d, BaseOf(s, v).page);
  }

  lemma RepairKeepsOthers(s: Section, t: Text, v: Visit, page: int)
    requires |s.code| == |t.words| && v.pos < |s.code| && Relocates(s, v.pos, v.st) && DefsAreAdrps(s, v.st)
    ensures forall k :: 0 <= k < |s.code| && !s.code[k].Adrp? ==>
              Repaired(s, t, BaseOf(s, v).defs, page).words[k] == t.words[k]
  {
    hide Relocates, SetAdrp, DefsAreAdrps;
    forall k | 0 <= k < |s.code| && !s.code[k].Adrp? ensures k !in BaseOf(s, v).defs {
      if k in BaseOf(s, v).defs { DefsOnlyAdrps(s, v, k); }
    }
  }

  /** A relocating visit that is granted. */
  lemma UseRewritten(s: Section, words: seq<Word>, visits: seq<Visit>, t: Text, v: Visit, t': Text)
    requires |s.code| == |words| == |t.words| == |t'.words| && InCodeVisits(s, visits) && v.pos < |s.code|
    requires Relocates(s, v.pos, v.st) && TextIs(s, words, visits, t) && VisitsWeaken(visits + [v])
    requires DefsAreAdrps(s, v.st)
    requires RewriteUse(s, t, v.pos, BaseOf(s, v), DispOf(s, v)) == Some(t')
    ensures InCodeVisits(s, visits + [v]) && TextIs(s, words, visits + [v], t')
  {
    hide DesiredPage, NewTarget, NewDisp, ConsumerWord, PagesAre, AdrpsAre, OthersAre, Agreed, Repaired, DefsAreAdrps;
    hide VisitsWeaken;
    NotAnAdrp(s, v);
    var defs, page := BaseOf(s, v).defs, DesiredPage(s, BaseOf(s, v).page, DispOf(s, v));
    var r := Repaired(s, t, defs, page);
    WordStable(s, words, visits, t, v);
    RepairedPages(s, visits, t, v);
    RepairedAdrps(s, words, t, defs, page);
    RepairKeepsOthers(s, t, v, page);
    AdrpsUnderConsumer(s, words, r, t', v.pos);
    UseKeepsOthers(s, words, visits, t, v, t');
  }

  /** A relocating visit that raises cannot be granted together with the others. */
  lemma UseRefused(s: Section, words: seq<Word>, visits: seq<Visit>, t: Text, v: Visit)
    requires |s.code| == |words| == |t.words| && InCodeVisits(s, visits) && v.pos < |s.code|
    requires Relocates(s, v.pos, v.st) && TextIs(s, words, visits, t) && VisitsWeaken(visits + [v])
    requires DefsAreAdrps(s, v.st)
    requires RewriteUse(s, t, v.pos, BaseOf(s, v), DispOf(s, v)) == None
    ensures InCodeVisits(s, visits + [v]) && !Repointable(s, words, visits + [v])
  {
    hide DesiredPage, NewTarget, NewDisp, ConsumerWord, PagesAre, AdrpsAre, OthersAre, Agreed, Repaired, DefsAreAdrps;
    hide VisitsWeaken, PageGiven;
    NotAnAdrp(s, v);
    var page := DesiredPage(s, BaseOf(s, v).page, DispOf(s, v));
    WordStable(s, words, visits, t, v);
    AgreedIff(s, visits, t.pages, v);
    RepairKeepsOthers(s, t, v, page);
    assert v in visits + [v];
    if !Agreed(t.pages, BaseOf(s, v).defs, page) {
      var v', d: nat :| v' in visits && PageGiven(s, v, d).Some? && PageGiven(s, v', d).Some?
                        && PageGiven(s, v, d) != PageGiven(s, v', d);
      assert v' in visits + [v];
    } else {
      assert !Encodable(s, words, v);
    }
  }

  /** A visit that neither repairs nor repoints. */
  lemma NothingAsked(s: Section, words: seq<Word>, visits: seq<Visit>, t: Text, v: Visit)
    requires |s.code| == |words| == |t.words| && InCodeVisits(s, visits) && v.pos < |s.code|
    requires TextIs(s, words, visits, t) && !Relocates(s, v.pos, v.st)
    requires forall d: nat :: PageGiven(s, v, d) == None
    ensures InCodeVisits(s, visits + [v]) && TextIs(s, words, visits + [v], t)
  {
    hide PageGiven, ConsumerWord, Relocates, NewTarget, AdrpsAre;
    SamePages(s, visits, t.pages, v);
    var all := visits + [v];
    forall k: nat | k < |s.code| && !s.code[k].Adrp? && NeverRelocates(s, all, k) ensures t.words[k] == words[k] {
      assert forall v' <- visits :: v' in all;
      assert NeverRelocates(s, visits, k);
    }
  }

  lemma SamePages(s: Section, visits: seq<Visit>, pages: Pages, v: Visit)
    requires PagesAre(s, visits, pages) && forall d: nat :: PageGiven(s, v, d).Some? ==>
               d in pages && pages[d] == PageGiven(s, v, d).value
    ensures PagesAre(s, visits + [v], pages)
  {
    hide PageGiven;
    forall d | d in pages ensures exists v' <- visits + [v] :: PageGiven(s, v', d) == Some(pages[d]) {
      var v' :| v' in visits && PageGiven(s, v', d) == Some(pages[d]);
      assert v' in visits + [v];
    }
  }

  /** An eager ADRP that has a page has its eager page. */
  lemma EagerAgrees(s: Section, visits: seq<Visit>, pages: Pages, k: nat)
    requires PagesAre(s, visits, pages) && Ordered({}, visits) && k in pages
    requires k < |s.code| && s.code[k].Adrp? && EagerPage(s, s.code[k].page).Some?
    ensures pages[k] == EagerPage(s, s.code[k].page).value
  {
    hide EagerPage, DesiredPage, NewTarget;
    var v :| v in visits && PageGiven(s, v, k) == Some(pages[k]);
    if !s.code[v.pos].Adrp? {
      var i :| 0 <= i < |visits| && visits[i] == v;
      assert Knows({} + Positions(visits[..i]), v.st);
      assert k in Positions(visits[..i]);
      var v' :| v' in visits[..i] && v'.pos == k;
      assert v' in visits && PageGiven(s, v', k) == EagerPage(s, s.code[k].page);
    }
  }

  /** The eager repair. */
  lemma EagerRepaired(s: Section, words: seq<Word>, visits: seq<Visit>, t: Text, v: Visit)
    requires |s.code| == |words| == |t.words| && InCodeVisits(s, visits) && v.pos < |s.code| && Ordered({}, visits)
    requires TextIs(s, words, visits, t) && s.code[v.pos].Adrp? && EagerPage(s, s.code[v.pos].page).Some?
    ensures InCodeVisits(s, visits + [v])
    ensures TextIs(s, words, visits + [v], Assign(s, t, v.pos, EagerPage(s, s.code[v.pos].page).value))
  {
    hide EagerPage, Ordered, ConsumerWord, NewTarget, SetAdrp;
    var e := EagerPage(s, s.code[v.pos].page).value;
    var t' := Assign(s, t, v.pos, e);
    if v.pos in t.pages { EagerAgrees(s, visits, t.pages, v.pos); }
    EagerPages(s, visits, t.pages, v);
    EagerAdrps(s, words, t, v.pos, e);
    var all := visits + [v];
    forall v' | v' in all && Relocates(s, v'.pos, v'.st)
      ensures WordGiven(s, words, v') == Rewritten(t'.words[v'.pos]) {
      NotAnAdrp(s, v');
    }
    forall k: nat | k < |s.code| && !s.code[k].Adrp? && NeverRelocates(s, all, k) ensures t'.words[k] == words[k] {
      assert forall v' <- visits :: v' in all;
      assert NeverRelocates(s, visits, k);
    }
    forall v' | v' in all ensures Encodable(s, words, v') {
      if v' == v && Relocates(s, v.pos, v.st) { NotAnAdrp(s, v); }
    }
  }

  lemma EagerPages(s: Section, visits: seq<Visit>, pages: Pages, v: Visit)
    requires PagesAre(s, visits, pages) && v.pos < |s.code| && s.code[v.pos].Adrp?
    requires EagerPage(s, s.code[v.pos].page).Some?
    requires v.pos in pages ==> pages[v.pos] == EagerPage(s, s.code[v.pos].page).value
    ensures PagesAre(s, visits + [v], pages[v.pos := EagerPage(s, s.code[v.pos].page).value])
  {
    hide EagerPage, DesiredPage, Relocates, NewTarget;
    var after := pages[v.pos := EagerPage(s, s.code[v.pos].page).value];
    assert v in visits + [v] && PageGiven(s, v, v.pos) == Some(after[v.pos]);
    forall d | d in after ensures exists v' <- visits + [v] :: PageGiven(s, v', d) == Some(after[d]) {
      if d != v.pos {
        var v' :| v' in visits && PageGiven(s, v', d) == Some(pages[d]);
        assert v' in visits + [v];
      }
    }
  }

  lemma EagerAdrps(s: Section, words: seq<Word>, t: Text, k: nat, e: int)
    requires |s.code| == |words| == |t.words| && AdrpsAre(s, words, t) && k < |s.code| && s.code[k].Adrp?
    ensures AdrpsAre(s, words, Assign(s, t, k, e))
  {
    hide SetAdrp;
    if k in t.pages { SetAdrpKeepsOpcode(words[k], NewPc(s, k), t.pages[k]); }
  }

  /** One more visit. */
  lemma OneMoreVisit(s: Section, words: seq<Word>, visits: seq<Visit>, t: Text, v: Visit)
    requires |s.code| == |words| == |t.words| && GoodVisits(s, visits + [v]) && InCodeVisits(s, visits)
    requires v.pos < |s.code| && Ordered({}, visits) && TextIs(s, words, visits, t)
    ensures match RewriteOne(s, t, v)
            case Some(t') => |t'.words| == |words| && TextIs(s, words, visits + [v], t')
            case None => !Repointable(s, words, visits + [v])
  {
    hide TextIs, Repointable, Ordered, VisitsWeaken, RewriteUse, PageGiven, EagerPage, NewTarget, DefsAreAdrps;
    assert v in visits + [v];
    if s.code[v.pos].Adrp? {
      if EagerPage(s, s.code[v.pos].page).Some? {
        EagerRepaired(s, words, visits, t, v);
      } else {
        AsksNothing(s, v);
        NothingAsked(s, words, visits, t, v);
      }
    } else if Relocates(s, v.pos, v.st) {
      UseLength(s, t, v.pos, BaseOf(s, v), DispOf(s, v));
      if RewriteOne(s, t, v).Some? {
        UseRewritten(s, words, visits, t, v, RewriteOne(s, t, v).value);
      } else {
        UseRefused(s, words, visits, t, v);
      }
    } else {
      AsksNothing(s, v);
      NothingAsked(s, words, visits, t, v);
      UseStays(s, t, v);
    }
  }

  lemma AsksNothing(s: Section, v: Visit)
    requires v.pos < |s.code|
    requires if s.code[v.pos].Adrp? then EagerPage(s, s.code[v.pos].page) == None else !Relocates(s, v.pos, v.st)
    ensures forall d: nat :: PageGiven(s, v, d) == None
    ensures !Relocates(s, v.pos, v.st)
  {
    hide EagerPage, NewTarget;
  }

  lemma UseLength(s: Section, t: Text, k: nat, e: Def, disp: int)
    requires k < |s.code| == |t.words|
    ensures RewriteUse(s, t, k, e, disp).Some? ==> |RewriteUse(s, t, k, e, disp).value.words| == |t.words|
  {
    hide Agreed, ConsumerWord, NewTarget, NewDisp, DesiredPage, SetAdrp;
  }

  lemma UseStays(s: Section, t: Text, v: Visit)
    requires v.pos < |s.code| == |t.words| && !s.code[v.pos].Adrp? && !Relocates(s, v.pos, v.st)
    ensures RewriteOne(s, t, v) == Some(t)
  {
    hide NewTarget;
  }

  lemma PrefixIsGood(s: Section, visits: seq<Visit>)
    requires GoodVisits(s, visits) && visits != []
    ensures var n := |visits| - 1;
            && GoodVisits(s, visits[..n]) && visits[n].pos < |s.code|
            && visits == visits[..n] + [visits[n]]
  {
    hide DefsAreAdrps, Weaker, Knows;
    var n := |visits| - 1;
    assert visits[n] in visits && forall v <- visits[..n] :: v in visits;
    forall i | 0 <= i < n ensures Knows({} + Positions(visits[..n][..i]), visits[..n][i].st) {
      assert visits[..n][..i] == visits[..i];
      assert Knows({} + Positions(visits[..i]), visits[i].st);
    }
  }

  lemma TextIsRepointable(s: Section, words: seq<Word>, visits: seq<Visit>, t: Text)
    requires |s.code| == |words| == |t.words| && InCodeVisits(s, visits) && TextIs(s, words, visits, t)
    ensures Repointable(s, words, visits)
  {
    hide PageGiven, Encodable;
  }

  lemma MoreIsNotRepointable(s: Section, words: seq<Word>, visits: seq<Visit>, more: seq<Visit>)
    requires |s.code| == |words| && InCodeVisits(s, visits + more) && InCodeVisits(s, visits)
    ensures Repointable(s, words, visits + more) ==> Repointable(s, words, visits)
  {
    hide PageGiven, Encodable;
    assert forall v <- visits :: v in visits + more;
  }

  /** Some visits, one after the other, succeed exactly if they can all be granted; the text is then what they ask
      for, whatever their order. */
  lemma {:induction false} RewriteAllIs(s: Section, words: seq<Word>, visits: seq<Visit>)
    requires |s.code| == |words| && GoodVisits(s, visits)
    ensures RewriteAll(s, words, visits).Some? <==> Repointable(s, words, visits)
    ensures RewriteAll(s, words, visits).Some? ==> TextIs(s, words, visits, RewriteAll(s, words, visits).value)
  {
    hide TextIs, Repointable, RewriteOne, VisitsWeaken, Ordered, DefsAreAdrps;
    if visits == [] {
      NoVisitsAsk(s, words);
    } else {
      var n := |visits| - 1;
      PrefixIsGood(s, visits);
      RewriteAllIs(s, words, visits[..n]);
      MoreIsNotRepointable(s, words, visits[..n], [visits[n]]);
      if RewriteAll(s, words, visits[..n]).Some? {
        OneMoreVisit(s, words, visits[..n], RewriteAll(s, words, visits[..n]).value, visits[n]);
        var t := RewriteAll(s, words, visits);
        if t.Some? { TextIsRepointable(s, words, visits, t.value); }
      }
    }
  }

  lemma NoVisitsAsk(s: Section, words: seq<Word>)
    requires |s.code| == |words|
    ensures TextIs(s, words, [], Text(words, map[])) && Repointable(s, words, [])
  {
  }

  lemma VisitsAreGood(s: Section, words: seq<Word>)
    requires |s.code| == |words|
    ensures GoodVisits(s, Visits(s, words))
  {
    hide Visits, FinalFacts, VisitsWeaken, Ordered, DefsAreAdrps, Weaker;
    VisitsAreSound(s, words);
    forall v | v in Visits(s, words) ensures v.pos < |s.code| && DefsAreAdrps(s, v.st) {
      assert VisitBetween(s, v, FinalFacts(s, words), map[]);
    }
  }

  /** The pass as a function of its input: it succeeds exactly if its visits can all be granted, and then every ADRP
      and every consumer is what the visits ask for. */
  lemma ResultIff(s: Section, words: seq<Word>)
    requires |s.code| == |words|
    ensures InCodeVisits(s, Visits(s, words))
    ensures Result(s, words).Some? <==> Repointable(s, words, Visits(s, words))
    ensures Result(s, words).Some? ==> TextIs(s, words, Visits(s, words), Result(s, words).value)
  {
    hide TextIs, Repointable, GoodVisits, Visits, RewriteAll;
    VisitsInCode(s, words);
    VisitsAreGood(s, words);
    RewriteAllIs(s, words, Visits(s, words));
  }
}

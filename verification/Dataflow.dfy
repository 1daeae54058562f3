/** The register dataflow inside `rewrite_adrp`: which page each register holds at each instruction,
    and which ADRPs put it there.

    A section is a sequence of decoded instructions; positions are instruction indices.  What the
    disassembler reports for an instruction (operands, written registers, branch target) is input.
    A branch target or function start that is not an instruction of the section is any number outside
    the sequence, and merging into it does nothing, as in the original. */
module Dataflow {
  import opened Wrappers
  import opened Relayout
  import opened A64Words

  type Reg = nat

  /** Where control goes next: on, to a target, to either, or out of the section. */
  datatype Succ = Fall | Jump(target: int) | Branch(target: int) | Stop

  /** A base register and displacement read by an ADD (immediate) or a memory operand. */
  datatype Use = Use(base: Reg, disp: int)

  datatype Insn =
    | Undecoded
    | Adrp(rd: Reg, page: int)
    | Other(use: Option<Use>, call: bool, written: set<Reg>, next: Succ)

  datatype Section = Section(code: seq<Insn>, starts: seq<int>, oldBase: int, textDelta: int,
                             deltas: seq<Range>, got: map<int, int>)

  /** The page a register holds and the positions of the ADRPs that may have put it there. */
  datatype Def = Def(page: int, defs: set<nat>)

  type State = map<Reg, Def>

  type Facts = map<nat, State>

  predicate InCode(s: Section, pos: int) { 0 <= pos < |s.code| }

  /** x0 to x18. */
  function CallerSaved(): set<Reg> { {0, 1, 2, 3, 4, 5, 6, 7, 8, 9, 10, 11, 12, 13, 14, 15, 16, 17, 18} }

  predicate IsReturn(w: Word) { w == 0xD65F0BFF || w == 0xD65F0FFF }

  /** The registers the pass forgets after an undecoded word: an authenticated branch or call, or a
      pointer-authentication instruction that writes Rd. */
  function UndecodedKills(w: Word): set<Reg>
  {
    if IsReturn(w) then {}
    else if w / 0x100_0000 == 0xD7 then CallerSaved()
    else if w / 0x1_0000 == 0xDAC1 then {w % 0x20}
    else {}
  }

  /** The registers instruction `k` may change, as the pass sees it. */
  function Kills(s: Section, text: seq<Word>, k: nat): set<Reg>
    requires k < |s.code| == |text|
  {
    match s.code[k]
    case Undecoded => UndecodedKills(text[k])
    case Adrp(rd, _) => {rd}
    case Other(_, call, written, _) => if call then CallerSaved() else written
  }

  function Forget(st: State, kills: set<Reg>): State
  {
    map r | r in st && r !in kills :: st[r]
  }

  function Transfer(s: Section, text: seq<Word>, k: nat, st: State): State
    requires k < |s.code| == |text|
  {
    match s.code[k]
    case Adrp(rd, page) => st[rd := Def(page, {k})]
    case _ => Forget(st, Kills(s, text, k))
  }

  function Successors(s: Section, text: seq<Word>, k: nat): seq<int>
    requires k < |s.code| == |text|
  {
    match s.code[k]
    case Undecoded => if IsReturn(text[k]) then [] else [k + 1]
    case Adrp(_, _) => [k + 1]
    case Other(_, _, _, next) =>
      match next
      case Fall => [k + 1]
      case Jump(t) => [t]
      case Branch(t) => [k + 1, t]
      case Stop => []
  }

  /** `merge_state` on one position: keep what both states say, uniting the definitions. */
  function Merge(prev: Option<State>, st: State): State
  {
    match prev
    case None => st
    case Some(p) => map r | r in p && r in st && p[r].page == st[r].page :: Def(p[r].page, p[r].defs + st[r].defs)
  }

  /** `a` claims no more than `b`. */
  ghost predicate Weaker(a: State, b: State)
  {
    forall r :: r in a ==> r in b && a[r].page == b[r].page && b[r].defs <= a[r].defs
  }

  function Lookup(facts: Facts, k: nat): Option<State>
  {
    if k in facts then Some(facts[k]) else None
  }

  datatype Flow = Flow(facts: Facts, work: seq<nat>)

  function MergeState(s: Section, f: Flow, pos: int, st: State): Flow
  {
    if !InCode(s, pos) then f
    else
      var merged := Merge(Lookup(f.facts, pos), st);
      if pos in f.facts && merged == f.facts[pos] then f
      else Flow(f.facts[pos := merged], f.work + [pos])
  }

  function MergeAll(s: Section, f: Flow, targets: seq<int>, st: State): Flow
    decreases |targets|
  {
    if targets == [] then f else MergeAll(s, MergeState(s, f, targets[0], st), targets[1..], st)
  }

  // ---------------------------------------------------------------- how facts evolve

  /** Facts only get weaker, and every changed position is queued. */
  ghost predicate Evolves(f: Flow, g: Flow)
  {
    && (forall k :: k in f.facts ==> k in g.facts && Weaker(g.facts[k], f.facts[k]))
    && (forall k :: k in g.facts && (k !in f.facts || g.facts[k] != f.facts[k]) ==> k in g.work)
    && (forall k :: k in f.work ==> k in g.work)
    && (forall k :: k in g.work ==> k in f.work || k in g.facts)
  }

  lemma EvolvesTransitive(f: Flow, g: Flow, h: Flow)
    requires Evolves(f, g) && Evolves(g, h)
    ensures Evolves(f, h)
  {
    forall k | k in f.facts ensures k in h.facts && Weaker(h.facts[k], f.facts[k]) {
      assert Weaker(g.facts[k], f.facts[k]) && Weaker(h.facts[k], g.facts[k]);
    }
  }

  lemma MergeStateEvolves(s: Section, f: Flow, pos: int, st: State)
    ensures var g := MergeState(s, f, pos, st);
            Evolves(f, g) && (InCode(s, pos) ==> pos in g.facts && Weaker(g.facts[pos], st))
  {
  }

  /** After merging a state into a list of targets, every target in the code claims no more than it. */
  lemma {:induction false} MergeAllEvolves(s: Section, f: Flow, targets: seq<int>, st: State)
    ensures var g := MergeAll(s, f, targets, st);
            && Evolves(f, g)
            && forall t :: t in targets && InCode(s, t) ==> t in g.facts && Weaker(g.facts[t], st)
    decreases |targets|
  {
    if targets != [] {
      var m := MergeState(s, f, targets[0], st);
      var g := MergeAll(s, m, targets[1..], st);
      MergeStateEvolves(s, f, targets[0], st);
      MergeAllEvolves(s, m, targets[1..], st);
      EvolvesTransitive(f, m, g);
      forall t | t in targets && InCode(s, t) ensures t in g.facts && Weaker(g.facts[t], st) {
        if t == targets[0] {
          assert Weaker(m.facts[t], st) && Weaker(g.facts[t], m.facts[t]);
        } else {
          assert t in targets[1..];
        }
      }
    }
  }

  // ---------------------------------------------------------------- the fixpoint condition

  /** Every successor of `k` already claims no more than what flows out of `k`. */
  ghost predicate Settled(s: Section, text: seq<Word>, facts: Facts, k: nat)
    requires |s.code| == |text|
  {
    k < |s.code| && k in facts &&
    forall t :: t in Successors(s, text, k) && InCode(s, t) ==>
      t in facts && Weaker(facts[t], Transfer(s, text, k, facts[k]))
  }

  ghost predicate AllSettled(s: Section, text: seq<Word>, f: Flow, except: set<nat>)
    requires |s.code| == |text|
  {
    forall k :: k in f.facts && k !in f.work && k !in except ==> Settled(s, text, f.facts, k)
  }

  lemma SettledSurvives(s: Section, text: seq<Word>, f: Flow, g: Flow, k: nat)
    requires |s.code| == |text| && Evolves(f, g) && Settled(s, text, f.facts, k) && k !in g.work
    ensures Settled(s, text, g.facts, k)
  {
    forall t | t in Successors(s, text, k) && InCode(s, t)
      ensures t in g.facts && Weaker(g.facts[t], Transfer(s, text, k, g.facts[k]))
    {
      assert Weaker(g.facts[t], f.facts[t]);
    }
  }

  /** Popping a position and merging its outgoing state everywhere keeps all the others settled and
      settles it too. */
  lemma StepSettles(s: Section, text: seq<Word>, f: Flow, k: nat)
    requires |s.code| == |text| && k < |s.code| && k in f.facts && AllSettled(s, text, f, {k})
    ensures AllSettled(s, text, MergeAll(s, f, Successors(s, text, k), Transfer(s, text, k, f.facts[k])), {})
  {
    var st := Transfer(s, text, k, f.facts[k]);
    var g := MergeAll(s, f, Successors(s, text, k), st);
    MergeAllEvolves(s, f, Successors(s, text, k), st);
    forall q | q in g.facts && q !in g.work ensures Settled(s, text, g.facts, q) {
      if q != k {
        SettledSurvives(s, text, f, g, q);
      } else {
        assert g.facts[k] == f.facts[k];
      }
    }
  }

  lemma SeedingSettles(s: Section, text: seq<Word>, f: Flow, pos: int)
    requires |s.code| == |text| && AllSettled(s, text, f, {})
    ensures AllSettled(s, text, MergeState(s, f, pos, map[]), {})
  {
    var g := MergeState(s, f, pos, map[]);
    MergeStateEvolves(s, f, pos, map[]);
    forall q | q in g.facts && q !in g.work ensures Settled(s, text, g.facts, q) {
      SettledSurvives(s, text, f, g, q);
    }
  }

  // ---------------------------------------------------------------- what the facts mean

  /** A register's content and the position of the instruction that last wrote it. */
  datatype Cell = Cell(value: int, origin: int)

  type Machine = Reg -> Cell

  /** A call.  The second form is a word the disassembler does not know: an authenticated branch or call. */
  predicate Calls(s: Section, w: Word, k: nat)
    requires k < |s.code|
  {
    match s.code[k]
    case Undecoded => 0xD700_0000 <= w < 0xD800_0000
    case Adrp(_, _) => false
    case Other(_, call, _, _) => call
  }

  const LINK: Reg := 30

  /** The machine: a call leaves x19 and up alone, but for the link register, which it writes itself (section 6.1.1 of
      the Procedure Call Standard for the Arm 64-bit Architecture); a pointer-authentication instruction writes the
      register in its low five bits; a decoded instruction writes what it is reported to write. */
  predicate LeavesAlone(s: Section, w: Word, k: nat, r: Reg)
    requires k < |s.code|
  {
    if Calls(s, w, k) then 19 <= r && r != LINK
    else
      match s.code[k]
      case Undecoded => !(0xDAC1_0000 <= w < 0xDAC2_0000 && (w - r) % 0x20 == 0 && r < 0x20)
      case Adrp(rd, _) => r != rd
      case Other(_, _, written, _) => r !in written
  }

  /** One instruction of an arbitrary machine: an ADRP writes the page it computes, any other instruction may do
      anything to the registers it does not leave alone. */
  ghost predicate ExecutesAs(s: Section, w: Word, k: nat, page: int, m: Machine, m': Machine)
    requires k < |s.code|
  {
    && (s.code[k].Adrp? ==> m'(s.code[k].rd) == Cell(page, k))
    && forall r :: LeavesAlone(s, w, k, r) ==> m'(r) == m(r)
  }

  /** Where the machine goes from position `k`. */
  predicate GoesTo(s: Section, w: Word, k: nat, q: int)
    requires k < |s.code|
  {
    match s.code[k]
    case Undecoded => q == k + 1 && w != 0xD65F_0BFF && w != 0xD65F_0FFF   // RETAA, RETAB
    case Adrp(_, _) => q == k + 1
    case Other(_, _, _, next) =>
      || (next.Fall? && q == k + 1)
      || (next.Jump? && q == next.target)
      || (next.Branch? && (q == k + 1 || q == next.target))
  }

  /** The section as it is decoded: an ADRP computes its reported page. */
  ghost predicate Executes(s: Section, text: seq<Word>, k: nat, m: Machine, m': Machine)
    requires k < |s.code| == |text|
  {
    ExecutesAs(s, text[k], k, if s.code[k].Adrp? then s.code[k].page else 0, m, m')
  }

  /** The machine agrees with what a state claims. */
  ghost predicate Agrees(m: Machine, st: State)
  {
    forall r :: r in st ==> m(r).value == st[r].page && m(r).origin in st[r].defs
  }

  /** A run of the machine inside the section. */
  ghost predicate IsRun(s: Section, text: seq<Word>, path: seq<nat>, ms: seq<Machine>)
    requires |s.code| == |text|
  {
    && |path| == |ms| > 0
    && (forall i :: 0 <= i < |path| ==> path[i] < |s.code|)
    && forall i :: 0 <= i < |path| - 1 ==>
         GoesTo(s, text[path[i]], path[i], path[i + 1]) && Executes(s, text, path[i], ms[i], ms[i + 1])
  }

  // ---------------------------------------------------------------- the pass knows the machine

  /** The pass follows the machine, and nothing else. */
  lemma SuccessorsAre(s: Section, text: seq<Word>, k: nat, q: int)
    requires k < |s.code| == |text|
    ensures q in Successors(s, text, k) <==> GoesTo(s, text[k], k, q)
  {
  }

  lemma HighBytes(w: Word)
    ensures w / 0x100_0000 == 0xD7 <==> 0xD700_0000 <= w < 0xD800_0000
    ensures w / 0x1_0000 == 0xDAC1 <==> 0xDAC1_0000 <= w < 0xDAC2_0000
  {
  }

  lemma LowBits(w: Word, r: Reg)
    ensures r == w % 0x20 <==> (w - r) % 0x20 == 0 && r < 0x20
  {
    if r < 0x20 && (w - r) % 0x20 == 0 { assert w == 0x20 * ((w - r) / 0x20) + r; }
  }

  /** The pass forgets exactly the registers that the machine does not leave alone, but for the link register at a
      call, which it should forget and does not. */
  lemma KillsAre(s: Section, text: seq<Word>, k: nat, r: Reg)
    requires k < |s.code| == |text|
    ensures r !in Kills(s, text, k) <==> LeavesAlone(s, text[k], k, r) || (Calls(s, text[k], k) && r == LINK)
  {
    HighBytes(text[k]);
    LowBits(text[k], r);
  }

  /** A call keeps what is known of x19 and up, and nothing else. */
  lemma CallsKeep(s: Section, text: seq<Word>, k: nat, st: State, r: Reg)
    requires k < |s.code| == |text| && Calls(s, text[k], k)
    ensures r in Transfer(s, text, k, st) <==> r in st && r > 18
    ensures r in Transfer(s, text, k, st) ==> Transfer(s, text, k, st)[r] == st[r]
  {
    hide CallerSaved;
    KillsAre(s, text, k, r);
  }

  /** An instruction keeps a claim about a register exactly if every machine keeps the register, the link register at
      a call apart; and an ADRP adds its own claim. */
  lemma ClaimsAreKeptIff(s: Section, text: seq<Word>, k: nat, st: State, r: Reg)
    requires k < |s.code| == |text| && r in st && !(Calls(s, text[k], k) && r == LINK)
    requires !(s.code[k].Adrp? && s.code[k].rd == r)
    ensures (r in Transfer(s, text, k, st) && Transfer(s, text, k, st)[r] == st[r]) <==>
            forall m: Machine, m': Machine :: Executes(s, text, k, m, m') ==> m'(r) == m(r)
    ensures s.code[k].Adrp? ==>
              var rd := s.code[k].rd;
              rd in Transfer(s, text, k, st) && Transfer(s, text, k, st)[rd] == Def(s.code[k].page, {k})
  {
    hide LeavesAlone, Calls, Kills;
    KillsAre(s, text, k, r);
    if s.code[k].Adrp? { AdrpKills(s, text, k); }
    if !LeavesAlone(s, text[k], k, r) {
      var m: Machine := q => Cell(0, 0);
      var m': Machine := q => if q == r then Cell(1, 0) else Cell(0, 0);
      Differs(s, text, k, r, m, m');
      assert r in Kills(s, text, k);
    }
  }

  lemma Differs(s: Section, text: seq<Word>, k: nat, r: Reg, m: Machine, m': Machine)
    requires k < |s.code| == |text| && Executes(s, text, k, m, m') && m'(r) != m(r)
    ensures !forall m: Machine, m': Machine :: Executes(s, text, k, m, m') ==> m'(r) == m(r)
  {
    hide Executes;
  }

  lemma AdrpKills(s: Section, text: seq<Word>, k: nat)
    requires k < |s.code| == |text| && s.code[k].Adrp?
    ensures Kills(s, text, k) == {s.code[k].rd}
  {
  }

  /** What is known of the link register at a call survives in the pass and not in the machine. */
  lemma LinkClaimsAreWrong(s: Section, text: seq<Word>, k: nat, st: State, m: Machine) returns (m': Machine)
    requires k < |s.code| == |text| && Calls(s, text[k], k) && LINK in st && Agrees(m, st)
    ensures Executes(s, text, k, m, m') && !Agrees(m', Transfer(s, text, k, st))
  {
    CallsKeep(s, text, k, st, LINK);
    m' := (r: Reg) => if r == LINK then Cell(st[LINK].page + 1, 0) else m(r);
  }

  /** No call is reached with anything known of the link register. */
  ghost predicate LinkUnknown(s: Section, text: seq<Word>, facts: Facts)
    requires |s.code| == |text|
  {
    forall k <- facts :: k < |s.code| && Calls(s, text[k], k) ==> LINK !in facts[k]
  }

  ghost predicate IsFixpoint(s: Section, text: seq<Word>, facts: Facts, seeds: set<nat>)
    requires |s.code| == |text|
  {
    && (forall k :: k in seeds ==> k in facts && facts[k] == map[])
    && (forall k :: k in facts ==> Settled(s, text, facts, k))
  }

  /** Soundness: along every run of the machine from a seed, started with any register contents, each register a
      fact speaks of holds the stated page, put there by one of the stated ADRPs. */
  lemma {:induction false} FactsAreSound(s: Section, text: seq<Word>, facts: Facts, seeds: set<nat>,
                                         path: seq<nat>, ms: seq<Machine>)
    requires |s.code| == |text| && IsFixpoint(s, text, facts, seeds) && LinkUnknown(s, text, facts)
    requires IsRun(s, text, path, ms) && path[0] in seeds
    ensures path[|path| - 1] in facts && Agrees(ms[|path| - 1], facts[path[|path| - 1]])
    decreases |path|
  {
    hide Successors, Transfer, Executes, GoesTo, Calls, Agrees, Weaker;
    var n := |path| - 1;
    if n == 0 {
      NothingClaimed(ms[0]);
    } else {
      FactsAreSound(s, text, facts, seeds, path[..n], ms[..n]);
      var k, q := path[n - 1], path[n];
      assert path[..n][n - 1] == k && ms[..n][n - 1] == ms[n - 1];
      assert Settled(s, text, facts, k) && InCode(s, q);
      assert GoesTo(s, text[path[n - 1]], path[n - 1], path[n - 1 + 1]);
      SuccessorsAre(s, text, k, q);
      TransferIsSound(s, text, k, facts[k], ms[n - 1], ms[n]);
      WeakerAgrees(ms[n], Transfer(s, text, k, facts[k]), facts[q]);
    }
  }

  lemma NothingClaimed(m: Machine)
    ensures Agrees(m, map[])
  {
  }

  lemma WeakerAgrees(m: Machine, st: State, st': State)
    requires Agrees(m, st) && Weaker(st', st)
    ensures Agrees(m, st')
  {
  }

  lemma TransferIsSound(s: Section, text: seq<Word>, k: nat, st: State, m: Machine, m': Machine)
    requires k < |s.code| == |text| && Agrees(m, st) && Executes(s, text, k, m, m')
    requires Calls(s, text[k], k) ==> LINK !in st
    ensures Agrees(m', Transfer(s, text, k, st))
  {
    hide Kills, LeavesAlone, Calls;
    forall r | r in Transfer(s, text, k, st)
      ensures m'(r).value == Transfer(s, text, k, st)[r].page && m'(r).origin in Transfer(s, text, k, st)[r].defs
    {
      KillsAre(s, text, k, r);
      if s.code[k].Adrp? { AdrpKills(s, text, k); }
    }
  }

  // ---------------------------------------------------------------- termination

  /** Positions not reached yet. */
  ghost function Unvisited(s: Section, facts: Facts): set<nat>
  {
    set k: nat | 0 <= k < |s.code| && k !in facts
  }

  /** Registers about which some position still claims something. */
  ghost function Held(facts: Facts): set<(nat, Reg)>
  {
    set k, r | k in facts && r in facts[k] :: (k, r)
  }

  /** Definitions a claim could still pick up. */
  ghost function Missing(s: Section, facts: Facts): set<(nat, Reg, nat)>
  {
    set k, r, d: nat | k in facts && r in facts[k] && 0 <= d < |s.code| && d !in facts[k][r].defs :: (k, r, d)
  }

  ghost predicate Lower(s: Section, facts: Facts, facts': Facts)
  {
    || Unvisited(s, facts') < Unvisited(s, facts)
    || (Unvisited(s, facts') == Unvisited(s, facts) && Held(facts') < Held(facts))
    || (Unvisited(s, facts') == Unvisited(s, facts) && Held(facts') == Held(facts)
        && Missing(s, facts') < Missing(s, facts))
  }

  ghost predicate DefsInCode(s: Section, st: State)
  {
    forall r, d :: r in st && d in st[r].defs ==> d < |s.code|
  }

  /** Each merge that changes anything reaches a new position, or drops a register, or adds a
      definition; nothing can go on for ever. */
  lemma MergeLowers(s: Section, f: Flow, pos: int, st: State)
    requires DefsInCode(s, st) && forall k :: k in f.facts ==> k < |s.code|
    requires MergeState(s, f, pos, st) != f
    ensures Lower(s, f.facts, MergeState(s, f, pos, st).facts)
  {
    var g := MergeState(s, f, pos, st);
    if pos !in f.facts {
      assert pos in Unvisited(s, f.facts);
    } else {
      var p, m := f.facts[pos], g.facts[pos];
      assert Unvisited(s, g.facts) == Unvisited(s, f.facts);
      if r :| r in p && r !in m {
        assert (pos, r) in Held(f.facts) && (pos, r) !in Held(g.facts);
      } else {
        SameRegistersMoreDefs(s, f, pos, st);
      }
    }
  }

  lemma SameRegistersMoreDefs(s: Section, f: Flow, pos: nat, st: State)
    requires DefsInCode(s, st) && forall k :: k in f.facts ==> k < |s.code|
    requires MergeState(s, f, pos, st) != f && pos in f.facts
    requires forall r :: r in f.facts[pos] ==> r in MergeState(s, f, pos, st).facts[pos]
    ensures var g := MergeState(s, f, pos, st).facts;
            Held(g) == Held(f.facts) && Missing(s, g) < Missing(s, f.facts)
  {
    var g := MergeState(s, f, pos, st).facts;
    var p, m := f.facts[pos], g[pos];
    assert m.Keys == p.Keys;
    assert Held(g) == Held(f.facts);
    var r :| r in p && m[r] != p[r];
    var d :| d in m[r].defs && d !in p[r].defs;
    assert d in st[r].defs;
    assert (pos, r, d) in Missing(s, f.facts) && (pos, r, d) !in Missing(s, g);
  }

  ghost predicate LowerOrSame(s: Section, f: Flow, g: Flow)
  {
    f == g || Lower(s, f.facts, g.facts)
  }

  ghost predicate InRange(s: Section, f: Flow)
  {
    forall k :: k in f.facts ==> k < |s.code|
  }

  lemma {:induction false} MergeAllLowers(s: Section, f: Flow, targets: seq<int>, st: State)
    requires DefsInCode(s, st) && InRange(s, f)
    ensures LowerOrSame(s, f, MergeAll(s, f, targets, st)) && InRange(s, MergeAll(s, f, targets, st))
    decreases |targets|
  {
    if targets != [] {
      var m := MergeState(s, f, targets[0], st);
      if m != f { MergeLowers(s, f, targets[0], st); }
      MergeAllLowers(s, m, targets[1..], st);
    }
  }
}

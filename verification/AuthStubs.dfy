/** `fix_auth_stubs`: giving every authenticated stub a slot of the image's own `__auth_got` and
    pointing the stub's ADRP+ADD pair at it.

    The stub section is an array of instruction words, four per stub; `symbols` is what the address
    database says of each original slot. */
module AuthStubs {
  import opened Wrappers
  import opened Relayout
  import opened A64Words

  /** One stub: its number, its (new) address and the slot its pair named in the cache. */
  datatype Stub = Stub(q: nat, addr: int, got: int)

  datatype Context = Context(sa: int, textDelta: int, agVa: int, agSize: nat, deltas: seq<Range>,
                             symbols: map<int, string>)

  datatype Bind = Bind(slot: int, name: string)

  predicate IsAdrp(w: Word) { w / 0x8000_0000 == 1 && w / 0x100_0000 % 0x20 == 0x10 }

  const PTR := "_ptr."

  /** The imported name of an original slot; none when the database has none. */
  function NameOf(c: Context, got: int): Option<string>
  {
    if got !in c.symbols then None
    else
      var n := c.symbols[got];
      var s := if PTR <= n then n[|PTR|..] else n;
      if s == "" then None else Some(s)
  }

  function StubAt(c: Context, words: seq<Word>, q: nat): (s: Stub)
    requires 4 * q + 1 < |words|
    ensures s.q == q
  {
    var a := c.sa + 16 * q;
    Stub(q, a, AdrpTarget(words[4 * q], a - c.textDelta) + AddImm(words[4 * q + 1]))
  }

  /** The stubs whose first word is an ADRP, in order. */
  function StubsUpTo(c: Context, words: seq<Word>, n: nat): seq<Stub>
    requires 4 * n <= |words|
  {
    if n == 0 then []
    else StubsUpTo(c, words, n - 1) + (if IsAdrp(words[4 * (n - 1)]) then [StubAt(c, words, n - 1)] else [])
  }

  ghost predicate Ordered(c: Context, words: seq<Word>, s: seq<Stub>, n: nat)
    requires 4 * n <= |words|
  {
    && (forall i :: 0 <= i < |s| ==> s[i].q < n && s[i] == StubAt(c, words, s[i].q))
    && (forall i, j :: 0 <= i < j < |s| ==> s[i].q < s[j].q)
  }

  lemma OneMore(c: Context, words: seq<Word>, s: seq<Stub>, n: nat)
    requires 4 * n + 4 <= |words| && Ordered(c, words, s, n)
    ensures Ordered(c, words, s, n + 1) && Ordered(c, words, s + [StubAt(c, words, n)], n + 1)
  {
    hide StubAt;
  }

  lemma {:induction false} StubsAreOrdered(c: Context, words: seq<Word>, n: nat)
    requires 4 * n <= |words|
    ensures Ordered(c, words, StubsUpTo(c, words, n), n)
  {
    if n > 0 {
      hide StubAt, Ordered, IsAdrp;
      StubsAreOrdered(c, words, n - 1);
      OneMore(c, words, StubsUpTo(c, words, n - 1), n - 1);
      assert StubsUpTo(c, words, n - 1) + [] == StubsUpTo(c, words, n - 1);
    }
  }

  ghost predicate Injective(deltas: seq<Range>)
  {
    forall a, b :: Amap(deltas, a).Some? && Amap(deltas, a) == Amap(deltas, b) ==> a == b
  }

  /** The slots that stubs keep: the new addresses of the in-image ones. */
  function Claimed(c: Context, stubs: seq<Stub>): set<int>
  {
    set s | s in stubs && Amap(c.deltas, s.got).Some? :: Amap(c.deltas, s.got).value
  }

  /** A slot address of `__auth_got` that no in-image stub claims. */
  predicate IsFree(c: Context, claimed: set<int>, a: int)
  {
    c.agVa <= a < c.agVa + c.agSize / 8 * 8 && (a - c.agVa) % 8 == 0 && a !in claimed
  }

  /** How slots were handed out to the first stubs: an in-image slot is kept, and every other named stub that
      gets one gets a free slot above all the earlier ones. */
  ghost predicate Assigned(c: Context, stubs: seq<Stub>, slots: seq<Option<int>>, next: int)
  {
    && |slots| <= |stubs|
    && (forall i :: 0 <= i < |slots| && NameOf(c, stubs[i].got) == None ==> slots[i] == None)
    && (forall i :: 0 <= i < |slots| && NameOf(c, stubs[i].got).Some? && Amap(c.deltas, stubs[i].got).Some? ==>
          slots[i] == Amap(c.deltas, stubs[i].got))
    && (forall i :: 0 <= i < |slots| && IsFresh(c, stubs, slots, i) ==>
          IsFree(c, Claimed(c, stubs), slots[i].value) && slots[i].value < next)
    && (forall i, j :: 0 <= i < j < |slots| && IsFresh(c, stubs, slots, i) && IsFresh(c, stubs, slots, j) ==>
          slots[i].value < slots[j].value)
  }

  /** No free slot was skipped, and a named stub goes without only when none is left. */
  ghost predicate Exhaustive(c: Context, stubs: seq<Stub>, slots: seq<Option<int>>, next: int)
    requires |slots| <= |stubs|
  {
    && (forall a :: IsFree(c, Claimed(c, stubs), a) && a < next ==> Some(a) in slots)
    && (forall i :: 0 <= i < |slots| && slots[i] == None && NameOf(c, stubs[i].got).Some? ==>
          NoneFrom(c, Claimed(c, stubs), next))
  }

  ghost predicate NoneFrom(c: Context, claimed: set<int>, from: int)
  {
    forall a :: from <= a ==> !IsFree(c, claimed, a)
  }

  /** A named stub is left without a slot only if every slot that no in-image stub claims was handed out. */
  lemma WithoutSlotOnlyWhenFull(c: Context, stubs: seq<Stub>, slots: seq<Option<int>>, next: int, i: nat, a: int)
    requires |slots| <= |stubs| && Exhaustive(c, stubs, slots, next)
    requires i < |slots| && slots[i] == None && NameOf(c, stubs[i].got).Some? && IsFree(c, Claimed(c, stubs), a)
    ensures exists j :: 0 <= j < |slots| && slots[j] == Some(a)
  {
    hide IsFree, Claimed;
  }

  lemma StaysExhaustive(c: Context, stubs: seq<Stub>, slots: seq<Option<int>>, next: int, slot: Option<int>, next': int)
    requires |slots| < |stubs| && Exhaustive(c, stubs, slots, next) && next <= next'
    requires slot == None && NameOf(c, stubs[|slots|].got).Some? ==> NoneFrom(c, Claimed(c, stubs), next')
    requires forall a :: next <= a < next' && IsFree(c, Claimed(c, stubs), a) ==> slot == Some(a)
    ensures Exhaustive(c, stubs, slots + [slot], next')
  {
    hide IsFree, Claimed, NameOf;
    var slots' := slots + [slot];
    forall a | IsFree(c, Claimed(c, stubs), a) && a < next' ensures Some(a) in slots' {
      if a < next { assert Some(a) in slots; } else { assert slots'[|slots|] == Some(a); }
    }
    forall i | 0 <= i < |slots'| && slots'[i] == None && NameOf(c, stubs[i].got).Some?
      ensures NoneFrom(c, Claimed(c, stubs), next') {
      if i < |slots| { assert slots'[i] == slots[i]; }
    }
  }

  ghost predicate IsFresh(c: Context, stubs: seq<Stub>, slots: seq<Option<int>>, i: nat)
    requires i < |slots| <= |stubs|
  {
    slots[i].Some? && Amap(c.deltas, stubs[i].got) == None
  }

  lemma KeptIsClaimed(c: Context, stubs: seq<Stub>, slots: seq<Option<int>>, next: int, i: nat)
    requires Assigned(c, stubs, slots, next) && i < |slots| && slots[i].Some? && !IsFresh(c, stubs, slots, i)
    ensures slots[i] == Amap(c.deltas, stubs[i].got) && slots[i].value in Claimed(c, stubs)
  {
    assert stubs[i] in stubs;
  }

  /** Every slot that was handed out carries exactly one symbol: two stubs share a slot only when they
      named the same in-image slot to begin with. */
  lemma SlotsAreAFunction(c: Context, stubs: seq<Stub>, slots: seq<Option<int>>, next: int, i: nat, j: nat)
    requires Injective(c.deltas) && Assigned(c, stubs, slots, next) && i < |slots| && j < |slots|
    requires slots[i].Some? && slots[i] == slots[j]
    ensures NameOf(c, stubs[i].got) == NameOf(c, stubs[j].got)
    ensures i == j || (stubs[i].got == stubs[j].got && Amap(c.deltas, stubs[i].got) == slots[i])
  {
    hide NameOf, Claimed;
    if !IsFresh(c, stubs, slots, i) { KeptIsClaimed(c, stubs, slots, next, i); }
    if !IsFresh(c, stubs, slots, j) { KeptIsClaimed(c, stubs, slots, next, j); }
  }

  /** The pair of a repointed stub computes its slot at its new address exactly when the slot is in ADRP
      reach. */
  lemma PairReachesSlot(adrp: Word, add: Word, pc: int, slot: int)
    ensures AdrpTarget(SetAdrp(adrp, pc, slot), pc) + AddImm(SetAddImm(add, slot % 0x1000)) == slot <==>
              InAdrpReach(pc, slot)
  {
    hide SetAdrp, AdrpTarget, InAdrpReach, SetAddImm;
    SetAdrpDecodes(adrp, pc, slot);
    AddCarries(add, slot % 0x1000);
    assert slot == PageOf(slot) + slot % 0x1000;
  }

  lemma AddCarries(w: Word, imm: int)
    requires 0 <= imm < 0x1000
    ensures AddImm(SetAddImm(w, imm)) == imm
  {
    SetAddImmFields(w, imm);
  }

  /** The words of a stub's pair. */
  predicate Touches(s: Stub, w: int) { w == 4 * s.q || w == 4 * s.q + 1 }

  /** Word `w` belongs to a stub that got a slot. */
  ghost predicate Touched(stubs: seq<Stub>, slots: seq<Option<int>>, w: int)
    requires |slots| <= |stubs|
  {
    exists i :: 0 <= i < |slots| && slots[i].Some? && Touches(stubs[i], w)
  }

  /** The stub's pair is repointed to slot `x`. */
  predicate PairPoints(s: Stub, x: int, before: seq<Word>, after: seq<Word>)
    requires |after| == |before| && 4 * s.q + 1 < |before|
  {
    after[4 * s.q] == SetAdrp(before[4 * s.q], s.addr, x)
      && after[4 * s.q + 1] == SetAddImm(before[4 * s.q + 1], x % 0x1000)
  }

  /** The section after the first stubs have been handled: bound pairs are repointed, every other word is as it
      was. */
  ghost predicate Repointed(c: Context, stubs: seq<Stub>, slots: seq<Option<int>>, before: seq<Word>, after: seq<Word>)
    requires |slots| <= |stubs|
  {
    && |after| == |before|
    && (forall i :: 0 <= i < |slots| ==> 4 * stubs[i].q + 1 < |before|)
    && (forall i :: 0 <= i < |slots| && slots[i].Some? ==> PairPoints(stubs[i], slots[i].value, before, after))
    && (forall w :: 0 <= w < |before| && !Touched(stubs, slots, w) ==> after[w] == before[w])
  }

  /** No free slot starts in the eight bytes of a claimed one. */
  lemma NoneFreeAt(c: Context, claimed: set<int>, a: int, x: int)
    requires (a - c.agVa) % 8 == 0 && a in claimed && a <= x < a + 8
    ensures !IsFree(c, claimed, x)
  {
    var k := (a - c.agVa) / 8;
    assert a - c.agVa == 8 * k;
    if x > a { assert (x - c.agVa) % 8 == x - a; }
  }

  /** The generator of free slots: the first one from `from` on. */
  method NextFree(c: Context, claimed: set<int>, from: int) returns (slot: Option<int>)
    requires c.agVa <= from && (from - c.agVa) % 8 == 0
    ensures slot.Some? ==> IsFree(c, claimed, slot.value) && from <= slot.value
    ensures slot.Some? ==> forall a :: from <= a < slot.value ==> !IsFree(c, claimed, a)
    ensures slot == None ==> NoneFrom(c, claimed, from)
  {
    var a, end := from, c.agVa + c.agSize / 8 * 8;
    while a < end
      invariant from <= a && (a - c.agVa) % 8 == 0
      invariant forall x :: from <= x < a ==> !IsFree(c, claimed, x)
    {
      if a !in claimed { return Some(a); }
      hide IsFree;
      forall x | a <= x < a + 8 ensures !IsFree(c, claimed, x) { NoneFreeAt(c, claimed, a, x); }
      a := a + 8;
    }
    return None;
  }

  method CollectStubs(c: Context, words: array<Word>, n: nat) returns (stubs: seq<Stub>)
    requires 4 * n <= words.Length
    ensures stubs == StubsUpTo(c, words[..], n)
  {
    stubs := [];
    for q := 0 to n
      invariant stubs == StubsUpTo(c, words[..], q)
    {
      if IsAdrp(words[4 * q]) {
        stubs := stubs + [StubAt(c, words[..], q)];
      }
    }
  }

  ghost predicate StubsFit(stubs: seq<Stub>, words: nat)
  {
    && (forall i :: 0 <= i < |stubs| ==> 4 * stubs[i].q + 1 < words)
    && (forall i, j :: 0 <= i < j < |stubs| ==> stubs[i].q < stubs[j].q)
  }

  lemma TouchedByMore(stubs: seq<Stub>, slots: seq<Option<int>>, slot: Option<int>, w: int)
    requires |slots| < |stubs|
    ensures Touched(stubs, slots + [slot], w) <==>
              Touched(stubs, slots, w) || (slot.Some? && Touches(stubs[|slots|], w))
  {
    hide Touches;
    var slots' := slots + [slot];
    assert slots'[|slots|] == slot;
    if i :| 0 <= i < |slots| && slots[i].Some? && Touches(stubs[i], w) { assert slots'[i] == slots[i]; }
  }

  lemma SkipStub(c: Context, stubs: seq<Stub>, slots: seq<Option<int>>, before: seq<Word>, after: seq<Word>)
    requires |slots| < |stubs| && StubsFit(stubs, |before|) && Repointed(c, stubs, slots, before, after)
    ensures Repointed(c, stubs, slots + [None], before, after)
  {
    hide Touched, PairPoints;
    forall w | 0 <= w < |before| && !Touched(stubs, slots + [None], w) ensures after[w] == before[w] {
      TouchedByMore(stubs, slots, None, w);
    }
  }

  /** The words of a stub are not touched before its turn. */
  lemma PairIsFresh(stubs: seq<Stub>, slots: seq<Option<int>>, words: nat, w: int)
    requires |slots| < |stubs| && StubsFit(stubs, words) && Touches(stubs[|slots|], w)
    ensures !Touched(stubs, slots, w)
  {
    forall i | 0 <= i < |slots| && slots[i].Some? ensures !Touches(stubs[i], w) {
      assert stubs[i].q < stubs[|slots|].q;
    }
  }

  lemma RepointStub(c: Context, stubs: seq<Stub>, slots: seq<Option<int>>, before: seq<Word>, after: seq<Word>, x: int)
    requires |slots| < |stubs| && StubsFit(stubs, |before|) && Repointed(c, stubs, slots, before, after)
    ensures var s := stubs[|slots|];
            Repointed(c, stubs, slots + [Some(x)], before,
                      after[4 * s.q := SetAdrp(after[4 * s.q], s.addr, x)]
                      [4 * s.q + 1 := SetAddImm(after[4 * s.q + 1], x % 0x1000)])
  {
    hide SetAdrp, SetAddImm, Touched;
    var n, s := |slots|, stubs[|slots|];
    PairIsFresh(stubs, slots, |before|, 4 * s.q);
    PairIsFresh(stubs, slots, |before|, 4 * s.q + 1);
    var slots' := slots + [Some(x)];
    var after' :=
      after[4 * s.q := SetAdrp(after[4 * s.q], s.addr, x)][4 * s.q + 1 := SetAddImm(after[4 * s.q + 1], x % 0x1000)];
    forall i | 0 <= i < n + 1 && slots'[i].Some? ensures PairPoints(stubs[i], slots'[i].value, before, after') {
      if i < n { assert slots'[i] == slots[i] && stubs[i].q < s.q; }
    }
    forall w | 0 <= w < |before| && !Touched(stubs, slots', w) ensures after'[w] == before[w] {
      TouchedByMore(stubs, slots, Some(x), w);
    }
  }

  /** The choice of slot for stub `i`. */
  method ChooseSlot(c: Context, got: int, claimed: set<int>, next: int, ghost stubs: seq<Stub>,
                    ghost slots: seq<Option<int>>)
      returns (slot: Option<int>, next': int)
    requires |slots| < |stubs| && got == stubs[|slots|].got
    requires claimed == Claimed(c, stubs) && Assigned(c, stubs, slots, next) && Exhaustive(c, stubs, slots, next)
    requires c.agVa <= next && (next - c.agVa) % 8 == 0
    ensures Assigned(c, stubs, slots + [slot], next') && Exhaustive(c, stubs, slots + [slot], next')
    ensures next <= next' && c.agVa <= next' && (next' - c.agVa) % 8 == 0
    ensures slot.Some? ==> NameOf(c, stubs[|slots|].got).Some?
  {
    hide NameOf, Claimed, Exhaustive;
    next', slot := next, None;
    if NameOf(c, got).Some? {
      slot := Amap(c.deltas, got);
      if slot == None {
        slot := NextFree(c, claimed, next);
        if slot.Some? { next' := slot.value + 8; }
      }
    }
    StaysExhaustive(c, stubs, slots, next, slot, next');
  }

  /** `fix_auth_stubs`.  Every returned bind is the slot of one stub with that stub's symbol. */
  method FixAuthStubs(c: Context, words: array<Word>, n: nat)
      returns (binds: seq<Bind>, ghost stubs: seq<Stub>, ghost slots: seq<Option<int>>)
    requires 4 * n <= words.Length
    modifies words
    ensures stubs == StubsUpTo(c, old(words[..]), n) && |slots| == |stubs|
    ensures exists next :: Assigned(c, stubs, slots, next) && Exhaustive(c, stubs, slots, next)
    ensures Repointed(c, stubs, slots, old(words[..]), words[..])
    ensures Listed(c, stubs, slots, binds)
  {
    hide NameOf, Claimed, SetAdrp, SetAddImm, IsAdrp, StubAt, StubsUpTo, Assigned, Exhaustive, Repointed, Listed;
    var list := CollectStubs(c, words, n);
    stubs, slots, binds := list, [], [];
    StubsAreOrdered(c, words[..], n);
    StubsHavePairs(c, words[..], n, list);
    var claimed := Claimed(c, list);
    var next := c.agVa;
    ghost var before := words[..];
    NothingYet(c, stubs, before);
    for i := 0 to |list|
      invariant |slots| == i && Assigned(c, stubs, slots, next) && Exhaustive(c, stubs, slots, next)
      invariant c.agVa <= next && (next - c.agVa) % 8 == 0
      invariant Repointed(c, stubs, slots, before, words[..])
      invariant Listed(c, stubs, slots, binds)
    {
      var slot;
      slot, next := ChooseSlot(c, list[i].got, claimed, next, stubs, slots);
      if slot.Some? {
        RepointStub(c, stubs, slots, before, words[..], slot.value);
        PointAt(words, list[i].q, list[i].addr, slot.value);
        BindListed(c, stubs, slots, binds, slot.value);
        binds := binds + [Bind(slot.value, NameOf(c, list[i].got).value)];
      } else {
        SkipStub(c, stubs, slots, before, words[..]);
        NoBind(c, stubs, slots, binds);
      }
      slots := slots + [slot];
    }
  }

  lemma StubsHavePairs(c: Context, words: seq<Word>, n: nat, stubs: seq<Stub>)
    requires 4 * n <= |words| && stubs == StubsUpTo(c, words, n)
    ensures StubsFit(stubs, |words|)
  {
    hide StubsUpTo, StubAt;
    StubsAreOrdered(c, words, n);
    assert Ordered(c, words, stubs, n);
  }

  method PointAt(words: array<Word>, q: nat, addr: int, slot: int)
    requires 4 * q + 1 < words.Length
    modifies words
    ensures words[..] == old(words[..])[4 * q := SetAdrp(old(words[4 * q]), addr, slot)]
                                       [4 * q + 1 := SetAddImm(old(words[4 * q + 1]), slot % 0x1000)]
  {
    hide SetAdrp, SetAddImm;
    words[4 * q] := SetAdrp(words[4 * q], addr, slot);
    words[4 * q + 1] := SetAddImm(words[4 * q + 1], slot % 0x1000);
  }

  lemma NothingYet(c: Context, stubs: seq<Stub>, words: seq<Word>)
    ensures Assigned(c, stubs, [], c.agVa) && Exhaustive(c, stubs, [], c.agVa)
    ensures Repointed(c, stubs, [], words, words) && Listed(c, stubs, [], [])
  {
  }

  /** The binds are exactly the slots handed out, each with its stub's symbol. */
  ghost predicate Listed(c: Context, stubs: seq<Stub>, slots: seq<Option<int>>, binds: seq<Bind>)
  {
    && |slots| <= |stubs|
    && (forall b :: b in binds ==>
          exists i :: 0 <= i < |slots| && slots[i] == Some(b.slot) && NameOf(c, stubs[i].got) == Some(b.name))
    && (forall i :: 0 <= i < |slots| && slots[i].Some? ==>
          NameOf(c, stubs[i].got).Some? && Bind(slots[i].value, NameOf(c, stubs[i].got).value) in binds)
  }

  lemma NoBind(c: Context, stubs: seq<Stub>, slots: seq<Option<int>>, binds: seq<Bind>)
    requires |slots| < |stubs| && Listed(c, stubs, slots, binds)
    ensures Listed(c, stubs, slots + [None], binds)
  {
    hide NameOf;
    var slots' := slots + [None];
    assert forall i :: 0 <= i < |slots| ==> slots'[i] == slots[i];
  }

  lemma BindListed(c: Context, stubs: seq<Stub>, slots: seq<Option<int>>, binds: seq<Bind>, x: int)
    requires |slots| < |stubs| && Listed(c, stubs, slots, binds) && NameOf(c, stubs[|slots|].got).Some?
    ensures Listed(c, stubs, slots + [Some(x)], binds + [Bind(x, NameOf(c, stubs[|slots|].got).value)])
  {
    hide NameOf;
    var slots' := slots + [Some(x)];
    var binds' := binds + [Bind(x, NameOf(c, stubs[|slots|].got).value)];
    forall b | b in binds'
      ensures exists i :: 0 <= i < |slots'| && slots'[i] == Some(b.slot) && NameOf(c, stubs[i].got) == Some(b.name) {
      if b in binds {
        var i :| 0 <= i < |slots| && slots[i] == Some(b.slot) && NameOf(c, stubs[i].got) == Some(b.name);
        assert slots'[i] == slots[i];
      } else {
        assert slots'[|slots|] == Some(b.slot);
      }
    }
  }

  // ---------------------------------------------------------------- what it is for

  /** A stub at `sa` + 16`q` whose pair was built for slot `g` at the address it had in the cache is read as a stub
      of `g`, when its ADRP reached. */
  lemma StubReadsItsSlot(c: Context, words: seq<Word>, q: nat, adrp: Word, add: Word, g: int)
    requires 4 * q + 1 < |words|
    requires words[4 * q] == SetAdrp(adrp, c.sa + 16 * q - c.textDelta, g)
    requires words[4 * q + 1] == SetAddImm(add, g % 0x1000)
    ensures StubAt(c, words, q).addr == c.sa + 16 * q
    ensures StubAt(c, words, q).got == g <==> InAdrpReach(c.sa + 16 * q - c.textDelta, g)
  {
    hide SetAdrp, AdrpTarget, InAdrpReach, SetAddImm, AddImm;
    PairReachesSlot(adrp, add, c.sa + 16 * q - c.textDelta, g);
  }

  /** A word is an ADRP when bits 31 and 24 to 28 are those of the encoding, whatever immediate and register. */
  lemma IsAdrpIff(w: Word)
    ensures IsAdrp(w) <==> w == 0x9000_0000 + w / 0x2000_0000 % 4 * 0x2000_0000 + w % 0x100_0000
  {
    var h := w / 0x100_0000;
    assert w / 0x8000_0000 == h / 0x80 && w / 0x2000_0000 == h / 0x20;
    assert w == 0x100_0000 * h + w % 0x100_0000;
  }

  /** Exactly the stubs that begin with an ADRP are treated. */
  lemma {:induction false} StubsAreTheAdrps(c: Context, words: seq<Word>, n: nat, q: nat)
    requires 4 * n <= |words| && q < n
    ensures IsAdrp(words[4 * q]) ==> StubAt(c, words, q) in StubsUpTo(c, words, n)
    ensures forall s <- StubsUpTo(c, words, n) :: s.q == q ==> IsAdrp(words[4 * q])
  {
    hide StubAt, IsAdrp, Ordered;
    StubsAreOrdered(c, words, n - 1);
    AllBelow(c, words, StubsUpTo(c, words, n - 1), n - 1);
    if q < n - 1 { StubsAreTheAdrps(c, words, n - 1, q); }
  }

  lemma AllBelow(c: Context, words: seq<Word>, s: seq<Stub>, n: nat)
    requires 4 * n <= |words| && Ordered(c, words, s, n)
    ensures forall x <- s :: x.q < n
  {
    hide StubAt;
  }

  /** The symbol of a slot is its name, without the prefix the database gives pointers. */
  lemma NamesAreStripped(c: Context, got: int, name: string)
    requires got in c.symbols && name != ""
    ensures c.symbols[got] == "_ptr." + name ==> NameOf(c, got) == Some(name)
    ensures c.symbols[got] == name && !("_ptr." <= name) ==> NameOf(c, got) == Some(name)
  {
  }

  /** The free slots are the whole pointers of the section that no in-image stub uses. */
  lemma FreeIff(c: Context, stubs: seq<Stub>, a: int)
    ensures IsFree(c, Claimed(c, stubs), a) <==>
              && c.agVa <= a && a + 8 <= c.agVa + c.agSize && (a - c.agVa) % 8 == 0
              && forall s <- stubs :: Amap(c.deltas, s.got) != Some(a)
  {
    hide Amap;
    if a >= c.agVa { WholePointers(c.agSize, a - c.agVa); }
  }

  lemma WholePointers(size: nat, d: int)
    requires d >= 0
    ensures d % 8 == 0 ==> (d < size / 8 * 8 <==> d + 8 <= size)
  {
    var k, m := d / 8, size / 8;
    assert size - 8 * m == size % 8;
    if d % 8 == 0 { assert d == 8 * k; }
  }

  /** What `fix_auth_stubs` is for.  A stub that got a slot computes that slot at its new address, when it is in
      reach; the slot is bound to the symbol of the slot it named in the cache, and to no other. */
  lemma StubReachesItsSymbol(c: Context, stubs: seq<Stub>, slots: seq<Option<int>>, next: int, binds: seq<Bind>,
                             before: seq<Word>, after: seq<Word>, i: nat)
    requires Injective(c.deltas) && Assigned(c, stubs, slots, next) && i < |slots| && slots[i].Some?
    requires Repointed(c, stubs, slots, before, after) && Listed(c, stubs, slots, binds)
    ensures |after| == |before| && 4 * stubs[i].q + 1 < |after|
    ensures AdrpTarget(after[4 * stubs[i].q], stubs[i].addr) + AddImm(after[4 * stubs[i].q + 1]) == slots[i].value
            <==> InAdrpReach(stubs[i].addr, slots[i].value)
    ensures NameOf(c, stubs[i].got).Some? && Bind(slots[i].value, NameOf(c, stubs[i].got).value) in binds
    ensures forall b <- binds :: b.slot == slots[i].value ==> NameOf(c, stubs[i].got) == Some(b.name)
  {
    hide SetAdrp, AdrpTarget, InAdrpReach, SetAddImm, AddImm, NameOf, Assigned, Touched, Injective;
    var q := stubs[i].q;
    PairReachesSlot(before[4 * q], before[4 * q + 1], stubs[i].addr, slots[i].value);
    forall b | b in binds && b.slot == slots[i].value ensures NameOf(c, stubs[i].got) == Some(b.name) {
      var j :| 0 <= j < |slots| && slots[j] == Some(b.slot) && NameOf(c, stubs[j].got) == Some(b.name);
      SlotsAreAFunction(c, stubs, slots, next, i, j);
    }
  }
}

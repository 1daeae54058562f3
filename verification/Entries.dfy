/** Classifying the fixups of the cache image and emitting them in the relocated address space: the
    loop that fills `entries` and the import list. */
module Entries {
  import opened Wrappers
  import opened Relayout
  import opened ChainWords

  const TOP_BYTE := 0x100_0000_0000_0000   // 2^56

  /** One collected fixup: location, raw target, and the authentication fields. */
  datatype Fix = Fix(addr: int, target: nat, auth: bool, key: int, div: int, ad: int)

  /** What the classification consults: the address map, the image's old segments, the addresses of
      localized strings, the (canonical) symbol of each foreign target, and the pointer already stored
      at each new location. */
  datatype Context = Context(deltas: seq<Range>, nbase: int, inImage: seq<Range>, localize: map<int, int>,
                             names: map<int, string>, stored: map<int, nat>)

  const PROTOCOL_CLASS := "_OBJC_CLASS_$_Protocol"

  function RealTarget(f: Fix): int { if f.auth then f.target else f.target % TOP_BYTE }

  function High8(f: Fix): int { if f.auth then 0 else f.target / TOP_BYTE % 0x100 }

  /** What a pointer means once loaded. */
  datatype Meaning = Address(a: int) | Symbol(name: string)

  /** What the relocated pointer should mean: the new address of its old target, the local copy of a
      string, the localized protocol, or the named symbol; None when the target has no name. */
  function Intended(c: Context, f: Fix): Option<Meaning>
  {
    var t := RealTarget(f);
    if DeltaOf(c.inImage, t).Some? then
      match Amap(c.deltas, t)
      case Some(a) => Some(Address(a))
      case None => None
    else if t in c.localize then Some(Address(c.localize[t]))
    else if t in c.names && c.names[t] == PROTOCOL_CLASS && LocalProtocol(c, f).Some? then
      Some(Address(LocalProtocol(c, f).value))
    else if t in c.names && c.names[t] != "" then Some(Symbol(c.names[t]))
    else None
  }

  /** The new address of the protocol that the extractor stored at a protocol reference. */
  function LocalProtocol(c: Context, f: Fix): Option<int>
  {
    match Amap(c.deltas, f.addr)
    case None => None
    case Some(loc) => if loc in c.stored then Amap(c.deltas, c.stored[loc] % TOP_BYTE) else None
  }

  /** What the loader resolves an entry to. */
  function Resolve(nbase: int, imports: seq<string>, e: Fixup): Option<Meaning>
  {
    if !e.bind then Some(Address(nbase + e.val))
    else if 0 <= e.val < |imports| then Some(Symbol(imports[e.val]))
    else None
  }

  /** Entry `e` carries fixup `f`: its meaning and its authentication fields. */
  predicate Carries(c: Context, imports: seq<string>, f: Fix, e: Fixup)
  {
    && Intended(c, f).Some? && Resolve(c.nbase, imports, e) == Intended(c, f)
    && e.auth == f.auth && e.key == f.key && e.div == f.div && e.ad == f.ad && e.high8 == High8(f)
  }

  /** No two fixups share a location, and every location is mapped. */
  ghost predicate Placed(c: Context, fx: seq<Fix>)
  {
    && (forall i :: 0 <= i < |fx| ==> Amap(c.deltas, fx[i].addr).Some?)
    && (forall i, j :: 0 <= i < j < |fx| ==> fx[i].addr != fx[j].addr)
    && (forall a, b :: Amap(c.deltas, a).Some? && Amap(c.deltas, a) == Amap(c.deltas, b) ==> a == b)
  }

  /** A slot rebuilt by another pass: a bind of a symbol, plain or signed, or a plain pointer into the image. */
  datatype Rebuilt = Rebuilt(slot: int, bind: Option<string>, target: int, auth: bool) {
    predicate Sound() { bind == None ==> !auth }

    function Meaning(): Meaning { if bind.Some? then Symbol(bind.value) else Address(target) }
  }

  predicate CarriesSlot(c: Context, imports: seq<string>, r: Rebuilt, e: Fixup)
  {
    && Resolve(c.nbase, imports, e) == Some(r.Meaning())
    && e.auth == r.auth && e.key == 0 && e.div == 0 && e.ad == (if r.auth then 1 else 0) && e.high8 == 0
  }

  /** Of the first `n` slots, slot `i` is the last one at its location. */
  ghost predicate LastOf(slots: seq<Rebuilt>, n: nat, i: int)
  {
    0 <= i < n <= |slots| && forall j :: i < j < n ==> slots[j].slot != slots[i].slot
  }

  // ---------------------------------------------------------------- the import list

  /** A name is listed the first time it is asked for. */
  function Listed(imports: seq<string>, m: Option<Meaning>): (r: seq<string>)
    ensures imports <= r
  {
    if m.Some? && m.value.Symbol? && m.value.name !in imports then imports + [m.value.name] else imports
  }

  /** The import list after the first `n` fixups. */
  function FixImports(c: Context, fx: seq<Fix>, n: nat): seq<string>
    requires n <= |fx|
  {
    if n == 0 then [] else Listed(FixImports(c, fx, n - 1), Intended(c, fx[n - 1]))
  }

  /** And after the first `n` slots that follow them. */
  function SlotImports(imports: seq<string>, slots: seq<Rebuilt>, n: nat): seq<string>
    requires n <= |slots|
  {
    if n == 0 then imports else Listed(SlotImports(imports, slots, n - 1), Some(slots[n - 1].Meaning()))
  }

  /** The import list of the output: the names that fixups and slots ask for, in the order of their first use. */
  function ImportsOf(c: Context, fx: seq<Fix>, slots: seq<Rebuilt>): seq<string>
  {
    SlotImports(FixImports(c, fx, |fx|), slots, |slots|)
  }

  /** Some fixup or slot is to mean this symbol. */
  ghost predicate IsWanted(c: Context, fx: seq<Fix>, slots: seq<Rebuilt>, name: string)
  {
    || (exists k :: 0 <= k < |fx| && Intended(c, fx[k]) == Some(Symbol(name)))
    || exists r <- slots :: r.bind == Some(name)
  }

  ghost predicate NoneTwice(imports: seq<string>)
  {
    forall i, j :: 0 <= i < j < |imports| ==> imports[i] != imports[j]
  }

  lemma ListedIs(imports: seq<string>, m: Option<Meaning>, name: string)
    ensures name in Listed(imports, m) <==> name in imports || m == Some(Symbol(name))
    ensures NoneTwice(imports) ==> NoneTwice(Listed(imports, m))
  {
  }

  lemma {:induction false} FixImportsAre(c: Context, fx: seq<Fix>, n: nat, name: string)
    requires n <= |fx|
    ensures name in FixImports(c, fx, n) <==> exists k :: 0 <= k < n && Intended(c, fx[k]) == Some(Symbol(name))
    ensures NoneTwice(FixImports(c, fx, n)) && |FixImports(c, fx, n)| <= n
  {
    hide Intended, NoneTwice;
    if n == 0 {
      NothingTwice();
    } else {
      FixImportsAre(c, fx, n - 1, name);
      ListedIs(FixImports(c, fx, n - 1), Intended(c, fx[n - 1]), name);
    }
  }

  lemma NothingTwice()
    ensures NoneTwice([])
  {
  }

  lemma {:induction false} SlotImportsAre(imports: seq<string>, slots: seq<Rebuilt>, n: nat, name: string)
    requires n <= |slots| && NoneTwice(imports)
    ensures name in SlotImports(imports, slots, n) <==>
            name in imports || exists i :: 0 <= i < n && slots[i].bind == Some(name)
    ensures NoneTwice(SlotImports(imports, slots, n)) && |SlotImports(imports, slots, n)| <= |imports| + n
  {
    hide NoneTwice;
    if n > 0 {
      SlotImportsAre(imports, slots, n - 1, name);
      ListedIs(SlotImports(imports, slots, n - 1), Some(slots[n - 1].Meaning()), name);
    }
  }

  /** The import list holds exactly the wanted symbols, each once. */
  lemma ImportsAreTheWanted(c: Context, fx: seq<Fix>, slots: seq<Rebuilt>, name: string)
    ensures name in ImportsOf(c, fx, slots) <==> IsWanted(c, fx, slots, name)
    ensures NoneTwice(ImportsOf(c, fx, slots)) && |ImportsOf(c, fx, slots)| <= |fx| + |slots|
  {
    hide Intended, NoneTwice;
    FixImportsAre(c, fx, |fx|, name);
    SlotImportsAre(FixImports(c, fx, |fx|), slots, |slots|, name);
    if i :| 0 <= i < |slots| && slots[i].bind == Some(name) { assert slots[i] in slots; }
  }

  lemma ImportsOnlyGrow(c: Context, imports: seq<string>, more: seq<string>, f: Fix, e: Fixup)
    requires Carries(c, imports, f, e)
    ensures Carries(c, imports + more, f, e)
  {
  }

  class Emitter {
    const c: Context
    var imports: seq<string>
    var impidx: map<string, nat>
    var entries: map<int, Fixup>

    /** The index map and the import list are inverse, so no name is listed twice. */
    ghost predicate Valid()
      reads this
    {
      && (forall n :: n in impidx ==> impidx[n] < |imports| && imports[impidx[n]] == n)
      && (forall i :: 0 <= i < |imports| ==> imports[i] in impidx && impidx[imports[i]] == i)
    }

    constructor (context: Context)
      ensures Valid() && c == context && imports == [] && entries == map[]
    {
      c, imports, impidx, entries := context, [], map[], map[];
    }

    method Intern(name: string) returns (i: nat)
      requires Valid()
      modifies this`imports, this`impidx
      ensures Valid() && i < |imports| && imports[i] == name
      ensures imports == Listed(old(imports), Some(Symbol(name)))
    {
      if name !in impidx {
        impidx := impidx[name := |imports|];
        imports := imports + [name];
      }
      i := impidx[name];
    }

    /** One round of the classification loop; an unnamed foreign target stops the run. */
    method AddFix(f: Fix) returns (ok: bool)
      requires Valid() && Amap(c.deltas, f.addr).Some?
      modifies this
      ensures Valid() && imports == Listed(old(imports), Intended(c, f))
      ensures ok ==> exists e :: Carries(c, imports, f, e) && entries == old(entries)[Amap(c.deltas, f.addr).value := e]
      ensures ok <==> Intended(c, f).Some?
    {
      var loc := Amap(c.deltas, f.addr).value;
      var t := RealTarget(f);
      var e: Fixup;
      if DeltaOf(c.inImage, t).Some? {
        var a := Amap(c.deltas, t);
        if a == None { return false; }
        e := Fixup(false, a.value - c.nbase, f.auth, f.key, f.div, f.ad, High8(f));
      } else if t in c.localize {
        e := Fixup(false, c.localize[t] - c.nbase, f.auth, f.key, f.div, f.ad, High8(f));
      } else {
        var local := if t in c.names && c.names[t] == PROTOCOL_CLASS then LocalProtocol(c, f) else None;
        if local.Some? {
          e := Fixup(false, local.value - c.nbase, f.auth, f.key, f.div, f.ad, High8(f));
        } else {
          if t !in c.names || c.names[t] == "" { return false; }
          var i := Intern(c.names[t]);
          e := Fixup(true, i, f.auth, f.key, f.div, f.ad, High8(f));
        }
      }
      assert Carries(c, imports, f, e);
      entries := entries[loc := e];
      ok := true;
    }

    ghost predicate Holds(fx: seq<Fix>, n: nat)
      reads this
      requires n <= |fx|
    {
      forall i :: 0 <= i < n ==>
        var loc := Amap(c.deltas, fx[i].addr);
        loc.Some? && loc.value in entries && Carries(c, imports, fx[i], entries[loc.value])
    }

    /** The whole loop: every fixup ends up at the new address of its location with the meaning it
        should have, whatever was interned afterwards. */
    method AddAll(fx: seq<Fix>) returns (ok: bool)
      requires Valid() && Placed(c, fx) && entries == map[] && imports == []
      modifies this
      ensures Valid()
      ensures ok ==> Holds(fx, |fx|) && imports == FixImports(c, fx, |fx|)
      ensures ok ==> forall loc :: loc in entries ==>
                exists i :: 0 <= i < |fx| && Amap(c.deltas, fx[i].addr) == Some(loc)
      ensures ok <==> forall i :: 0 <= i < |fx| ==> Intended(c, fx[i]).Some?
    {
      for n := 0 to |fx|
        invariant Valid() && Holds(fx, n) && imports == FixImports(c, fx, n)
        invariant forall loc :: loc in entries ==> exists i :: 0 <= i < n && Amap(c.deltas, fx[i].addr) == Some(loc)
        invariant forall i :: 0 <= i < n ==> Intended(c, fx[i]).Some?
      {
        ok := AddNext(fx, n);
        if !ok { return; }
      }
      ok := true;
    }

    method AddNext(fx: seq<Fix>, n: nat) returns (ok: bool)
      requires Valid() && Placed(c, fx) && n < |fx| && Holds(fx, n)
      modifies this
      ensures Valid() && (ok <==> Intended(c, fx[n]).Some?)
      ensures ok ==> Holds(fx, n + 1) && imports == Listed(old(imports), Intended(c, fx[n]))
      ensures ok ==> entries.Keys == old(entries.Keys) + {Amap(c.deltas, fx[n].addr).value}
    {
      hide Carries, Intended, RealTarget;
      ghost var before, was := imports, entries;
      ok := AddFix(fx[n]);
      if !ok { return; }
      forall i | 0 <= i < n
        ensures Amap(c.deltas, fx[i].addr).value in entries
        ensures Carries(c, imports, fx[i], entries[Amap(c.deltas, fx[i].addr).value])
      {
        assert fx[i].addr != fx[n].addr;
        assert Amap(c.deltas, fx[i].addr) != Amap(c.deltas, fx[n].addr);
        ImportsOnlyGrow(c, before, imports[|before|..], fx[i], was[Amap(c.deltas, fx[i].addr).value]);
        assert before + imports[|before|..] == imports;
      }
    }

    /** A rebuilt slot (selector pool, external-data pool or authenticated stub) is bound or rebased
        after the loop and replaces whatever was there. */
    method AddSlot(r: Rebuilt)
      requires Valid() && r.Sound()
      modifies this`imports, this`impidx, this`entries
      ensures Valid() && r.slot in entries && CarriesSlot(c, imports, r, entries[r.slot])
      ensures imports == Listed(old(imports), Some(r.Meaning()))
      ensures entries == old(entries)[r.slot := entries[r.slot]]
    {
      var ad := if r.auth then 1 else 0;
      if r.bind.Some? {
        var i := Intern(r.bind.value);
        entries := entries[r.slot := Fixup(true, i, r.auth, 0, 0, ad, 0)];
      } else {
        entries := entries[r.slot := Fixup(false, r.target - c.nbase, r.auth, 0, 0, ad, 0)];
      }
    }

    /** All rebuilt slots: the last one of a location wins, and other locations keep their entries. */
    method AddSlots(slots: seq<Rebuilt>)
      requires Valid() && forall r <- slots :: r.Sound()
      modifies this`imports, this`impidx, this`entries
      ensures Valid() && SlotsHold(slots, |slots|) && imports == SlotImports(old(imports), slots, |slots|)
      ensures old(imports) <= imports
      ensures forall a :: (forall r <- slots :: r.slot != a) ==> (a in entries <==> a in old(entries))
      ensures forall a <- entries :: (forall r <- slots :: r.slot != a) ==> entries[a] == old(entries)[a]
    {
      hide Listed, CarriesSlot, LastOf, SlotsHeld, Valid;
      NoSlots(slots);
      ghost var first, was := imports, entries;
      for n := 0 to |slots|
        invariant Valid() && SlotsHold(slots, n) && imports == SlotImports(first, slots, n) && first <= imports
        invariant forall a :: (forall r <- slots :: r.slot != a) ==> (a in entries <==> a in was)
        invariant forall a <- entries :: (forall r <- slots :: r.slot != a) ==> entries[a] == was[a]
      {
        ghost var before, old_ := imports, entries;
        AddSlot(slots[n]);
        SlotsStay(slots, n, before, old_);
        assert slots[n] in slots;
      }
    }

    /** The last of the first `n` slots of every location is what that location's entry carries. */
    ghost predicate SlotsHold(slots: seq<Rebuilt>, n: nat)
      reads this
      requires n <= |slots|
    {
      SlotsHeld(imports, entries, slots, n)
    }

    ghost predicate SlotsHeld(imports: seq<string>, entries: map<int, Fixup>, slots: seq<Rebuilt>, n: nat)
      requires n <= |slots|
    {
      forall i :: LastOf(slots, n, i) ==>
        slots[i].slot in entries && CarriesSlot(c, imports, slots[i], entries[slots[i].slot])
    }

    lemma NoSlots(slots: seq<Rebuilt>)
      ensures SlotsHold(slots, 0)
    {
    }

    lemma SlotsStay(slots: seq<Rebuilt>, n: nat, before: seq<string>, was: map<int, Fixup>)
      requires n < |slots| && |before| <= |imports| && imports[..|before|] == before
      requires slots[n].slot in entries && entries == was[slots[n].slot := entries[slots[n].slot]]
      requires CarriesSlot(c, imports, slots[n], entries[slots[n].slot])
      requires SlotsHeld(before, was, slots, n)
      ensures SlotsHold(slots, n + 1)
    {
      forall i | LastOf(slots, n + 1, i)
        ensures slots[i].slot in entries && CarriesSlot(c, imports, slots[i], entries[slots[i].slot])
      {
        if i < n { assert LastOf(slots, n, i) && slots[n].slot != slots[i].slot; }
      }
    }
  }
}

/** The relocator end to end: from the fixups of the cache image to the bytes of the fixup payload and the words of
    the output, and from these to what the loader makes of every pointer. */
module Pipeline {
  import opened Words
  import opened Wrappers
  import opened Relayout
  import opened ChainWords
  import opened Entries
  import B = FixupBlob
  import C = Chains
  import L = Loader

  // ---------------------------------------------------------------- the output segments

  /** The memory that the load commands of the output give to each segment. */
  function OutSegs(l: Layout): (segs: seq<C.Seg>)
    ensures |segs| == |l.segs|
  {
    seq(|l.segs|, i requires 0 <= i < |l.segs| => C.Seg(SlotOf(l, i).vmaddr, SlotOf(l, i).vmsize))
  }

  lemma OutSegIsSlot(l: Layout, i: nat, a: int)
    requires i < |l.segs|
    ensures C.Inside(OutSegs(l)[i], a) <==> Start(l, i) <= a < Start(l, i) + SlotOf(l, i).vmsize
    ensures SlotOf(l, i).vmsize <= SlotSize(l, l.segs[i])
  {
    hide RoundUp, Extra, Start, SlotSize;
    MemoryFitsSlot(l, l.segs[i]);
  }

  lemma MemoryFitsSlot(l: Layout, s: Segment)
    ensures RoundUp(s.vs + Extra(l, s)) <= SlotSize(l, s)
  {
    hide RoundUp, Extra;
    var e := Extra(l, s);
    RoundUpIsMonotone(s.vs + e, Extent(s) + e);
  }

  lemma RoundUpIsMonotone(a: int, b: int)
    requires a <= b
    ensures RoundUp(a) <= RoundUp(b)
  {
  }

  lemma OutSegsAreApart(l: Layout)
    ensures C.DisjointSegs(OutSegs(l))
  {
    hide C.Inside, SlotOf, SlotSize, OutSegs;
    forall i, j, a | 0 <= i < j < |l.segs| ensures !(C.Inside(OutSegs(l)[i], a) && C.Inside(OutSegs(l)[j], a)) {
      OutSegIsSlot(l, i, a);
      OutSegIsSlot(l, j, a);
      StartIsOrdered(l, i, j);
    }
  }

  /** The output as words: the file mirrors memory from the new base on. */
  ghost predicate Mirrors(l: Layout, words: nat)
  {
    l.newBase % SLOT_ALIGN == 0 && 8 * words == Start(l, |l.segs|) - l.newBase
  }

  lemma OutSegIsInImage(l: Layout, words: nat, i: nat, a: int)
    requires Mirrors(l, words) && i < |l.segs| && C.Inside(OutSegs(l)[i], a) && a % 8 == 0
    ensures C.Addressable(l.newBase, words, a)
  {
    hide SlotOf, SlotSize, OutSegs, C.Inside;
    OutSegIsSlot(l, i, a);
    StartIsOrdered(l, i, |l.segs|);
    StartIsPast(l, i);
    WordOf(l.newBase, words, a);
  }

  lemma WordOf(base: int, words: nat, a: int)
    requires base % SLOT_ALIGN == 0 && a % 8 == 0 && base <= a < base + 8 * words
    ensures C.Addressable(base, words, a)
  {
    var q, p := base / SLOT_ALIGN, a / 8;
    assert base == 8 * (0x800 * q) && a == 8 * p;
    EighthOf(p - 0x800 * q, a - base);
  }

  lemma EighthOf(k: int, d: int)
    requires d == 8 * k
    ensures d % 8 == 0 && d / 8 == k
  {
  }

  /** In the memory of some output segment. */
  ghost predicate InMemory(l: Layout, a: int)
  {
    exists i :: 0 <= i < |l.segs| && C.Inside(OutSegs(l)[i], a)
  }

  /** An address of segment `p` whose new place is below the end of the slot's memory. */
  predicate Kept(l: Layout, p: nat, a: int)
    requires p < |l.segs|
  {
    InSegment(l.segs[p], a) && Moved(l, p, a) < SlotOf(l, p).vmaddr + SlotOf(l, p).vmsize
  }

  /** A location survives the grouping by output segment if and only if its new place is below the end of its own
      slot's memory. */
  lemma KeptIff(l: Layout, p: nat, a: int)
    requires WellFormed(l) && p < |l.segs| && InSegment(l.segs[p], a)
    ensures InMemory(l, Moved(l, p, a)) <==> Kept(l, p, a)
  {
    hide C.Inside, Moved, SlotSize, OutSegs;
    MovedInSlot(l, p, a);
    OutSegIsSlot(l, p, Moved(l, p, a));
    if i :| 0 <= i < |l.segs| && C.Inside(OutSegs(l)[i], Moved(l, p, a)) {
      OutSegIsSlot(l, i, Moved(l, p, a));
      SlotsAreApart(l, i, p, Moved(l, p, a));
    }
  }

  lemma MovedInSlot(l: Layout, p: nat, a: int)
    requires WellFormed(l) && p < |l.segs| && InSegment(l.segs[p], a)
    ensures Start(l, p) <= Moved(l, p, a) < Start(l, p) + SlotSize(l, l.segs[p])
  {
    hide SlotSize, Moved;
    MovedStaysInSlot(l, p, a);
  }

  /** No location of a segment whose content fits its memory is lost. */
  lemma NothingIsLost(l: Layout, p: nat, a: int)
    requires WellFormed(l) && p < |l.segs| && InSegment(l.segs[p], a) && l.segs[p].fs <= l.segs[p].vs
    ensures Kept(l, p, a)
  {
    hide Moved;
    MovedStaysInSlot(l, p, a);
  }

  /** A segment with more content than memory loses the locations behind its memory. */
  lemma LocationIsLost()
    ensures var l := Layout([Segment("__DATA", 0, 0x4000, 0, 0x8000)], None, 0, 0);
            WellFormed(l) && Aligned(l) && Amap(Deltas(l, 1), 0x4000) == Some(0x4000) && !Kept(l, 0, 0x4000)
  {
    var l := Layout([Segment("__DATA", 0, 0x4000, 0, 0x8000)], None, 0, 0);
    assert InSegment(l.segs[0], 0x4000) && Moved(l, 0, 0x4000) == 0x4000;
    AmapIsSegmentwise(l, 0x4000);
  }

  // ---------------------------------------------------------------- entries into bytes and words

  /** Room enough for every starts record, whichever segments turn out to have entries. */
  function MaxRoom(segs: seq<C.Seg>, k: nat): nat
    requires k <= |segs|
  {
    if k == 0 then 4 + 4 * |segs| else MaxRoom(segs, k - 1) + 25 + 2 * C.NumPages(segs[k - 1])
  }

  lemma {:induction false} RoomIsEnough(segs: seq<C.Seg>, starts: seq<Option<seq<int>>>, k: nat)
    requires |starts| == |segs| && k <= |segs|
    requires forall i :: 0 <= i < |segs| && starts[i].Some? ==> |starts[i].value| == C.NumPages(segs[i])
    ensures B.Room(starts, k) <= MaxRoom(segs, k)
  {
    hide C.NumPages;
    if k > 0 { RoomIsEnough(segs, starts, k - 1); }
  }

  /** An image whose payload's fields hold what they must. */
  ghost predicate SmallEnough(segs: seq<C.Seg>, base: int, names: seq<B.Bytes>)
  {
    && (forall s <- segs :: C.NumPages(s) < 0x1_0000 && s.va - base < WORD64)
    && 31 + MaxRoom(segs, |segs|) + 4 * |names| + B.PoolSize(names) < WORD32
  }

  function Offsets(base: int, segs: seq<C.Seg>): seq<int>
  {
    seq(|segs|, i requires 0 <= i < |segs| => segs[i].va - base)
  }

  /** The chain starts of a woven segment fit their two bytes. */
  lemma StartsArePackable(mem: seq<Word64>, base: int, s: C.Seg, addrs: seq<int>, entries: C.Entries, starts: seq<int>)
    requires C.GoodList(base, |mem|, s, addrs, entries) && C.SegmentDone(mem, base, s, addrs, entries, starts)
    ensures B.Packable(starts) <==> C.NumPages(s) < 0x1_0000
  {
    hide C.NumPages, C.Walk, C.InPage, C.GoodList, C.StartsRight, C.SegmentWoven;
    forall x | x in starts ensures 0 <= x < 0x1_0000 {
      var pg :| 0 <= pg < |starts| && starts[pg] == x;
      C.WalkVisitsOnePage(mem, base, s, addrs, entries, starts, pg);
    }
  }

  /** The weave of every segment. */
  ghost predicate AllWoven(mem: seq<Word64>, base: int, segs: seq<C.Seg>, groups: seq<seq<int>>, entries: C.Entries,
                           starts: seq<Option<seq<int>>>)
  {
    && C.Grouping(base, |mem|, segs, entries, groups) && |starts| == |segs|
    && forall i :: 0 <= i < |segs| ==>
         if groups[i] == [] then starts[i] == None
         else starts[i].Some? && C.SegmentDone(mem, base, segs[i], groups[i], entries, starts[i].value)
  }

  lemma WovenIsWritable(mem: seq<Word64>, base: int, segs: seq<C.Seg>, groups: seq<seq<int>>, entries: C.Entries,
                        starts: seq<Option<seq<int>>>, names: seq<B.Bytes>)
    requires AllWoven(mem, base, segs, groups, entries, starts) && SmallEnough(segs, base, names)
    requires forall s <- segs :: base <= s.va
    ensures B.AllWritable(Offsets(base, segs), starts)
    ensures 31 + B.Room(starts, |starts|) + 4 * |names| + B.PoolSize(names) < WORD32
  {
    hide C.GoodList, C.SegmentDone, B.Packable, B.Room, C.NumPages, MaxRoom;
    forall i | 0 <= i < |segs| && starts[i].Some?
      ensures |starts[i].value| == C.NumPages(segs[i]) && B.Packable(starts[i].value)
    {
      assert segs[i] in segs;
      DoneSize(mem, base, segs[i], groups[i], entries, starts[i].value);
      StartsArePackable(mem, base, segs[i], groups[i], entries, starts[i].value);
    }
    RoomIsEnough(segs, starts, |segs|);
  }

  lemma DoneSize(mem: seq<Word64>, base: int, s: C.Seg, addrs: seq<int>, entries: C.Entries, starts: seq<int>)
    requires C.SegmentDone(mem, base, s, addrs, entries, starts)
    ensures |starts| == C.NumPages(s)
  {
  }

  /** Every entry inside a segment is an 8-aligned address of the image. */
  ghost predicate InWords(base: int, words: nat, segs: seq<C.Seg>, entries: C.Entries)
  {
    && (forall s <- segs :: base <= s.va)
    && forall i, a :: 0 <= i < |segs| && a in entries && C.Inside(segs[i], a) ==> C.Addressable(base, words, a)
  }

  /** Word `w` holds no entry of any segment. */
  ghost predicate Untouched(base: int, segs: seq<C.Seg>, entries: C.Entries, w: int)
  {
    forall i, a :: 0 <= i < |segs| && a in entries && C.Inside(segs[i], a) ==> C.Index(base, a) != w
  }

  /** Grouping, weaving and the payload: the loader gets back exactly the entries inside the segments, and every
      findable import name; no other word changes; it fails only when some field is too small. */
  method EmitImage(base: int, segs: seq<C.Seg>, entries: C.Entries, names: seq<B.Bytes>, weak: bool,
                   image: array<Word64>) returns (blob: B.Bytes, ok: bool)
    requires C.DisjointSegs(segs) && InWords(base, image.Length, segs, entries)
    modifies image
    ensures ok ==>
      var got := L.Load(blob, image[..], base);
      got.Some? && C.Faithful(got.value, L.WithinFirst(entries, segs, |segs|))
    ensures ok ==> B.ReadPayload(blob).Some? && forall i :: 0 <= i < |names| && B.Findable(names, i) ==>
                     B.ImportAt(B.ReadPayload(blob).value, i) == Some(B.Imported(names[i], 0xFE, weak))
    ensures SmallEnough(segs, base, names) ==> ok
    ensures forall w :: 0 <= w < image.Length && Untouched(base, segs, entries, w) ==> image[w] == old(image[w])
  {
    hide B.Findable, B.ImportAt, B.ReadPayload, C.Faithful, SmallEnough, C.Addressable, C.Index, C.SegmentDone, L.Load;
    hide L.WithinFirst, B.AllWritable, B.Emitted;
    var groups := C.GroupEntries(base, image.Length, segs, entries);
    var starts := C.WeaveImage(base, segs, groups, entries, image);
    assert AllWoven(image[..], base, segs, groups, entries, starts);
    if SmallEnough(segs, base, names) { WovenIsWritable(image[..], base, segs, groups, entries, starts, names); }
    ghost var sii;
    blob, ok, sii := B.EmitBlob(Offsets(base, segs), starts, names, weak);
    forall w | 0 <= w < image.Length && Untouched(base, segs, entries, w) ensures image[w] == old(image[w]) {
      UntouchedIsOutside(base, image.Length, segs, entries, groups, w);
    }
    if ok {
      L.LoadIsRight(blob, B.ReadPayload(blob).value, image[..], base, segs, groups, entries, Offsets(base, segs),
                    starts, sii);
    }
  }

  lemma UntouchedIsOutside(base: int, words: nat, segs: seq<C.Seg>, entries: C.Entries, groups: seq<seq<int>>, w: int)
    requires C.Grouping(base, words, segs, entries, groups) && Untouched(base, segs, entries, w)
    ensures forall i :: 0 <= i < |segs| ==> C.Outside(base, groups[i], w)
  {
    hide C.Index, C.Addressable;
  }

  // ---------------------------------------------------------------- fixups and slots into entries

  /** The collected fixups and the rebuilt slots: mapped 8-aligned locations, no two of the fixups the same. */
  ghost predicate Collected(l: Layout, c: Context, fx: seq<Fix>, slots: seq<Rebuilt>)
  {
    && c.deltas == Deltas(l, |l.segs|) && c.nbase == l.newBase
    && (forall k :: 0 <= k < |fx| ==> fx[k].addr % 8 == 0 && Amap(c.deltas, fx[k].addr).Some?)
    && (forall j, k :: 0 <= j < k < |fx| ==> fx[j].addr != fx[k].addr)
    && forall r <- slots :: r.slot % 8 == 0 && r.Sound()
  }

  lemma CollectedIsPlaced(l: Layout, c: Context, fx: seq<Fix>, slots: seq<Rebuilt>)
    requires WellFormed(l) && Collected(l, c, fx, slots)
    ensures Placed(c, fx)
  {
    hide Amap, Deltas, WellFormed;
    forall a, b | Amap(c.deltas, a).Some? && Amap(c.deltas, a) == Amap(c.deltas, b) ensures a == b {
      AmapIsInjective(l, a, b);
    }
  }

  /** `a` is where a fixup moved to. */
  ghost predicate IsFixed(c: Context, fx: seq<Fix>, a: int)
  {
    exists k :: 0 <= k < |fx| && Amap(c.deltas, fx[k].addr) == Some(a)
  }

  ghost predicate IsSlot(slots: seq<Rebuilt>, a: int)
  {
    exists r <- slots :: r.slot == a
  }

  /** The entries are exactly at the fixed locations and the slots. */
  ghost predicate Sourced(c: Context, fx: seq<Fix>, slots: seq<Rebuilt>, entries: C.Entries)
  {
    forall a :: a in entries <==> IsFixed(c, fx, a) || IsSlot(slots, a)
  }

  lemma SourcedIsAligned(l: Layout, c: Context, fx: seq<Fix>, slots: seq<Rebuilt>, a: int)
    requires WellFormed(l) && Aligned(l) && Collected(l, c, fx, slots) && (IsFixed(c, fx, a) || IsSlot(slots, a))
    ensures a % 8 == 0
  {
    hide Deltas, DeltaOf, WellFormed, Aligned;
    if k :| 0 <= k < |fx| && Amap(c.deltas, fx[k].addr) == Some(a) { AmapKeepsPageOffset(l, fx[k].addr); }
  }

  lemma SourcedIsInWords(l: Layout, c: Context, fx: seq<Fix>, slots: seq<Rebuilt>, entries: C.Entries, words: nat)
    requires WellFormed(l) && Aligned(l) && Collected(l, c, fx, slots) && Mirrors(l, words)
    requires Sourced(c, fx, slots, entries)
    ensures InWords(l.newBase, words, OutSegs(l), entries)
  {
    hide IsFixed, IsSlot, WellFormed, Aligned, Mirrors, C.Inside, C.Addressable, OutSegs, Collected;
    forall s | s in OutSegs(l) ensures l.newBase <= s.va {
      var i :| 0 <= i < |l.segs| && OutSegs(l)[i] == s;
      OutSegStarts(l, i);
    }
    forall i, a | 0 <= i < |l.segs| && a in entries && C.Inside(OutSegs(l)[i], a)
      ensures C.Addressable(l.newBase, words, a)
    {
      SourcedIsAligned(l, c, fx, slots, a);
      OutSegIsInImage(l, words, i, a);
    }
  }

  lemma OutSegStarts(l: Layout, i: nat)
    requires i < |l.segs|
    ensures l.newBase <= OutSegs(l)[i].va
  {
    StartIsPast(l, i);
  }

  /** Classification and slots together. */
  ghost predicate AllCarried(c: Context, imports: seq<string>, fx: seq<Fix>, slots: seq<Rebuilt>, entries: C.Entries)
  {
    && Sourced(c, fx, slots, entries)
    && (forall k :: 0 <= k < |fx| ==> Amap(c.deltas, fx[k].addr).Some?)
    && (forall k :: 0 <= k < |fx| && !IsSlot(slots, Amap(c.deltas, fx[k].addr).value) ==>
          Carries(c, imports, fx[k], entries[Amap(c.deltas, fx[k].addr).value]))
    && forall i :: LastOf(slots, |slots|, i) ==> CarriesSlot(c, imports, slots[i], entries[slots[i].slot])
  }

  /** The loop over the fixups and the loops over the slots. */
  method Classify(l: Layout, c: Context, fx: seq<Fix>, slots: seq<Rebuilt>)
      returns (entries: C.Entries, imports: seq<string>, ok: bool)
    requires WellFormed(l) && Collected(l, c, fx, slots)
    ensures ok <==> AllNamed(c, fx)
    ensures ok ==> AllCarried(c, imports, fx, slots, entries) && imports == ImportsOf(c, fx, slots)
  {
    hide Carries, CarriesSlot, Amap, Placed, Intended, WellFormed, FixImports, SlotImports;
    CollectedIsPlaced(l, c, fx, slots);
    var em := new Emitter(c);
    ok := em.AddAll(fx);
    if !ok { return em.entries, em.imports, false; }
    ghost var before, was := em.imports, em.entries;
    em.AddSlots(slots);
    entries, imports := em.entries, em.imports;
    forall k | 0 <= k < |fx| && !IsSlot(slots, Amap(c.deltas, fx[k].addr).value)
      ensures Carries(c, imports, fx[k], entries[Amap(c.deltas, fx[k].addr).value])
    {
      ImportsOnlyGrow(c, before, imports[|before|..], fx[k], was[Amap(c.deltas, fx[k].addr).value]);
      assert before + imports[|before|..] == imports;
    }
    SlotsAreThere(slots, entries.Keys);
  }

  lemma SlotsAreThere(slots: seq<Rebuilt>, keys: set<int>)
    requires forall i :: LastOf(slots, |slots|, i) ==> slots[i].slot in keys
    ensures forall r <- slots :: r.slot in keys
  {
    forall i | 0 <= i < |slots| ensures slots[i].slot in keys { LastAtLocation(slots, i); }
  }

  /** Every location of a slot has a last one. */
  lemma {:induction false} LastAtLocation(slots: seq<Rebuilt>, i: nat)
    requires i < |slots|
    ensures exists j :: LastOf(slots, |slots|, j) && slots[j].slot == slots[i].slot
    decreases |slots| - i
  {
    if j :| i < j < |slots| && slots[j].slot == slots[i].slot {
      LastAtLocation(slots, j);
    } else {
      assert LastOf(slots, |slots|, i);
    }
  }

  // ---------------------------------------------------------------- what an entry means

  /** What a location is to hold: a meaning, the fields of its signature, and the top byte. */
  datatype Want = Want(meaning: Meaning, auth: bool, key: int, div: int, ad: int, high8: int)

  function WantOf(c: Context, f: Fix): Want
    requires Intended(c, f).Some?
  {
    Want(Intended(c, f).value, f.auth, f.key, f.div, f.ad, High8(f))
  }

  function WantOfSlot(r: Rebuilt): Want
  {
    Want(r.Meaning(), r.auth, 0, 0, if r.auth then 1 else 0, 0)
  }

  /** The entry is signed as wanted. */
  predicate SignedAs(w: Want, e: Fixup)
  {
    e.auth == w.auth && e.key == w.key && e.div == w.div && e.ad == w.ad && e.high8 == w.high8
  }

  /** The fields of a signature that its bits can hold; without one they are zero. */
  predicate Signed(auth: bool, key: int, div: int, ad: int)
  {
    if auth then 0 <= div < TWO_16 && 0 <= ad < 2 && 0 <= key < 4 else div == 0 && ad == 0 && key == 0
  }

  /** What survives packing: an address within the form's range of the new base, a symbol among the first 65536
      imports, no top byte but on a plain pointer into the image, and signatures in range. */
  ghost predicate InRange(nbase: int, imports: seq<string>, w: Want)
  {
    && Signed(w.auth, w.key, w.div, w.ad)
    && match w.meaning
       case Address(a) =>
         if w.auth then 0 <= a - nbase < TWO_32 && w.high8 == 0 else 0 <= a - nbase < TWO_43 && 0 <= w.high8 < TWO_8
       case Symbol(name) => w.high8 == 0 && exists i :: 0 <= i < |imports| && i < TWO_16 && imports[i] == name
  }

  /** An entry fits its packed form if and only if what it carries is in range. */
  lemma CarriedFits(nbase: int, imports: seq<string>, w: Want, e: Fixup)
    requires Resolve(nbase, imports, e) == Some(w.meaning) && SignedAs(w, e) && NoneTwice(imports)
    ensures Fits(e) <==> InRange(nbase, imports, w)
  {
    if w.meaning.Symbol? { assert imports[e.val] == w.meaning.name; }
  }

  /** How names become bytes, and whether imports are weak. */
  datatype Encoding = Encoding(bytes: string -> B.Bytes, weak: bool)

  function Encoded(enc: Encoding, imports: seq<string>): (names: seq<B.Bytes>)
    ensures |names| == |imports|
  {
    seq(|imports|, i requires 0 <= i < |imports| => enc.bytes(imports[i]))
  }

  /** In range, and a symbol's name is one the loader can find. */
  ghost predicate Loadable(nbase: int, enc: Encoding, imports: seq<string>, w: Want)
  {
    && InRange(nbase, imports, w)
    && forall i :: 0 <= i < |imports| && w.meaning == Symbol(imports[i]) ==> B.Findable(Encoded(enc, imports), i)
  }

  /** An import of the symbol: flat lookup in every library, weak if the run says so. */
  function ImportOf(enc: Encoding, name: string): L.Loaded
  {
    L.Import(B.Imported(enc.bytes(name), 0xFE, enc.weak))
  }

  /** What the loader should make of a meaning. */
  function Translate(enc: Encoding, m: Meaning): L.Loaded
  {
    match m case Address(a) => L.Pointer(a) case Symbol(name) => ImportOf(enc, name)
  }

  /** The loaded entry means what is wanted, and is signed so. */
  ghost predicate Means(nbase: int, enc: Encoding, blob: B.Bytes, w: Want, e: Fixup)
  {
    L.Meaning(blob, nbase, e) == Some(Translate(enc, w.meaning)) && SignedAs(w, e)
  }

  ghost predicate NamesFound(blob: B.Bytes, names: seq<B.Bytes>, weak: bool)
  {
    B.ReadPayload(blob).Some? && forall i :: 0 <= i < |names| && B.Findable(names, i) ==>
                                   B.ImportAt(B.ReadPayload(blob).value, i) == Some(B.Imported(names[i], 0xFE, weak))
  }

  lemma EntryMeans(nbase: int, enc: Encoding, imports: seq<string>, blob: B.Bytes, w: Want, e: Fixup)
    requires Resolve(nbase, imports, e) == Some(w.meaning) && SignedAs(w, e)
    requires Loadable(nbase, enc, imports, w) && NamesFound(blob, Encoded(enc, imports), enc.weak)
    ensures Means(nbase, enc, blob, w, e)
  {
    hide InRange, SignedAs, B.ReadPayload, B.ImportAt, B.Findable;
  }

  // ---------------------------------------------------------------- end to end

  /** The loader finds location `a`, and there what is wanted if that can be loaded at all. */
  ghost predicate Found(nbase: int, enc: Encoding, imports: seq<string>, blob: B.Bytes, got: C.Entries, a: int,
                        w: Want)
  {
    a in got && (Loadable(nbase, enc, imports, w) ==> Means(nbase, enc, blob, w, got[a]))
  }

  /** What the loader makes of the output.  It finds exactly the locations of fixups and slots in the memory of the
      output; at the last slot of a location what that slot is for, and at any other location what its fixup was to
      mean. */
  ghost predicate Output(l: Layout, c: Context, enc: Encoding, fx: seq<Fix>, slots: seq<Rebuilt>,
                         imports: seq<string>, blob: B.Bytes, mem: seq<Word64>)
  {
    && AllNamed(c, fx) && L.Load(blob, mem, c.nbase).Some?
    && var got := L.Load(blob, mem, c.nbase).value;
    && (forall a :: a in got <==> InMemory(l, a) && (IsFixed(c, fx, a) || IsSlot(slots, a)))
    && (forall k :: 0 <= k < |fx| && Amap(c.deltas, fx[k].addr).Some? ==>
          var loc := Amap(c.deltas, fx[k].addr).value;
          InMemory(l, loc) && !IsSlot(slots, loc) ==> Found(c.nbase, enc, imports, blob, got, loc, WantOf(c, fx[k])))
    && forall i :: LastOf(slots, |slots|, i) && InMemory(l, slots[i].slot) ==>
         Found(c.nbase, enc, imports, blob, got, slots[i].slot, WantOfSlot(slots[i]))
  }

  lemma EntryIsFound(l: Layout, nbase: int, enc: Encoding, imports: seq<string>, entries: C.Entries,
                     blob: B.Bytes, got: C.Entries, a: int, w: Want)
    requires C.Faithful(got, L.WithinFirst(entries, OutSegs(l), |l.segs|))
    requires NamesFound(blob, Encoded(enc, imports), enc.weak)
    requires a in entries && InMemory(l, a) && NoneTwice(imports)
    requires Resolve(nbase, imports, entries[a]) == Some(w.meaning) && SignedAs(w, entries[a])
    ensures Found(nbase, enc, imports, blob, got, a, w)
  {
    hide C.Inside, OutSegs, NamesFound, Fits, NoneTwice, Resolve, SignedAs, Means, InRange;
    assert a in L.WithinFirst(entries, OutSegs(l), |l.segs|);
    CarriedFits(nbase, imports, w, entries[a]);
    if Loadable(nbase, enc, imports, w) { EntryMeans(nbase, enc, imports, blob, w, entries[a]); }
  }

  lemma FixIsFound(l: Layout, c: Context, enc: Encoding, imports: seq<string>, entries: C.Entries,
                   blob: B.Bytes, got: C.Entries, a: int, f: Fix)
    requires C.Faithful(got, L.WithinFirst(entries, OutSegs(l), |l.segs|))
    requires NamesFound(blob, Encoded(enc, imports), enc.weak)
    requires a in entries && InMemory(l, a) && NoneTwice(imports) && Carries(c, imports, f, entries[a])
    ensures Found(c.nbase, enc, imports, blob, got, a, WantOf(c, f))
  {
    hide C.Faithful, L.WithinFirst, InMemory, NamesFound, NoneTwice, Intended, High8, Found;
    EntryIsFound(l, c.nbase, enc, imports, entries, blob, got, a, WantOf(c, f));
  }

  lemma SlotIsFound(l: Layout, c: Context, enc: Encoding, imports: seq<string>, entries: C.Entries,
                    blob: B.Bytes, got: C.Entries, r: Rebuilt)
    requires C.Faithful(got, L.WithinFirst(entries, OutSegs(l), |l.segs|))
    requires NamesFound(blob, Encoded(enc, imports), enc.weak)
    requires r.slot in entries && InMemory(l, r.slot) && NoneTwice(imports)
    requires CarriesSlot(c, imports, r, entries[r.slot])
    ensures Found(c.nbase, enc, imports, blob, got, r.slot, WantOfSlot(r))
  {
    hide C.Faithful, L.WithinFirst, InMemory, NamesFound, NoneTwice, Found;
    EntryIsFound(l, c.nbase, enc, imports, entries, blob, got, r.slot, WantOfSlot(r));
  }

  lemma OutputIsRight(l: Layout, c: Context, enc: Encoding, fx: seq<Fix>, slots: seq<Rebuilt>,
                      imports: seq<string>, entries: C.Entries, blob: B.Bytes, mem: seq<Word64>)
    requires AllNamed(c, fx) && NoneTwice(imports) && AllCarried(c, imports, fx, slots, entries)
    requires NamesFound(blob, Encoded(enc, imports), enc.weak)
    requires var got := L.Load(blob, mem, c.nbase);
             got.Some? && C.Faithful(got.value, L.WithinFirst(entries, OutSegs(l), |l.segs|))
    ensures Output(l, c, enc, fx, slots, imports, blob, mem)
  {
    hide Amap, L.Load, Found, Carries, CarriesSlot, NamesFound, NoneTwice, Intended, C.Faithful, L.WithinFirst, WantOf;
    hide IsFixed, IsSlot, WantOfSlot, InMemory;
    var got := L.Load(blob, mem, c.nbase).value;
    LocationsFound(l, entries, got);
    forall k | 0 <= k < |fx| && InMemory(l, Amap(c.deltas, fx[k].addr).value)
               && !IsSlot(slots, Amap(c.deltas, fx[k].addr).value)
      ensures Found(c.nbase, enc, imports, blob, got, Amap(c.deltas, fx[k].addr).value, WantOf(c, fx[k]))
    {
      FixedIs(c, fx, k);
      FixIsFound(l, c, enc, imports, entries, blob, got, Amap(c.deltas, fx[k].addr).value, fx[k]);
    }
    forall i | LastOf(slots, |slots|, i) && InMemory(l, slots[i].slot)
      ensures Found(c.nbase, enc, imports, blob, got, slots[i].slot, WantOfSlot(slots[i]))
    {
      SlotIs(slots, i);
      SlotIsFound(l, c, enc, imports, entries, blob, got, slots[i]);
    }
  }

  lemma LocationsFound(l: Layout, entries: C.Entries, got: C.Entries)
    requires C.Faithful(got, L.WithinFirst(entries, OutSegs(l), |l.segs|))
    ensures forall a :: a in got <==> InMemory(l, a) && a in entries
  {
    hide C.Inside, OutSegs, Fits;
    assert forall a :: a in got <==> a in got.Keys;
  }

  lemma FixedIs(c: Context, fx: seq<Fix>, k: nat)
    requires k < |fx| && Amap(c.deltas, fx[k].addr).Some?
    ensures IsFixed(c, fx, Amap(c.deltas, fx[k].addr).value)
  {
  }

  lemma SlotIs(slots: seq<Rebuilt>, i: nat)
    requires i < |slots|
    ensures IsSlot(slots, slots[i].slot)
  {
    assert slots[i] in slots;
  }

  /** Every target has a meaning in the output. */
  ghost predicate AllNamed(c: Context, fx: seq<Fix>)
  {
    forall k :: 0 <= k < |fx| ==> Intended(c, fx[k]).Some?
  }

  /** The whole of it: classify, rebuild, group, weave and emit.  It stops exactly at an unnamed target, unless some
      field of the payload is too small; the imports are the symbols asked for, in the order of their first use; what
      it returns is read by the loader as intended; only words of fixed locations and slots change. */
  method Relocate(l: Layout, c: Context, fx: seq<Fix>, slots: seq<Rebuilt>, enc: Encoding,
                  image: array<Word64>) returns (blob: B.Bytes, imports: seq<string>, ok: bool)
    requires WellFormed(l) && Aligned(l) && Collected(l, c, fx, slots) && Mirrors(l, image.Length)
    modifies image
    ensures ok ==> imports == ImportsOf(c, fx, slots) && Output(l, c, enc, fx, slots, imports, blob, image[..])
    ensures AllNamed(c, fx) && SmallEnough(OutSegs(l), l.newBase, Encoded(enc, ImportsOf(c, fx, slots))) ==> ok
    ensures forall w :: 0 <= w < image.Length && image[w] != old(image[w]) ==>
              exists a :: (IsFixed(c, fx, a) || IsSlot(slots, a)) && C.Index(l.newBase, a) == w
  {
    hide WellFormed, Aligned, Mirrors, SmallEnough, Output, C.Faithful, L.Load, L.WithinFirst, IsFixed, IsSlot;
    hide C.Index, OutSegs, C.Inside, B.Findable, B.ImportAt, B.ReadPayload, Encoded, AllNamed, NoneTwice, Carries;
    var entries;
    entries, imports, ok := Classify(l, c, fx, slots);
    blob := [];
    if !ok { return; }
    ImportsAreTheWanted(c, fx, slots, "");
    SourcedIsInWords(l, c, fx, slots, entries, image.Length);
    OutSegsAreApart(l);
    blob, ok := EmitImage(l.newBase, OutSegs(l), entries, Encoded(enc, imports), enc.weak, image);
    if ok {
      OutputIsRight(l, c, enc, fx, slots, imports, entries, blob, image[..]);
    }
  }

  // ---------------------------------------------------------------- what every pointer becomes

  /** The target `t` and the top byte `tag` of a fixup; a signed pointer has no top byte. */
  predicate Points(f: Fix, t: nat, tag: nat)
  {
    if f.auth then f.target == t && tag == 0
    else t < 0x100_0000_0000_0000 && tag < 0x100 && f.target == t + 0x100_0000_0000_0000 * tag
  }

  lemma Stripped(f: Fix, t: nat, tag: nat)
    requires Points(f, t, tag)
    ensures RealTarget(f) == t && High8(f) == tag
  {
    if !f.auth {
      assert f.target / 0x100_0000_0000_0000 == tag && f.target % 0x100_0000_0000_0000 == t;
    }
  }

  /** The payload and the words that `Relocate` leaves. */
  ghost predicate Relocated(l: Layout, c: Context, enc: Encoding, fx: seq<Fix>, slots: seq<Rebuilt>,
                            blob: B.Bytes, mem: seq<Word64>)
  {
    && WellFormed(l) && Collected(l, c, fx, slots)
    && Output(l, c, enc, fx, slots, ImportsOf(c, fx, slots), blob, mem)
  }

  /** Fixup `k` lies in segment `p`, whose content fits its memory; no slot is rebuilt where it moves to, and the fields
      of its signature are in range. */
  ghost predicate Lies(l: Layout, fx: seq<Fix>, slots: seq<Rebuilt>, k: nat, p: nat)
  {
    && k < |fx| && p < |l.segs| && InSegment(l.segs[p], fx[k].addr) && l.segs[p].fs <= l.segs[p].vs
    && !IsSlot(slots, Moved(l, p, fx[k].addr)) && Signed(fx[k].auth, fx[k].key, fx[k].div, fx[k].ad)
  }

  /** Fixup `f` is loaded at `loc`: it means `w`, and has the signature and the top byte it had. */
  ghost predicate LoadsAs(c: Context, blob: B.Bytes, mem: seq<Word64>, f: Fix, loc: int, tag: nat, w: L.Loaded)
  {
    && L.Load(blob, mem, c.nbase).Some? && loc in L.Load(blob, mem, c.nbase).value
    && var e := L.Load(blob, mem, c.nbase).value[loc];
       && L.Meaning(blob, c.nbase, e) == Some(w) && e.auth == f.auth && e.high8 == tag
       && e.key == f.key && e.div == f.div && e.ad == f.ad
  }

  lemma FixLoads(l: Layout, c: Context, enc: Encoding, fx: seq<Fix>, slots: seq<Rebuilt>, blob: B.Bytes,
                 mem: seq<Word64>, k: nat, p: nat, t: nat, tag: nat)
    requires Relocated(l, c, enc, fx, slots, blob, mem) && Lies(l, fx, slots, k, p) && Points(fx[k], t, tag)
    requires Intended(c, fx[k]).Some? && Loadable(c.nbase, enc, ImportsOf(c, fx, slots), WantOf(c, fx[k]))
    ensures LoadsAs(c, blob, mem, fx[k], Moved(l, p, fx[k].addr), tag, Translate(enc, Intended(c, fx[k]).value))
  {
    hide Moved, L.Load, L.Meaning, InSegment, WellFormed, RealTarget, High8, Signed, Kept, Intended,
      Loadable, ImportsOf;
    hide IsSlot, IsFixed, InMemory, Output, Collected;
    Stripped(fx[k], t, tag);
    NothingIsLost(l, p, fx[k].addr);
    FixIsLoaded(l, c, enc, fx, slots, ImportsOf(c, fx, slots), blob, mem, k, p);
  }

  /** A place in the new image is in range of any form, when the image spans at most 4 GB. */
  lemma MovedIsNear(l: Layout, q: nat, a: int)
    requires WellFormed(l) && q < |l.segs| && InSegment(l.segs[q], a) && Start(l, |l.segs|) - l.newBase <= TWO_32
    ensures 0 <= Moved(l, q, a) - l.newBase < TWO_32
  {
    hide Moved, SlotSize, WellFormed, InSegment;
    MovedInSlot(l, q, a);
    StartIsOrdered(l, q, |l.segs|);
    StartIsPast(l, q);
  }

  /** An address in range can be loaded, whatever form it takes. */
  lemma AddressIsLoadable(c: Context, enc: Encoding, imports: seq<string>, f: Fix, a: int)
    requires Intended(c, f) == Some(Address(a)) && 0 <= a - c.nbase < TWO_32 && Signed(f.auth, f.key, f.div, f.ad)
    ensures Loadable(c.nbase, enc, imports, WantOf(c, f))
  {
    hide Intended, Signed;
  }

  /** A pointer inside the image: stored at an address of segment `p` with a target in segment `q`, it is loaded at
      the place its location moved to, points to the place its target moved to, and is signed as it was.  Only a
      rebuilt slot there, a segment with more content than memory, or an image of more than 4 GB can spoil this. */
  lemma PointerMovesWithBothEnds(l: Layout, c: Context, enc: Encoding, fx: seq<Fix>, slots: seq<Rebuilt>,
                                 blob: B.Bytes, mem: seq<Word64>, k: nat, p: nat, q: nat, t: nat, tag: nat)
    requires Relocated(l, c, enc, fx, slots, blob, mem) && Lies(l, fx, slots, k, p) && Points(fx[k], t, tag)
    requires q < |l.segs| && InSegment(l.segs[q], t) && DeltaOf(c.inImage, t).Some?
    requires Start(l, |l.segs|) - l.newBase <= TWO_32
    ensures LoadsAs(c, blob, mem, fx[k], Moved(l, p, fx[k].addr), tag, L.Pointer(Moved(l, q, t)))
  {
    hide Moved, InSegment, WellFormed, RealTarget, High8, Signed, Loadable, Start, Output, LocalProtocol,
      LoadsAs, ImportsOf;
    hide Amap, Deltas, DeltaOf, IsSlot;
    Stripped(fx[k], t, tag);
    AmapIsSegmentwise(l, t);
    MovedIsNear(l, q, t);
    assert Intended(c, fx[k]) == Some(Address(Moved(l, q, t)));
    AddressIsLoadable(c, enc, ImportsOf(c, fx, slots), fx[k], Moved(l, q, t));
    FixLoads(l, c, enc, fx, slots, blob, mem, k, p, t, tag);
  }

  /** A pointer to a selector or class name that the cache keeps elsewhere: it is loaded as a pointer to the local copy
      of that string. */
  lemma StringIsLocal(l: Layout, c: Context, enc: Encoding, fx: seq<Fix>, slots: seq<Rebuilt>,
                      blob: B.Bytes, mem: seq<Word64>, k: nat, p: nat, t: nat, tag: nat)
    requires Relocated(l, c, enc, fx, slots, blob, mem) && Lies(l, fx, slots, k, p) && Points(fx[k], t, tag)
    requires DeltaOf(c.inImage, t) == None && t in c.localize && 0 <= c.localize[t] - c.nbase < TWO_32
    ensures LoadsAs(c, blob, mem, fx[k], Moved(l, p, fx[k].addr), tag, L.Pointer(c.localize[t]))
  {
    hide Moved, InSegment, WellFormed, RealTarget, High8, Signed, Loadable, Output, LocalProtocol, LoadsAs, ImportsOf;
    hide Amap, Deltas, DeltaOf, IsSlot, Collected;
    Stripped(fx[k], t, tag);
    AddressIsLoadable(c, enc, ImportsOf(c, fx, slots), fx[k], c.localize[t]);
    FixLoads(l, c, enc, fx, slots, blob, mem, k, p, t, tag);
  }

  /** The pointer that the extractor stored where the fixup moved to, and what it points to in the new image. */
  ghost predicate StoredProtocol(l: Layout, c: Context, loc: int, q: nat, old_: nat)
  {
    && loc in c.stored && old_ < 0x100_0000_0000_0000 && (c.stored[loc] - old_) % 0x100_0000_0000_0000 == 0
    && q < |l.segs| && InSegment(l.segs[q], old_)
  }

  lemma LowBytes(w: nat, old_: nat)
    requires old_ < 0x100_0000_0000_0000 && (w - old_) % 0x100_0000_0000_0000 == 0
    ensures w % 0x100_0000_0000_0000 == old_
  {
    assert w == 0x100_0000_0000_0000 * ((w - old_) / 0x100_0000_0000_0000) + old_;
  }

  /** A reference to a protocol that the cache keeps elsewhere is named after the class of protocols. When the
      extractor stored a local protocol there, it is loaded as a pointer to where that protocol moved to, not as
      the class. */
  lemma ProtocolIsLocal(l: Layout, c: Context, enc: Encoding, fx: seq<Fix>, slots: seq<Rebuilt>,
                        blob: B.Bytes, mem: seq<Word64>, k: nat, p: nat, q: nat, t: nat, tag: nat, old_: nat)
    requires Relocated(l, c, enc, fx, slots, blob, mem) && Lies(l, fx, slots, k, p) && Points(fx[k], t, tag)
    requires DeltaOf(c.inImage, t) == None && t !in c.localize
    requires t in c.names && c.names[t] == "_OBJC_CLASS_$_Protocol"
    requires StoredProtocol(l, c, Moved(l, p, fx[k].addr), q, old_) && Start(l, |l.segs|) - l.newBase <= TWO_32
    ensures LoadsAs(c, blob, mem, fx[k], Moved(l, p, fx[k].addr), tag, L.Pointer(Moved(l, q, old_)))
  {
    hide Moved, InSegment, WellFormed, RealTarget, High8, Signed, Loadable, Start, Output, LoadsAs, ImportsOf, IsSlot;
    hide Amap, Deltas, DeltaOf;
    Stripped(fx[k], t, tag);
    AmapIsSegmentwise(l, fx[k].addr);
    AmapIsSegmentwise(l, old_);
    LowBytes(c.stored[Moved(l, p, fx[k].addr)], old_);
    MovedIsNear(l, q, old_);
    assert Intended(c, fx[k]) == Some(Address(Moved(l, q, old_)));
    AddressIsLoadable(c, enc, ImportsOf(c, fx, slots), fx[k], Moved(l, q, old_));
    FixLoads(l, c, enc, fx, slots, blob, mem, k, p, t, tag);
  }

  /** The symbols asked for fit the import table: there are at most 65536, none has a NUL, and their names take at most
      8 MB. */
  ghost predicate NamesFit(enc: Encoding, imports: seq<string>)
  {
    && |imports| <= TWO_16 && (forall n <- imports :: 0 !in enc.bytes(n))
    && B.PoolSize(Encoded(enc, imports)) <= B.NAME_OFFSETS
  }

  lemma {:induction false} PoolGrows(names: seq<B.Bytes>, i: nat)
    requires i < |names|
    ensures B.PoolSize(names[..i]) < B.PoolSize(names)
    decreases |names|
  {
    var n := |names| - 1;
    if i < n {
      PoolGrows(names[..n], i);
      assert names[..n][..i] == names[..i];
    }
  }

  /** A wanted symbol of an import table that fits can be loaded, but for the top byte of a plain pointer. */
  lemma WantedIsLoadable(c: Context, enc: Encoding, fx: seq<Fix>, slots: seq<Rebuilt>, w: Want, name: string)
    requires w.meaning == Symbol(name) && IsWanted(c, fx, slots, name) && NamesFit(enc, ImportsOf(c, fx, slots))
    ensures Loadable(c.nbase, enc, ImportsOf(c, fx, slots), w) <==> Signed(w.auth, w.key, w.div, w.ad) && w.high8 == 0
  {
    hide IsWanted, ImportsOf;
    ImportsAreTheWanted(c, fx, slots, name);
    var imports := ImportsOf(c, fx, slots);
    var names := Encoded(enc, imports);
    var at :| 0 <= at < |imports| && imports[at] == name;
    forall i | 0 <= i < |imports| ensures B.Findable(names, i) {
      PoolGrows(names, i);
      assert imports[i] in imports;
    }
  }

  /** Nothing is stored at `loc` that points into the image. */
  ghost predicate NothingStored(l: Layout, c: Context, loc: int)
  {
    forall q, old_ :: !StoredProtocol(l, c, loc, q, old_)
  }

  /** Any other pointer to a named symbol of another image is loaded as an import of that symbol, and signed as it was.
      Only an import table that does not fit, the top byte of a plain pointer, a rebuilt slot there, or a segment with
      more content than memory can spoil this. */
  lemma SymbolIsImported(l: Layout, c: Context, enc: Encoding, fx: seq<Fix>, slots: seq<Rebuilt>,
                         blob: B.Bytes, mem: seq<Word64>, k: nat, p: nat, t: nat)
    requires Relocated(l, c, enc, fx, slots, blob, mem) && NamesFit(enc, ImportsOf(c, fx, slots))
    requires Lies(l, fx, slots, k, p) && Points(fx[k], t, 0)
    requires DeltaOf(c.inImage, t) == None && t !in c.localize && t in c.names && c.names[t] != ""
    requires c.names[t] == "_OBJC_CLASS_$_Protocol" ==> NothingStored(l, c, Moved(l, p, fx[k].addr))
    ensures LoadsAs(c, blob, mem, fx[k], Moved(l, p, fx[k].addr), 0, ImportOf(enc, c.names[t]))
  {
    hide Moved, InSegment, WellFormed, RealTarget, High8, Signed, Loadable, Output, LoadsAs, ImportsOf,
      IsSlot, NamesFit;
    hide Amap, Deltas, DeltaOf, LocalProtocol, StoredProtocol;
    Stripped(fx[k], t, 0);
    if c.names[t] == "_OBJC_CLASS_$_Protocol" { NoLocalProtocol(l, c, fx[k], p); }
    assert Intended(c, fx[k]) == Some(Symbol(c.names[t]));
    FixIsWanted(c, fx, slots, k, c.names[t]);
    WantedIsLoadable(c, enc, fx, slots, WantOf(c, fx[k]), c.names[t]);
    FixLoads(l, c, enc, fx, slots, blob, mem, k, p, t, 0);
  }

  lemma NoLocalProtocol(l: Layout, c: Context, f: Fix, p: nat)
    requires WellFormed(l) && c.deltas == Deltas(l, |l.segs|) && p < |l.segs| && InSegment(l.segs[p], f.addr)
    requires NothingStored(l, c, Moved(l, p, f.addr))
    ensures LocalProtocol(c, f) == None
  {
    hide Moved, InSegment, WellFormed, Amap, Deltas;
    AmapIsSegmentwise(l, f.addr);
    var loc := Moved(l, p, f.addr);
    if loc in c.stored {
      var old_ := c.stored[loc] % 0x100_0000_0000_0000;
      AmapIsSegmentwise(l, old_);
      forall q | 0 <= q < |l.segs| ensures StoredProtocol(l, c, loc, q, old_) <==> InSegment(l.segs[q], old_) {
        SplitBytes(c.stored[loc]);
      }
    }
  }

  lemma SplitBytes(w: nat)
    ensures (w - w % 0x100_0000_0000_0000) % 0x100_0000_0000_0000 == 0
  {
    var q := w / 0x100_0000_0000_0000;
    assert w - w % 0x100_0000_0000_0000 == 0x100_0000_0000_0000 * q;
  }

  /** A foreign target with no local copy and no name stops the run. */
  lemma UnnamedStops(c: Context, fx: seq<Fix>, k: nat, t: nat, tag: nat)
    requires k < |fx| && Points(fx[k], t, tag) && DeltaOf(c.inImage, t) == None && t !in c.localize
    requires t !in c.names || c.names[t] == ""
    ensures !AllNamed(c, fx)
  {
    hide RealTarget, High8, LocalProtocol, DeltaOf;
    Stripped(fx[k], t, tag);
    assert Intended(c, fx[k]) == None;
  }

  /** A slot bound to a symbol is loaded as an import of that symbol; a signed one with key 0, no diversity and the
      address mixed in. */
  lemma SlotIsImported(l: Layout, c: Context, enc: Encoding, fx: seq<Fix>, slots: seq<Rebuilt>,
                       blob: B.Bytes, mem: seq<Word64>, i: nat, name: string)
    requires Output(l, c, enc, fx, slots, ImportsOf(c, fx, slots), blob, mem) && NamesFit(enc, ImportsOf(c, fx, slots))
    requires LastOf(slots, |slots|, i) && slots[i].bind == Some(name) && InMemory(l, slots[i].slot)
    ensures var got, loc := L.Load(blob, mem, c.nbase), slots[i].slot;
      && got.Some? && loc in got.value && SlotSigned(slots[i].auth, got.value[loc])
      && L.Meaning(blob, c.nbase, got.value[loc]) == Some(ImportOf(enc, name))
  {
    hide L.Load, L.Meaning, Loadable, IsSlot, IsFixed, InMemory, ImportsOf, NamesFit;
    assert slots[i] in slots;
    WantedIsLoadable(c, enc, fx, slots, WantOfSlot(slots[i]), name);
  }

  /** The signature of a rebuilt slot. */
  predicate SlotSigned(auth: bool, e: Fixup)
  {
    e.auth == auth && e.key == 0 && e.div == 0 && e.high8 == 0 && e.ad == (if auth then 1 else 0)
  }

  /** A slot that holds a pointer into the image is loaded as that pointer, unsigned. */
  lemma SlotPointsInto(l: Layout, c: Context, enc: Encoding, fx: seq<Fix>, slots: seq<Rebuilt>,
                       blob: B.Bytes, mem: seq<Word64>, i: nat)
    requires Relocated(l, c, enc, fx, slots, blob, mem)
    requires LastOf(slots, |slots|, i) && slots[i].bind == None && InMemory(l, slots[i].slot)
    requires 0 <= slots[i].target - c.nbase < 0x800_0000_0000
    ensures var got, loc := L.Load(blob, mem, c.nbase), slots[i].slot;
      && got.Some? && loc in got.value && SlotSigned(false, got.value[loc])
      && L.Meaning(blob, c.nbase, got.value[loc]) == Some(L.Pointer(slots[i].target))
  {
    hide L.Load, L.Meaning, IsSlot, IsFixed, InMemory, ImportsOf;
    assert slots[i] in slots;
    assert slots[i].Sound();
    assert Loadable(c.nbase, enc, ImportsOf(c, fx, slots), WantOfSlot(slots[i]));
  }

  lemma FixIsWanted(c: Context, fx: seq<Fix>, slots: seq<Rebuilt>, k: nat, name: string)
    requires k < |fx| && Intended(c, fx[k]) == Some(Symbol(name))
    ensures IsWanted(c, fx, slots, name)
  {
  }

  /** A fixup of the input at a location that is kept and not rebuilt. */
  lemma FixIsLoaded(l: Layout, c: Context, enc: Encoding, fx: seq<Fix>, slots: seq<Rebuilt>,
                    imports: seq<string>, blob: B.Bytes, mem: seq<Word64>, k: nat, p: nat)
    requires WellFormed(l) && Collected(l, c, fx, slots) && Output(l, c, enc, fx, slots, imports, blob, mem)
    requires k < |fx| && p < |l.segs| && Kept(l, p, fx[k].addr) && !IsSlot(slots, Moved(l, p, fx[k].addr))
    ensures Intended(c, fx[k]).Some? && L.Load(blob, mem, c.nbase).Some?
    ensures Found(c.nbase, enc, imports, blob, L.Load(blob, mem, c.nbase).value, Moved(l, p, fx[k].addr),
                  WantOf(c, fx[k]))
  {
    hide Moved, L.Load, InSegment, WellFormed, Intended, Kept, IsSlot, IsFixed, Found, InMemory, WantOf, Deltas, Amap;
    KeptIsInside(l, p, fx[k].addr);
    AmapIsSegmentwise(l, fx[k].addr);
    KeptIsInMemory(l, p, fx[k].addr);
  }

  lemma KeptIsInside(l: Layout, p: nat, a: int)
    requires p < |l.segs| && Kept(l, p, a)
    ensures InSegment(l.segs[p], a)
  {
  }

  lemma KeptIsInMemory(l: Layout, p: nat, a: int)
    requires WellFormed(l) && p < |l.segs| && Kept(l, p, a)
    ensures InMemory(l, Moved(l, p, a))
  {
    hide C.Inside, Moved, OutSegs, Kept;
    KeptIsInside(l, p, a);
    KeptIff(l, p, a);
  }
}

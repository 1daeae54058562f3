/** `relayout_compact` and `make_amap`: packing the segments of a cache image into small slots and
    the piecewise address map that results.

    A buffer is an array of bytes.  The header fields that the original patches (segment and section
    addresses, sizes and offsets) are the records of type `Slot`; `Compact` copies the content. */
module Relayout {
  import opened Wrappers

  const SLOT_ALIGN := 0x4000

  datatype Range = Range(lo: int, hi: int, d: int)

  /** `seg_delta_old` and the lookup inside `amap`: the first range that contains the address. */
  function DeltaOf(deltas: seq<Range>, a: int): Option<int>
  {
    if deltas == [] then None
    else if deltas[0].lo <= a < deltas[0].hi then Some(deltas[0].d)
    else DeltaOf(deltas[1..], a)
  }

  function Amap(deltas: seq<Range>, a: int): Option<int>
  {
    match DeltaOf(deltas, a)
    case Some(d) => Some(a + d)
    case None => None
  }

  datatype Segment = Segment(name: string, va: int, vs: nat, fo: nat, fs: nat)

  /** Where to open a gap: the segment's name, the end of the section it follows, and its size. */
  datatype Insert = Insert(seg: string, splitVa: int, bytes: nat)

  datatype Layout = Layout(segs: seq<Segment>, insert: Option<Insert>, textTail: nat, newBase: int)

  /** What the load commands of one output segment say. */
  datatype Slot = Slot(vmaddr: int, vmsize: nat, fileoff: int, filesize: nat)

  function Max(a: int, b: int): int { if a < b then b else a }

  function RoundUp(n: int): (r: int)
    ensures n <= r < n + SLOT_ALIGN && r % SLOT_ALIGN == 0
  {
    n + (-n) % SLOT_ALIGN
  }

  function Extent(s: Segment): nat { Max(s.vs, s.fs) }

  predicate InSegment(s: Segment, a: int) { s.va <= a < s.va + Extent(s) }

  predicate Splits(l: Layout, s: Segment) { l.insert.Some? && s.name == l.insert.value.seg }

  function Shift(l: Layout): nat
  {
    if l.insert.Some? then RoundUp(l.insert.value.bytes) else 0
  }

  function Tail(l: Layout, s: Segment): nat { if s.name == "__TEXT" then l.textTail else 0 }

  function Extra(l: Layout, s: Segment): nat { (if Splits(l, s) then Shift(l) else 0) + Tail(l, s) }

  function SlotSize(l: Layout, s: Segment): (n: nat)
    ensures n % SLOT_ALIGN == 0 && Extent(s) + Extra(l, s) <= n
  {
    RoundUp(Extent(s) + Extra(l, s))
  }

  /** The new address of segment `i`; for `i == |l.segs|` the end of the image. */
  function Start(l: Layout, i: nat): int
    requires i <= |l.segs|
  {
    if i == 0 then l.newBase else Start(l, i - 1) + SlotSize(l, l.segs[i - 1])
  }

  function RangesOf(l: Layout, i: nat): seq<Range>
    requires i < |l.segs|
  {
    var s := l.segs[i];
    var d := Start(l, i) - s.va;
    if Splits(l, s) then
      var split := l.insert.value.splitVa;
      [Range(s.va, split, d), Range(split, s.va + Extent(s), d + Shift(l))]
    else [Range(s.va, s.va + Extent(s), d)]
  }

  function Deltas(l: Layout, n: nat): seq<Range>
    requires n <= |l.segs|
  {
    if n == 0 then [] else Deltas(l, n - 1) + RangesOf(l, n - 1)
  }

  function SlotOf(l: Layout, i: nat): Slot
    requires i < |l.segs|
  {
    var s := l.segs[i];
    var v := Start(l, i);
    Slot(v, RoundUp(s.vs + Extra(l, s)), v - l.newBase,
         if s.name == "__LINKEDIT" then s.fs + Extra(l, s) else RoundUp(s.fs + Extra(l, s)))
  }

  /** The segments of a cache image do not overlap. */
  ghost predicate Disjoint(l: Layout)
  {
    forall i, j :: 0 <= i < j < |l.segs| ==>
      l.segs[i].va + Extent(l.segs[i]) <= l.segs[j].va || l.segs[j].va + Extent(l.segs[j]) <= l.segs[i].va
  }

  /** The gap opens inside the content of the one segment it names. */
  ghost predicate GapInside(l: Layout)
  {
    forall i :: 0 <= i < |l.segs| && Splits(l, l.segs[i]) ==>
      l.segs[i].va <= l.insert.value.splitVa <= l.segs[i].va + l.segs[i].fs
  }

  ghost predicate WellFormed(l: Layout)
  {
    Disjoint(l) && GapInside(l)
  }

  /** The new image starts on a slot boundary and every segment on a 4 KB page. */
  ghost predicate Aligned(l: Layout)
  {
    && l.newBase % SLOT_ALIGN == 0
    && forall i :: 0 <= i < |l.segs| ==> l.segs[i].va % 0x1000 == 0
  }

  /** How far an address of segment `i` moves. */
  function Moved(l: Layout, i: nat, a: int): int
    requires i < |l.segs|
  {
    var s := l.segs[i];
    a + (Start(l, i) - s.va) + (if Splits(l, s) && l.insert.value.splitVa <= a then Shift(l) else 0)
  }

  lemma {:induction false} DeltaOfConcat(xs: seq<Range>, ys: seq<Range>, a: int)
    ensures DeltaOf(xs + ys, a) == (if DeltaOf(xs, a).Some? then DeltaOf(xs, a) else DeltaOf(ys, a))
  {
    if xs == [] {
      assert xs + ys == ys;
    } else {
      assert (xs + ys)[1..] == xs[1..] + ys;
      DeltaOfConcat(xs[1..], ys, a);
    }
  }

  lemma RangesOfFind(l: Layout, i: nat, a: int)
    requires WellFormed(l) && i < |l.segs|
    ensures DeltaOf(RangesOf(l, i), a) == if InSegment(l.segs[i], a) then Some(Moved(l, i, a) - a) else None
  {
    var s := l.segs[i];
    assert s in l.segs;
    var rs := RangesOf(l, i);
    assert DeltaOf([], a) == None;
    if Splits(l, s) {
      assert rs[1..] == [rs[1]] && [rs[1]][1..] == [];
      assert DeltaOf([rs[1]], a) == if rs[1].lo <= a < rs[1].hi then Some(rs[1].d) else None;
    } else {
      assert rs[1..] == [];
    }
  }

  /** The first-match lookup finds the segment that contains the address. */
  lemma {:induction false} DeltasFind(l: Layout, n: nat, i: nat, a: int)
    requires WellFormed(l) && i < n <= |l.segs| && InSegment(l.segs[i], a)
    ensures DeltaOf(Deltas(l, n), a) == Some(Moved(l, i, a) - a)
  {
    DeltaOfConcat(Deltas(l, n - 1), RangesOf(l, n - 1), a);
    if i < n - 1 {
      DeltasFind(l, n - 1, i, a);
    } else {
      DeltasMiss(l, n - 1, a);
      RangesOfFind(l, i, a);
    }
  }

  lemma {:induction false} DeltasMiss(l: Layout, n: nat, a: int)
    requires WellFormed(l) && n <= |l.segs|
    requires forall i :: 0 <= i < n ==> !InSegment(l.segs[i], a)
    ensures DeltaOf(Deltas(l, n), a) == None
  {
    if n > 0 {
      DeltasMiss(l, n - 1, a);
      RangesOfFind(l, n - 1, a);
      DeltaOfConcat(Deltas(l, n - 1), RangesOf(l, n - 1), a);
    }
  }

  /** `amap` is defined exactly on the addresses of the old segments, and moves each as its segment
      moves. */
  lemma AmapIsSegmentwise(l: Layout, a: int)
    requires WellFormed(l)
    ensures forall i :: 0 <= i < |l.segs| && InSegment(l.segs[i], a) ==>
              Amap(Deltas(l, |l.segs|), a) == Some(Moved(l, i, a))
    ensures Amap(Deltas(l, |l.segs|), a).Some? <==> exists i :: 0 <= i < |l.segs| && InSegment(l.segs[i], a)
  {
    forall i | 0 <= i < |l.segs| && InSegment(l.segs[i], a)
      ensures DeltaOf(Deltas(l, |l.segs|), a) == Some(Moved(l, i, a) - a)
    {
      DeltasFind(l, |l.segs|, i, a);
    }
    if !exists i :: 0 <= i < |l.segs| && InSegment(l.segs[i], a) {
      DeltasMiss(l, |l.segs|, a);
    }
  }

  lemma {:induction false} StartIsOrdered(l: Layout, i: nat, j: nat)
    requires i < j <= |l.segs|
    ensures Start(l, i) + SlotSize(l, l.segs[i]) <= Start(l, j)
    decreases j
  {
    if i < j - 1 { StartIsOrdered(l, i, j - 1); }
  }

  lemma {:induction false} StartIsAligned(l: Layout, i: nat)
    requires i <= |l.segs| && l.newBase % SLOT_ALIGN == 0
    ensures Start(l, i) % SLOT_ALIGN == 0 && l.newBase <= Start(l, i)
  {
    if i > 0 { StartIsAligned(l, i - 1); }
  }

  /** An address stays inside the slot of its segment, below the slot's reserved tail. */
  lemma MovedStaysInSlot(l: Layout, i: nat, a: int)
    requires WellFormed(l) && i < |l.segs| && InSegment(l.segs[i], a)
    ensures Start(l, i) <= Moved(l, i, a) < Start(l, i) + Extent(l.segs[i]) + Extra(l, l.segs[i])
  {
  }

  lemma SlotsAreApart(l: Layout, i: nat, j: nat, x: int)
    requires i < |l.segs| && j < |l.segs|
    requires Start(l, i) <= x < Start(l, i) + SlotSize(l, l.segs[i])
    requires Start(l, j) <= x < Start(l, j) + SlotSize(l, l.segs[j])
    ensures i == j
  {
    hide SlotSize;
    if i < j { StartIsOrdered(l, i, j); }
    if j < i { StartIsOrdered(l, j, i); }
  }

  /** `amap` never sends two addresses to one. */
  lemma AmapIsInjective(l: Layout, a: int, b: int)
    requires WellFormed(l)
    requires Amap(Deltas(l, |l.segs|), a).Some? && Amap(Deltas(l, |l.segs|), a) == Amap(Deltas(l, |l.segs|), b)
    ensures a == b
  {
    hide SlotSize, Extra, Shift;
    AmapIsSegmentwise(l, a);
    AmapIsSegmentwise(l, b);
    var i :| 0 <= i < |l.segs| && InSegment(l.segs[i], a);
    var j :| 0 <= j < |l.segs| && InSegment(l.segs[j], b);
    MovedStaysInSlot(l, i, a);
    MovedStaysInSlot(l, j, b);
    SlotsAreApart(l, i, j, Moved(l, i, a));
  }

  /** Inside one segment the map keeps the order of addresses, and every distance that does not cross
      the gap. */
  lemma AmapKeepsOrder(l: Layout, i: nat, a: int, b: int)
    requires WellFormed(l) && i < |l.segs|
    requires InSegment(l.segs[i], a) && InSegment(l.segs[i], b) && a < b
    ensures var x, y := Amap(Deltas(l, |l.segs|), a), Amap(Deltas(l, |l.segs|), b);
            x.Some? && y.Some? && x.value < y.value
            && (y.value - x.value == b - a <==>
                !(Splits(l, l.segs[i]) && a < l.insert.value.splitVa <= b) || Shift(l) == 0)
  {
    AmapIsSegmentwise(l, a);
    AmapIsSegmentwise(l, b);
  }

  lemma SumOfPages(start: int, va: int, shift: int)
    requires start % SLOT_ALIGN == 0 && va % 0x1000 == 0 && shift % SLOT_ALIGN == 0
    ensures (start - va) % 0x1000 == 0 && (start - va + shift) % 0x1000 == 0
  {
  }

  /** Every move is by a multiple of 4 KB, so the low 12 bits of every address survive. */
  lemma AmapKeepsPageOffset(l: Layout, a: int)
    requires WellFormed(l) && Aligned(l)
    ensures DeltaOf(Deltas(l, |l.segs|), a).Some? ==> DeltaOf(Deltas(l, |l.segs|), a).value % 0x1000 == 0
  {
    if i :| 0 <= i < |l.segs| && InSegment(l.segs[i], a) {
      DeltasFind(l, |l.segs|, i, a);
      StartIsAligned(l, i);
      SumOfPages(Start(l, i), l.segs[i].va, Shift(l));
    } else {
      DeltasMiss(l, |l.segs|, a);
    }
  }

  lemma GapIsInSlot(l: Layout, i: nat, x: int)
    requires WellFormed(l) && i < |l.segs| && Splits(l, l.segs[i])
    requires var pool := l.insert.value.splitVa + (Start(l, i) - l.segs[i].va); pool <= x < pool + Shift(l)
    ensures Start(l, i) <= x < Start(l, i) + SlotSize(l, l.segs[i])
  {
    hide SlotSize, Shift;
  }

  /** Nothing is ever moved into the gap (or into the executable tail reserved behind the text). */
  lemma GapIsUnmapped(l: Layout, i: nat, x: int, a: int)
    requires WellFormed(l) && i < |l.segs| && Splits(l, l.segs[i])
    requires var pool := l.insert.value.splitVa + (Start(l, i) - l.segs[i].va); pool <= x < pool + Shift(l)
    ensures Amap(Deltas(l, |l.segs|), a) != Some(x)
  {
    hide SlotSize, Shift;
    AmapIsSegmentwise(l, a);
    if j :| 0 <= j < |l.segs| && InSegment(l.segs[j], a) {
      MovedStaysInSlot(l, j, a);
      GapIsInSlot(l, i, x);
      if Moved(l, j, a) == x { SlotsAreApart(l, i, j, x); }
    }
  }

  /** The output load commands: slots follow one another without overlap in memory and in the file,
      and the file mirrors memory. */
  lemma SlotsMirrorTheFile(l: Layout, i: nat, j: nat)
    requires Aligned(l) && i < j < |l.segs|
    ensures var s, t := SlotOf(l, i), SlotOf(l, j);
            && s.fileoff == s.vmaddr - l.newBase && t.fileoff == t.vmaddr - l.newBase
            && s.vmaddr % SLOT_ALIGN == 0 && s.vmsize % SLOT_ALIGN == 0
            && s.vmaddr + s.vmsize <= t.vmaddr && s.fileoff + s.filesize <= t.fileoff
    ensures SlotOf(l, 0).fileoff == 0
  {
    StartIsAligned(l, i);
    StartIsOrdered(l, i, j);
  }

  /** Slots are packed: the first at the new base, each next one at the first 16 KB boundary behind the content or the
      memory of the one before, whichever is larger, with its gap and its tail. */
  lemma SlotsArePacked(l: Layout, i: nat)
    requires i < |l.segs|
    ensures Start(l, 0) == l.newBase
    ensures var s, next := l.segs[i], Start(l, i + 1) - Start(l, i);
      var need := (if s.vs < s.fs then s.fs else s.vs)
                  + (if Splits(l, s) then Shift(l) else 0) + (if s.name == "__TEXT" then l.textTail else 0);
      next % 0x4000 == 0 && need <= next < need + 0x4000
  {
    hide Shift;
  }

  /** An address belongs to a segment when it is in its memory or in its content. */
  lemma InSegmentIff(s: Segment, a: int)
    ensures InSegment(s, a) <==> s.va <= a && (a < s.va + s.vs || a < s.va + s.fs)
  {
  }

  /** A slot covers its segment, in memory and in the file. */
  lemma SlotCoversItsSegment(l: Layout, i: nat, a: int)
    requires WellFormed(l) && i < |l.segs| && InSegment(l.segs[i], a)
    ensures var s, m := l.segs[i], Amap(Deltas(l, |l.segs|), a);
      && m.Some? && SlotOf(l, i).vmaddr <= m.value
      && (a < s.va + s.vs ==> m.value < SlotOf(l, i).vmaddr + SlotOf(l, i).vmsize)
      && (a < s.va + s.fs ==> l.newBase + SlotOf(l, i).fileoff <= m.value
                              < l.newBase + SlotOf(l, i).fileoff + SlotOf(l, i).filesize)
  {
    AmapIsSegmentwise(l, a);
  }

  /** The bytes reserved behind the text stay free. */
  lemma TailIsUnmapped(l: Layout, i: nat, x: int, a: int)
    requires WellFormed(l) && i < |l.segs| && l.segs[i].name == "__TEXT"
    requires var end := Start(l, i) + Extent(l.segs[i]) + (if Splits(l, l.segs[i]) then Shift(l) else 0);
             end <= x < end + l.textTail
    ensures Amap(Deltas(l, |l.segs|), a) != Some(x)
    ensures i + 1 < |l.segs| ==> x < Start(l, i + 1)
  {
    hide Shift;
    AmapIsSegmentwise(l, a);
    if j :| 0 <= j < |l.segs| && InSegment(l.segs[j], a) {
      MovedStaysInSlot(l, j, a);
      if Moved(l, j, a) == x { SlotsAreApart(l, i, j, x); }
    }
  }

  /** The byte at offset `o` of output slot `i`: the segment's content, split around the gap, and
      zeros everywhere else. */
  function SlotByte(l: Layout, buf: seq<int>, i: nat, o: int): int
    requires GapInside(l) && i < |l.segs| && l.segs[i].fo + l.segs[i].fs <= |buf| && 0 <= o
  {
    var s := l.segs[i];
    var gap := if Splits(l, s) then Shift(l) else 0;
    var cut := if Splits(l, s) then l.insert.value.splitVa - s.va else s.fs;
    if o < cut && o < s.fs then buf[s.fo + o]
    else if cut + gap <= o < s.fs + gap then buf[s.fo + o - gap]
    else 0
  }

  /** Content moves with the address map: the byte that was at address `a` of the old image is the
      byte at `amap(a)` of the new one. */
  lemma ContentMovesWithAmap(l: Layout, buf: seq<int>, i: nat, a: int)
    requires WellFormed(l) && i < |l.segs| && l.segs[i].fo + l.segs[i].fs <= |buf|
    requires l.segs[i].va <= a < l.segs[i].va + l.segs[i].fs
    ensures var m := Amap(Deltas(l, |l.segs|), a);
            m.Some? && Start(l, i) <= m.value < Start(l, i) + SlotSize(l, l.segs[i])
            && SlotByte(l, buf, i, m.value - Start(l, i)) == buf[l.segs[i].fo + (a - l.segs[i].va)]
  {
    DeltasFind(l, |l.segs|, i, a);
    MovedStaysInSlot(l, i, a);
    MovedByte(l, buf, i, a);
  }

  lemma MovedByte(l: Layout, buf: seq<int>, i: nat, a: int)
    requires GapInside(l) && i < |l.segs| && l.segs[i].fo + l.segs[i].fs <= |buf|
    requires l.segs[i].va <= a < l.segs[i].va + l.segs[i].fs
    ensures Moved(l, i, a) >= Start(l, i)
    ensures SlotByte(l, buf, i, Moved(l, i, a) - Start(l, i)) == buf[l.segs[i].fo + (a - l.segs[i].va)]
  {
  }

  /** Where the gap opens in the new image. */
  function PoolVa(l: Layout, n: nat): Option<int>
    requires n <= |l.segs|
  {
    if n == 0 then None
    else if Splits(l, l.segs[n - 1]) then Some(l.insert.value.splitVa + (Start(l, n - 1) - l.segs[n - 1].va))
    else PoolVa(l, n - 1)
  }

  lemma {:induction false} PoolOwner(l: Layout, n: nat) returns (i: nat)
    requires n <= |l.segs|
    ensures PoolVa(l, n).Some? ==>
              i < n && Splits(l, l.segs[i])
              && PoolVa(l, n).value == l.insert.value.splitVa + (Start(l, i) - l.segs[i].va)
    ensures PoolVa(l, n) == None ==> forall j :: 0 <= j < n ==> !Splits(l, l.segs[j])
  {
    i := 0;
    if n > 0 {
      if Splits(l, l.segs[n - 1]) { i := n - 1; } else { i := PoolOwner(l, n - 1); }
    }
  }

  /** The pool address is where the gap begins: the byte before the split ends up right before it, the byte at
      the split right after the gap, and nothing inside. */
  lemma PoolIsTheGap(l: Layout) returns (i: nat)
    requires WellFormed(l)
    ensures PoolVa(l, |l.segs|) == None ==> forall j :: 0 <= j < |l.segs| ==> !Splits(l, l.segs[j])
    ensures PoolVa(l, |l.segs|).Some? ==>
              l.insert.Some? && i < |l.segs| && l.segs[i].name == l.insert.value.seg
    ensures PoolVa(l, |l.segs|).Some? ==>
      var p, split, deltas := PoolVa(l, |l.segs|).value, l.insert.value.splitVa, Deltas(l, |l.segs|);
      && (InSegment(l.segs[i], split - 1) ==> Amap(deltas, split - 1) == Some(p - 1))
      && (InSegment(l.segs[i], split) ==> Amap(deltas, split) == Some(p + Shift(l)))
      && (forall x, a :: p <= x < p + Shift(l) ==> Amap(deltas, a) != Some(x))
  {
    i := PoolOwner(l, |l.segs|);
    hide SlotSize, Shift, PoolVa, Amap, Deltas, WellFormed;
    if PoolVa(l, |l.segs|).Some? {
      var p := PoolVa(l, |l.segs|).value;
      AroundTheSplit(l, i, p);
      forall x, a | p <= x < p + Shift(l) ensures Amap(Deltas(l, |l.segs|), a) != Some(x) {
        GapIsUnmapped(l, i, x, a);
      }
    }
  }

  lemma AroundTheSplit(l: Layout, i: nat, p: int)
    requires WellFormed(l) && i < |l.segs| && Splits(l, l.segs[i])
    requires p == l.insert.value.splitVa + (Start(l, i) - l.segs[i].va)
    ensures var split, deltas := l.insert.value.splitVa, Deltas(l, |l.segs|);
      && (InSegment(l.segs[i], split - 1) ==> Amap(deltas, split - 1) == Some(p - 1))
      && (InSegment(l.segs[i], split) ==> Amap(deltas, split) == Some(p + Shift(l)))
  {
    hide SlotSize, Shift, Start, Deltas, Amap, WellFormed;
    AmapIsSegmentwise(l, l.insert.value.splitVa - 1);
    AmapIsSegmentwise(l, l.insert.value.splitVa);
    assert !(l.insert.value.splitVa <= l.insert.value.splitVa - 1);
  }

  /** The gap is a whole number of 16 KB pages with room for what is asked, and no page more. */
  lemma GapHasRoom(l: Layout)
    ensures Shift(l) % 0x4000 == 0
    ensures l.insert.Some? ==> l.insert.value.bytes <= Shift(l) < l.insert.value.bytes + 0x4000
    ensures l.insert == None ==> Shift(l) == 0
  {
  }

  /** What one round of the packing loop adds. */
  lemma PlaceStep(l: Layout, i: nat)
    requires i < |l.segs|
    ensures var s, nf := l.segs[i], Start(l, i);
      if Splits(l, s) then
        var split := l.insert.value.splitVa;
        && Start(l, i + 1) == nf + RoundUp(Max(s.vs, s.fs) + Shift(l) + Tail(l, s))
        && PoolVa(l, i + 1) == Some(split + (nf - s.va))
        && Deltas(l, i + 1) == Deltas(l, i) + [Range(s.va, split, nf - s.va),
                                               Range(split, s.va + Max(s.vs, s.fs), nf - s.va + Shift(l))]
      else
        && Start(l, i + 1) == nf + RoundUp(Max(s.vs, s.fs) + Tail(l, s)) && PoolVa(l, i + 1) == PoolVa(l, i)
        && Deltas(l, i + 1) == Deltas(l, i) + [Range(s.va, s.va + Max(s.vs, s.fs), nf - s.va)]
  {
    hide RoundUp, Shift;
    var s := l.segs[i];
    assert Start(l, i + 1) == Start(l, i) + RoundUp(Extent(s) + Extra(l, s));
    assert Deltas(l, i + 1) == Deltas(l, i) + RangesOf(l, i);
  }

  /** The new addresses of the first segments. */
  ghost predicate PlacedAt(l: Layout, places: seq<int>)
  {
    |places| <= |l.segs| && forall i {:trigger places[i]} :: 0 <= i < |places| ==> places[i] == Start(l, i)
  }

  lemma OneMorePlaced(l: Layout, places: seq<int>)
    requires PlacedAt(l, places) && |places| < |l.segs|
    ensures PlacedAt(l, places + [Start(l, |places|)])
  {
    hide Start;
  }

  /** One round of the packing loop. */
  method PlaceNext(l: Layout, i: nat, nf: int, pool: Option<int>)
      returns (more: seq<Range>, pool': Option<int>, end: int)
    requires i < |l.segs| && nf == Start(l, i) && pool == PoolVa(l, i)
    ensures end == Start(l, i + 1) && Deltas(l, i + 1) == Deltas(l, i) + more && pool' == PoolVa(l, i + 1)
  {
    PlaceStep(l, i);
    hide Start, Deltas, PoolVa, RoundUp, Max, Shift, Tail;
    var s := l.segs[i];
    if Splits(l, s) {
      var split := l.insert.value.splitVa;
      more := [Range(s.va, split, nf - s.va), Range(split, s.va + Max(s.vs, s.fs), nf - s.va + Shift(l))];
      pool' := Some(split + (nf - s.va));
      end := nf + RoundUp(Max(s.vs, s.fs) + Shift(l) + Tail(l, s));
    } else {
      more, pool' := [Range(s.va, s.va + Max(s.vs, s.fs), nf - s.va)], pool;
      end := nf + RoundUp(Max(s.vs, s.fs) + Tail(l, s));
    }
  }

  /** The packing loop of `relayout_compact`. */
  method Place(l: Layout) returns (places: seq<int>, deltas: seq<Range>, poolVa: Option<int>, end: int)
    ensures |places| == |l.segs| && PlacedAt(l, places)
    ensures deltas == Deltas(l, |l.segs|) && end == Start(l, |l.segs|) && poolVa == PoolVa(l, |l.segs|)
  {
    places, deltas, poolVa, end := [], [], None, l.newBase;
    assert PlacedAt(l, []) && Start(l, 0) == l.newBase && Deltas(l, 0) == [] && PoolVa(l, 0) == None;
    hide Start, Deltas, PoolVa, PlacedAt;
    for i := 0 to |l.segs|
      invariant |places| == i && PlacedAt(l, places)
      invariant deltas == Deltas(l, i) && end == Start(l, i) && poolVa == PoolVa(l, i)
    {
      OneMorePlaced(l, places);
      places := places + [end];
      var more;
      more, poolVa, end := PlaceNext(l, i, end, poolVa);
      deltas := deltas + more;
    }
  }

  /** The two slice assignments that move one segment's content into its zeroed slot. */
  method CopySegment(l: Layout, buf: seq<int>, i: nat, out: array<int>, nf: nat)
    requires GapInside(l) && i < |l.segs| && l.segs[i].fo + l.segs[i].fs <= |buf|
    requires nf + SlotSize(l, l.segs[i]) <= out.Length
    requires forall x :: nf <= x < out.Length ==> out[x] == 0
    modifies out
    ensures forall x :: 0 <= x < nf || nf + SlotSize(l, l.segs[i]) <= x < out.Length ==> out[x] == old(out[x])
    ensures forall o :: 0 <= o < SlotSize(l, l.segs[i]) ==> out[nf + o] == SlotByte(l, buf, i, o)
  {
    var s := l.segs[i];
    if Splits(l, s) {
      var cut, shift := l.insert.value.splitVa - s.va, Shift(l);
      forall k | 0 <= k < cut { out[nf + k] := buf[s.fo + k]; }
      forall k | cut + shift <= k < s.fs + shift { out[nf + k] := buf[s.fo + k - shift]; }
    } else {
      forall k | 0 <= k < s.fs { out[nf + k] := buf[s.fo + k]; }
    }
  }

  /** Slot `i` of the output holds what the layout says. */
  ghost predicate HoldsSlot(l: Layout, buf: seq<int>, i: nat, out: array<int>)
    requires GapInside(l) && i < |l.segs| && l.segs[i].fo + l.segs[i].fs <= |buf|
    reads out
  {
    var nf := Start(l, i) - l.newBase;
    && 0 <= nf <= nf + SlotSize(l, l.segs[i]) <= out.Length
    && forall o :: 0 <= o < SlotSize(l, l.segs[i]) ==> out[nf + o] == SlotByte(l, buf, i, o)
  }

  ghost predicate InBuffer(l: Layout, buf: seq<int>)
  {
    forall i :: 0 <= i < |l.segs| ==> l.segs[i].fo + l.segs[i].fs <= |buf|
  }

  /** The first `n` slots are filled and the rest of the output is still zero. */
  ghost predicate FilledUpTo(l: Layout, buf: seq<int>, n: nat, out: array<int>)
    requires GapInside(l) && InBuffer(l, buf) && n <= |l.segs|
    reads out
  {
    && (forall j :: 0 <= j < n ==> HoldsSlot(l, buf, j, out))
    && 0 <= Start(l, n) - l.newBase <= out.Length == Start(l, |l.segs|) - l.newBase
    && forall x :: Start(l, n) - l.newBase <= x < out.Length ==> out[x] == 0
  }

  method FillSlot(l: Layout, buf: seq<int>, i: nat, out: array<int>, nf: nat)
    requires GapInside(l) && InBuffer(l, buf) && i < |l.segs| && nf == Start(l, i) - l.newBase
    requires FilledUpTo(l, buf, i, out)
    modifies out
    ensures FilledUpTo(l, buf, i + 1, out)
  {
    hide SlotByte, SlotSize, Shift;
    StartIsPast(l, i + 1);
    if i + 1 < |l.segs| { StartIsOrdered(l, i + 1, |l.segs|); }
    assert nf + SlotSize(l, l.segs[i]) == Start(l, i + 1) - l.newBase;
    label before:
    CopySegment(l, buf, i, out, nf);
    forall j | 0 <= j < i ensures HoldsSlot(l, buf, j, out) {
      StartIsOrdered(l, j, i);
      assert old(HoldsSlot(l, buf, j, out));
    }
  }

  /** `relayout_compact` on the content of the image. */
  method Compact(l: Layout, buf: seq<int>) returns (out: array<int>, deltas: seq<Range>, poolVa: Option<int>)
    requires WellFormed(l) && InBuffer(l, buf)
    ensures fresh(out) && out.Length == Start(l, |l.segs|) - l.newBase
    ensures deltas == Deltas(l, |l.segs|) && poolVa == PoolVa(l, |l.segs|)
    ensures forall i :: 0 <= i < |l.segs| ==> HoldsSlot(l, buf, i, out)
  {
    var places, end;
    places, deltas, poolVa, end := Place(l);
    StartIsPast(l, |l.segs|);
    out := new int[end - l.newBase](_ => 0);
    for i := 0 to |l.segs|
      invariant FilledUpTo(l, buf, i, out)
    {
      StartIsPast(l, i);
      FillSlot(l, buf, i, out, places[i] - l.newBase);
    }
  }

  lemma {:induction false} StartIsPast(l: Layout, i: nat)
    requires i <= |l.segs|
    ensures l.newBase <= Start(l, i)
  {
    if i > 0 { StartIsPast(l, i - 1); }
  }
}

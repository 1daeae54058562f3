/** Weaving the fixup chains into the image, one chain per 16 KB page, and the loader that walks them.

    The image is an array of 64-bit words; the file mirrors memory, so the word of an 8-aligned
    address `a` is word `(a - base) / 8`. */
module Chains {
  import opened Wrappers
  import opened ChainWords

  const PAGE := 0x4000
  const START_NONE := 0xFFFF

  type Entries = map<int, Fixup>

  datatype Seg = Seg(va: int, vs: nat)

  function Index(base: int, a: int): int { (a - base) / 8 }

  function PageOf(va: int, a: int): int { (a - va) / PAGE }

  function NumPages(s: Seg): nat { (s.vs + PAGE - 1) / PAGE }

  /** The addresses of one page, in the order of the sorted list. */
  function InPage(addrs: seq<int>, va: int, pg: int): seq<int>
  {
    if addrs == [] then []
    else (if PageOf(va, addrs[0]) == pg then [addrs[0]] else []) + InPage(addrs[1..], va, pg)
  }

  /** The delta to the next entry of the page, in words; zero ends the chain. */
  function Delta(plist: seq<int>, j: nat): int
    requires j < |plist|
  {
    if j + 1 < |plist| then (plist[j + 1] - plist[j]) / 8 else 0
  }

  ghost predicate Ascending(addrs: seq<int>)
  {
    forall i, j :: 0 <= i < j < |addrs| ==> addrs[i] < addrs[j]
  }

  /** An 8-aligned address whose word is in the image. */
  predicate Addressable(base: int, words: nat, a: int)
  {
    (a - base) % 8 == 0 && 0 <= Index(base, a) < words
  }

  /** A sorted list of addressable keys inside a segment. */
  ghost predicate GoodList(base: int, words: nat, s: Seg, addrs: seq<int>, entries: Entries)
  {
    && Ascending(addrs)
    && forall a <- addrs :: a in entries && s.va <= a < s.va + s.vs && Addressable(base, words, a)
  }

  /** The same, for the addresses of one page. */
  ghost predicate GoodPage(base: int, words: nat, lo: int, plist: seq<int>, entries: Entries)
  {
    && Ascending(plist)
    && forall a <- plist :: a in entries && lo <= a < lo + PAGE && Addressable(base, words, a)
  }

  /** The words of one page's chain. */
  ghost predicate PageWoven(mem: seq<Word64>, base: int, plist: seq<int>, entries: Entries)
  {
    forall j :: 0 <= j < |plist| ==>
      plist[j] in entries && 0 <= Index(base, plist[j]) < |mem|
      && mem[Index(base, plist[j])] == Pack(entries[plist[j]], Delta(plist, j))
  }

  // ---------------------------------------------------------------- the loader's walk

  /** The addresses the loader visits from `a` on; a link that leaves the page is malformed. */
  function Walk(mem: seq<Word64>, base: int, a: int, end: int): Option<seq<int>>
    decreases end - a
  {
    if !(a < end && Addressable(base, |mem|, a)) then None
    else
      var next := Next(mem[Index(base, a)]);
      if next == 0 then Some([a])
      else match Walk(mem, base, a + 8 * next, end)
           case None => None
           case Some(rest) => Some([a] + rest)
  }

  /** All the pages of a segment from page `pg` on, with the page size of its record. */
  function WalkPages(mem: seq<Word64>, base: int, va: int, page: nat, starts: seq<int>, pg: nat): Option<seq<int>>
    requires pg <= |starts|
    decreases |starts| - pg
  {
    if pg == |starts| then Some([])
    else
      var lo := va + pg * page;
      var here := if starts[pg] == START_NONE then Some([]) else Walk(mem, base, lo + starts[pg], lo + page);
      match (here, WalkPages(mem, base, va, page, starts, pg + 1))
      case (Some(xs), Some(ys)) => Some(xs + ys)
      case _ => None
  }

  // ---------------------------------------------------------------- one page

  /** A link inside a page is at least one word and always fits its 11 bits. */
  lemma DeltaFits(base: int, words: nat, lo: int, plist: seq<int>, entries: Entries, j: nat)
    requires GoodPage(base, words, lo, plist, entries) && j < |plist|
    ensures 0 <= Delta(plist, j) < NEXT_LIMIT
    ensures j + 1 == |plist| ==> Delta(plist, j) == 0
    ensures j + 1 < |plist| ==> Delta(plist, j) > 0 && plist[j] + 8 * Delta(plist, j) == plist[j + 1]
  {
    assert plist[j] in plist;
    if j + 1 < |plist| {
      assert plist[j + 1] in plist;
      var d := plist[j + 1] - plist[j];
      assert (plist[j + 1] - base) % 8 == 0 && (plist[j] - base) % 8 == 0;
      assert d % 8 == 0;
    }
  }

  /** Walking a woven page from its `j`-th address visits exactly the rest of the page. */
  lemma {:induction false} WalkVisitsPage(mem: seq<Word64>, base: int, lo: int, plist: seq<int>, entries: Entries,
                                          j: nat)
    requires GoodPage(base, |mem|, lo, plist, entries) && PageWoven(mem, base, plist, entries) && j < |plist|
    ensures Walk(mem, base, plist[j], lo + PAGE) == Some(plist[j..])
    decreases |plist| - j
  {
    hide Pack, Next, Index, Addressable, Delta;
    assert plist[j] in plist;
    DeltaFits(base, |mem|, lo, plist, entries, j);
    NextOfPack(entries[plist[j]], Delta(plist, j));
    if j + 1 < |plist| {
      WalkVisitsPage(mem, base, lo, plist, entries, j + 1);
      assert [plist[j]] + plist[j + 1..] == plist[j..];
    } else {
      assert plist[j..] == [plist[j]];
    }
  }

  lemma DistinctWords(base: int, words: nat, a: int, b: int)
    requires Addressable(base, words, a) && Addressable(base, words, b) && a != b
    ensures Index(base, a) != Index(base, b)
  {
  }

  // ---------------------------------------------------------------- splitting a segment into pages

  ghost predicate PagesAscend(addrs: seq<int>, va: int)
  {
    forall i, j :: 0 <= i < j < |addrs| ==> PageOf(va, addrs[i]) <= PageOf(va, addrs[j])
  }

  /** The pages from `pg` to `n`, one after the other. */
  function FromPage(addrs: seq<int>, va: int, pg: nat, n: nat): seq<int>
    requires pg <= n
    decreases n - pg
  {
    if pg == n then [] else InPage(addrs, va, pg) + FromPage(addrs, va, pg + 1, n)
  }

  lemma {:induction false} InPageMembers(addrs: seq<int>, va: int, pg: int)
    ensures forall a :: a in InPage(addrs, va, pg) <==> a in addrs && PageOf(va, a) == pg
  {
    if addrs != [] {
      InPageMembers(addrs[1..], va, pg);
      forall a ensures a in InPage(addrs, va, pg) <==> a in addrs && PageOf(va, a) == pg {
        assert a in addrs <==> a == addrs[0] || a in addrs[1..];
      }
    }
  }

  lemma {:induction false} InPageAscends(addrs: seq<int>, va: int, pg: int)
    requires Ascending(addrs)
    ensures Ascending(InPage(addrs, va, pg))
  {
    if addrs != [] {
      var rest := InPage(addrs[1..], va, pg);
      InPageAscends(addrs[1..], va, pg);
      InPageMembers(addrs[1..], va, pg);
      forall j | 0 <= j < |rest| ensures addrs[0] < rest[j] {
        assert rest[j] in rest;
        assert rest[j] in addrs[1..];
      }
    }
  }

  lemma {:induction false} NoneInPage(addrs: seq<int>, va: int, pg: int)
    requires forall b <- addrs :: PageOf(va, b) != pg
    ensures InPage(addrs, va, pg) == []
  {
    if addrs != [] {
      assert addrs[0] in addrs;
      NoneInPage(addrs[1..], va, pg);
    }
  }

  lemma HeadInPage(a: int, rest: seq<int>, va: int, pg: int)
    ensures InPage([a] + rest, va, pg) == if PageOf(va, a) == pg then [a] + InPage(rest, va, pg)
            else InPage(rest, va, pg)
  {
    hide PageOf;
    assert ([a] + rest)[1..] == rest;
    assert [] + InPage(rest, va, pg) == InPage(rest, va, pg);
  }

  lemma {:induction false} EarlierPageIsSkipped(a: int, rest: seq<int>, va: int, pg: nat, n: nat)
    requires PageOf(va, a) < pg <= n
    ensures FromPage([a] + rest, va, pg, n) == FromPage(rest, va, pg, n)
    decreases n - pg
  {
    hide PageOf, InPage;
    HeadInPage(a, rest, va, pg);
    if pg < n { EarlierPageIsSkipped(a, rest, va, pg + 1, n); }
  }

  lemma {:induction false} FirstComesFirst(a: int, rest: seq<int>, va: int, pg: nat, n: nat)
    requires pg <= PageOf(va, a) < n && forall b <- rest :: PageOf(va, a) <= PageOf(va, b)
    ensures FromPage([a] + rest, va, pg, n) == [a] + FromPage(rest, va, pg, n)
    decreases n - pg
  {
    hide PageOf, InPage;
    HeadInPage(a, rest, va, pg);
    var here, later := InPage(rest, va, pg), FromPage(rest, va, pg + 1, n);
    if PageOf(va, a) == pg {
      EarlierPageIsSkipped(a, rest, va, pg + 1, n);
      assert ([a] + here) + later == [a] + (here + later);
    } else {
      FirstComesFirst(a, rest, va, pg + 1, n);
      NoneInPage(rest, va, pg);
      assert [] + later == later && [] + ([a] + later) == [a] + later;
    }
  }

  /** The pages of a sorted list, put back together, are the list. */
  lemma {:induction false} PagesPartition(addrs: seq<int>, va: int, n: nat)
    requires PagesAscend(addrs, va) && forall a <- addrs :: 0 <= PageOf(va, a) < n
    ensures FromPage(addrs, va, 0, n) == addrs
  {
    if addrs == [] {
      EmptyPages(va, 0, n);
    } else {
      var rest := addrs[1..];
      assert addrs == [addrs[0]] + rest;
      forall b | b in rest ensures PageOf(va, addrs[0]) <= PageOf(va, b) {
        var i :| 0 <= i < |rest| && rest[i] == b;
        assert addrs[i + 1] == b;
      }
      PagesPartition(rest, va, n);
      FirstComesFirst(addrs[0], rest, va, 0, n);
    }
  }

  lemma {:induction false} EmptyPages(va: int, pg: nat, n: nat)
    requires pg <= n
    ensures FromPage([], va, pg, n) == []
    decreases n - pg
  {
    if pg < n { EmptyPages(va, pg + 1, n); }
  }

  lemma AscendingPages(base: int, words: nat, s: Seg, addrs: seq<int>, entries: Entries)
    requires GoodList(base, words, s, addrs, entries)
    ensures PagesAscend(addrs, s.va) && forall a <- addrs :: 0 <= PageOf(s.va, a) < NumPages(s)
  {
    forall i, j | 0 <= i < j < |addrs| ensures PageOf(s.va, addrs[i]) <= PageOf(s.va, addrs[j]) {
      DivisionIsMonotone(addrs[i] - s.va, addrs[j] - s.va);
    }
    forall a | a in addrs ensures 0 <= PageOf(s.va, a) < NumPages(s) {
      DivisionIsMonotone(a - s.va, s.vs - 1);
    }
  }

  lemma DivisionIsMonotone(x: int, y: int)
    requires x <= y
    ensures x / PAGE <= y / PAGE
  {
  }

  /** One page of a good list is good. */
  lemma PageIsGood(base: int, words: nat, s: Seg, addrs: seq<int>, entries: Entries, pg: int)
    requires GoodList(base, words, s, addrs, entries)
    ensures GoodPage(base, words, s.va + pg * PAGE, InPage(addrs, s.va, pg), entries)
  {
    InPageMembers(addrs, s.va, pg);
    InPageAscends(addrs, s.va, pg);
  }

  // ---------------------------------------------------------------- the weave

  /** What the chain starts of a segment must be: where each non-empty page's first entry is. */
  ghost predicate StartsRight(va: int, addrs: seq<int>, starts: seq<int>, n: nat)
    requires n <= |starts|
  {
    forall pg :: 0 <= pg < n ==>
      starts[pg] == (if InPage(addrs, va, pg) == [] then START_NONE
                     else InPage(addrs, va, pg)[0] - va - pg * PAGE)
  }

  ghost predicate SegmentWoven(mem: seq<Word64>, base: int, va: int, addrs: seq<int>, entries: Entries, n: nat)
  {
    forall pg :: 0 <= pg < n ==> PageWoven(mem, base, InPage(addrs, va, pg), entries)
  }

  /** The loader's walk over a woven segment visits exactly the listed addresses, in order. */
  lemma {:induction false} WalkVisitsSegment(mem: seq<Word64>, base: int, s: Seg, addrs: seq<int>, entries: Entries,
                                             starts: seq<int>, pg: nat)
    requires GoodList(base, |mem|, s, addrs, entries) && |starts| == NumPages(s) && pg <= |starts|
    requires StartsRight(s.va, addrs, starts, |starts|) && SegmentWoven(mem, base, s.va, addrs, entries, |starts|)
    ensures WalkPages(mem, base, s.va, PAGE, starts, pg) == Some(FromPage(addrs, s.va, pg, |starts|))
    decreases |starts| - pg
  {
    hide PageOf, Walk, InPage, GoodList, StartsRight, SegmentWoven;
    if pg < |starts| {
      WalkVisitsSegment(mem, base, s, addrs, entries, starts, pg + 1);
      WalkVisitsOnePage(mem, base, s, addrs, entries, starts, pg);
    }
  }

  lemma WalkFromStart(mem: seq<Word64>, base: int, lo: int, plist: seq<int>, entries: Entries)
    requires GoodPage(base, |mem|, lo, plist, entries) && PageWoven(mem, base, plist, entries) && plist != []
    ensures 0 <= plist[0] - lo < PAGE
    ensures Walk(mem, base, plist[0], lo + PAGE) == Some(plist)
  {
    assert plist[0] in plist;
    WalkVisitsPage(mem, base, lo, plist, entries, 0);
    assert plist[0..] == plist;
  }

  lemma WalkVisitsOnePage(mem: seq<Word64>, base: int, s: Seg, addrs: seq<int>, entries: Entries, starts: seq<int>,
                          pg: nat)
    requires GoodList(base, |mem|, s, addrs, entries) && pg < |starts|
    requires StartsRight(s.va, addrs, starts, |starts|) && SegmentWoven(mem, base, s.va, addrs, entries, |starts|)
    ensures var lo, plist := s.va + pg * PAGE, InPage(addrs, s.va, pg);
            if plist == [] then starts[pg] == START_NONE
            else 0 <= starts[pg] < PAGE && Walk(mem, base, lo + starts[pg], lo + PAGE) == Some(plist)
  {
    hide *;
    var lo, plist := s.va + pg * PAGE, InPage(addrs, s.va, pg);
    PageIsGood(base, |mem|, s, addrs, entries, pg);
    OnePage(mem, base, s.va, addrs, entries, starts, pg);
    if plist != [] {
      WalkFromStart(mem, base, lo, plist, entries);
    }
  }

  lemma OnePage(mem: seq<Word64>, base: int, va: int, addrs: seq<int>, entries: Entries, starts: seq<int>, pg: nat)
    requires StartsRight(va, addrs, starts, |starts|) && SegmentWoven(mem, base, va, addrs, entries, |starts|)
    requires pg < |starts|
    ensures PageWoven(mem, base, InPage(addrs, va, pg), entries)
    ensures starts[pg] == (if InPage(addrs, va, pg) == [] then START_NONE
                           else InPage(addrs, va, pg)[0] - va - pg * PAGE)
  {
  }

  /** A page without an address is marked 0xFFFF; any other begins at the lowest of its addresses. */
  lemma PageStartIs(va: int, addrs: seq<int>, starts: seq<int>, pg: nat)
    requires StartsRight(va, addrs, starts, |starts|) && pg < |starts| && Ascending(addrs)
    ensures (forall a <- addrs :: !(va + pg * 0x4000 <= a < va + pg * 0x4000 + 0x4000)) ==> starts[pg] == 0xFFFF
    ensures forall a <- addrs :: va + pg * 0x4000 <= a < va + pg * 0x4000 + 0x4000 ==>
              va + pg * 0x4000 + starts[pg] in addrs && va + pg * 0x4000 <= va + pg * 0x4000 + starts[pg] <= a
  {
    InPageMembers(addrs, va, pg);
    InPageAscends(addrs, va, pg);
    hide InPage;
    var plist := InPage(addrs, va, pg);
    forall a | a in addrs ensures va + pg * 0x4000 <= a < va + pg * 0x4000 + 0x4000 <==> PageOf(va, a) == pg {
      PageSpan(va, a, pg);
    }
    if plist != [] {
      assert plist[0] in plist;
    }
  }

  /** As many page starts as pages of memory, the last one perhaps short. */
  lemma PagesCover(s: Seg)
    ensures s.vs <= NumPages(s) * 0x4000 < s.vs + 0x4000
  {
  }

  lemma PageSpan(va: int, a: int, pg: nat)
    ensures va + pg * PAGE <= a < va + pg * PAGE + PAGE <==> PageOf(va, a) == pg
  {
    var q, r := (a - va) / PAGE, (a - va) % PAGE;
    assert a - va == PAGE * q + r;
  }

  method WeavePage(base: int, lo: int, plist: seq<int>, entries: Entries, image: array<Word64>)
    requires GoodPage(base, image.Length, lo, plist, entries)
    modifies image
    ensures PageWoven(image[..], base, plist, entries)
    ensures forall i :: 0 <= i < image.Length && (forall a <- plist :: Index(base, a) != i) ==>
              image[i] == old(image[i])
  {
    for j := 0 to |plist|
      invariant forall i :: 0 <= i < j ==> 0 <= Index(base, plist[i]) < image.Length
                                           && image[Index(base, plist[i])] == Pack(entries[plist[i]], Delta(plist, i))
      invariant forall i :: 0 <= i < image.Length && (forall a <- plist :: Index(base, a) != i) ==>
                  image[i] == old(image[i])
    {
      var a := plist[j];
      assert a in plist;
      var next := if j + 1 < |plist| then (plist[j + 1] - a) / 8 else 0;
      forall i | 0 <= i < j ensures Index(base, plist[i]) != Index(base, a) {
        assert plist[i] in plist;
        DistinctWords(base, image.Length, plist[i], a);
      }
      image[Index(base, a)] := Pack(entries[a], next);
    }
    assert forall j :: 0 <= j < |plist| ==> plist[j] in plist;
  }

  /** No word of `addrs` is word `i`. */
  ghost predicate Outside(base: int, addrs: seq<int>, i: int)
  {
    forall a <- addrs :: Index(base, a) != i
  }

  /** Writes outside a page's words leave its chain alone. */
  lemma PageSurvives(mem: seq<Word64>, mem': seq<Word64>, base: int, plist: seq<int>, entries: Entries)
    requires |mem'| == |mem| && PageWoven(mem, base, plist, entries)
    requires forall a <- plist :: 0 <= Index(base, a) < |mem| ==> mem'[Index(base, a)] == mem[Index(base, a)]
    ensures PageWoven(mem', base, plist, entries)
  {
    forall j | 0 <= j < |plist|
      ensures mem'[Index(base, plist[j])] == Pack(entries[plist[j]], Delta(plist, j))
    {
      assert plist[j] in plist;
    }
  }

  lemma OtherPagesOutside(base: int, words: nat, s: Seg, addrs: seq<int>, entries: Entries, pg: int, pg': int)
    requires GoodList(base, words, s, addrs, entries) && pg != pg'
    ensures forall a <- InPage(addrs, s.va, pg) :: Outside(base, InPage(addrs, s.va, pg'), Index(base, a))
  {
    hide Index, PageOf;
    InPageMembers(addrs, s.va, pg);
    InPageMembers(addrs, s.va, pg');
    forall a, b | a in InPage(addrs, s.va, pg) && b in InPage(addrs, s.va, pg')
      ensures Index(base, a) != Index(base, b) {
      DistinctWords(base, words, a, b);
    }
  }

  /** The weave of one segment. */
  method WeaveSegment(base: int, s: Seg, addrs: seq<int>, entries: Entries, image: array<Word64>)
      returns (starts: seq<int>)
    requires GoodList(base, image.Length, s, addrs, entries)
    modifies image
    ensures |starts| == NumPages(s) && StartsRight(s.va, addrs, starts, |starts|)
    ensures SegmentWoven(image[..], base, s.va, addrs, entries, |starts|)
    ensures forall i :: 0 <= i < image.Length && Outside(base, addrs, i) ==> image[i] == old(image[i])
  {
    hide PageOf, Index, Addressable, SegmentWoven;
    EmptyPagesWoven(image[..], base, s.va, addrs, entries);
    starts := seq(NumPages(s), _ => START_NONE);
    for pg := 0 to NumPages(s)
      invariant |starts| == NumPages(s) && StartsRight(s.va, addrs, starts, pg)
      invariant forall q :: pg <= q < |starts| ==> starts[q] == START_NONE
      invariant SegmentWoven(image[..], base, s.va, addrs, entries, pg)
      invariant forall i :: 0 <= i < image.Length && Outside(base, addrs, i) ==> image[i] == old(image[i])
    {
      var plist := InPage(addrs, s.va, pg);
      if plist != [] {
        starts := starts[pg := plist[0] - s.va - pg * PAGE];
        WeaveOnePage(base, s, addrs, entries, image, pg);
      } else {
        EmptyPageIsWoven(image[..], base, s.va, addrs, entries, pg);
      }
    }
  }

  lemma EmptyPagesWoven(mem: seq<Word64>, base: int, va: int, addrs: seq<int>, entries: Entries)
    ensures SegmentWoven(mem, base, va, addrs, entries, 0)
  {
  }

  lemma EmptyPageIsWoven(mem: seq<Word64>, base: int, va: int, addrs: seq<int>, entries: Entries, pg: nat)
    requires SegmentWoven(mem, base, va, addrs, entries, pg) && InPage(addrs, va, pg) == []
    ensures SegmentWoven(mem, base, va, addrs, entries, pg + 1)
  {
  }

  method WeaveOnePage(base: int, s: Seg, addrs: seq<int>, entries: Entries, image: array<Word64>, pg: nat)
    requires GoodList(base, image.Length, s, addrs, entries)
    requires SegmentWoven(image[..], base, s.va, addrs, entries, pg)
    modifies image
    ensures SegmentWoven(image[..], base, s.va, addrs, entries, pg + 1)
    ensures forall i :: 0 <= i < image.Length && Outside(base, addrs, i) ==> image[i] == old(image[i])
  {
    hide PageOf, InPage, Index;
    PageIsGood(base, image.Length, s, addrs, entries, pg);
    ghost var before := image[..];
    WeavePage(base, s.va + pg * PAGE, InPage(addrs, s.va, pg), entries, image);
    forall q | 0 <= q < pg ensures PageWoven(image[..], base, InPage(addrs, s.va, q), entries) {
      OtherPagesOutside(base, image.Length, s, addrs, entries, q, pg);
      PageSurvives(before, image[..], base, InPage(addrs, s.va, q), entries);
    }
    InPageMembers(addrs, s.va, pg);
  }

  // ---------------------------------------------------------------- the whole image

  predicate Inside(s: Seg, a: int) { s.va <= a < s.va + s.vs }

  /** Disjoint segments; each group is the sorted list of the entries inside its segment, and every
      such entry is an 8-aligned address of the image. */
  ghost predicate Grouping(base: int, words: nat, segs: seq<Seg>, entries: Entries, groups: seq<seq<int>>)
  {
    && |groups| == |segs|
    && (forall i, j, a :: 0 <= i < j < |segs| ==> !(Inside(segs[i], a) && Inside(segs[j], a)))
    && (forall i :: 0 <= i < |segs| ==> GoodList(base, words, segs[i], groups[i], entries))
    && (forall i, a :: 0 <= i < |segs| && a in entries && Inside(segs[i], a) ==> a in groups[i])
  }

  /** An address put into its place in a sorted list. */
  function Insert(a: int, xs: seq<int>): seq<int>
  {
    if xs == [] || a < xs[0] then [a] + xs else [xs[0]] + Insert(a, xs[1..])
  }

  /** `sorted` */
  function Sorted(xs: seq<int>): seq<int>
  {
    if xs == [] then [] else Insert(xs[0], Sorted(xs[1..]))
  }

  lemma {:induction false} InsertKeeps(a: int, xs: seq<int>)
    requires Ascending(xs) && a !in xs
    ensures Ascending(Insert(a, xs)) && forall b :: b in Insert(a, xs) <==> b == a || b in xs
  {
    if xs != [] {
      var rest := xs[1..];
      assert xs == [xs[0]] + rest;
      if a >= xs[0] {
        InsertKeeps(a, rest);
        FirstIsLeast(xs[0], Insert(a, rest));
      } else {
        FirstIsLeast(a, xs);
      }
    }
  }

  lemma FirstIsLeast(a: int, xs: seq<int>)
    requires Ascending(xs) && forall b <- xs :: a < b
    ensures Ascending([a] + xs)
  {
    forall j | 0 <= j < |xs| ensures a < xs[j] { assert xs[j] in xs; }
  }

  ghost predicate Distinct(xs: seq<int>)
  {
    forall i, j :: 0 <= i < j < |xs| ==> xs[i] != xs[j]
  }

  /** Sorting distinct addresses gives the ascending list of the same addresses. */
  lemma {:induction false} SortedIs(xs: seq<int>)
    requires Distinct(xs)
    ensures Ascending(Sorted(xs)) && forall a :: a in Sorted(xs) <==> a in xs
  {
    if xs != [] {
      var rest := xs[1..];
      assert xs == [xs[0]] + rest;
      SortedIs(rest);
      assert xs[0] !in rest;
      InsertKeeps(xs[0], Sorted(rest));
    }
  }

  /** The first segment that contains an address, or the number of segments. */
  method FirstSegment(segs: seq<Seg>, a: int) returns (i: nat)
    ensures i <= |segs| && (i < |segs| ==> Inside(segs[i], a)) && forall j :: 0 <= j < i ==> !Inside(segs[j], a)
  {
    i := 0;
    while i < |segs| && !(segs[i].va <= a < segs[i].va + segs[i].vs)
      invariant i <= |segs| && forall j :: 0 <= j < i ==> !Inside(segs[j], a)
    {
      i := i + 1;
    }
  }

  ghost predicate DisjointSegs(segs: seq<Seg>)
  {
    forall i, j, a :: 0 <= i < j < |segs| ==> !(Inside(segs[i], a) && Inside(segs[j], a))
  }

  /** The addresses handed out so far are in the lists of their segments, each once. */
  ghost predicate Listed(segs: seq<Seg>, done: set<int>, lists: seq<seq<int>>)
  {
    && |lists| == |segs|
    && forall i :: 0 <= i < |segs| ==>
         Distinct(lists[i]) && forall a :: a in lists[i] <==> a in done && Inside(segs[i], a)
  }

  lemma ListedOne(segs: seq<Seg>, done: set<int>, lists: seq<seq<int>>, a: int, i: nat)
    requires DisjointSegs(segs) && Listed(segs, done, lists) && a !in done && i <= |segs|
    requires if i < |segs| then Inside(segs[i], a) else forall j :: 0 <= j < |segs| ==> !Inside(segs[j], a)
    ensures Listed(segs, done + {a}, if i < |segs| then lists[i := lists[i] + [a]] else lists)
  {
    hide Inside;
    if i < |segs| {
      var more := lists[i] + [a];
      assert forall b :: b in more <==> b in lists[i] || b == a;
    }
  }

  /** The loop that sorts the entries into segments; an entry outside every segment is dropped. */
  method ListBySegment(segs: seq<Seg>, keys: set<int>) returns (lists: seq<seq<int>>)
    requires DisjointSegs(segs)
    ensures Listed(segs, keys, lists)
  {
    hide Inside, Distinct;
    var left := keys;
    lists := seq(|segs|, _ => []);
    NothingListed(segs);
    while |left| > 0
      invariant left <= keys && Listed(segs, keys - left, lists)
      decreases |left|
    {
      assert left != {};
      SomeAddress(left);
      var a :| a in left;
      var i := FirstSegment(segs, a);
      ListedOne(segs, keys - left, lists, a, i);
      assert keys - (left - {a}) == (keys - left) + {a};
      if i < |segs| { lists := lists[i := lists[i] + [a]]; }
      left := left - {a};
    }
    assert keys - left == keys;
  }

  lemma SomeAddress(s: set<int>)
    ensures s == {} || exists a :: a in s
  {
    NoAddress(s);
  }

  lemma NoAddress(s: set<int>)
    ensures (forall a :: a !in s) ==> s == {}
  {
    if forall a :: a !in s { assert s == {}; }
  }

  lemma NothingListed(segs: seq<Seg>)
    ensures Listed(segs, {}, seq(|segs|, _ => []))
  {
  }

  /** The grouping of the entries: per segment, the sorted addresses of its entries. */
  method GroupEntries(base: int, words: nat, segs: seq<Seg>, entries: Entries) returns (groups: seq<seq<int>>)
    requires DisjointSegs(segs)
    requires forall i, a :: 0 <= i < |segs| && a in entries && Inside(segs[i], a) ==> Addressable(base, words, a)
    ensures Grouping(base, words, segs, entries, groups)
  {
    hide Addressable;
    var lists := ListBySegment(segs, entries.Keys);
    groups := [];
    for i := 0 to |segs|
      invariant |groups| == i
      invariant forall j :: 0 <= j < i ==>
                  Ascending(groups[j]) && forall a :: a in groups[j] <==> a in entries && Inside(segs[j], a)
    {
      SortedIs(lists[i]);
      groups := groups + [Sorted(lists[i])];
    }
  }

  /** Segment `i` is woven and its starts are right. */
  ghost predicate SegmentDone(mem: seq<Word64>, base: int, s: Seg, addrs: seq<int>, entries: Entries, starts: seq<int>)
  {
    && |starts| == NumPages(s)
    && StartsRight(s.va, addrs, starts, |starts|)
    && SegmentWoven(mem, base, s.va, addrs, entries, |starts|)
  }

  lemma SegmentSurvives(mem: seq<Word64>, mem': seq<Word64>, base: int, s: Seg, addrs: seq<int>, entries: Entries,
                        starts: seq<int>)
    requires |mem'| == |mem| && GoodList(base, |mem|, s, addrs, entries)
    requires SegmentDone(mem, base, s, addrs, entries, starts)
    requires forall a <- addrs :: 0 <= Index(base, a) < |mem| && mem'[Index(base, a)] == mem[Index(base, a)]
    ensures SegmentDone(mem', base, s, addrs, entries, starts)
  {
    hide PageOf, Index, Addressable, PageWoven, StartsRight;
    forall pg | 0 <= pg < |starts| ensures PageWoven(mem', base, InPage(addrs, s.va, pg), entries) {
      InPageMembers(addrs, s.va, pg);
      PageSurvives(mem, mem', base, InPage(addrs, s.va, pg), entries);
    }
  }

  lemma OtherSegmentsOutside(base: int, words: nat, segs: seq<Seg>, entries: Entries, groups: seq<seq<int>>, i: nat,
                             j: nat)
    requires Grouping(base, words, segs, entries, groups) && i < j < |segs|
    ensures forall a <- groups[i] :: 0 <= Index(base, a) < words && Outside(base, groups[j], Index(base, a))
  {
    hide Index;
    forall a, b | a in groups[i] && b in groups[j] ensures Index(base, a) != Index(base, b) {
      assert Inside(segs[i], a) && Inside(segs[j], b);
      DistinctWords(base, words, a, b);
    }
  }

  /** The weave of the whole image; a segment without entries has no starts. */
  method WeaveImage(base: int, segs: seq<Seg>, groups: seq<seq<int>>, entries: Entries, image: array<Word64>)
      returns (starts: seq<Option<seq<int>>>)
    requires Grouping(base, image.Length, segs, entries, groups)
    modifies image
    ensures |starts| == |segs|
    ensures forall i :: 0 <= i < |segs| ==> if groups[i] == [] then starts[i] == None
              else starts[i].Some? && SegmentDone(image[..], base, segs[i], groups[i], entries, starts[i].value)
    ensures forall w :: 0 <= w < image.Length && (forall i :: 0 <= i < |segs| ==> Outside(base, groups[i], w)) ==>
              image[w] == old(image[w])
  {
    starts := [];
    for i := 0 to |segs|
      invariant |starts| == i
      invariant forall j :: 0 <= j < i ==> if groups[j] == [] then starts[j] == None
                  else starts[j].Some? && SegmentDone(image[..], base, segs[j], groups[j], entries, starts[j].value)
      invariant forall w :: 0 <= w < image.Length && (forall j :: 0 <= j < |segs| ==> Outside(base, groups[j], w)) ==>
                  image[w] == old(image[w])
    {
      var here := WeaveNextSegment(base, segs, groups, entries, image, starts, i);
      starts := starts + [here];
    }
  }

  method WeaveNextSegment(base: int, segs: seq<Seg>, groups: seq<seq<int>>, entries: Entries, image: array<Word64>,
                          starts: seq<Option<seq<int>>>, i: nat) returns (here: Option<seq<int>>)
    requires Grouping(base, image.Length, segs, entries, groups) && |starts| == i < |segs|
    requires forall j :: 0 <= j < i && groups[j] != [] ==>
               starts[j].Some? && SegmentDone(image[..], base, segs[j], groups[j], entries, starts[j].value)
    modifies image
    ensures forall j :: 0 <= j < i && groups[j] != [] ==>
              SegmentDone(image[..], base, segs[j], groups[j], entries, starts[j].value)
    ensures if groups[i] == [] then here == None
            else here.Some? && SegmentDone(image[..], base, segs[i], groups[i], entries, here.value)
    ensures forall w :: 0 <= w < image.Length && Outside(base, groups[i], w) ==> image[w] == old(image[w])
  {
    hide Index, NumPages, StartsRight, SegmentWoven;
    if groups[i] == [] { return None; }
    ghost var before := image[..];
    var s := WeaveSegment(base, segs[i], groups[i], entries, image);
    forall j | 0 <= j < i && groups[j] != []
      ensures SegmentDone(image[..], base, segs[j], groups[j], entries, starts[j].value)
    {
      OtherSegmentsOutside(base, image.Length, segs, entries, groups, j, i);
      SegmentSurvives(before, image[..], base, segs[j], groups[j], entries, starts[j].value);
    }
    here := Some(s);
  }

  /** What the loader makes of the image: the entry it reads at every address it visits. */
  function LoadSegment(mem: seq<Word64>, base: int, va: int, page: nat,
                       starts: Option<seq<int>>): Option<map<int, Fixup>>
  {
    match starts
    case None => Some(map[])
    case Some(ps) =>
      match WalkPages(mem, base, va, page, ps, 0)
      case None => None
      case Some(visited) =>
        Some(map a | a in visited && 0 <= Index(base, a) < |mem| :: Read(mem[Index(base, a)]).fixup)
  }

  /** The loader's reading of one address of a woven segment. */
  lemma ReadsEntry(mem: seq<Word64>, base: int, s: Seg, addrs: seq<int>, entries: Entries, starts: seq<int>, a: int)
    requires GoodList(base, |mem|, s, addrs, entries) && SegmentDone(mem, base, s, addrs, entries, starts) && a in addrs
    ensures 0 <= Index(base, a) < |mem|
    ensures Read(mem[Index(base, a)]).fixup == entries[a] <==> Fits(entries[a])
  {
    hide PageOf, Pack, Read, Fits, Index, Delta;
    var pg := PageOf(s.va, a);
    AscendingPages(base, |mem|, s, addrs, entries);
    InPageMembers(addrs, s.va, pg);
    PageIsGood(base, |mem|, s, addrs, entries, pg);
    var plist := InPage(addrs, s.va, pg);
    assert PageWoven(mem, base, plist, entries);
    var j :| 0 <= j < |plist| && plist[j] == a;
    DeltaFits(base, |mem|, s.va + pg * PAGE, plist, entries, j);
    ReadPack(entries[a], Delta(plist, j));
  }

  /** Loaded entries against the ones that were emitted: the same locations, and an entry reads as it was if and
      only if it fits its packed form. */
  ghost predicate Faithful(got: Entries, emitted: Entries)
  {
    got.Keys == emitted.Keys && forall a <- emitted :: got[a] == emitted[a] <==> Fits(emitted[a])
  }

  /** The entries inside a segment. */
  function Within(entries: Entries, s: Seg): Entries { map a | a in entries && Inside(s, a) :: entries[a] }

  /** Emit and parse are inverse: from a woven segment the loader recovers exactly the locations of the entries
      inside it, each entry if and only if it fits its packed form. */
  lemma LoaderRecoversEntries(mem: seq<Word64>, base: int, segs: seq<Seg>, groups: seq<seq<int>>, entries: Entries,
                              starts: Option<seq<int>>, i: nat)
    requires Grouping(base, |mem|, segs, entries, groups) && i < |segs|
    requires if groups[i] == [] then starts == None
             else starts.Some? && SegmentDone(mem, base, segs[i], groups[i], entries, starts.value)
    ensures var got := LoadSegment(mem, base, segs[i].va, PAGE, starts);
            got.Some? && Faithful(got.value, Within(entries, segs[i]))
  {
    hide PageOf, Pack, Read, Fits, WalkPages;
    var s, addrs := segs[i], groups[i];
    var here := Within(entries, s);
    var got := LoadSegment(mem, base, s.va, PAGE, starts);
    if addrs == [] {
      assert here == map[];
    } else {
      AscendingPages(base, |mem|, s, addrs, entries);
      PagesPartition(addrs, s.va, |starts.value|);
      WalkVisitsSegment(mem, base, s, addrs, entries, starts.value, 0);
      forall a | a in addrs
        ensures 0 <= Index(base, a) < |mem|
        ensures Read(mem[Index(base, a)]).fixup == entries[a] <==> Fits(entries[a])
      {
        ReadsEntry(mem, base, s, addrs, entries, starts.value, a);
      }
    }
  }
}

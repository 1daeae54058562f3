/** The loader: from the bytes of the fixup payload and the words of the image to the entries it applies and
    what each of them means. */
module Loader {
  import opened Words
  import opened Wrappers
  import opened ChainWords
  import C = Chains
  import B = FixupBlob

  /** Segment `i`: its record says where the segment is, how large its pages are and where the chains begin. */
  function LoadNth(p: B.Payload, mem: seq<Word64>, base: int, i: nat): Option<C.Entries>
  {
    if 8 + 4 * i > |p.starts| then None
    else match B.ReadRecord(p.starts, i)
         case None => None
         case Some(None) => Some(map[])
         case Some(Some(r)) =>
           if r.format != B.PF_ARM64E_USERLAND then None
           else C.LoadSegment(mem, base, base + r.offset, r.pageSize, Some(r.starts))
  }

  /** The first `n` segments. */
  function LoadUpTo(p: B.Payload, mem: seq<Word64>, base: int, n: nat): Option<C.Entries>
  {
    if n == 0 then Some(map[])
    else match (LoadUpTo(p, mem, base, n - 1), LoadNth(p, mem, base, n - 1))
         case (Some(a), Some(b)) => Some(a + b)
         case _ => None
  }

  /** All the entries of an image. */
  function Load(blob: B.Bytes, mem: seq<Word64>, base: int): Option<C.Entries>
  {
    match B.ReadPayload(blob)
    case None => None
    case Some(p) => if |p.starts| < 4 then None else LoadUpTo(p, mem, base, B.Num(p.starts, 0, 4))
  }

  /** A loaded pointer: an address of the image, or whatever the import is. */
  datatype Loaded = Pointer(a: int) | Import(import_: B.Imported)

  function Meaning(blob: B.Bytes, base: int, e: Fixup): Option<Loaded>
  {
    if !e.bind then Some(Pointer(base + e.val))
    else match B.ReadPayload(blob)
         case None => None
         case Some(p) =>
           if e.val < 0 then None
           else match B.ImportAt(p, e.val) case None => None case Some(x) => Some(Import(x))
  }

  // -------------------------------------------------------------- reading back what was emitted

  /** Where the records say the segments are. */
  ghost predicate OffsetsRight(base: int, segs: seq<C.Seg>, offsets: seq<int>)
  {
    |offsets| == |segs| && forall i :: 0 <= i < |segs| ==> offsets[i] == segs[i].va - base && 0 <= offsets[i]
  }

  /** The image and the payload hold the entries. */
  ghost predicate Emitted(p: B.Payload, mem: seq<Word64>, base: int, segs: seq<C.Seg>, groups: seq<seq<int>>,
                          entries: C.Entries,
                          offsets: seq<int>, starts: seq<Option<seq<int>>>, sii: B.Bytes)
  {
    && C.Grouping(base, |mem|, segs, entries, groups) && OffsetsRight(base, segs, offsets)
    && |starts| == |segs| < WORD32
    && B.Emitted(sii, offsets, starts, |starts|) && sii <= p.starts
    && forall i :: 0 <= i < |segs| ==>
         if groups[i] == [] then starts[i] == None
         else starts[i].Some? && C.SegmentDone(mem, base, segs[i], groups[i], entries, starts[i].value)
  }

  lemma NthReads(p: B.Payload, mem: seq<Word64>, base: int, segs: seq<C.Seg>, groups: seq<seq<int>>, entries: C.Entries,
                 offsets: seq<int>, starts: seq<Option<seq<int>>>, sii: B.Bytes, i: nat)
    requires Emitted(p, mem, base, segs, groups, entries, offsets, starts, sii) && i < |segs|
    ensures LoadNth(p, mem, base, i) == C.LoadSegment(mem, base, segs[i].va, B.PAGE, starts[i])
  {
    hide B.ReadRecord, C.Grouping, C.SegmentDone, C.WalkPages, B.RecordDone, B.Writable, C.Index, Read;
    B.RecordInPrefix(sii, p.starts, |starts|, i, offsets[i], starts[i]);
    RecordFits(p.starts, |starts|, i, offsets[i], starts[i]);
    B.StartsReadBack(p.starts, |starts|, i, offsets[i], starts[i]);
  }

  lemma RecordFits(sii: B.Bytes, n: nat, i: nat, offset: int, starts: Option<seq<int>>)
    requires B.RecordDone(sii, n, i, offset, starts)
    ensures 8 + 4 * i <= |sii|
  {
  }

  /** Segment by segment: the locations of its entries, and each entry if and only if it fits. */
  lemma NthIsRight(p: B.Payload, mem: seq<Word64>, base: int, segs: seq<C.Seg>, groups: seq<seq<int>>,
                   entries: C.Entries, offsets: seq<int>, starts: seq<Option<seq<int>>>, sii: B.Bytes, i: nat)
    requires Emitted(p, mem, base, segs, groups, entries, offsets, starts, sii) && i < |segs|
    ensures var got := LoadNth(p, mem, base, i); got.Some? && C.Faithful(got.value, C.Within(entries, segs[i]))
  {
    hide LoadNth, C.LoadSegment, C.Grouping, C.SegmentDone, B.Emitted, C.Faithful, C.Within;
    NthReads(p, mem, base, segs, groups, entries, offsets, starts, sii, i);
    C.LoaderRecoversEntries(mem, base, segs, groups, entries, starts[i], i);
  }

  /** The entries inside the first `n` segments. */
  function WithinFirst(entries: C.Entries, segs: seq<C.Seg>, n: nat): C.Entries
    requires n <= |segs|
  {
    map a | a in entries && exists i :: 0 <= i < n && C.Inside(segs[i], a) :: entries[a]
  }

  lemma WithinOneMore(entries: C.Entries, segs: seq<C.Seg>, n: nat)
    requires n < |segs|
    ensures WithinFirst(entries, segs, n + 1) == WithinFirst(entries, segs, n) + C.Within(entries, segs[n])
  {
    hide C.Inside;
  }

  lemma {:induction false} UpToIsRight(p: B.Payload, mem: seq<Word64>, base: int, segs: seq<C.Seg>,
                                       groups: seq<seq<int>>, entries: C.Entries, offsets: seq<int>,
                                       starts: seq<Option<seq<int>>>, sii: B.Bytes, n: nat)
    requires Emitted(p, mem, base, segs, groups, entries, offsets, starts, sii) && n <= |segs|
    ensures var got := LoadUpTo(p, mem, base, n); got.Some? && C.Faithful(got.value, WithinFirst(entries, segs, n))
  {
    hide LoadNth, Emitted, C.Faithful, C.Within, WithinFirst;
    if n == 0 {
      NoneWithin(entries, segs);
    } else {
      UpToIsRight(p, mem, base, segs, groups, entries, offsets, starts, sii, n - 1);
      NthIsRight(p, mem, base, segs, groups, entries, offsets, starts, sii, n - 1);
      WithinOneMore(entries, segs, n - 1);
      Merged(LoadUpTo(p, mem, base, n - 1).value, LoadNth(p, mem, base, n - 1).value,
             WithinFirst(entries, segs, n - 1), C.Within(entries, segs[n - 1]));
    }
  }

  lemma NoneWithin(entries: C.Entries, segs: seq<C.Seg>)
    ensures C.Faithful(map[], WithinFirst(entries, segs, 0))
  {
  }

  lemma Merged(got: C.Entries, got': C.Entries, emitted: C.Entries, emitted': C.Entries)
    requires C.Faithful(got, emitted) && C.Faithful(got', emitted')
    ensures C.Faithful(got + got', emitted + emitted')
  {
    hide Fits;
  }

  /** Emit and parse are inverse on the bytes: the loader finds exactly the locations of the entries inside the
      segments, and reads an entry as it was if and only if it fits its packed form. */
  lemma LoadIsRight(blob: B.Bytes, p: B.Payload, mem: seq<Word64>, base: int, segs: seq<C.Seg>, groups: seq<seq<int>>,
                    entries: C.Entries, offsets: seq<int>, starts: seq<Option<seq<int>>>, sii: B.Bytes)
    requires B.ReadPayload(blob) == Some(p)
    requires Emitted(p, mem, base, segs, groups, entries, offsets, starts, sii)
    ensures var got := Load(blob, mem, base); got.Some? && C.Faithful(got.value, WithinFirst(entries, segs, |segs|))
  {
    hide LoadUpTo, B.Num, C.Grouping, WithinFirst, C.SegmentDone, C.Faithful;
    UpToIsRight(p, mem, base, segs, groups, entries, offsets, starts, sii, |segs|);
    B.PowersOf256();
    assert p.starts[0..0 + 4] == sii[..4];
    B.NumLe(p.starts, 0, 4, |segs|);
  }
}

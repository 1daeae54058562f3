/** `patch_ipados15_objc_class_data.py`: turning the signed data pointer of every Objective-C class
    into a plain rebase, inside the chains that the relocator wove. */
module ClassData {
  import B = FixupBlob
  import L = Loader
  import opened ChainWords
  import opened Chains
  import opened Words
  import opened Wrappers

  /** One `__objc_data` section: its offset in the file and its size, in bytes. */
  datatype Sect = Sect(offset: nat, size: nat)

  function Diversity(w: Word64): int { w / TWO_32 % TWO_16 }

  function Key(w: Word64): int { w / 0x2_0000_0000_0000 % 4 }

  /** The fixup every class data field is expected to hold. */
  predicate IsClassData(w: Word64)
  {
    w / 0x8000_0000_0000_0000 == 1 && w / 0x4000_0000_0000_0000 % 2 == 0 && Diversity(w) == 0x61F8 && Key(w) == 2
  }

  function Plain(w: Word64): Word64
  {
    w % TWO_32 + TWO_51 * (w / TWO_51 % NEXT_LIMIT)
  }

  /** The file offsets of a section's class data fields: the fifth of every five words. */
  predicate IsDataField(s: Sect, o: int)
  {
    s.offset + 32 <= o < s.offset + s.size && (o - s.offset) % 40 == 32
  }

  /** The bytes of those fields. */
  predicate InField(s: Sect, i: int)
  {
    s.offset <= i < s.offset + s.size && (i - s.offset) % 40 >= 32
  }

  lemma HighBits(w: Word64)
    ensures (w / 0x8000_0000_0000_0000 == 1) == IsAuth(w) && (w / 0x4000_0000_0000_0000 % 2 == 1) == IsBind(w)
  {
    assert w / TWO_51 / NEXT_LIMIT == w / 0x4000_0000_0000_0000;
    assert w / TWO_51 / NEXT_LIMIT / 2 == w / 0x8000_0000_0000_0000;
  }

  lemma LowBits(w: Word64)
    ensures w % TWO_51 % TWO_32 == w % TWO_32
  {
    var q := w / TWO_51;
    assert w == w % TWO_51 + TWO_32 * (0x8_0000 * q);
    LowWord(w % TWO_51, 0x8_0000 * q);
  }

  lemma LowWord(a: int, q: int)
    ensures (a + TWO_32 * q) % TWO_32 == a % TWO_32
  {
    assert a + TWO_32 * q == a % TWO_32 + TWO_32 * (a / TWO_32 + q);
  }

  /** What is expected of a class data field, as the loader reads it: a rebase signed with key 2 and diversity
      0x61F8. */
  lemma ClassDataIff(w: Word64)
    ensures IsClassData(w) <==>
              var f := Read(w).fixup; f.auth && !f.bind && f.div == 0x61F8 && f.key == 2
  {
    HighBits(w);
    SigningBits(w);
  }

  lemma SigningBits(w: Word64)
    ensures var signing := w % TWO_51 / TWO_32;
      signing % TWO_16 == Diversity(w) && signing / TWO_16 / 2 == Key(w)
  {
    var low, q := w % TWO_51, w / TWO_51;
    var signing := low / TWO_32;
    assert w == TWO_51 * q + low;
    assert w / TWO_32 == 0x8_0000 * q + signing;
    LowHalf(signing, 8 * q);
    assert signing / TWO_16 / 2 == low / 0x2_0000_0000_0000;
    assert w / 0x2_0000_0000_0000 == 4 * q + low / 0x2_0000_0000_0000;
  }

  /** The fields of a section of `n` classes: 32 bytes into each, 40 bytes apart. */
  lemma DataFieldsIff(s: Sect, n: nat, k: int, o: int)
    requires s.size == 40 * n
    ensures IsDataField(s, s.offset + 40 * k + 32) <==> 0 <= k < n
    ensures IsDataField(s, o) ==> o == s.offset + 40 * ((o - s.offset) / 40) + 32
  {
  }

  /** The conversion keeps the link and the target, and drops exactly the signature. */
  lemma PlainReads(w: Word64)
    requires IsClassData(w)
    ensures Next(Plain(w)) == Next(w)
    ensures Read(w).fixup.auth && !Read(w).fixup.bind
    ensures Read(Plain(w)) == Link(Fixup(false, Read(w).fixup.val, false, 0, 0, 0, 0), Next(w))
  {
    HighBits(w);
    LowBits(w);
    var f := Fixup(false, w % TWO_32, false, 0, 0, 0, 0);
    PlainIsPacked(w);
    ReadPlainRebase(f, Next(w));
  }

  lemma PlainIsPacked(w: Word64)
    ensures Plain(w) == Pack(Fixup(false, w % TWO_32, false, 0, 0, 0, 0), Next(w))
  {
  }

  // ---------------------------------------------------------------- words in the file

  lemma {:induction false} NumIsBounded(b: seq<Byte>, at: nat, n: nat)
    requires at + n <= |b|
    ensures B.Num(b, at, n) < B.Pow256(n)
    decreases n
  {
    if n > 0 { NumIsBounded(b, at + 1, n - 1); }
  }

  lemma WordSize()
    ensures B.Pow256(8) == WORD64
  {
    assert B.Pow256(4) == WORD32;
    assert B.Pow256(8) == 0x100 * (0x100 * (0x100 * (0x100 * B.Pow256(4))));
  }

  /** The little-endian word at a file offset. */
  function WordAt(b: seq<Byte>, o: nat): Word64
    requires o + 8 <= |b|
  {
    NumIsBounded(b, o, 8);
    WordSize();
    B.Num(b, o, 8)
  }

  /** The field is in the file and holds the fixup that is expected of it. */
  predicate Convertible(b: seq<Byte>, o: int)
  {
    0 <= o && o + 8 <= |b| && IsClassData(WordAt(b, o))
  }

  /** Field `o` has become the plain pointer of what it was. */
  ghost predicate Converted(before: seq<Byte>, after: seq<Byte>, o: int)
  {
    Convertible(before, o) && o + 8 <= |after| && WordAt(after, o) == Plain(WordAt(before, o))
  }

  lemma SameWord(a: seq<Byte>, b: seq<Byte>, o: nat)
    requires o + 8 <= |a| && |a| == |b| && forall i :: o <= i < o + 8 ==> a[i] == b[i]
    ensures WordAt(a, o) == WordAt(b, o)
  {
    assert a[o..o + 8] == b[o..o + 8];
    B.NumSame(a, b, o, 8);
  }

  /** `struct.pack_into` */
  method WriteWord(image: array<Byte>, o: nat, w: Word64)
    requires o + 8 <= image.Length
    modifies image
    ensures WordAt(image[..], o) == w
    ensures forall i :: 0 <= i < image.Length && !(o <= i < o + 8) ==> image[i] == old(image[i])
  {
    hide B.Le;
    var bytes := B.Le(8, w);
    forall i | 0 <= i < 8 { image[o + i] := bytes[i]; }
    assert image[..][o..o + 8] == bytes;
    WordSize();
    B.NumLe(image[..], o, 8, w);
  }

  /** The section is whole classes, and each has the expected field. */
  ghost predicate Expected(before: seq<Byte>, s: Sect)
  {
    s.size % 40 == 0 && forall o :: IsDataField(s, o) ==> Convertible(before, o)
  }

  /** The first fields, those below `end`, converted; every other byte as it was. */
  ghost predicate SectionPatched(before: seq<Byte>, after: seq<Byte>, s: Sect, end: int)
  {
    && |after| == |before|
    && (forall o :: IsDataField(s, o) && o < end ==> Converted(before, after, o))
    && forall i :: 0 <= i < |before| && !(InField(s, i) && i < end) ==> after[i] == before[i]
  }

  lemma NextField(before: seq<Byte>, was: seq<Byte>, after: seq<Byte>, s: Sect, o: nat)
    requires SectionPatched(before, was, s, o) && IsDataField(s, o) && s.size % 40 == 0
    requires |after| == |was| && o + 8 <= |was| && IsClassData(WordAt(was, o))
    requires WordAt(after, o) == Plain(WordAt(was, o))
    requires forall i :: 0 <= i < |was| && !(o <= i < o + 8) ==> after[i] == was[i]
    ensures SectionPatched(before, after, s, o + 40)
  {
    hide IsClassData, Plain, WordAt;
    SameWord(before, was, o);
    forall q | IsDataField(s, q) && q < o + 40 ensures Converted(before, after, q) {
      FieldsAreApart(s, q, o);
      if q < o {
        assert Converted(before, was, q);
        SameWord(was, after, q);
      }
    }
    forall i | 0 <= i < |before| && !(InField(s, i) && i < o + 40) ensures after[i] == before[i] {
      FieldBytes(s, o, i);
    }
  }

  lemma FieldsAreApart(s: Sect, q: int, o: int)
    requires IsDataField(s, q) && IsDataField(s, o)
    ensures q == o || q + 40 <= o || o + 40 <= q
  {
  }

  lemma FieldBytes(s: Sect, o: int, i: int)
    requires IsDataField(s, o) && s.size % 40 == 0
    ensures o <= i < o + 8 ==> InField(s, i)
    ensures InField(s, i) && i < o + 40 && !(o <= i < o + 8) ==> i < o
  {
  }

  /** The loop over one section: it raises exactly at a section that is not whole classes, or at a field that is not
      in the file or not as expected. */
  method PatchSection(image: array<Byte>, s: Sect) returns (ok: bool)
    modifies image
    ensures ok <==> Expected(old(image[..]), s)
    ensures ok ==> SectionPatched(old(image[..]), image[..], s, s.offset + s.size)
    ensures forall i :: 0 <= i < image.Length && !InField(s, i) ==> image[i] == old(image[i])
  {
    hide IsClassData, Plain, WordAt, IsDataField, InField;
    if s.size % 40 != 0 { return false; }
    ghost var before := image[..];
    var o := s.offset + 32;
    NothingPatched(before, s, o);
    while o < s.offset + s.size
      invariant o >= s.offset + 32 && (o - s.offset) % 40 == 32
      invariant SectionPatched(before, image[..], s, o)
    {
      IsField(s, o);
      if o + 8 > image.Length || !IsClassData(ReadWord(image, o)) {
        if o + 8 <= image.Length { StillThere(before, image[..], s, o); }
        return false;
      }
      ghost var was := image[..];
      WriteWord(image, o, Plain(ReadWord(image, o)));
      NextField(before, was, image[..], s, o);
      o := o + 40;
    }
    NoMoreFields(before, image[..], s, o);
    return true;
  }

  function ReadWord(image: array<Byte>, o: nat): Word64
    requires o + 8 <= image.Length
    reads image
  {
    WordAt(image[..], o)
  }

  lemma IsField(s: Sect, o: int)
    requires s.offset + 32 <= o < s.offset + s.size && (o - s.offset) % 40 == 32
    ensures IsDataField(s, o)
  {
  }

  lemma NothingPatched(before: seq<Byte>, s: Sect, o: int)
    requires o == s.offset + 32
    ensures SectionPatched(before, before, s, o)
  {
  }

  lemma StillThere(before: seq<Byte>, now: seq<Byte>, s: Sect, o: nat)
    requires SectionPatched(before, now, s, o) && o + 8 <= |now|
    ensures WordAt(now, o) == WordAt(before, o)
  {
    SameWord(before, now, o);
  }

  lemma NoMoreFields(before: seq<Byte>, now: seq<Byte>, s: Sect, o: int)
    requires SectionPatched(before, now, s, o) && o >= s.offset + s.size && s.size % 40 == 0
    ensures SectionPatched(before, now, s, s.offset + s.size) && Expected(before, s)
  {
  }

  // ---------------------------------------------------------------- all sections

  /** No two sections share a field byte. */
  ghost predicate Apart(sects: seq<Sect>)
  {
    forall j, k, i :: 0 <= j < k < |sects| ==> !(InField(sects[j], i) && InField(sects[k], i))
  }

  /** The file after the first `n` sections: exactly their fields converted, every other byte as it was. */
  ghost predicate Patched(before: seq<Byte>, after: seq<Byte>, sects: seq<Sect>, n: nat)
    requires n <= |sects|
  {
    && |after| == |before|
    && (forall k :: 0 <= k < n ==> sects[k].size % 40 == 0)
    && (forall k, o :: 0 <= k < n && IsDataField(sects[k], o) ==> Converted(before, after, o))
    && forall i :: 0 <= i < |before| && (forall k :: 0 <= k < n ==> !InField(sects[k], i)) ==> after[i] == before[i]
  }

  /** A section that no earlier one overlaps finds its fields as they were. */
  lemma StillExpected(before: seq<Byte>, now: seq<Byte>, sects: seq<Sect>, k: nat)
    requires k < |sects| && Apart(sects) && Patched(before, now, sects, k)
    ensures Expected(now, sects[k]) <==> Expected(before, sects[k])
    ensures forall o :: IsDataField(sects[k], o) && sects[k].size % 40 == 0 && 0 <= o && o + 8 <= |before| ==>
              WordAt(now, o) == WordAt(before, o)
  {
    hide IsClassData, WordAt, InField, IsDataField;
    if sects[k].size % 40 == 0 {
      forall o | IsDataField(sects[k], o) && 0 <= o && o + 8 <= |before| ensures WordAt(now, o) == WordAt(before, o) {
        forall i | o <= i < o + 8 ensures now[i] == before[i] { FieldBytes(sects[k], o, i); }
        SameWord(before, now, o);
      }
      assert forall o :: IsDataField(sects[k], o) ==> (Convertible(now, o) <==> Convertible(before, o));
    }
  }

  lemma SectionsCompose(before: seq<Byte>, was: seq<Byte>, now: seq<Byte>, sects: seq<Sect>, k: nat)
    requires k < |sects| && Apart(sects) && Patched(before, was, sects, k) && Expected(before, sects[k])
    requires SectionPatched(was, now, sects[k], sects[k].offset + sects[k].size)
    ensures Patched(before, now, sects, k + 1)
  {
    hide IsClassData, Plain, WordAt, InField, IsDataField;
    var s := sects[k];
    StillExpected(before, was, sects, k);
    forall j, o | 0 <= j < k + 1 && IsDataField(sects[j], o) ensures Converted(before, now, o) {
      FieldIsBefore(sects[j], o);
      if j == k {
        assert Converted(was, now, o);
      } else {
        assert Converted(before, was, o);
        forall i | o <= i < o + 8 ensures now[i] == was[i] { FieldBytes(sects[j], o, i); }
        SameWord(was, now, o);
      }
    }
  }

  lemma FieldIsBefore(s: Sect, o: int)
    requires IsDataField(s, o)
    ensures 0 <= o < s.offset + s.size
  {
  }

  /** All sections of a file: it succeeds exactly on the expected fields, and then converts them and nothing else. */
  method PatchImage(image: array<Byte>, sects: seq<Sect>) returns (ok: bool)
    modifies image
    ensures Apart(sects) ==> (ok <==> forall k :: 0 <= k < |sects| ==> Expected(old(image[..]), sects[k]))
    ensures Apart(sects) && ok ==> Patched(old(image[..]), image[..], sects, |sects|)
  {
    hide Expected, SectionPatched, InField, IsDataField, Converted;
    ghost var before := image[..];
    for k := 0 to |sects|
      invariant Apart(sects) ==> Patched(before, image[..], sects, k)
      invariant Apart(sects) ==> forall j :: 0 <= j < k ==> Expected(before, sects[j])
    {
      ghost var was := image[..];
      ok := PatchSection(image, sects[k]);
      if Apart(sects) { StillExpected(before, was, sects, k); }
      if !ok { return; }
      if Apart(sects) { SectionsCompose(before, was, image[..], sects, k); }
    }
    ok := true;
  }

  // ---------------------------------------------------------------- the chains survive

  /** The words that the chains run through. */
  function WordsOf(b: seq<Byte>): (words: seq<Word64>)
    ensures |words| == |b| / 8
  {
    seq(|b| / 8, i requires 0 <= i < |b| / 8 => WordAt(b, 8 * i))
  }

  ghost predicate IsClassWord(sects: seq<Sect>, i: int)
  {
    exists k :: 0 <= k < |sects| && IsDataField(sects[k], 8 * i)
  }

  ghost predicate WordsPatched(before: seq<Word64>, after: seq<Word64>, sects: seq<Sect>)
  {
    && |after| == |before|
    && forall i :: 0 <= i < |before| ==>
         if IsClassWord(sects, i) then IsClassData(before[i]) && after[i] == Plain(before[i]) else after[i] == before[i]
  }

  lemma AlignedWord(s: Sect, i: int, b: int)
    requires s.offset % 8 == 0 && s.size % 40 == 0 && 8 * i <= b < 8 * i + 8 && InField(s, b)
    ensures IsDataField(s, 8 * i)
  {
  }

  /** In 8-aligned sections the patch converts whole words. */
  lemma PatchedWords(before: seq<Byte>, after: seq<Byte>, sects: seq<Sect>)
    requires Patched(before, after, sects, |sects|) && forall s <- sects :: s.offset % 8 == 0
    ensures WordsPatched(WordsOf(before), WordsOf(after), sects)
  {
    hide IsDataField, InField, IsClassData, Plain, WordAt;
    var words, words' := WordsOf(before), WordsOf(after);
    forall i: nat | i < |words|
      ensures if IsClassWord(sects, i) then IsClassData(words[i]) && words'[i] == Plain(words[i])
              else words'[i] == words[i]
    {
      assert words[i] == WordAt(before, 8 * i) && words'[i] == WordAt(after, 8 * i);
      if IsClassWord(sects, i) {
        assert Converted(before, after, 8 * i);
      } else {
        NotClassData(before, after, sects, i);
      }
    }
  }

  lemma NotClassData(before: seq<Byte>, after: seq<Byte>, sects: seq<Sect>, i: nat)
    requires Patched(before, after, sects, |sects|) && forall s <- sects :: s.offset % 8 == 0
    requires i < |before| / 8 && !IsClassWord(sects, i)
    ensures WordAt(after, 8 * i) == WordAt(before, 8 * i)
  {
    hide IsDataField, InField, WordAt;
    forall b, k | 8 * i <= b < 8 * i + 8 && 0 <= k < |sects| ensures !InField(sects[k], b) {
      if InField(sects[k], b) { AlignedWord(sects[k], i, b); }
    }
    SameWord(before, after, 8 * i);
  }

  lemma PatchKeepsLinks(before: seq<Word64>, after: seq<Word64>, sects: seq<Sect>, i: nat)
    requires WordsPatched(before, after, sects) && i < |before|
    ensures Next(after[i]) == Next(before[i])
  {
    hide IsClassWord, Plain, IsClassData, Next;
    if IsClassWord(sects, i) { PlainReads(before[i]); }
  }

  lemma {:induction false} SameLinksSameWalk(before: seq<Word64>, after: seq<Word64>, base: int, a: int, end: int)
    requires |before| == |after| && forall i :: 0 <= i < |before| ==> Next(after[i]) == Next(before[i])
    ensures Walk(after, base, a, end) == Walk(before, base, a, end)
    decreases end - a
  {
    hide Next, Addressable;
    if a < end && Addressable(base, |before|, a) {
      InImage(base, |before|, a);
      var next := Next(before[Index(base, a)]);
      NextIsNonNegative(before[Index(base, a)]);
      if next != 0 { SameLinksSameWalk(before, after, base, a + 8 * next, end); }
    }
  }

  lemma InImage(base: int, words: nat, a: int)
    requires Addressable(base, words, a)
    ensures 0 <= Index(base, a) < words
  {
  }

  lemma NextIsNonNegative(w: Word64)
    ensures 0 <= Next(w)
  {
  }

  lemma {:induction false} SameLinksSamePages(before: seq<Word64>, after: seq<Word64>, base: int, va: int, page: nat,
                                               starts: seq<int>, pg: nat)
    requires |before| == |after| && forall i :: 0 <= i < |before| ==> Next(after[i]) == Next(before[i])
    requires pg <= |starts|
    ensures WalkPages(after, base, va, page, starts, pg) == WalkPages(before, base, va, page, starts, pg)
    decreases |starts| - pg
  {
    hide Walk;
    if pg < |starts| {
      SameLinksSamePages(before, after, base, va, page, starts, pg + 1);
      SameLinksSameWalk(before, after, base, va + pg * page + starts[pg], va + pg * page + page);
    }
  }

  /** What a word reads as after the patch. */
  ghost predicate ReadsPatched(before: Word64, after: Word64, classData: bool)
  {
    if classData then
      && Read(before).fixup.auth && !Read(before).fixup.bind
      && Read(after) == Link(Fixup(false, Read(before).fixup.val, false, 0, 0, 0, 0), Read(before).next)
    else after == before
  }

  /** After the patch the loader visits the same addresses in the same order; what it reads differs
      exactly at the class data fields, where a signed rebase has become a plain one to the same
      target. */
  lemma PatchKeepsChains(before: seq<Byte>, after: seq<Byte>, sects: seq<Sect>, base: int, va: int, page: nat,
                         starts: seq<int>)
    requires Patched(before, after, sects, |sects|) && forall s <- sects :: s.offset % 8 == 0
    ensures WalkPages(WordsOf(after), base, va, page, starts, 0)
            == WalkPages(WordsOf(before), base, va, page, starts, 0)
    ensures forall i :: 0 <= i < |before| / 8 ==>
              ReadsPatched(WordsOf(before)[i], WordsOf(after)[i], IsClassWord(sects, i))
  {
    hide IsClassWord, Plain, IsClassData, WordsOf, Patched;
    PatchedWords(before, after, sects);
    var words, words' := WordsOf(before), WordsOf(after);
    forall i | 0 <= i < |words| ensures Next(words'[i]) == Next(words[i]) {
      PatchKeepsLinks(words, words', sects, i);
    }
    SameLinksSamePages(words, words', base, va, page, starts, 0);
    forall i | 0 <= i < |words| && IsClassWord(sects, i) ensures ReadsPatched(words[i], words'[i], true) {
      PlainReads(words[i]);
    }
  }

  // ---------------------------------------------------------------- what the loader makes of it

  /** The same locations, and the same entries but for class data, which is the plain pointer to its old target. */
  ghost predicate LoadedAlike(sects: seq<Sect>, base: int, got: map<int, Fixup>, got': map<int, Fixup>)
  {
    got'.Keys == got.Keys && forall a <- got ::
      if IsClassWord(sects, Index(base, a)) then
        got[a].auth && !got[a].bind && got'[a] == Fixup(false, got[a].val, false, 0, 0, 0, 0)
      else got'[a] == got[a]
  }

  ghost predicate BothAlike(sects: seq<Sect>, base: int, got: Option<map<int, Fixup>>, got': Option<map<int, Fixup>>)
  {
    if got.Some? then got'.Some? && LoadedAlike(sects, base, got.value, got'.value) else got' == None
  }

  lemma SegmentAlike(before: seq<Byte>, after: seq<Byte>, sects: seq<Sect>, base: int, va: int, page: nat,
                     starts: Option<seq<int>>)
    requires Patched(before, after, sects, |sects|) && forall s <- sects :: s.offset % 8 == 0
    ensures BothAlike(sects, base, LoadSegment(WordsOf(before), base, va, page, starts),
                      LoadSegment(WordsOf(after), base, va, page, starts))
  {
    hide IsClassWord, WordsOf, Patched, Read, WalkPages, Index;
    if starts.Some? { PatchKeepsChains(before, after, sects, base, va, page, starts.value); }
    PatchedLength(before, after, sects);
  }

  lemma PatchedLength(before: seq<Byte>, after: seq<Byte>, sects: seq<Sect>)
    requires Patched(before, after, sects, |sects|)
    ensures |after| == |before|
  {
  }

  lemma MergedAlike(sects: seq<Sect>, base: int, a: map<int, Fixup>, a': map<int, Fixup>, b: map<int, Fixup>,
                    b': map<int, Fixup>)
    requires LoadedAlike(sects, base, a, a') && LoadedAlike(sects, base, b, b')
    ensures LoadedAlike(sects, base, a + b, a' + b')
  {
    hide IsClassWord, Index;
  }

  lemma NothingAlike(sects: seq<Sect>, base: int)
    ensures LoadedAlike(sects, base, map[], map[])
  {
  }

  lemma {:induction false} UpToAlike(p: B.Payload, before: seq<Byte>, after: seq<Byte>, sects: seq<Sect>, base: int,
                                     n: nat)
    requires Patched(before, after, sects, |sects|) && forall s <- sects :: s.offset % 8 == 0
    ensures BothAlike(sects, base, L.LoadUpTo(p, WordsOf(before), base, n), L.LoadUpTo(p, WordsOf(after), base, n))
  {
    hide LoadedAlike, WordsOf, Patched, LoadSegment, B.ReadRecord;
    NothingAlike(sects, base);
    if n > 0 {
      UpToAlike(p, before, after, sects, base, n - 1);
      NthAlike(p, before, after, sects, base, n - 1);
      var a, b := L.LoadUpTo(p, WordsOf(before), base, n - 1), L.LoadNth(p, WordsOf(before), base, n - 1);
      var a', b' := L.LoadUpTo(p, WordsOf(after), base, n - 1), L.LoadNth(p, WordsOf(after), base, n - 1);
      if a.Some? && b.Some? { MergedAlike(sects, base, a.value, a'.value, b.value, b'.value); }
    }
  }

  lemma NthAlike(p: B.Payload, before: seq<Byte>, after: seq<Byte>, sects: seq<Sect>, base: int, i: nat)
    requires Patched(before, after, sects, |sects|) && forall s <- sects :: s.offset % 8 == 0
    ensures BothAlike(sects, base, L.LoadNth(p, WordsOf(before), base, i), L.LoadNth(p, WordsOf(after), base, i))
  {
    hide LoadedAlike, WordsOf, Patched, LoadSegment;
    NothingAlike(sects, base);
    if 8 + 4 * i <= |p.starts| && B.ReadRecord(p.starts, i).Some? && B.ReadRecord(p.starts, i).value.Some? {
      var r := B.ReadRecord(p.starts, i).value.value;
      SegmentAlike(before, after, sects, base, base + r.offset, r.pageSize, Some(r.starts));
    }
  }

  /** The loader, given the same payload, makes the same of the patched file as of the old one, but for the
      signatures of class data. */
  lemma LoadsAlike(blob: B.Bytes, before: seq<Byte>, after: seq<Byte>, sects: seq<Sect>, base: int)
    requires Patched(before, after, sects, |sects|) && forall s <- sects :: s.offset % 8 == 0
    ensures BothAlike(sects, base, L.Load(blob, WordsOf(before), base), L.Load(blob, WordsOf(after), base))
  {
    hide LoadedAlike, WordsOf, Patched, L.LoadUpTo;
    if B.ReadPayload(blob).Some? && |B.ReadPayload(blob).value.starts| >= 4 {
      var p := B.ReadPayload(blob).value;
      UpToAlike(p, before, after, sects, base, B.Num(p.starts, 0, 4));
    }
  }
}

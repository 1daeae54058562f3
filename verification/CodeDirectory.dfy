/** Acceptance of an embedded code signature: the load-command table, the signature blobs, and the page hashes
    of every CodeDirectory.  None is the ValueError. */
module CodeDirectory {
  import opened Words
  import opened Wrappers

  /** The digest of one hash type, truncated to the size the directory claims. */
  type Digest = (nat, seq<Byte>) -> seq<Byte>

  const CODE_SIGNATURE := 0x1D
  const SUPERBLOB := 0xFADE0CC0
  const DIRECTORY := 0xFADE0C02

  function Big32(s: seq<Byte>, at: nat): nat
    requires at + 4 <= |s|
  {
    0x100_0000 * s[at] as int + 0x1_0000 * s[at + 1] as int + 0x100 * s[at + 2] as int + s[at + 3] as int
  }

  function Little32(s: seq<Byte>, at: nat): nat
    requires at + 4 <= |s|
  {
    s[at] as int + 0x100 * s[at + 1] as int + 0x1_0000 * s[at + 2] as int + 0x100_0000 * s[at + 3] as int
  }

  // -------------------------------------------------------------- signature blobs

  /** Entry `i` of the index: its kind and where its blob begins. */
  function KindOf(sig: seq<Byte>, i: nat): nat
    requires 20 + 8 * i <= |sig|
  {
    Big32(sig, 12 + 8 * i)
  }

  function StartOf(sig: seq<Byte>, i: nat): nat
    requires 20 + 8 * i <= |sig|
  {
    Big32(sig, 16 + 8 * i)
  }

  /** The blob of entry `i` lies behind the index and within the signature. */
  predicate InBounds(sig: seq<Byte>, length: nat, count: nat, i: nat)
    requires 12 + 8 * count <= length <= |sig| && i < count
  {
    var start := StartOf(sig, i);
    12 + 8 * count <= start && start + 8 <= length && Big32(sig, start + 4) >= 8
      && start + Big32(sig, start + 4) <= length
  }

  function StopOf(sig: seq<Byte>, length: nat, count: nat, i: nat): (stop: nat)
    requires 12 + 8 * count <= length <= |sig| && i < count && InBounds(sig, length, count, i)
    ensures StartOf(sig, i) + 8 <= stop <= length
  {
    StartOf(sig, i) + Big32(sig, StartOf(sig, i) + 4)
  }

  /** Entries `i` and `j` have different kinds and no byte in common. */
  predicate Apart(sig: seq<Byte>, length: nat, count: nat, i: nat, j: nat)
    requires 12 + 8 * count <= length <= |sig| && i < count && j < count
    requires InBounds(sig, length, count, i) && InBounds(sig, length, count, j)
  {
    && KindOf(sig, i) != KindOf(sig, j)
    && (StopOf(sig, length, count, i) <= StartOf(sig, j) || StopOf(sig, length, count, j) <= StartOf(sig, i))
  }

  function BlobOf(sig: seq<Byte>, length: nat, count: nat, i: nat): seq<Byte>
    requires 12 + 8 * count <= length <= |sig| && i < count && InBounds(sig, length, count, i)
  {
    var stop := StopOf(sig, length, count, i);
    sig[StartOf(sig, i)..stop]
  }

  ghost predicate IndexOk(sig: seq<Byte>, length: nat, count: nat, n: nat)
    requires 12 + 8 * count <= length <= |sig| && n <= count
  {
    && (forall i: nat :: i < n ==> InBounds(sig, length, count, i))
    && (forall i: nat, j: nat :: i < j < n ==> Apart(sig, length, count, i, j))
  }

  /** The blobs by kind. */
  ghost predicate BlobsOf(sig: seq<Byte>, length: nat, count: nat, n: nat, blobs: map<nat, seq<Byte>>)
    requires 12 + 8 * count <= length <= |sig| && n <= count && IndexOk(sig, length, count, n)
  {
    && (forall i: nat :: i < n ==> KindOf(sig, i) in blobs && blobs[KindOf(sig, i)] == BlobOf(sig, length, count, i))
    && (forall k <- blobs :: exists i: nat :: i < n && k == KindOf(sig, i))
  }

  /** The first `n` blobs by kind. */
  function Blobs(sig: seq<Byte>, length: nat, count: nat, n: nat): map<nat, seq<Byte>>
    requires 12 + 8 * count <= length <= |sig| && n <= count && forall i: nat :: i < n ==>
               InBounds(sig, length, count, i)
  {
    if n == 0 then map[] else Blobs(sig, length, count, n - 1)[KindOf(sig, n - 1) := BlobOf(sig, length, count, n - 1)]
  }

  /** A blob that is out of bounds, of a kind seen before, or in the way of an earlier one. */
  lemma BadEntry(sig: seq<Byte>, length: nat, count: nat, i: nat, index: nat)
    requires 12 + 8 * count <= length <= |sig| && index < count
    requires !InBounds(sig, length, count, index)
             || (i < index && InBounds(sig, length, count, i) && !Apart(sig, length, count, i, index))
    ensures !IndexOk(sig, length, count, count)
  {
    hide InBounds, Apart;
  }

  lemma GoodEntry(sig: seq<Byte>, length: nat, count: nat, index: nat, blobs: map<nat, seq<Byte>>)
    requires 12 + 8 * count <= length <= |sig| && index < count && IndexOk(sig, length, count, index)
    requires BlobsOf(sig, length, count, index, blobs) && InBounds(sig, length, count, index)
    requires forall i: nat :: i < index ==> Apart(sig, length, count, i, index)
    ensures IndexOk(sig, length, count, index + 1)
    ensures BlobsOf(sig, length, count, index + 1, blobs[KindOf(sig, index) := BlobOf(sig, length, count, index)])
  {
    hide InBounds, BlobOf, StartOf, KindOf;
    var blobs' := blobs[KindOf(sig, index) := BlobOf(sig, length, count, index)];
    forall i: nat | i < index + 1
      ensures KindOf(sig, i) in blobs' && blobs'[KindOf(sig, i)] == BlobOf(sig, length, count, i)
    {
      if i < index { assert Apart(sig, length, count, i, index); }
    }
  }

  /** The blobs before entry `index`, as the loop keeps them. */
  ghost predicate RangesOf(sig: seq<Byte>, length: nat, count: nat, ranges: seq<(nat, nat)>)
    requires 12 + 8 * count <= length <= |sig| && |ranges| <= count && IndexOk(sig, length, count, |ranges|)
  {
    forall i: nat :: i < |ranges| ==> ranges[i] == (StartOf(sig, i), StopOf(sig, length, count, i))
  }

  lemma OverlapFound(sig: seq<Byte>, length: nat, count: nat, ranges: seq<(nat, nat)>)
    requires 12 + 8 * count <= length <= |sig| && |ranges| < count && IndexOk(sig, length, count, |ranges|)
    requires RangesOf(sig, length, count, ranges) && InBounds(sig, length, count, |ranges|)
    requires exists range <- ranges ::
               StartOf(sig, |ranges|) < range.1 && range.0 < StopOf(sig, length, count, |ranges|)
    ensures !IndexOk(sig, length, count, count)
  {
    hide InBounds, IndexOk;
    var range :| range in ranges && StartOf(sig, |ranges|) < range.1 && range.0 < StopOf(sig, length, count, |ranges|);
    var i: nat :| i < |ranges| && ranges[i] == range;
    BoundsOf(sig, length, count, |ranges|, i);
    BadEntry(sig, length, count, i, |ranges|);
  }

  lemma BoundsOf(sig: seq<Byte>, length: nat, count: nat, n: nat, i: nat)
    requires 12 + 8 * count <= length <= |sig| && i < n <= count && IndexOk(sig, length, count, n)
    ensures InBounds(sig, length, count, i)
  {
  }

  lemma KindSeen(sig: seq<Byte>, length: nat, count: nat, index: nat, blobs: map<nat, seq<Byte>>)
    requires 12 + 8 * count <= length <= |sig| && index < count && IndexOk(sig, length, count, index)
    requires BlobsOf(sig, length, count, index, blobs) && InBounds(sig, length, count, index)
    requires KindOf(sig, index) in blobs
    ensures !IndexOk(sig, length, count, count)
  {
    hide InBounds, IndexOk, StopOf, StartOf;
    var i: nat :| i < index && KindOf(sig, index) == KindOf(sig, i);
    BoundsOf(sig, length, count, index, i);
    BadEntry(sig, length, count, i, index);
  }

  lemma NoOverlap(sig: seq<Byte>, length: nat, count: nat, ranges: seq<(nat, nat)>, blobs: map<nat, seq<Byte>>)
    requires 12 + 8 * count <= length <= |sig| && |ranges| < count && IndexOk(sig, length, count, |ranges|)
    requires RangesOf(sig, length, count, ranges) && InBounds(sig, length, count, |ranges|)
    requires BlobsOf(sig, length, count, |ranges|, blobs) && KindOf(sig, |ranges|) !in blobs
    requires forall range <- ranges ::
               !(StartOf(sig, |ranges|) < range.1 && range.0 < StopOf(sig, length, count, |ranges|))
    ensures forall i: nat :: i < |ranges| ==> Apart(sig, length, count, i, |ranges|)
  {
    hide InBounds, IndexOk, StopOf, StartOf, KindOf;
    forall i: nat | i < |ranges| ensures InBounds(sig, length, count, i) && Apart(sig, length, count, i, |ranges|) {
      BoundsOf(sig, length, count, |ranges|, i);
      assert ranges[i] in ranges;
    }
  }

  /** The loop over the signature index: it succeeds exactly when all blobs are in bounds, of different kinds and
      pairwise disjoint. */
  method ReadIndex(sig: seq<Byte>, length: nat, count: nat) returns (r: Option<map<nat, seq<Byte>>>)
    requires 12 + 8 * count <= length <= |sig|
    ensures r.Some? <==> IndexOk(sig, length, count, count)
    ensures r.Some? ==> BlobsOf(sig, length, count, count, r.value) && r.value == Blobs(sig, length, count, count)
  {
    hide Big32, BlobsOf, Apart, Blobs;
    var blobs: map<nat, seq<Byte>> := map[];
    var ranges: seq<(nat, nat)> := [];
    NothingRead(sig, length, count);
    for index := 0 to count
      invariant IndexOk(sig, length, count, index) && BlobsOf(sig, length, count, index, blobs)
      invariant |ranges| == index && RangesOf(sig, length, count, ranges) && blobs == Blobs(sig, length, count, index)
    {
      var kind, start := KindOf(sig, index), StartOf(sig, index);
      if start < 12 + 8 * count || start + 8 > length {
        BadEntry(sig, length, count, 0, index);
        return None;
      }
      var size := Big32(sig, start + 4);
      if size < 8 || start + size > length {
        BadEntry(sig, length, count, 0, index);
        return None;
      }
      if kind in blobs {
        KindSeen(sig, length, count, index, blobs);
        return None;
      }
      if exists range <- ranges :: start < range.1 && range.0 < start + size {
        OverlapFound(sig, length, count, ranges);
        return None;
      }
      NoOverlap(sig, length, count, ranges, blobs);
      GoodEntry(sig, length, count, index, blobs);
      OneMoreBlob(sig, length, count, index);
      ranges := ranges + [(start, start + size)];
      blobs := blobs[kind := sig[start..start + size]];
    }
    r := Some(blobs);
  }

  lemma NothingRead(sig: seq<Byte>, length: nat, count: nat)
    requires 12 + 8 * count <= length <= |sig|
    ensures IndexOk(sig, length, count, 0) && BlobsOf(sig, length, count, 0, map[])
    ensures Blobs(sig, length, count, 0) == map[]
  {
  }

  lemma OneMoreBlob(sig: seq<Byte>, length: nat, count: nat, n: nat)
    requires 12 + 8 * count <= length <= |sig| && n < count && forall i: nat :: i < n + 1 ==>
               InBounds(sig, length, count, i)
    ensures Blobs(sig, length, count, n + 1)
            == Blobs(sig, length, count, n)[KindOf(sig, n) := BlobOf(sig, length, count, n)]
  {
    hide InBounds, BlobOf, KindOf;
  }

  // -------------------------------------------------------------- pages

  datatype Header = Header(version: nat, hashOffset: nat, identifier: nat, special: nat, pages: nat, limit: nat,
                           hashSize: nat, hashType: nat, pagePower: nat)

  /** The fixed fields of a CodeDirectory; a 64-bit limit replaces an all-ones one. */
  function HeaderOf(cd: seq<Byte>): Option<Header>
    requires |cd| >= 44
  {
    var version, limit := Big32(cd, 8), Big32(cd, 32);
    if version >= 0x20300 && limit == 0xFFFF_FFFF && |cd| < 64 then None
    else
      var wide := if version >= 0x20300 && limit == 0xFFFF_FFFF
                  then 0x1_0000_0000 * Big32(cd, 56) + Big32(cd, 60) else limit;
      Some(Header(version, Big32(cd, 16), Big32(cd, 20), Big32(cd, 24), Big32(cd, 28), wide, cd[36], cd[37], cd[39]))
  }

  function DigestSize(hashType: nat): nat
  {
    match hashType case 1 => 20 case 2 => 32 case 3 => 20 case 4 => 48 case _ => 0
  }

  /** The hash slots and the identifier lie within the directory. */
  predicate SlotsFit(cd: seq<Byte>, h: Header)
  {
    && 1 <= h.hashType <= 4 && h.hashSize == DigestSize(h.hashType) && h.pagePower <= 30
    && h.hashOffset >= 44 + h.special * h.hashSize && h.hashOffset + h.pages * h.hashSize <= |cd|
    && 44 <= h.identifier < h.hashOffset - h.special * h.hashSize
       && 0 in cd[h.identifier..h.hashOffset - h.special * h.hashSize]
  }

  /** A directory fits when its hash is one of the four known ones at full width, its hashes lie between the header
      and its end, and its identifier is a string between the two. */
  lemma SlotsFitIff(cd: seq<Byte>, h: Header)
    ensures SlotsFit(cd, h) <==>
              && (h.hashType, h.hashSize) in {(1, 20), (2, 32), (3, 20), (4, 48)} && h.pagePower <= 30
              && 44 + h.special * h.hashSize <= h.hashOffset && h.hashOffset + h.pages * h.hashSize <= |cd|
              && 44 <= h.identifier
              && exists k :: h.identifier <= k < h.hashOffset - h.special * h.hashSize && k < |cd| && cd[k] == 0
  {
    var end := h.hashOffset - h.special * h.hashSize;
    if 44 <= h.identifier < end <= |cd| {
      var s := cd[h.identifier..end];
      if 0 in s {
        var i :| 0 <= i < |s| && s[i] == 0;
        assert cd[h.identifier + i] == 0;
      }
      if k :| h.identifier <= k < end && k < |cd| && cd[k] == 0 { assert s[k - h.identifier] == 0; }
    }
  }

  function PageSize(h: Header): (p: nat)
    ensures h.limit != 0 ==> p > 0
  {
    if h.pagePower != 0 then Pow2(h.pagePower) else h.limit
  }

  predicate CoverageFits(h: Header, signature: nat)
  {
    h.limit != 0 && h.limit <= signature && h.pages == (h.limit + PageSize(h) - 1) / PageSize(h)
  }

  function PageStart(h: Header, i: nat): nat { i * PageSize(h) }

  function PageStop(h: Header, i: nat): nat
  {
    if (i + 1) * PageSize(h) < h.limit then (i + 1) * PageSize(h) else h.limit
  }

  /** The pages tile the code: they begin at zero, each begins where the one before ends, none is empty, only the
      last may be short, and the last ends at the limit. */
  lemma PagesTile(h: Header, signature: nat, i: nat)
    requires CoverageFits(h, signature) && i < h.pages
    ensures PageStart(h, 0) == 0 && PageStart(h, i) < PageStop(h, i) <= h.limit
    ensures i + 1 < h.pages ==> PageStop(h, i) == PageStart(h, i + 1) && PageStop(h, i) == PageStart(h, i) + PageSize(h)
    ensures i + 1 == h.pages ==> PageStop(h, i) == h.limit
  {
    var p := PageSize(h);
    PageCount(h.limit, p, h.pages);
    TimesOrder(i + 1, h.pages, p);
    TimesOrder(i + 2, h.pages, p);
  }

  lemma PageCount(limit: nat, p: nat, pages: nat)
    requires limit > 0 && p > 0 && pages == (limit + p - 1) / p
    ensures pages > 0 && (pages - 1) * p < limit <= pages * p
  {
    var r := (limit + p - 1) % p;
    assert limit + p - 1 == pages * p + r;
    assert (pages - 1) * p == pages * p - p;
  }

  lemma TimesOrder(i: nat, n: nat, p: nat)
    ensures i <= n ==> i * p <= n * p
    ensures i < n ==> i * p <= (n - 1) * p
    ensures (i + 1) * p == i * p + p
  {
  }

  /** Every byte below the limit is in exactly one page. */
  lemma OnePagePerByte(h: Header, signature: nat, b: nat) returns (i: nat)
    requires CoverageFits(h, signature) && b < h.limit
    ensures i < h.pages && PageStart(h, i) <= b < PageStop(h, i)
    ensures forall j: nat :: j < h.pages && PageStart(h, j) <= b < PageStop(h, j) ==> j == i
  {
    i := b / PageSize(h);
    ByteHasPage(h, signature, b);
    hide *;
    forall j: nat | j < h.pages && PageStart(h, j) <= b < PageStop(h, j) ensures j == i { PageOfByte(h, b, j); }
  }

  lemma ByteHasPage(h: Header, signature: nat, b: nat)
    requires CoverageFits(h, signature) && b < h.limit
    ensures var i := b / PageSize(h); i < h.pages && PageStart(h, i) <= b < PageStop(h, i)
  {
    hide PageSize;
    var p := PageSize(h);
    PageCount(h.limit, p, h.pages);
    Quotient(b, p, b / p);
    if b / p >= h.pages { TimesOrder(h.pages, b / p, p); }
  }

  lemma PageOfByte(h: Header, b: nat, j: nat)
    requires h.limit != 0 && PageStart(h, j) <= b < PageStop(h, j)
    ensures j == b / PageSize(h)
  {
    hide PageSize;
    var p := PageSize(h);
    Quotient(b, p, b / p);
    assert b < (j + 1) * p;
    SameQuotient(b, p, b / p, j);
  }

  lemma Quotient(b: nat, p: nat, i: nat)
    requires p > 0 && i == b / p
    ensures i * p <= b < (i + 1) * p
  {
    assert b == i * p + b % p;
    assert (i + 1) * p == i * p + p;
  }

  lemma SameQuotient(b: nat, p: nat, i: nat, j: nat)
    requires p > 0 && i * p <= b < (i + 1) * p && j * p <= b < (j + 1) * p
    ensures i == j
  {
    if i < j { TimesOrder(i + 1, j, p); } else if j < i { TimesOrder(j + 1, i, p); }
  }

  // -------------------------------------------------------------- one directory

  /** The claimed hash of page `i`. */
  function PageHash(cd: seq<Byte>, h: Header, i: nat): seq<Byte>
    requires SlotsFit(cd, h) && i < h.pages
  {
    TimesOrder(i + 1, h.pages, h.hashSize);
    cd[h.hashOffset + i * h.hashSize..h.hashOffset + (i + 1) * h.hashSize]
  }

  /** The claimed hash of an embedded blob. */
  function SpecialHash(cd: seq<Byte>, h: Header, slot: nat): seq<Byte>
    requires SlotsFit(cd, h) && 1 <= slot <= h.special
  {
    TimesOrder(slot, h.special, h.hashSize);
    TimesOrder(slot - 1, slot, h.hashSize);
    cd[h.hashOffset - slot * h.hashSize..h.hashOffset - (slot - 1) * h.hashSize]
  }

  function Page(data: seq<Byte>, h: Header, signature: nat, i: nat): seq<Byte>
    requires CoverageFits(h, signature) && signature <= |data| && i < h.pages
  {
    PagesTile(h, signature, i);
    data[PageStart(h, i)..PageStop(h, i)]
  }

  predicate PageOk(data: seq<Byte>, cd: seq<Byte>, h: Header, signature: nat, digest: Digest, i: nat)
    requires SlotsFit(cd, h) && CoverageFits(h, signature) && signature <= |data| && i < h.pages
  {
    digest(h.hashType, Page(data, h, signature, i)) == PageHash(cd, h, i)
  }

  /** An embedded requirements or entitlements blob has the claimed hash; without the blob the claim is all zero. */
  predicate SpecialOk(cd: seq<Byte>, h: Header, blobs: map<nat, seq<Byte>>, digest: Digest, slot: nat)
    requires SlotsFit(cd, h) && 1 <= slot
  {
    slot <= h.special ==>
      if slot in blobs then digest(h.hashType, blobs[slot]) == SpecialHash(cd, h, slot)
      else forall b <- SpecialHash(cd, h, slot) :: b == 0
  }

  const SPECIAL_SLOTS: seq<nat> := [2, 5, 7]

  ghost predicate DirectoryOk(data: seq<Byte>, signature: nat, cd: seq<Byte>, blobs: map<nat, seq<Byte>>,
                              digest: Digest)
    requires signature <= |data|
  {
    && |cd| >= 44 && HeaderOf(cd).Some?
    && var h := HeaderOf(cd).value;
       && SlotsFit(cd, h) && CoverageFits(h, signature)
       && (forall i: nat :: i < h.pages ==> PageOk(data, cd, h, signature, digest, i))
       && (forall slot <- SPECIAL_SLOTS :: SpecialOk(cd, h, blobs, digest, slot))
  }

  datatype Record = Record(version: nat, limit: nat, pages: nat, pageSize: nat)

  function RecordOf(h: Header): Record { Record(h.version, h.limit, h.pages, PageSize(h)) }

  /** The loop body for one CodeDirectory. */
  method CheckDirectory(data: seq<Byte>, signature: nat, cd: seq<Byte>, blobs: map<nat, seq<Byte>>, digest: Digest)
      returns (r: Option<Record>)
    requires signature <= |data|
    ensures r.Some? <==> DirectoryOk(data, signature, cd, blobs, digest)
    ensures r.Some? ==> r.value == RecordOf(HeaderOf(cd).value)
  {
    hide HeaderOf, SlotsFit, CoverageFits, PageOk, SpecialOk, PageSize;
    if |cd| < 44 { return None; }
    var header := HeaderOf(cd);
    if header == None { return None; }
    var h := header.value;
    if !SlotsFit(cd, h) || !CoverageFits(h, signature) { return None; }
    for i := 0 to h.pages
      invariant forall q: nat :: q < i ==> PageOk(data, cd, h, signature, digest, q)
    {
      if !PageOk(data, cd, h, signature, digest, i) { return None; }
    }
    for k := 0 to 3
      invariant forall q :: 0 <= q < k ==> SpecialOk(cd, h, blobs, digest, SPECIAL_SLOTS[q])
    {
      assert SPECIAL_SLOTS[k] in SPECIAL_SLOTS;
      if !SpecialOk(cd, h, blobs, digest, SPECIAL_SLOTS[k]) { return None; }
    }
    r := Some(RecordOf(h));
  }

  /** Page `i` of the two files differs and yet has one digest: a collision of the hash, found. */
  ghost predicate CollidesAt(data: seq<Byte>, data': seq<Byte>, h: Header, digest: Digest, i: nat)
  {
    && i < h.pages && PageStart(h, i) <= PageStop(h, i) <= |data| && PageStop(h, i) <= |data'|
    && var a, b := data[PageStart(h, i)..PageStop(h, i)], data'[PageStart(h, i)..PageStop(h, i)];
       a != b && digest(h.hashType, a) == digest(h.hashType, b)
  }

  /** Two pages under one claimed hash are equal or collide. */
  lemma SamePageOrCollision(data: seq<Byte>, data': seq<Byte>, signature: nat, signature': nat, cd: seq<Byte>,
                            h: Header,
                            digest: Digest, i: nat)
    requires SlotsFit(cd, h) && CoverageFits(h, signature) && CoverageFits(h, signature')
    requires signature <= |data| && signature' <= |data'| && i < h.pages
    requires PageOk(data, cd, h, signature, digest, i) && PageOk(data', cd, h, signature', digest, i)
    ensures Page(data, h, signature, i) == Page(data', h, signature', i) || CollidesAt(data, data', h, digest, i)
  {
    hide PageStart, PageStop, PageSize, SlotsFit, PageHash;
    PagesTile(h, signature, i);
  }

  lemma ByteOfPage(data: seq<Byte>, h: Header, signature: nat, i: nat, b: nat)
    requires CoverageFits(h, signature) && signature <= |data| && i < h.pages && PageStart(h, i) <= b < PageStop(h, i)
    ensures b < |data| && b - PageStart(h, i) < |Page(data, h, signature, i)|
    ensures Page(data, h, signature, i)[b - PageStart(h, i)] == data[b]
  {
    hide PageStart, PageStop, PageSize;
    PagesTile(h, signature, i);
  }

  /** A directory binds the code: two files accepted under the same directory agree on every byte below its limit,
      or one of their pages exhibits a collision of the hash. */
  lemma DirectoryBindsCode(data: seq<Byte>, data': seq<Byte>, signature: nat, signature': nat, cd: seq<Byte>,
                           blobs: map<nat, seq<Byte>>, blobs': map<nat, seq<Byte>>, digest: Digest)
    requires signature <= |data| && signature' <= |data'|
    requires DirectoryOk(data, signature, cd, blobs, digest) && DirectoryOk(data', signature', cd, blobs', digest)
    ensures var limit := HeaderOf(cd).value.limit;
      && limit <= signature && limit <= signature'
      && (data[..limit] == data'[..limit] || exists i :: CollidesAt(data, data', HeaderOf(cd).value, digest, i))
  {
    hide PageStart, PageStop, PageSize, HeaderOf, SlotsFit, Page, PageOk, CollidesAt;
    var h := HeaderOf(cd).value;
    if exists i :: CollidesAt(data, data', h, digest, i) { return; }
    forall b | 0 <= b < h.limit ensures data[b] == data'[b] {
      var i := OnePagePerByte(h, signature, b);
      SamePageOrCollision(data, data', signature, signature', cd, h, digest, i);
      ByteOfPage(data, h, signature, i, b);
      ByteOfPage(data', h, signature', i, b);
    }
  }

  // -------------------------------------------------------------- the file

  /** The load commands from `offset` on: where they end, and the (offset, size) of each LC_CODE_SIGNATURE. */
  function Walk(data: seq<Byte>, offset: nat, end: nat, n: nat): (r: Option<(nat, seq<(nat, nat)>)>)
    requires end <= |data|
    ensures r.Some? && offset <= end ==> offset + 8 * n <= r.value.0 <= end
    decreases n
  {
    if n == 0 then Some((offset, []))
    else if offset + 8 > end then None
    else
      var command, length := Little32(data, offset), Little32(data, offset + 4);
      if length < 8 || offset + length > end || (command == CODE_SIGNATURE && length < 16) then None
      else
        var found := if command == CODE_SIGNATURE
                     then [(Little32(data, offset + 8), Little32(data, offset + 12))] else [];
        After(found, Walk(data, offset + length, end, n - 1))
  }

  function After(found: seq<(nat, nat)>, rest: Option<(nat, seq<(nat, nat)>)>): Option<(nat, seq<(nat, nat)>)>
  {
    match rest case None => None case Some((offset, more)) => Some((offset, found + more))
  }

  method WalkCommands(data: seq<Byte>, end: nat, commands: nat) returns (r: Option<(nat, seq<(nat, nat)>)>)
    requires 32 <= end <= |data|
    ensures r == Walk(data, 32, end, commands)
  {
    hide Little32;
    var offset: nat, signatures := 32, [];
    AfterNothing(Walk(data, 32, end, commands));
    for i := 0 to commands
      invariant offset <= end
      invariant Walk(data, 32, end, commands) == After(signatures, Walk(data, offset, end, commands - i))
    {
      if offset + 8 > end { return None; }
      var command, length := Little32(data, offset), Little32(data, offset + 4);
      if length < 8 || offset + length > end { return None; }
      if command == CODE_SIGNATURE {
        if length < 16 { return None; }
        var found := (Little32(data, offset + 8), Little32(data, offset + 12));
        AfterAfter(signatures, [found], Walk(data, offset + length, end, commands - i - 1));
        signatures := signatures + [found];
      } else {
        AfterAfter(signatures, [], Walk(data, offset + length, end, commands - i - 1));
        assert signatures + [] == signatures;
      }
      offset := offset + length;
    }
    assert signatures + [] == signatures;
    r := Some((offset, signatures));
  }

  lemma AfterNothing(rest: Option<(nat, seq<(nat, nat)>)>)
    ensures After([], rest) == rest
  {
    match rest case None => case Some((offset, more)) => assert [] + more == more;
  }

  lemma AfterAfter(a: seq<(nat, nat)>, b: seq<(nat, nat)>, rest: Option<(nat, seq<(nat, nat)>)>)
    ensures After(a, After(b, rest)) == After(a + b, rest)
  {
    match rest case None => case Some((offset, more)) => assert (a + b) + more == a + (b + more);
  }

  const MAGIC: seq<Byte> := [0xCF, 0xFA, 0xED, 0xFE]

  /** The one code signature of the file, behind its load commands. */
  function SignatureRange(data: seq<Byte>): (r: Option<(nat, nat)>)
    ensures r.Some? ==> r.value.0 + r.value.1 <= |data| && r.value.1 >= 12
  {
    if |data| < 32 || data[..4] != MAGIC then None
    else
      var commands, size := Little32(data, 16), Little32(data, 20);
      if 32 + size > |data| || commands > size / 8 then None
      else RangeIn(data, 32 + size, Walk(data, 32, 32 + size, commands))
  }

  function RangeIn(data: seq<Byte>, end: nat, walked: Option<(nat, seq<(nat, nat)>)>): (r: Option<(nat, nat)>)
    ensures r.Some? ==> r.value.0 + r.value.1 <= |data| && r.value.1 >= 12
  {
    if walked == None || walked.value.0 != end || |walked.value.1| != 1 then None
    else
      var range := walked.value.1[0];
      if range.0 < end || range.0 + range.1 > |data| || range.1 < 12 then None else Some(range)
  }

  method FindSignature(data: seq<Byte>) returns (r: Option<(nat, nat)>)
    ensures r == SignatureRange(data)
  {
    hide Little32, Walk;
    if |data| < 32 || data[..4] != MAGIC { return None; }
    var commands, size := Little32(data, 16), Little32(data, 20);
    if 32 + size > |data| || commands > size / 8 { return None; }
    var walked := WalkCommands(data, 32 + size, commands);
    r := RangeIn(data, 32 + size, walked);
  }

  predicate IsDirectory(blob: seq<Byte>) { |blob| >= 4 && Big32(blob, 0) == DIRECTORY }

  /** The signature is a superblob whose index fits its length. */
  predicate SuperblobFits(sig: seq<Byte>)
  {
    |sig| >= 12 && Big32(sig, 0) == SUPERBLOB && 12 + 8 * Big32(sig, 8) <= Big32(sig, 4) <= |sig|
  }

  /** Directory number `i` of the signature. */
  ghost predicate Holds(sig: seq<Byte>, i: nat, cd: seq<Byte>)
    requires SuperblobFits(sig) && IndexOk(sig, Big32(sig, 4), Big32(sig, 8), Big32(sig, 8))
  {
    i < Big32(sig, 8) && BlobOf(sig, Big32(sig, 4), Big32(sig, 8), i) == cd && IsDirectory(cd)
  }

  /** The file has one signature, whose blobs are disjoint and whose directories, one at least, all describe it. */
  ghost predicate Accepted(data: seq<Byte>, digest: Digest)
  {
    && SignatureRange(data).Some?
    && var start, size := SignatureRange(data).value.0, SignatureRange(data).value.1;
       var sig := data[start..start + size];
       && SuperblobFits(sig)
       && var length, count := Big32(sig, 4), Big32(sig, 8);
          && IndexOk(sig, length, count, count)
          && (forall i: nat, cd :: Holds(sig, i, cd) ==>
                DirectoryOk(data, start, cd, Blobs(sig, length, count, count), digest))
          && (exists i: nat, cd :: Holds(sig, i, cd))
  }

  /** The records of the directories among the first `n` blobs, in the order of the index. */
  ghost function RecordsOf(sig: seq<Byte>, n: nat): seq<Record>
    requires SuperblobFits(sig) && IndexOk(sig, Big32(sig, 4), Big32(sig, 8), Big32(sig, 8)) && n <= Big32(sig, 8)
  {
    if n == 0 then []
    else
      EntryIsInBounds(sig, Big32(sig, 4), Big32(sig, 8), n - 1);
      var cd := BlobOf(sig, Big32(sig, 4), Big32(sig, 8), n - 1);
      RecordsOf(sig, n - 1)
        + (if IsDirectory(cd) && |cd| >= 44 && HeaderOf(cd).Some? then [RecordOf(HeaderOf(cd).value)] else [])
  }

  /** The signature of an accepted file. */
  ghost function SignatureOf(data: seq<Byte>): seq<Byte>
    requires SignatureRange(data).Some?
  {
    data[SignatureRange(data).value.0..SignatureRange(data).value.0 + SignatureRange(data).value.1]
  }

  /** `check`: accepted files, and exactly those, with a record for every directory, in order. */
  method Check(data: seq<Byte>, digest: Digest) returns (r: Option<seq<Record>>)
    ensures r.Some? <==> Accepted(data, digest)
    ensures r.Some? ==> var sig := SignatureOf(data); r.value == RecordsOf(sig, Big32(sig, 8)) != []
  {
    hide Big32, HeaderOf, DirectoryOk, IndexOk, BlobsOf, SignatureRange, Blobs, RecordOf;
    var range := FindSignature(data);
    if range == None { return None; }
    var start := range.value.0;
    var sig := data[start..start + range.value.1];
    if !SuperblobFits(sig) { return None; }
    var length, count := Big32(sig, 4), Big32(sig, 8);
    var blobs := ReadIndex(sig, length, count);
    if blobs == None { return None; }
    var records := [];
    for i := 0 to count
      invariant forall q: nat, cd :: q < i && Holds(sig, q, cd) ==> DirectoryOk(data, start, cd, blobs.value, digest)
      invariant records == RecordsOf(sig, i) && (records != [] <==> exists q: nat, cd :: q < i && Holds(sig, q, cd))
    {
      EntryIsInBounds(sig, length, count, i);
      var cd := BlobOf(sig, length, count, i);
      if IsDirectory(cd) {
        assert Holds(sig, i, cd);
        var record := CheckDirectory(data, start, cd, blobs.value, digest);
        if record == None { return None; }
        DirectoryHasHeader(data, start, cd, blobs.value, digest);
        records := records + [record.value];
      }
    }
    if records == [] { return None; }
    r := Some(records);
  }

  lemma DirectoryHasHeader(data: seq<Byte>, signature: nat, cd: seq<Byte>, blobs: map<nat, seq<Byte>>, digest: Digest)
    requires signature <= |data| && DirectoryOk(data, signature, cd, blobs, digest)
    ensures |cd| >= 44 && HeaderOf(cd).Some?
  {
  }

  lemma EntryIsInBounds(sig: seq<Byte>, length: nat, count: nat, i: nat)
    requires 12 + 8 * count <= length <= |sig| && i < count && IndexOk(sig, length, count, count)
    ensures InBounds(sig, length, count, i)
  {
  }

  /** The signature of the file holds the directory. */
  ghost predicate Carries(data: seq<Byte>, cd: seq<Byte>)
  {
    && SignatureRange(data).Some?
    && var sig := data[SignatureRange(data).value.0..SignatureRange(data).value.0 + SignatureRange(data).value.1];
       && SuperblobFits(sig) && IndexOk(sig, Big32(sig, 4), Big32(sig, 8), Big32(sig, 8))
       && exists i: nat :: Holds(sig, i, cd)
  }

  lemma CarriedIsOk(data: seq<Byte>, digest: Digest, cd: seq<Byte>) returns (start: nat, blobs: map<nat, seq<Byte>>)
    requires Accepted(data, digest) && Carries(data, cd)
    ensures start <= |data| && DirectoryOk(data, start, cd, blobs, digest)
  {
    hide DirectoryOk, Holds, Blobs, SignatureRange, Big32, InBounds, Apart;
    start := SignatureRange(data).value.0;
    var sig := data[start..start + SignatureRange(data).value.1];
    blobs := Blobs(sig, Big32(sig, 4), Big32(sig, 8), Big32(sig, 8));
    var i: nat :| Holds(sig, i, cd);
  }

  /** Two accepted files that carry the same directory have the same code, or one of their pages exhibits
      a collision of the hash. */
  lemma AcceptedCodeAgrees(data: seq<Byte>, data': seq<Byte>, digest: Digest, cd: seq<Byte>)
    requires Accepted(data, digest) && Accepted(data', digest) && Carries(data, cd) && Carries(data', cd)
    ensures |cd| >= 44 && HeaderOf(cd).Some?
    ensures var limit := HeaderOf(cd).value.limit;
      && limit <= |data| && limit <= |data'|
      && (data[..limit] == data'[..limit] || exists i :: CollidesAt(data, data', HeaderOf(cd).value, digest, i))
  {
    hide HeaderOf, Accepted, Carries, CollidesAt, PageOk, SpecialOk;
    var start, blobs := CarriedIsOk(data, digest, cd);
    var start', blobs' := CarriedIsOk(data', digest, cd);
    DirectoryBindsCode(data, data', start, start', cd, blobs, blobs', digest);
  }

  // -------------------------------------------------------------- what a directory binds

  /** The signature of the file holds the blob under this kind. */
  ghost predicate Embeds(data: seq<Byte>, kind: nat, blob: seq<Byte>)
  {
    && SignatureRange(data).Some?
    && var sig := SignatureOf(data);
       && SuperblobFits(sig) && IndexOk(sig, Big32(sig, 4), Big32(sig, 8), Big32(sig, 8))
       && exists i: nat ::
            i < Big32(sig, 8) && KindOf(sig, i) == kind && BlobOf(sig, Big32(sig, 4), Big32(sig, 8), i) == blob
  }

  ghost predicate Lacks(data: seq<Byte>, kind: nat)
  {
    forall blob :: !Embeds(data, kind, blob)
  }

  lemma LacksIff(data: seq<Byte>, blobs: map<nat, seq<Byte>>, kind: nat)
    requires forall k: nat, blob :: Embeds(data, k, blob) <==> k in blobs && blobs[k] == blob
    ensures Lacks(data, kind) <==> kind !in blobs
  {
    hide Embeds;
    if kind in blobs { assert Embeds(data, kind, blobs[kind]); }
  }

  ghost predicate AllInBounds(sig: seq<Byte>, length: nat, count: nat, n: nat)
    requires 12 + 8 * count <= length <= |sig| && n <= count
  {
    forall i: nat :: i < n ==> InBounds(sig, length, count, i)
  }

  lemma IndexFacts(sig: seq<Byte>, length: nat, count: nat)
    requires 12 + 8 * count <= length <= |sig| && IndexOk(sig, length, count, count)
    ensures AllInBounds(sig, length, count, count)
    ensures forall i: nat, j: nat :: i < j < count ==> KindOf(sig, i) != KindOf(sig, j)
  {
    hide InBounds, KindOf;
    forall i: nat, j: nat | i < j < count ensures KindOf(sig, i) != KindOf(sig, j) {
      assert Apart(sig, length, count, i, j);
    }
  }

  /** Under each kind the map of blobs has the one blob of that kind. */
  lemma {:induction false} BlobsAre(sig: seq<Byte>, length: nat, count: nat, n: nat, kind: nat)
    requires 12 + 8 * count <= length <= |sig| && n <= count && AllInBounds(sig, length, count, n)
    requires forall i: nat, j: nat :: i < j < count ==> KindOf(sig, i) != KindOf(sig, j)
    ensures kind in Blobs(sig, length, count, n) ==>
              exists i: nat :: i < n && KindOf(sig, i) == kind
                               && Blobs(sig, length, count, n)[kind] == BlobOf(sig, length, count, i)
    ensures forall i: nat :: i < n && KindOf(sig, i) == kind ==>
              kind in Blobs(sig, length, count, n)
              && Blobs(sig, length, count, n)[kind] == BlobOf(sig, length, count, i)
  {
    if n > 0 {
      hide InBounds, BlobOf, KindOf;
      BlobsAre(sig, length, count, n - 1, kind);
    }
  }

  /** The hashes of an accepted file, slot by slot: pages forwards and embedded blobs backwards from the hash
      offset of the directory. */
  lemma AcceptedHashes(data: seq<Byte>, digest: Digest, cd: seq<Byte>)
    requires Accepted(data, digest) && Carries(data, cd)
    ensures |cd| >= 44 && HeaderOf(cd).Some?
    ensures var h := HeaderOf(cd).value;
      h.hashSize == (if h.hashType == 2 then 32 else if h.hashType == 4 then 48 else 20) && 1 <= h.hashType <= 4
    ensures var h := HeaderOf(cd).value;
      forall i: nat :: i < h.pages ==> PageHashed(data, cd, h, digest, i)
    ensures var h := HeaderOf(cd).value;
      forall slot: nat, blob | slot in {2, 5, 7} && slot <= h.special && Embeds(data, slot, blob) ::
        ClaimAt(cd, h.hashOffset - slot * h.hashSize, h.hashSize, digest(h.hashType, blob))
    ensures var h := HeaderOf(cd).value;
      forall slot: nat | slot in {2, 5, 7} && slot <= h.special && Lacks(data, slot) ::
        ClaimAt(cd, h.hashOffset - slot * h.hashSize, h.hashSize, seq(h.hashSize, _ => 0))
  {
    hide *;
    var start, blobs := AcceptedDirectory(data, digest, cd);
    DirectoryHasHeader(data, start, cd, blobs, digest);
    DirectoryHashes(data, start, cd, blobs, digest);
    var h := HeaderOf(cd).value;
    forall slot: nat, blob | slot in {2, 5, 7} && slot <= h.special && Embeds(data, slot, blob)
      ensures ClaimAt(cd, h.hashOffset - slot * h.hashSize, h.hashSize, digest(h.hashType, blob))
    {
      assert slot in blobs && blobs[slot] == blob;
    }
    forall slot: nat | slot in {2, 5, 7} && slot <= h.special && Lacks(data, slot)
      ensures ClaimAt(cd, h.hashOffset - slot * h.hashSize, h.hashSize, seq(h.hashSize, _ => 0))
    {
      LacksIff(data, blobs, slot);
    }
  }

  function Least(a: int, b: int): int { if a < b then a else b }

  /** The directory claims this hash at this position. */
  predicate ClaimAt(cd: seq<Byte>, at: int, size: nat, hash: seq<Byte>)
  {
    0 <= at && at + size <= |cd| && cd[at..at + size] == hash
  }

  /** The directory claims the hash of the `i`th page of the code: as many bytes as a page has, up to the limit. */
  ghost predicate PageHashed(data: seq<Byte>, cd: seq<Byte>, h: Header, digest: Digest, i: nat)
  {
    var size := if h.pagePower == 0 then h.limit else Pow2(h.pagePower);
    var end := Least(i * size + size, h.limit);
    && i * size <= end <= |data|
    && ClaimAt(cd, h.hashOffset + i * h.hashSize, h.hashSize, digest(h.hashType, data[i * size..end]))
  }

  /** An accepted file meets each of its directories with its own blobs. */
  lemma AcceptedDirectory(data: seq<Byte>, digest: Digest, cd: seq<Byte>)
      returns (start: nat, blobs: map<nat, seq<Byte>>)
    requires Accepted(data, digest) && Carries(data, cd)
    ensures start <= |data| && DirectoryOk(data, start, cd, blobs, digest)
    ensures forall kind: nat, blob :: Embeds(data, kind, blob) <==> kind in blobs && blobs[kind] == blob
  {
    hide DirectoryOk, Holds, Blobs, SignatureRange, Big32, InBounds, Apart, BlobOf, KindOf;
    start := SignatureRange(data).value.0;
    var sig := SignatureOf(data);
    blobs := Blobs(sig, Big32(sig, 4), Big32(sig, 8), Big32(sig, 8));
    IndexFacts(sig, Big32(sig, 4), Big32(sig, 8));
    forall kind: nat, blob ensures Embeds(data, kind, blob) <==> kind in blobs && blobs[kind] == blob {
      BlobsAre(sig, Big32(sig, 4), Big32(sig, 8), Big32(sig, 8), kind);
    }
    var i: nat :| Holds(sig, i, cd);
  }

  lemma DirectoryHashes(data: seq<Byte>, signature: nat, cd: seq<Byte>, blobs: map<nat, seq<Byte>>, digest: Digest)
    requires signature <= |data| && DirectoryOk(data, signature, cd, blobs, digest)
    ensures |cd| >= 44 && HeaderOf(cd).Some?
    ensures var h := HeaderOf(cd).value;
      h.hashSize == (if h.hashType == 2 then 32 else if h.hashType == 4 then 48 else 20) && 1 <= h.hashType <= 4
    ensures var h := HeaderOf(cd).value;
      forall i: nat :: i < h.pages ==> PageHashed(data, cd, h, digest, i)
    ensures var h := HeaderOf(cd).value;
      forall slot: nat | slot in {2, 5, 7} && slot <= h.special ::
        ClaimAt(cd, h.hashOffset - slot * h.hashSize, h.hashSize,
                if slot in blobs then digest(h.hashType, blobs[slot]) else seq(h.hashSize, _ => 0))
  {
    hide HeaderOf, PageOk, SpecialOk, ClaimAt, Pow2, PageHashed;
    var h := HeaderOf(cd).value;
    forall i: nat | i < h.pages ensures PageHashed(data, cd, h, digest, i) {
      PageClaim(data, signature, cd, h, digest, i);
    }
    forall slot: nat | slot in {2, 5, 7} && slot <= h.special
      ensures ClaimAt(cd, h.hashOffset - slot * h.hashSize, h.hashSize,
                      if slot in blobs then digest(h.hashType, blobs[slot]) else seq(h.hashSize, _ => 0))
    {
      assert slot in SPECIAL_SLOTS;
      SpecialClaim(cd, h, blobs, digest, slot);
    }
  }

  lemma PageClaim(data: seq<Byte>, signature: nat, cd: seq<Byte>, h: Header, digest: Digest, i: nat)
    requires SlotsFit(cd, h) && CoverageFits(h, signature) && signature <= |data| && i < h.pages
    requires PageOk(data, cd, h, signature, digest, i)
    ensures PageHashed(data, cd, h, digest, i)
  {
    hide Pow2;
    PagesTile(h, signature, i);
    var size := PageSize(h);
    hide PageSize;
    TimesOrder(i, h.pages, size);
    TimesOrder(i + 1, h.pages, h.hashSize);
    TimesOrder(i, h.pages, h.hashSize);
  }

  lemma SpecialClaim(cd: seq<Byte>, h: Header, blobs: map<nat, seq<Byte>>, digest: Digest, slot: nat)
    requires SlotsFit(cd, h) && 1 <= slot <= h.special && SpecialOk(cd, h, blobs, digest, slot)
    ensures ClaimAt(cd, h.hashOffset - slot * h.hashSize, h.hashSize,
                    if slot in blobs then digest(h.hashType, blobs[slot]) else seq(h.hashSize, _ => 0))
  {
    TimesOrder(slot, h.special, h.hashSize);
    TimesOrder(slot - 1, slot, h.hashSize);
    var claim := SpecialHash(cd, h, slot);
    if slot !in blobs {
      assert claim == seq(h.hashSize, _ => 0) by {
        assert |claim| == h.hashSize;
        assert forall q :: 0 <= q < |claim| ==> claim[q] in claim;
      }
    }
  }

  /** A directory binds the requirements and the entitlements as it binds the code: two accepted files that carry
      it embed the same blob in each of its special slots, or two blobs that collide; and if one of them embeds
      none, the hash of the other's is all zero. */
  lemma AcceptedBlobsAgree(data: seq<Byte>, data': seq<Byte>, digest: Digest, cd: seq<Byte>, slot: nat, blob: seq<Byte>)
    requires Accepted(data, digest) && Accepted(data', digest) && Carries(data, cd) && Carries(data', cd)
    requires slot in {2, 5, 7} && Embeds(data, slot, blob)
    ensures |cd| >= 44 && HeaderOf(cd).Some?
    ensures var h := HeaderOf(cd).value;
      slot <= h.special ==>
        && (forall blob' :: Embeds(data', slot, blob') ==>
              digest(h.hashType, blob) == digest(h.hashType, blob'))
        && (forall blob' :: Embeds(data, slot, blob') ==> blob' == blob)
        && (Lacks(data', slot) ==> forall b <- digest(h.hashType, blob) :: b == 0)
  {
    hide HeaderOf, Accepted, Carries, Embeds, Lacks, PageHashed;
    AcceptedHashes(data, digest, cd);
    AcceptedHashes(data', digest, cd);
    var start, blobs := AcceptedDirectory(data, digest, cd);
  }

  // -------------------------------------------------------------- the format

  type Word = n: nat | n < 0x1_0000_0000

  function Big(n: Word): seq<Byte>
  {
    [n / 0x100_0000, n / 0x1_0000 % 0x100, n / 0x100 % 0x100, n % 0x100]
  }

  lemma BigReads(s: seq<Byte>, at: nat, n: Word)
    requires at + 4 <= |s| && s[at..at + 4] == Big(n)
    ensures Big32(s, at) == n
  {
    BytesOf(s, at, n);
    hide Big;
    assert n / 0x1_0000 == n / 0x100_0000 * 0x100 + n / 0x1_0000 % 0x100;
    assert n / 0x100 == n / 0x1_0000 * 0x100 + n / 0x100 % 0x100;
  }

  /** A CodeDirectory as it is laid out: magic, length, version, flags, hash offset, identifier offset, special and
      code slots, limit; hash size, hash type, platform, page power; spare, scatter, team, spare, 64-bit limit. */
  function BigWords(fields: seq<Word>): seq<Byte>
  {
    if fields == [] then [] else Big(fields[0]) + BigWords(fields[1..])
  }

  lemma {:induction false} WordAt(fields: seq<Word>, i: nat)
    requires i < |fields|
    ensures |BigWords(fields)| == 4 * |fields|
    ensures BigWords(fields)[4 * i..4 * i + 4] == Big(fields[i])
    decreases |fields|
  {
    var w := BigWords(fields[1..]);
    if |fields| > 1 { WordAt(fields[1..], if i > 0 then i - 1 else 0); }
    assert BigWords(fields) == Big(fields[0]) + w;
    if i > 0 { assert BigWords(fields)[4 * i..4 * i + 4] == w[4 * (i - 1)..4 * (i - 1) + 4]; }
  }

  /** The header fields are read from where the format has them. */
  lemma HeaderReads(cd: seq<Byte>, fields: seq<Word>)
    requires |fields| == 16 && BigWords(fields) <= cd
    ensures |cd| >= 64
    ensures var limit: nat := if fields[2] >= 0x20300 && fields[8] == 0xFFFF_FFFF
                         then fields[14] as int * 0x1_0000_0000 + fields[15] as int else fields[8] as int;
      HeaderOf(cd) == Some(Header(fields[2], fields[4], fields[5], fields[6], fields[7], limit,
                                  fields[9] / 0x100_0000, fields[9] / 0x1_0000 % 0x100, fields[9] % 0x100))
    ensures IsDirectory(cd) <==> fields[0] == 0xFADE_0C02
  {
    hide HeaderOf, BigWords;
    WordAt(fields, 0);
    forall i: nat | i < 16
      ensures |cd| >= 64 && Big32(cd, 4 * i) == fields[i] && cd[4 * i..4 * i + 4] == Big(fields[i])
    {
      WordAt(fields, i);
      assert cd[4 * i..4 * i + 4] == BigWords(fields)[4 * i..4 * i + 4];
      BigReads(cd, 4 * i, fields[i]);
    }
    HeaderFromWords(cd, fields);
  }

  lemma HeaderFromWords(cd: seq<Byte>, fields: seq<Word>)
    requires |fields| == 16 && |cd| >= 64
    requires forall i: nat :: i < 16 ==> Big32(cd, 4 * i) == fields[i] && cd[4 * i..4 * i + 4] == Big(fields[i])
    ensures var limit: nat := if fields[2] >= 0x20300 && fields[8] == 0xFFFF_FFFF
                         then fields[14] as int * 0x1_0000_0000 + fields[15] as int else fields[8] as int;
      HeaderOf(cd) == Some(Header(fields[2], fields[4], fields[5], fields[6], fields[7], limit,
                                  fields[9] / 0x100_0000, fields[9] / 0x1_0000 % 0x100, fields[9] % 0x100))
    ensures IsDirectory(cd) <==> fields[0] == 0xFADE_0C02
  {
    hide Big32, Big;
    assert Big32(cd, 4 * 0) == fields[0];
    assert Big32(cd, 4 * 2) == fields[2] && Big32(cd, 4 * 4) == fields[4] && Big32(cd, 4 * 5) == fields[5];
    assert Big32(cd, 4 * 6) == fields[6] && Big32(cd, 4 * 7) == fields[7] && Big32(cd, 4 * 8) == fields[8];
    assert Big32(cd, 4 * 14) == fields[14] && Big32(cd, 4 * 15) == fields[15];
    BytesOf(cd, 36, fields[9]) by { assert cd[4 * 9..4 * 9 + 4] == Big(fields[9]); }
  }

  lemma BytesOf(s: seq<Byte>, at: nat, n: Word)
    requires at + 4 <= |s| && s[at..at + 4] == Big(n)
    ensures s[at] == n / 0x100_0000 && s[at + 1] == n / 0x1_0000 % 0x100
    ensures s[at + 2] == n / 0x100 % 0x100 && s[at + 3] == n % 0x100
  {
    var w := s[at..at + 4];
    assert s[at] == w[0] && s[at + 1] == w[1] && s[at + 2] == w[2] && s[at + 3] == w[3];
  }

  lemma WordReads(s: seq<Byte>, fields: seq<Word>, k: nat)
    requires BigWords(fields) <= s && k < |fields|
    ensures |s| >= 4 * |fields| && Big32(s, 4 * k) == fields[k]
  {
    hide BigWords, Big32;
    WordAt(fields, k);
    assert s[4 * k..4 * k + 4] == BigWords(fields)[4 * k..4 * k + 4];
    BigReads(s, 4 * k, fields[k]);
  }

  /** So is the index: a superblob is a magic word, a length, a count and pairs of kind and start. */
  lemma IndexReads(sig: seq<Byte>, fields: seq<Word>, i: nat)
    requires BigWords(fields) <= sig && 5 + 2 * i <= |fields|
    ensures |sig| >= 20 + 8 * i && KindOf(sig, i) == fields[3 + 2 * i] && StartOf(sig, i) == fields[4 + 2 * i]
    ensures SuperblobFits(sig) <==>
              fields[0] == 0xFADE_0CC0 && 12 + 8 * fields[2] <= fields[1] <= |sig|
  {
    hide BigWords, Big32;
    WordReads(sig, fields, 0);
    WordReads(sig, fields, 1);
    WordReads(sig, fields, 2);
    WordReads(sig, fields, 3 + 2 * i);
    WordReads(sig, fields, 4 + 2 * i);
  }

  // -------------------------------------------------------------- the load commands

  function Little(n: Word): seq<Byte>
  {
    [n % 0x100, n / 0x100 % 0x100, n / 0x1_0000 % 0x100, n / 0x100_0000]
  }

  lemma LittleReads(s: seq<Byte>, at: nat, n: Word)
    requires at + 4 <= |s| && s[at..at + 4] == Little(n)
    ensures Little32(s, at) == n
  {
    var w := s[at..at + 4];
    assert s[at] == w[0] && s[at + 1] == w[1] && s[at + 2] == w[2] && s[at + 3] == w[3];
    assert n / 0x1_0000 == n / 0x100_0000 * 0x100 + n / 0x1_0000 % 0x100;
    assert n / 0x100 == n / 0x1_0000 * 0x100 + n / 0x100 % 0x100;
  }

  /** A load command: its kind, and what follows the kind and the length. */
  datatype Command = Command(kind: Word, rest: seq<Byte>)

  /** It has a length, and a code signature has room for its range. */
  predicate Writable(c: Command) { |c.rest| + 8 < 0x1_0000_0000 && (c.kind == 0x1D ==> |c.rest| >= 8) }

  function CommandBytes(c: Command): (b: seq<Byte>)
    requires Writable(c)
    ensures |b| == 8 + |c.rest|
  {
    Little(c.kind) + Little(8 + |c.rest|) + c.rest
  }

  function TableBytes(cs: seq<Command>): (b: seq<Byte>)
    requires forall c <- cs :: Writable(c)
    ensures |b| >= 8 * |cs|
  {
    if cs == [] then [] else CommandBytes(cs[0]) + TableBytes(cs[1..])
  }

  /** The ranges the code signatures of a table name. */
  function RangesNamed(cs: seq<Command>): seq<(nat, nat)>
    requires forall c <- cs :: Writable(c)
  {
    if cs == [] then []
    else
      assert Writable(cs[0]);
      (if cs[0].kind == 0x1D then [(Little32(cs[0].rest, 0), Little32(cs[0].rest, 4))] else []) + RangesNamed(cs[1..])
  }

  lemma CommandReads(data: seq<Byte>, offset: nat, c: Command)
    requires Writable(c) && offset + |CommandBytes(c)| <= |data|
    requires data[offset..offset + |CommandBytes(c)|] == CommandBytes(c)
    ensures Little32(data, offset) == c.kind && Little32(data, offset + 4) == 8 + |c.rest|
    ensures c.kind == 0x1D ==>
              Little32(data, offset + 8) == Little32(c.rest, 0) && Little32(data, offset + 12) == Little32(c.rest, 4)
  {
    var b := data[offset..offset + |CommandBytes(c)|];
    assert data[offset..offset + 4] == b[..4] == Little(c.kind);
    assert b[4..][..4] == Little(8 + |c.rest|);
    assert data[offset + 4..offset + 8] == b[4..8] == b[4..][..4];
    assert b[8..] == c.rest;
    LittleReads(data, offset, c.kind);
    LittleReads(data, offset + 4, 8 + |c.rest|);
    assert forall k :: 0 <= k < |c.rest| ==> data[offset + 8 + k] == b[8 + k] == c.rest[k];
  }

  /** The walk reads the table as it was written. */
  lemma {:induction false} WalkReads(data: seq<Byte>, offset: nat, end: nat, cs: seq<Command>)
    requires (forall c <- cs :: Writable(c)) && offset <= end <= |data| && data[offset..end] == TableBytes(cs)
    ensures Walk(data, offset, end, |cs|) == Some((end, RangesNamed(cs)))
    decreases |cs|
  {
    if cs != [] {
      hide Little32, CommandBytes;
      var c := cs[0];
      var next := offset + |CommandBytes(c)|;
      assert data[offset..end] == CommandBytes(c) + TableBytes(cs[1..]);
      assert data[offset..next] == data[offset..end][..|CommandBytes(c)|] == CommandBytes(c);
      assert data[next..end] == data[offset..end][|CommandBytes(c)|..] == TableBytes(cs[1..]);
      CommandReads(data, offset, c);
      WalkReads(data, next, end, cs[1..]);
    }
  }

  function LittleWords(fields: seq<Word>): (b: seq<Byte>)
    ensures |b| == 4 * |fields|
  {
    if fields == [] then [] else Little(fields[0]) + LittleWords(fields[1..])
  }

  lemma {:induction false} LittleWordAt(fields: seq<Word>, i: nat)
    requires i < |fields|
    ensures LittleWords(fields)[4 * i..4 * i + 4] == Little(fields[i])
    decreases |fields|
  {
    var w := LittleWords(fields[1..]);
    assert LittleWords(fields) == Little(fields[0]) + w;
    if i > 0 {
      LittleWordAt(fields[1..], i - 1);
      assert LittleWords(fields)[4 * i..4 * i + 4] == w[4 * (i - 1)..4 * (i - 1) + 4];
    }
  }

  /** A Mach-O file is eight words, a table of load commands and the rest.  Its signature is the range its one
      LC_CODE_SIGNATURE names, if that lies behind the table and within the file. */
  lemma FileReads(data: seq<Byte>, head: seq<Word>, cs: seq<Command>)
    requires |head| == 8 && head[0] == 0xFEED_FACF && (forall c <- cs :: Writable(c))
    requires head[4] == |cs| && head[5] == |TableBytes(cs)| && LittleWords(head) + TableBytes(cs) <= data
    ensures var named, end := RangesNamed(cs), 32 + |TableBytes(cs)|;
      SignatureRange(data) ==
      if |named| == 1 && end <= named[0].0 && named[0].0 + named[0].1 <= |data| && 12 <= named[0].1
      then Some(named[0]) else None
  {
    hide Little32, Walk, LittleWords, TableBytes, RangesNamed;
    var end := 32 + |TableBytes(cs)|;
    assert data[..32] == LittleWords(head) by {
      assert (LittleWords(head) + TableBytes(cs))[..32] == LittleWords(head);
    }
    assert data[32..end] == TableBytes(cs) by {
      assert (LittleWords(head) + TableBytes(cs))[32..end] == TableBytes(cs);
    }
    HeadWord(data, head, 0);
    HeadWord(data, head, 4);
    HeadWord(data, head, 5);
    assert data[0..4] == data[..4];
    WalkReads(data, 32, end, cs);
  }

  lemma HeadWord(data: seq<Byte>, head: seq<Word>, i: nat)
    requires |head| == 8 && i < 8 && |data| >= 32 && data[..32] == LittleWords(head)
    ensures data[4 * i..4 * i + 4] == Little(head[i]) && Little32(data, 4 * i) == head[i]
  {
    hide Little32, LittleWords, Little;
    LittleWordAt(head, i);
    assert data[4 * i..4 * i + 4] == data[..32][4 * i..4 * i + 4];
    LittleReads(data, 4 * i, head[i]);
  }
}

/** The LC_DYLD_CHAINED_FIXUPS payload: chain starts, import table and symbol pool as bytes, and the
    loader's reading of them. */
module FixupBlob {
  import opened Words
  import opened Wrappers

  type Bytes = seq<Byte>

  function Pow256(n: nat): (p: int)
    ensures p > 0
  {
    if n == 0 then 1 else 0x100 * Pow256(n - 1)
  }

  /** `v` as `n` little-endian bytes. */
  function Le(n: nat, v: int): (b: Bytes)
    ensures |b| == n
  {
    if n == 0 then [] else [v % 0x100] + Le(n - 1, v / 0x100)
  }

  /** The little-endian number in `n` bytes from `at`. */
  function Num(b: Bytes, at: nat, n: nat): nat
    requires at + n <= |b|
    decreases n
  {
    if n == 0 then 0 else b[at] as int + 0x100 * Num(b, at + 1, n - 1)
  }

  lemma {:induction false} NumLe(b: Bytes, at: nat, n: nat, v: int)
    requires at + n <= |b| && b[at..at + n] == Le(n, v) && 0 <= v < Pow256(n)
    ensures Num(b, at, n) == v
    decreases n
  {
    if n > 0 {
      assert b[at] == b[at..at + n][0];
      assert b[at + 1..at + n] == b[at..at + n][1..] == Le(n, v)[1..];
      assert Le(n, v)[1..] == Le(n - 1, v / 0x100);
      NumLe(b, at + 1, n - 1, v / 0x100);
    }
  }

  lemma {:induction false} NumSame(b: Bytes, c: Bytes, at: nat, n: nat)
    requires at + n <= |b| && at + n <= |c| && b[at..at + n] == c[at..at + n]
    ensures Num(b, at, n) == Num(c, at, n)
    decreases n
  {
    if n > 0 {
      assert b[at] == b[at..at + n][0] && c[at] == c[at..at + n][0];
      assert b[at + 1..at + n] == b[at..at + n][1..] && c[at + 1..at + n] == c[at..at + n][1..];
      NumSame(b, c, at + 1, n - 1);
    }
  }

  // ---------------------------------------------------------------- imports and symbol names

  /** The bytes of a name up to its NUL, starting at `at`. */
  function CString(pool: Bytes, at: nat): Option<Bytes>
    decreases |pool| - at
  {
    if at >= |pool| then None
    else if pool[at] == 0 then Some([])
    else match CString(pool, at + 1)
         case None => None
         case Some(rest) => Some([pool[at]] + rest)
  }

  const NAME_OFFSETS := 0x80_0000   // 23 bits

  /** One entry of the import table. */
  function ImportWord(ordinal: int, weak: bool, offset: int): (w: nat)
    ensures w < WORD32
  {
    ordinal % 0x100 + (if weak then 0x100 else 0) + 0x200 * (offset % NAME_OFFSETS)
  }

  function NameOffset(w: nat): nat { w / 0x200 }

  lemma NameOffsetSurvives(ordinal: int, weak: bool, offset: int)
    requires 0 <= offset
    ensures NameOffset(ImportWord(ordinal, weak, offset)) == offset <==> offset < NAME_OFFSETS
  {
    assert ImportWord(ordinal, weak, offset) / 0x200 == offset % NAME_OFFSETS;
  }

  /** A name 8 MB into the pool is looked for at its start. */
  lemma FarNameIsMissed()
    ensures NameOffset(ImportWord(0xFE, true, NAME_OFFSETS)) == 0
  {
  }

  lemma {:induction false} CStringReads(pool: Bytes, at: nat, name: Bytes)
    requires at + |name| + 1 <= |pool| && pool[at..at + |name|] == name && pool[at + |name|] == 0
    requires 0 !in name
    ensures CString(pool, at) == Some(name)
    decreases |name|
  {
    if name != [] {
      assert pool[at] == pool[at..at + |name|][0] == name[0];
      assert pool[at + 1..at + |name|] == pool[at..at + |name|][1..];
      assert name[0] in name && name == [pool[at]] + name[1..];
      CStringReads(pool, at + 1, name[1..]);
    }
  }

  /** The pool holds name `i` at `off`, NUL-terminated. */
  predicate HoldsName(pool: Bytes, off: int, name: Bytes)
  {
    0 <= off && off + |name| + 1 <= |pool| && pool[off..off + |name|] == name && pool[off + |name|] == 0
  }

  /** The size of the pool: the names and their NULs. */
  function PoolSize(names: seq<Bytes>): nat
  {
    if names == [] then 0 else PoolSize(names[..|names| - 1]) + |names[|names| - 1]| + 1
  }

  /** The symbol pool and the import table: name `i` is where the names before it end. */
  method EmitImports(names: seq<Bytes>, ordinal: int, weak: bool) returns (words: seq<nat>, pool: Bytes)
    ensures |words| == |names| && |pool| == PoolSize(names)
    ensures forall i :: 0 <= i < |names| ==>
              HoldsName(pool, PoolSize(names[..i]), names[i])
                && words[i] == ImportWord(ordinal, weak, PoolSize(names[..i]))
  {
    hide HoldsName, ImportWord;
    words, pool := [], [];
    for i := 0 to |names|
      invariant |words| == i && |pool| == PoolSize(names[..i])
      invariant forall j :: 0 <= j < i ==>
                  HoldsName(pool, PoolSize(names[..j]), names[j])
                  && words[j] == ImportWord(ordinal, weak, PoolSize(names[..j]))
    {
      ghost var before := pool;
      assert names[..i + 1][..i] == names[..i];
      words := words + [ImportWord(ordinal, weak, |pool|)];
      pool := pool + names[i] + [0];
      forall j | 0 <= j < i ensures HoldsName(pool, PoolSize(names[..j]), names[j]) {
        NameSurvives(before, pool, PoolSize(names[..j]), names[j]);
      }
      NameAppended(before, names[i]);
    }
    assert names[..|names|] == names;
  }

  lemma NameAppended(pool: Bytes, name: Bytes)
    ensures HoldsName(pool + name + [0], |pool|, name)
  {
    assert (pool + name + [0])[|pool|..|pool| + |name|] == name;
  }

  lemma NameSurvives(pool: Bytes, pool': Bytes, off: int, name: Bytes)
    requires HoldsName(pool, off, name) && pool <= pool'
    ensures HoldsName(pool', off, name)
  {
    assert pool'[off..off + |name|] == pool[off..off + |name|];
  }

  /** The loader's lookup of import `i`. */
  function ImportName(words: seq<nat>, pool: Bytes, i: nat): Option<Bytes>
    requires i < |words|
  {
    CString(pool, NameOffset(words[i]))
  }

  /** A bind ordinal names its symbol: the loader looks exactly where the name was put if and only if
      that offset fits its 23 bits, and there it reads the name. */
  lemma OrdinalNamesSymbol(names: seq<Bytes>, words: seq<nat>, pool: Bytes, off: int, i: nat, ordinal: int, weak: bool)
    requires i < |names| == |words| && 0 !in names[i]
    requires HoldsName(pool, off, names[i]) && words[i] == ImportWord(ordinal, weak, off)
    ensures NameOffset(words[i]) == off <==> off < NAME_OFFSETS
    ensures off < NAME_OFFSETS ==> ImportName(words, pool, i) == Some(names[i])
  {
    NameOffsetSurvives(ordinal, weak, off);
    CStringReads(pool, off, names[i]);
  }

  // ---------------------------------------------------------------- chain starts

  const PAGE := 0x4000
  const PF_ARM64E_USERLAND := 9

  function Shorts(xs: seq<int>): (b: Bytes)
    ensures |b| == 2 * |xs|
  {
    if xs == [] then [] else Le(2, xs[0]) + Shorts(xs[1..])
  }

  /** One starts-in-segment record. */
  function SegmentStarts(offset: int, starts: seq<int>): (b: Bytes)
    ensures |b| == 22 + 2 * |starts|
  {
    Le(4, 22 + 2 * |starts|) + Le(2, PAGE) + Le(2, PF_ARM64E_USERLAND) + Le(8, offset) + Le(4, 0) + Le(2, |starts|)
    + Shorts(starts)
  }

  /** What the little-endian fields can hold; the packing raises on anything else. */
  predicate Packable(starts: seq<int>)
  {
    |starts| < 0x1_0000 && forall x <- starts :: 0 <= x < 0x1_0000
  }

  function ReadShorts(b: Bytes, at: nat, n: nat): seq<int>
    requires at + 2 * n <= |b|
    decreases n
  {
    if n == 0 then [] else [Num(b, at, 2)] + ReadShorts(b, at + 2, n - 1)
  }

  lemma {:induction false} ReadsShorts(b: Bytes, at: nat, xs: seq<int>)
    requires at + 2 * |xs| <= |b| && b[at..at + 2 * |xs|] == Shorts(xs) && forall x <- xs :: 0 <= x < 0x1_0000
    ensures ReadShorts(b, at, |xs|) == xs
    decreases |xs|
  {
    if xs != [] {
      var w := b[at..at + 2 * |xs|];
      assert xs[0] in xs;
      assert b[at..at + 2] == w[..2] == Le(2, xs[0]);
      assert Pow256(2) == 0x1_0000;
      NumLe(b, at, 2, xs[0]);
      assert b[at + 2..at + 2 * |xs|] == w[2..] == Shorts(xs[1..]);
      assert forall x :: x in xs[1..] ==> x in xs;
      ReadsShorts(b, at + 2, xs[1..]);
    }
  }

  /** What a record says: where its segment is in the image, its page size, the form of its chain entries, and
      where each page's chain begins. */
  datatype Record = Record(offset: nat, pageSize: nat, format: nat, starts: seq<int>)

  /** The loader's reading of one record. */
  function ReadSegment(b: Bytes, at: nat): Option<Record>
  {
    if at + 22 > |b| then None
    else
      var n := Num(b, at + 20, 2);
      if at + 22 + 2 * n > |b| then None
      else Some(Record(Num(b, at + 8, 8), Num(b, at + 4, 2), Num(b, at + 6, 2), ReadShorts(b, at + 22, n)))
  }

  lemma SubSlice(b: Bytes, lo: nat, hi: nat, i: nat, j: nat)
    requires lo <= hi <= |b| && i <= j <= hi - lo
    ensures b[lo..hi][i..j] == b[lo + i..lo + j]
  {
    var l, r := b[lo..hi][i..j], b[lo + i..lo + j];
    assert forall x :: 0 <= x < j - i ==> l[x] == r[x];
    assert l == r;
  }

  /** The fixed fields of a record read back. */
  lemma ReadsFields(b: Bytes, at: nat, offset: int, starts: seq<int>)
    requires Writable(offset, starts) && at + 22 + 2 * |starts| <= |b|
    requires b[at..at + 22 + 2 * |starts|] == SegmentStarts(offset, starts)
    ensures Num(b, at + 4, 2) == PAGE && Num(b, at + 6, 2) == PF_ARM64E_USERLAND
    ensures Num(b, at + 8, 8) == offset && Num(b, at + 20, 2) == |starts|
  {
    hide Num, Le, Shorts;
    var end := at + 22 + 2 * |starts|;
    var w := b[at..end];
    PowersOf256();
    assert w[4..6] == Le(2, PAGE) && w[6..8] == Le(2, PF_ARM64E_USERLAND) && w[8..16] == Le(8, offset)
      && w[20..22] == Le(2, |starts|);
    SubSlice(b, at, end, 4, 6);
    NumLe(b, at + 4, 2, PAGE);
    SubSlice(b, at, end, 6, 8);
    NumLe(b, at + 6, 2, PF_ARM64E_USERLAND);
    SubSlice(b, at, end, 8, 16);
    NumLe(b, at + 8, 8, offset);
    SubSlice(b, at, end, 20, 22);
    NumLe(b, at + 20, 2, |starts|);
  }

  lemma PowersOf256()
    ensures Pow256(2) == 0x1_0000 && Pow256(4) == WORD32 && Pow256(8) == WORD64
  {
    assert Pow256(2) == 0x1_0000;
    assert Pow256(4) == WORD32;
    assert Pow256(6) == 0x1_0000_0000_0000;
  }

  lemma ReadsSegment(b: Bytes, at: nat, offset: int, starts: seq<int>)
    requires Writable(offset, starts) && at + 22 + 2 * |starts| <= |b|
    requires b[at..at + 22 + 2 * |starts|] == SegmentStarts(offset, starts)
    ensures ReadSegment(b, at) == Some(Record(offset, PAGE, PF_ARM64E_USERLAND, starts))
  {
    hide Num, Le, ReadShorts;
    ReadsFields(b, at, offset, starts);
    var end := at + 22 + 2 * |starts|;
    var w := b[at..end];
    assert w[22..22 + 2 * |starts|] == Shorts(starts);
    SubSlice(b, at, end, 22, 22 + 2 * |starts|);
    ReadsShorts(b, at + 22, starts);
  }

  /** Where the loader finds the record of segment `i`; zero says the segment has none. */
  function RecordOffset(sii: Bytes, i: nat): nat
    requires 8 + 4 * i <= |sii|
  {
    Num(sii, 4 + 4 * i, 4)
  }

  /** Segment `i`'s record is in place, behind the offset array of `n` segments. */
  ghost predicate RecordDone(sii: Bytes, n: nat, i: nat, offset: int, starts: Option<seq<int>>)
  {
    8 + 4 * i <= 4 + 4 * n <= |sii| &&
    match starts
    case None => RecordOffset(sii, i) == 0
    case Some(ps) =>
      var o := RecordOffset(sii, i);
      4 + 4 * n <= o && o + 22 + 2 * |ps| <= |sii| && sii[o..o + 22 + 2 * |ps|] == SegmentStarts(offset, ps)
  }

  /** Writing another segment's offset and appending bytes leaves a finished record alone. */
  lemma RecordSurvives(sii: Bytes, sii': Bytes, n: nat, i: nat, k: nat, offset: int, starts: Option<seq<int>>)
    requires RecordDone(sii, n, i, offset, starts) && i < k < n && |sii| <= |sii'|
    requires sii'[..4 + 4 * k] == sii[..4 + 4 * k] && sii'[8 + 4 * k..|sii|] == sii[8 + 4 * k..]
    ensures RecordDone(sii', n, i, offset, starts)
  {
    hide SegmentStarts, Num;
    SubSlice(sii', 0, 4 + 4 * k, 4 + 4 * i, 8 + 4 * i);
    SubSlice(sii, 0, 4 + 4 * k, 4 + 4 * i, 8 + 4 * i);
    NumSame(sii, sii', 4 + 4 * i, 4);
    if starts.Some? {
      var o := RecordOffset(sii, i);
      var e := o + 22 + 2 * |starts.value|;
      var h := 8 + 4 * k;
      assert sii[h..|sii|] == sii[h..];
      SubSlice(sii', h, |sii|, o - h, e - h);
      SubSlice(sii, h, |sii|, o - h, e - h);
      assert RecordOffset(sii', i) == o;
      assert sii'[o..e] == sii[o..e];
    }
  }

  /** The offset slots not filled yet are zero. */
  ghost predicate ZeroFrom(sii: Bytes, n: nat, k: nat)
  {
    k <= n && 4 + 4 * n <= |sii| && forall x :: 4 + 4 * k <= x < 4 + 4 * n ==> sii[x] == 0
  }

  function Align4(b: Bytes): (r: Bytes)
    ensures b <= r && |r| % 4 == 0 && |r| < |b| + 4
  {
    b + seq((-|b|) % 4, _ => 0)
  }

  /** A record whose fields fit; the packing raises on any other. */
  predicate Writable(offset: int, starts: seq<int>)
  {
    Packable(starts) && 0 <= offset < WORD64
  }

  /** Room for the first `k` records and the padding before each. */
  function Room(starts: seq<Option<seq<int>>>, k: nat): nat
    requires k <= |starts|
  {
    if k == 0 then 4 + 4 * |starts|
    else Room(starts, k - 1) + (match starts[k - 1] case None => 0 case Some(ps) => 25 + 2 * |ps|)
  }

  /** One record appended, its offset filled in. */
  method EmitRecord(sii0: Bytes, n: nat, k: nat, offset: int, ps: seq<int>) returns (sii: Bytes, ok: bool)
    requires ZeroFrom(sii0, n, k) && k < n
    ensures ok ==>
              ZeroFrom(sii, n, k + 1) && |sii0| <= |sii| && RecordDone(sii, n, k, offset, Some(ps))
              && Writable(offset, ps)
    ensures ok ==> |sii| <= |sii0| + 25 + 2 * |ps|
    ensures Writable(offset, ps) && |sii0| + 3 < WORD32 ==> ok
    ensures ok ==> sii[..4 + 4 * k] == sii0[..4 + 4 * k] && sii[8 + 4 * k..|sii0|] == sii0[8 + 4 * k..]
  {
    hide SegmentStarts, Num, Le;
    var b := Align4(sii0);
    var cur, p := |b|, 4 + 4 * k;
    if cur >= WORD32 || !Writable(offset, ps) { return [], false; }
    sii := b[..p] + Le(4, cur) + b[p + 4..] + SegmentStarts(offset, ps);
    ok := true;
    assert sii[p..p + 4] == Le(4, cur);
    PowersOf256();
    NumLe(sii, p, 4, cur);
    assert sii[cur..cur + 22 + 2 * |ps|] == SegmentStarts(offset, ps);
  }

  /** Every record fits, and so does the table. */
  ghost predicate AllWritable(offsets: seq<int>, starts: seq<Option<seq<int>>>)
    requires |offsets| == |starts|
  {
    && (forall i :: 0 <= i < |starts| && starts[i].Some? ==> Writable(offsets[i], starts[i].value))
    && Room(starts, |starts|) < WORD32
  }

  /** The first `k` records are in place. */
  ghost predicate Emitted(sii: Bytes, offsets: seq<int>, starts: seq<Option<seq<int>>>, k: nat)
    requires |offsets| == |starts| && k <= |starts|
  {
    && ZeroFrom(sii, |starts|, k) && |sii| <= Room(starts, k) && sii[..4] == Le(4, |starts|)
    && forall i :: 0 <= i < k ==>
         RecordDone(sii, |starts|, i, offsets[i], starts[i])
           && (starts[i].Some? ==> Writable(offsets[i], starts[i].value))
  }

  /** One round of the layout loop. */
  method EmitNext(sii0: Bytes, offsets: seq<int>, starts: seq<Option<seq<int>>>, k: nat) returns (sii: Bytes, ok: bool)
    requires |offsets| == |starts| && k < |starts| && Emitted(sii0, offsets, starts, k)
    ensures ok ==> Emitted(sii, offsets, starts, k + 1)
    ensures AllWritable(offsets, starts) ==> ok
  {
    hide Writable, SegmentStarts, Num;
    var n := |starts|;
    if starts[k] == None {
      ZeroNum(sii0, 4 + 4 * k, 4);
      return sii0, true;
    }
    RoomGrows(starts, k, n);
    sii, ok := EmitRecord(sii0, n, k, offsets[k], starts[k].value);
    if !ok { return; }
    hide RecordDone;
    forall i | 0 <= i < k ensures RecordDone(sii, n, i, offsets[i], starts[i]) {
      RecordSurvives(sii0, sii, n, i, k, offsets[i], starts[i]);
    }
  }

  /** The starts-in-image table.  It fails only when some field does not fit its bytes. */
  method EmitStarts(offsets: seq<int>, starts: seq<Option<seq<int>>>) returns (sii: Bytes, ok: bool)
    requires |offsets| == |starts|
    ensures ok ==> Emitted(sii, offsets, starts, |starts|) && |starts| < WORD32
    ensures AllWritable(offsets, starts) ==> ok
  {
    hide Writable, RecordDone;
    if |starts| >= WORD32 {
      RoomIsLarge(starts, |starts|);
      return [], false;
    }
    hide AllWritable;
    sii, ok := Le(4, |starts|) + seq(4 * |starts|, _ => 0), true;
    for k := 0 to |starts|
      invariant ok && Emitted(sii, offsets, starts, k)
    {
      sii, ok := EmitNext(sii, offsets, starts, k);
      if !ok { return; }
    }
  }

  lemma {:induction false} RoomIsLarge(starts: seq<Option<seq<int>>>, k: nat)
    requires k <= |starts|
    ensures Room(starts, k) >= 4 + 4 * |starts|
  {
    if k > 0 { RoomIsLarge(starts, k - 1); }
  }

  lemma {:induction false} RoomGrows(starts: seq<Option<seq<int>>>, k: nat, n: nat)
    requires k < n <= |starts|
    ensures Room(starts, k) + (match starts[k] case None => 0 case Some(ps) => 25 + 2 * |ps|) <= Room(starts, n)
  {
    if k < n - 1 { RoomGrows(starts, k, n - 1); }
  }

  lemma {:induction false} ZeroNum(b: Bytes, at: nat, n: nat)
    requires at + n <= |b| && forall x :: at <= x < at + n ==> b[x] == 0
    ensures Num(b, at, n) == 0
    decreases n
  {
    if n > 0 { ZeroNum(b, at + 1, n - 1); }
  }

  /** What the loader reads for segment `i` of the table. */
  function ReadRecord(sii: Bytes, i: nat): Option<Option<Record>>
    requires 8 + 4 * i <= |sii|
  {
    var o := RecordOffset(sii, i);
    if o == 0 then Some(None)
    else match ReadSegment(sii, o)
         case None => None
         case Some(r) => Some(Some(r))
  }

  /** The record the loader should read. */
  function RecordFor(offset: nat, starts: Option<seq<int>>): Option<Record>
  {
    match starts case None => None case Some(ps) => Some(Record(offset, PAGE, PF_ARM64E_USERLAND, ps))
  }

  /** The table read back is the table written: segment offset, page size, entry form and page starts. */
  lemma StartsReadBack(sii: Bytes, n: nat, i: nat, offset: nat, starts: Option<seq<int>>)
    requires RecordDone(sii, n, i, offset, starts) && (starts.Some? ==> Writable(offset, starts.value))
    ensures ReadRecord(sii, i) == Some(RecordFor(offset, starts))
  {
    hide ReadSegment, SegmentStarts, Writable;
    if starts.Some? { ReadsSegment(sii, RecordOffset(sii, i), offset, starts.value); }
  }

  /** A finished record is finished in any longer table. */
  lemma RecordInPrefix(sii: Bytes, sii': Bytes, n: nat, i: nat, offset: int, starts: Option<seq<int>>)
    requires RecordDone(sii, n, i, offset, starts) && sii <= sii' && i < n
    ensures RecordDone(sii', n, i, offset, starts)
  {
    hide SegmentStarts, Num;
    var p := 4 + 4 * i;
    assert sii'[p..p + 4] == sii[p..p + 4];
    NumSame(sii, sii', p, 4);
    if starts.Some? {
      var o := RecordOffset(sii, i);
      assert sii'[o..o + 22 + 2 * |starts.value|] == sii[o..o + 22 + 2 * |starts.value|];
    }
  }

  // ---------------------------------------------------------------- the payload

  function WordsLe(words: seq<nat>): (b: Bytes)
    ensures |b| == 4 * |words|
  {
    if words == [] then [] else Le(4, words[0]) + WordsLe(words[1..])
  }

  /** The header: version, the offsets of the three parts, the number of imports, their form, and the form of the
      symbol pool. */
  function Header(imports: nat, symbols: nat, count: nat): (b: Bytes)
    ensures |b| == 28
  {
    Le(4, 0) + Le(4, 28) + Le(4, imports) + Le(4, symbols) + Le(4, count) + Le(4, 1) + Le(4, 0)
  }

  /** The three parts as the loader finds them, and the number of imports. */
  datatype Payload = Payload(starts: Bytes, imports: Bytes, symbols: Bytes, count: nat)

  function ReadPayload(blob: Bytes): Option<Payload>
  {
    if |blob| < 28 then None
    else
      var s, i, y := Num(blob, 4, 4), Num(blob, 8, 4), Num(blob, 12, 4);
      if s > |blob| || i > |blob| || y > |blob| || Num(blob, 20, 4) != 1 || Num(blob, 24, 4) != 0 then None
      else Some(Payload(blob[s..], blob[i..], blob[y..], Num(blob, 16, 4)))
  }

  lemma HeaderField(blob: Bytes, imports: nat, symbols: nat, count: nat, k: nat)
    requires |blob| >= 28 && blob[..28] == Header(imports, symbols, count) && 1 <= k <= 6
    requires imports < WORD32 && symbols < WORD32 && count < WORD32
    ensures Num(blob, 4 * k, 4) == [28, imports, symbols, count, 1, 0][k - 1]
  {
    hide Num, Le;
    PowersOf256();
    var v := [28, imports, symbols, count, 1, 0][k - 1];
    assert Header(imports, symbols, count)[4 * k..4 * k + 4] == Le(4, v);
    assert blob[4 * k..4 * k + 4] == blob[..28][4 * k..4 * k + 4];
    NumLe(blob, 4 * k, 4, v);
  }

  lemma HeaderReads(blob: Bytes, imports: nat, symbols: nat, count: nat)
    requires 28 <= imports <= symbols <= |blob| && |blob| >= 28 && blob[..28] == Header(imports, symbols, count)
    requires symbols < WORD32 && count < WORD32
    ensures ReadPayload(blob) == Some(Payload(blob[28..], blob[imports..], blob[symbols..], count))
  {
    hide Num, Header;
    HeaderField(blob, imports, symbols, count, 1);
    HeaderField(blob, imports, symbols, count, 2);
    HeaderField(blob, imports, symbols, count, 3);
    HeaderField(blob, imports, symbols, count, 4);
    HeaderField(blob, imports, symbols, count, 5);
    HeaderField(blob, imports, symbols, count, 6);
  }

  function Align8(b: Bytes): (r: Bytes)
    ensures b <= r && |r| < |b| + 8
  {
    b + seq((-|b|) % 8, _ => 0)
  }

  /** The parts put together behind their header; an offset that does not fit its four bytes raises. */
  method EmitPayload(sii: Bytes, words: seq<nat>, pool: Bytes) returns (blob: Bytes, ok: bool)
    ensures ok ==>
      && ReadPayload(blob).Some?
      && var p := ReadPayload(blob).value;
         sii <= p.starts && WordsLe(words) <= p.imports && pool <= p.symbols && p.count == |words|
    ensures 31 + |sii| + 4 * |words| + |pool| < WORD32 ==> ok
  {
    hide Header, WordsLe, ReadPayload, Align4, Align8;
    var zeros: Bytes := seq(28, _ => 0);
    var body := Align4(zeros + sii);
    var imports := |body|;
    var symbols := imports + 4 * |words|;
    if symbols >= WORD32 || |words| >= WORD32 { return [], false; }
    var head, tail, table := Header(imports, symbols, |words|), body[28..], WordsLe(words);
    var flat := head + tail + table + pool;
    blob, ok := Align8(flat), true;
    assert sii <= tail by { assert tail[..|sii|] == (zeros + sii)[28..] == sii; }
    PartsOf(head, tail, table, pool, blob);
    HeaderReads(blob, imports, symbols, |words|);
    assert sii <= blob[28..] by { assert blob[28..][..|tail|] == tail; }
  }

  /** Where the parts of the payload are. */
  lemma PartsOf(head: Bytes, tail: Bytes, table: Bytes, pool: Bytes, blob: Bytes)
    requires head + tail + table + pool <= blob
    ensures blob[..|head|] == head && tail <= blob[|head|..] && table <= blob[|head| + |tail|..]
    ensures pool <= blob[|head| + |tail| + |table|..]
  {
    var flat := head + tail + table + pool;
    assert blob[..|flat|] == flat;
    PartAt(blob, flat, head, tail, table + pool);
    PartAt(blob, flat, head + tail, table, pool);
    PartAt(blob, flat, head + tail + table, pool, []);
    PartAt(blob, flat, [], head, tail + table + pool);
  }

  lemma PartAt(blob: Bytes, flat: Bytes, a: Bytes, b: Bytes, c: Bytes)
    requires flat <= blob && flat == a + b + c
    ensures |a| + |b| <= |blob| && blob[|a|..|a| + |b|] == b && b <= blob[|a|..]
  {
    assert blob[|a|..|a| + |b|] == flat[|a|..|a| + |b|] == b;
    assert blob[|a|..][..|b|] == blob[|a|..|a| + |b|];
  }

  /** What the loader makes of an import: the name it looks up, the ordinal of the library it looks in, and whether
      it may be missing. */
  datatype Imported = Imported(name: Bytes, library: nat, weak: bool)

  /** The loader's lookup of an import by its ordinal: eight bits of library, one of weakness, 23 of name. */
  function ImportAt(p: Payload, i: nat): Option<Imported>
  {
    if i >= p.count || 4 * i + 4 > |p.imports| then None
    else
      var w := Num(p.imports, 4 * i, 4);
      match CString(p.symbols, w / 0x200)
      case None => None
      case Some(name) => Some(Imported(name, w % 0x100, w / 0x100 % 2 == 1))
  }

  lemma {:induction false} WordReads(b: Bytes, at: nat, words: seq<nat>, i: nat)
    requires i < |words| && words[i] < WORD32 && at + 4 * |words| <= |b| && b[at..at + 4 * |words|] == WordsLe(words)
    ensures Num(b, at + 4 * i, 4) == words[i]
    decreases |words|
  {
    hide Num;
    var w := b[at..at + 4 * |words|];
    PowersOf256();
    if i == 0 {
      assert b[at..at + 4] == w[..4] == Le(4, words[0]);
      NumLe(b, at, 4, words[0]);
    } else {
      assert b[at + 4..at + 4 * |words|] == w[4..] == WordsLe(words[1..]);
      WordReads(b, at + 4, words[1..], i - 1);
    }
  }

  lemma ImportFields(ordinal: int, weak: bool, offset: nat)
    requires 0 <= ordinal < 0x100
    ensures ImportWord(ordinal, weak, offset) % 0x100 == ordinal
    ensures ImportWord(ordinal, weak, offset) / 0x100 % 2 == if weak then 1 else 0
  {
    assert ImportWord(ordinal, weak, offset) / 0x100
           == (if weak then 1 else 0) + 2 * (offset % NAME_OFFSETS);
  }

  /** An ordinal of the payload names its symbol, in its library and with its weakness, as long as the name's offset
      fits its 23 bits. */
  lemma PayloadNames(p: Payload, names: seq<Bytes>, words: seq<nat>, pool: Bytes, off: nat, i: nat, ordinal: int,
                     weak: bool)
    requires i < |names| == |words| == p.count && 0 !in names[i] && WordsLe(words) <= p.imports && pool <= p.symbols
    requires HoldsName(pool, off, names[i]) && words[i] == ImportWord(ordinal, weak, off) && off < NAME_OFFSETS
    requires 0 <= ordinal < 0x100
    ensures ImportAt(p, i) == Some(Imported(names[i], ordinal, weak))
  {
    ImportFields(ordinal, weak, off);
    hide Num, WordsLe, CString, ImportWord;
    assert p.imports[0..0 + 4 * |words|] == WordsLe(words);
    WordReads(p.imports, 0, words, i);
    NameSurvives(pool, p.symbols, off, names[i]);
    OrdinalNamesSymbol(names, words, p.symbols, off, i, ordinal, weak);
  }

  /** A name the loader can find: no NUL in it, and few enough bytes of names before it. */
  predicate Findable(names: seq<Bytes>, i: nat)
    requires i < |names|
  {
    0 !in names[i] && PoolSize(names[..i]) < NAME_OFFSETS
  }

  /** Imports, starts and header put together: the starts are in the payload, and so is every findable name, to be
      looked up in all libraries (ordinal 0xFE). */
  method EmitBlob(offsets: seq<int>, starts: seq<Option<seq<int>>>, names: seq<Bytes>, weak: bool)
      returns (blob: Bytes, ok: bool, ghost sii: Bytes)
    requires |offsets| == |starts|
    ensures ok ==> Emitted(sii, offsets, starts, |starts|) && |starts| < WORD32
    ensures ok ==> ReadPayload(blob).Some? && sii <= ReadPayload(blob).value.starts
    ensures ok ==> forall i :: 0 <= i < |names| && Findable(names, i) ==>
                     ImportAt(ReadPayload(blob).value, i) == Some(Imported(names[i], 0xFE, weak))
    ensures AllWritable(offsets, starts) && 31 + Room(starts, |starts|) + 4 * |names| + PoolSize(names) < WORD32 ==> ok
  {
    hide ReadPayload, AllWritable, ImportAt, HoldsName, ImportWord, WordsLe, ZeroFrom, RecordDone, Writable;
    var words, pool := EmitImports(names, 0xFE, weak);
    var table;
    table, ok := EmitStarts(offsets, starts);
    blob, sii := [], table;
    if !ok { return; }
    blob, ok := EmitPayload(table, words, pool);
    if !ok { return; }
    forall i | 0 <= i < |names| && Findable(names, i)
      ensures ImportAt(ReadPayload(blob).value, i) == Some(Imported(names[i], 0xFE, weak))
    {
      PayloadNames(ReadPayload(blob).value, names, words, pool, PoolSize(names[..i]), i, 0xFE, weak);
    }
  }

  // ---------------------------------------------------------------- the format, byte by byte

  lemma Le2(v: int)
    ensures Le(2, v) == [v % 0x100, v / 0x100 % 0x100]
  {
    assert Le(1, v / 0x100) == [v / 0x100 % 0x100];
  }

  lemma Le4(v: int)
    ensures Le(4, v) == [v % 0x100, v / 0x100 % 0x100, v / 0x1_0000 % 0x100, v / 0x100_0000 % 0x100]
  {
    assert v / 0x100 / 0x100 == v / 0x1_0000 && v / 0x1_0000 / 0x100 == v / 0x100_0000;
    Le2(v / 0x1_0000);
    assert Le(3, v / 0x100) == [v / 0x100 % 0x100] + Le(2, v / 0x1_0000);
  }

  lemma Le8(v: int)
    ensures Le(8, v) == Le(4, v) + Le(4, v / 0x1_0000_0000)
  {
    assert v / 0x100_0000 / 0x100 == v / 0x1_0000_0000;
    hide Le;
    LeSplits(v, 4, 4);
    assert Pow256(4) == 0x1_0000_0000 by { PowersOf256(); }
  }

  lemma {:induction false} LeSplits(v: int, n: nat, m: nat)
    ensures Le(n + m, v) == Le(n, v) + Le(m, v / Pow256(n))
    decreases n
  {
    if n == 0 {
      assert v / 1 == v && [] + Le(m, v) == Le(m, v);
    } else {
      LeSplits(v / 0x100, n - 1, m);
      DivideTwice(v, 0x100, Pow256(n - 1));
      assert Le(n + m, v) == [v % 0x100] + (Le(n - 1, v / 0x100) + Le(m, v / 0x100 / Pow256(n - 1)));
    }
  }

  lemma DivideTwice(v: int, a: int, b: int)
    requires a > 0 && b > 0
    ensures v / a / b == v / (a * b)
  {
    var m, q, r := v / a, v / a / b, v / a % b;
    Distribute(a, b, q, r);
    assert m == b * q + r;
    assert v == a * m + v % a;
    BelowProduct(a, b, r, v % a);
    QuotientIs(v, a * b, q, a * r + v % a);
  }

  lemma Distribute(a: int, b: int, q: int, r: int)
    ensures a * (b * q + r) == a * b * q + a * r
  {
  }

  lemma BelowProduct(a: int, b: int, r: int, e: int)
    requires a > 0 && 0 <= r < b && 0 <= e < a
    ensures 0 <= a * r + e < a * b
  {
    assert a * r <= a * (b - 1);
  }

  lemma QuotientIs(v: int, m: int, q: int, r: int)
    requires m > 0 && v == m * q + r && 0 <= r < m
    ensures v / m == q
  {
    SmallMultiple(m, v / m - q);
  }

  lemma SmallMultiple(m: int, d: int)
    requires m > 0 && -m < m * d < m
    ensures d == 0
  {
  }

  /** The payload header for one import. */
  lemma HeaderExample()
    ensures Header(0x2C, 0x30, 1) == [0, 0, 0, 0, 28, 0, 0, 0, 0x2C, 0, 0, 0, 0x30, 0, 0, 0,
                                      1, 0, 0, 0, 1, 0, 0, 0, 0, 0, 0, 0]
  {
    hide Le;
    Le4(0);
    Le4(1);
    Le4(28);
    Le4(0x2C);
    Le4(0x30);
  }

  /** The record of a segment of one page: 24 bytes, pages of 16 KB, chain form 9. */
  lemma RecordExample()
    ensures SegmentStarts(0x8000, [0x10]) == [24, 0, 0, 0, 0, 0x40, 9, 0, 0, 0x80, 0, 0, 0, 0, 0, 0, 0, 0, 0, 0, 1, 0,
                                              0x10, 0]
  {
    hide Le;
    Le4(0);
    Le4(24);
    Le4(0x8000);
    Le8(0x8000);
    Le2(1);
    Le2(9);
    Le2(0x10);
    Le2(0x4000);
    assert Shorts([0x10]) == Le(2, 0x10) + Shorts([]);
  }

  /** An import of the name at 0x12: any library, weak. */
  lemma ImportExample()
    ensures ImportWord(0xFE, true, 0x12) == 0x25FE
  {
  }
}

/** A pattern scan over a remote range, read in chunks that overlap. */
module ScanText {
  import opened A64Words
  import opened Words
  import opened Wrappers

  const CHUNK := 0x40000
  const OVERLAP := 32
  const MARGIN := 28

  /** A deterministic callback that looks at `width` bytes from its position, and gives up when fewer are left. */
  datatype Matcher<!T> = Matcher(width: nat, test: (seq<Byte>, nat) -> Option<T>)

  function Try<T>(m: Matcher<T>, data: seq<Byte>, position: nat, address: nat): Option<T>
  {
    if position + m.width > |data| then None else m.test(data[position..position + m.width], address)
  }

  function Min(a: int, b: int): int { if a < b then a else b }

  /** Chunk `k` of a range of `size` bytes sees the bytes from `Low` to `High`, its overlap included. */
  function High(size: nat, k: nat): int { Min(CHUNK * (k + 1), size) }

  function Low(k: nat): nat { if k == 0 then 0 else CHUNK * k - OVERLAP }

  /** Chunk `k` tests the position with its whole window in sight. */
  predicate CoveredBy(size: nat, o: nat, width: nat, k: nat)
  {
    CHUNK * k < size && Low(k) <= o < High(size, k) - MARGIN && o + width <= High(size, k)
  }

  ghost predicate Covered(size: nat, o: nat, width: nat) { exists k: nat :: CoveredBy(size, o, width, k) }

  /** A 4-aligned position that one pass over the whole range would test, and that matches. */
  ghost predicate Matches<T(!new)>(m: Matcher<T>, text: seq<Byte>, start: nat, o: nat)
  {
    o < |text| - MARGIN && (start + o) % 4 == 0 && Try(m, text, o, start + o).Some?
  }

  /** A match the chunked scan can see. */
  ghost predicate Hit<T(!new)>(m: Matcher<T>, text: seq<Byte>, start: nat, o: nat)
  {
    Matches(m, text, start, o) && Covered(|text|, o, m.width)
  }

  /** What one pass returns from position `o` on. */
  ghost function OnePass<T(!new)>(m: Matcher<T>, text: seq<Byte>, start: nat, o: nat): Option<T>
    decreases |text| - o
  {
    if o >= |text| - MARGIN then None
    else if Matches(m, text, start, o) then Try(m, text, o, start + o)
    else OnePass(m, text, start, o + 1)
  }

  /** The same over the matches that the chunks cover. */
  ghost function CoveredPass<T(!new)>(m: Matcher<T>, text: seq<Byte>, start: nat, o: nat): Option<T>
    decreases |text| - o
  {
    if o >= |text| - MARGIN then None
    else if Hit(m, text, start, o) then Try(m, text, o, start + o)
    else CoveredPass(m, text, start, o + 1)
  }

  /** The callback accepts the aligned position `o`, which has more than 28 bytes behind it. */
  ghost predicate Accepts<T(!new)>(m: Matcher<T>, text: seq<Byte>, start: nat, o: nat)
  {
    && o + 28 < |text| && (start + o) % 4 == 0 && o + m.width <= |text|
    && m.test(text[o..o + m.width], start + o).Some?
  }

  /** One pass returns what the callback makes of the first position it accepts. */
  lemma {:induction false} OnePassFinds<T(!new)>(m: Matcher<T>, text: seq<Byte>, start: nat, from: nat, o: nat)
    requires from <= o && forall q: nat :: from <= q < o ==> !Accepts(m, text, start, q)
    ensures Accepts(m, text, start, o) ==>
              OnePass(m, text, start, from) == m.test(text[o..o + m.width], start + o)
    ensures o >= |text| ==> OnePass(m, text, start, from) == None
    decreases o - from
  {
    if from < o && from < |text| - MARGIN {
      assert !Accepts(m, text, start, from);
      OnePassFinds(m, text, start, from + 1, o);
    }
  }

  lemma {:induction false} NoHitBefore<T(!new)>(m: Matcher<T>, text: seq<Byte>, start: nat, o: nat, o': nat)
    requires o <= o' && forall q :: o <= q < o' ==> !Hit(m, text, start, q)
    ensures CoveredPass(m, text, start, o) == CoveredPass(m, text, start, o')
    decreases o' - o
  {
    hide Hit;
    if o < o' { NoHitBefore(m, text, start, o + 1, o'); }
  }

  /** A window that fits the chunk's data is the window of the text. */
  lemma SameWindow<T(!new)>(m: Matcher<T>, text: seq<Byte>, low: nat, high: nat, position: nat, address: nat)
    requires low <= high <= |text|
    ensures Try(m, text[low..high], position, address) ==
            if low + position + m.width <= high then Try(m, text, low + position, address) else None
  {
    if low + position + m.width <= high {
      var a, b := text[low..high][position..position + m.width], text[low + position..low + position + m.width];
      assert |a| == |b| && forall i :: 0 <= i < |a| ==> a[i] == b[i];
      assert a == b;
    }
  }

  /** A window that sticks out of a chunk is covered by another one only inside the overlap. */
  lemma OutOfSight(size: nat, o: nat, width: nat, k: nat)
    requires CHUNK * k < size && Low(k) <= o && o + width > High(size, k)
    requires o < High(size, k) - OVERLAP || High(size, k) == size
    ensures !Covered(size, o, width)
  {
    forall j: nat ensures !CoveredBy(size, o, width, j) { OutOfSightOf(size, o, width, k, j); }
  }

  lemma OutOfSightOf(size: nat, o: nat, width: nat, k: nat, j: nat)
    requires CHUNK * k < size && Low(k) <= o && o + width > High(size, k)
    requires o < High(size, k) - OVERLAP || High(size, k) == size
    ensures !CoveredBy(size, o, width, j)
  {
    if j < k { assert CHUNK * (j + 1) <= CHUNK * k; } else if j > k { assert CHUNK * j >= CHUNK * (k + 1); }
  }

  /** The positions below `o` hold no hit, except those that wait for the next chunk. */
  ghost predicate Cleared<T(!new)>(m: Matcher<T>, text: seq<Byte>, start: nat, o: int, high: nat)
  {
    forall q: nat :: q < o ==> !Hit(m, text, start, q) || (q >= high - OVERLAP && q + m.width > high && high < |text|)
  }

  /** The test of one aligned position of chunk `k`. */
  lemma TestOutcome<T(!new)>(m: Matcher<T>, text: seq<Byte>, start: nat, o: nat, k: nat)
    requires CHUNK * k < |text| && Low(k) <= o < High(|text|, k) - MARGIN && (start + o) % 4 == 0
    ensures var found := Try(m, text[Low(k)..High(|text|, k)], o - Low(k), start + o);
      if found.Some? then
        Hit(m, text, start, o) && found == Try(m, text, o, start + o) && o + m.width <= High(|text|, k)
      else
        || !Hit(m, text, start, o)
        || (o >= High(|text|, k) - OVERLAP && o + m.width > High(|text|, k) && High(|text|, k) < |text|)
  {
    hide Try;
    var high := High(|text|, k);
    SameWindow(m, text, Low(k), high, o - Low(k), start + o);
    if o + m.width <= high {
      assert CoveredBy(|text|, o, m.width, k);
    } else if o < high - OVERLAP || high == |text| {
      OutOfSight(|text|, o, m.width, k);
    }
  }

  /** The tests of one chunk, at every aligned position but the last ones. */
  method ScanChunk<T(!new)>(m: Matcher<T>, ghost text: seq<Byte>, start: nat, data: seq<Byte>, low: nat, ghost k: nat)
      returns (r: Option<T>)
    requires CHUNK * k < |text| && low == Low(k) && data == text[low..High(|text|, k)]
    requires Cleared(m, text, start, low, High(|text|, k))
    ensures r == None ==> Cleared(m, text, start, High(|text|, k) - MARGIN, High(|text|, k))
    ensures r.Some? ==> r == CoveredPass(m, text, start, 0)
  {
    hide Hit, Try, CoveredPass, Cleared;
    var position := (-(start + low)) % 4;
    ghost var high := High(|text|, k);
    Unaligned(m, text, start, low, low + position, high);
    while position < |data| - MARGIN
      invariant 0 <= position && (start + low + position) % 4 == 0
      invariant Cleared(m, text, start, low + position, high)
    {
      TestOutcome(m, text, start, low + position, k);
      r := Try(m, data, position, start + low + position);
      if r.Some? {
        FirstHit(m, text, start, low + position, high);
        return;
      }
      ClearedToNext(m, text, start, low + position, high);
      position := position + 4;
    }
    r := None;
    ClearedBelow(m, text, start, low + position, high - MARGIN, high);
  }

  lemma ClearedBelow<T(!new)>(m: Matcher<T>, text: seq<Byte>, start: nat, o: int, o': int, high: nat)
    requires Cleared(m, text, start, o, high) && o' <= o
    ensures Cleared(m, text, start, o', high)
  {
    hide Hit;
  }

  /** On to the next aligned position. */
  lemma ClearedToNext<T(!new)>(m: Matcher<T>, text: seq<Byte>, start: nat, o: nat, high: nat)
    requires Cleared(m, text, start, o, high) && (start + o) % 4 == 0
    requires !Hit(m, text, start, o) || (o >= high - OVERLAP && o + m.width > high && high < |text|)
    ensures Cleared(m, text, start, o + 4, high)
  {
    hide Hit, Cleared;
    OneCleared(m, text, start, o, high);
    Unaligned(m, text, start, o + 1, o + 4, high);
  }

  lemma OneCleared<T(!new)>(m: Matcher<T>, text: seq<Byte>, start: nat, o: nat, high: nat)
    requires Cleared(m, text, start, o, high)
    requires !Hit(m, text, start, o) || (o >= high - OVERLAP && o + m.width > high && high < |text|)
    ensures Cleared(m, text, start, o + 1, high)
  {
    hide Hit;
  }

  /** Between two aligned positions there is nothing to test. */
  lemma Unaligned<T(!new)>(m: Matcher<T>, text: seq<Byte>, start: nat, o: nat, o': nat, high: nat)
    requires Cleared(m, text, start, o, high) && o <= o' < o + 4 && (start + o') % 4 == 0
    ensures Cleared(m, text, start, o', high)
  {
    hide Covered, Try;
  }

  /** The first hit of a chunk is the first hit of all. */
  lemma FirstHit<T(!new)>(m: Matcher<T>, text: seq<Byte>, start: nat, o: nat, high: nat)
    requires Cleared(m, text, start, o, high) && Hit(m, text, start, o) && o + m.width <= high
    ensures CoveredPass(m, text, start, 0) == Try(m, text, o, start + o)
  {
    hide Covered, Try;
    NoHitBefore(m, text, start, 0, o);
  }

  /** What is read and kept around a chunk. */
  lemma ChunkData(text: seq<Byte>, k: nat, offset: nat, amount: nat)
    requires offset == CHUNK * k < |text| && amount == Min(CHUNK, |text| - offset)
    ensures Low(k) <= offset <= offset + amount == High(|text|, k) <= |text|
    ensures text[Low(k)..offset] + text[offset..offset + amount] == text[Low(k)..High(|text|, k)]
    ensures offset + amount < |text| ==> offset + amount == CHUNK * (k + 1)
  {
    JoinSlices(text, Low(k), offset, offset + amount);
  }

  lemma JoinSlices(text: seq<Byte>, lo: nat, mid: nat, hi: nat)
    requires lo <= mid <= hi <= |text|
    ensures text[lo..mid] + text[mid..hi] == text[lo..hi]
  {
  }

  lemma NextTail(text: seq<Byte>, k: nat, data: seq<Byte>)
    requires CHUNK * (k + 1) < |text| && data == text[Low(k)..CHUNK * (k + 1)]
    ensures |data| > OVERLAP && data[|data| - OVERLAP..] == text[Low(k + 1)..CHUNK * (k + 1)]
  {
    var end := CHUNK * (k + 1);
    assert data[|data| - OVERLAP..] == text[end - OVERLAP..end];
  }

  /** `scan_text`: the chunks in order, each with the last bytes of the one before. */
  method Scan<T(!new)>(m: Matcher<T>, text: seq<Byte>, start: nat) returns (r: Option<T>)
    ensures r == CoveredPass(m, text, start, 0)
  {
    hide Hit, Try, CoveredPass;
    var offset, tail := 0, [];
    ghost var k := 0;
    assert text[Low(0)..0] == [];
    NothingCleared(m, text, start);
    hide Low, High, Cleared;
    while offset < |text|
      invariant 0 <= offset <= |text|
      invariant offset < |text| ==> offset == CHUNK * k && Low(k) <= offset && tail == text[Low(k)..offset]
      invariant offset >= |text| ==> Cleared(m, text, start, |text| - MARGIN, |text|)
      invariant offset < |text| ==> High(|text|, k) >= 0 && Cleared(m, text, start, Low(k), High(|text|, k))
      decreases |text| - offset
    {
      var amount := Min(CHUNK, |text| - offset);
      ChunkData(text, k, offset, amount);
      var data := tail + text[offset..offset + amount];
      r := ScanChunk(m, text, start, data, offset - |tail|, k);
      if r.Some? { return; }
      tail := if |data| > OVERLAP then data[|data| - OVERLAP..] else data;
      offset := offset + amount;
      if offset < |text| {
        NextTail(text, k, data);
        NextChunk(m, text, start, k);
      }
      k := k + 1;
    }
    r := None;
    NothingLeft(m, text, start);
  }

  lemma NothingCleared<T(!new)>(m: Matcher<T>, text: seq<Byte>, start: nat)
    ensures text != [] ==> High(|text|, 0) >= 0 && Cleared(m, text, start, Low(0), High(|text|, 0))
    ensures text == [] ==> Cleared(m, text, start, |text| - MARGIN, |text|)
  {
    hide Hit;
  }

  lemma NextChunk<T(!new)>(m: Matcher<T>, text: seq<Byte>, start: nat, k: nat)
    requires High(|text|, k) < |text| && Cleared(m, text, start, High(|text|, k) - MARGIN, High(|text|, k))
    ensures Low(k + 1) <= CHUNK * (k + 1) && High(|text|, k + 1) >= 0
    ensures Cleared(m, text, start, Low(k + 1), High(|text|, k + 1))
  {
    hide Hit;
  }

  lemma NothingLeft<T(!new)>(m: Matcher<T>, text: seq<Byte>, start: nat)
    requires Cleared(m, text, start, |text| - MARGIN, |text|)
    ensures CoveredPass(m, text, start, 0) == None
  {
    hide Hit;
    if |text| > MARGIN { NoHitBefore(m, text, start, 0, |text| - MARGIN); }
  }

  // -------------------------------------------------------------- one pass

  /** The chunk that tests a position. */
  function ChunkOf(o: nat): nat { (o + OVERLAP) / CHUNK }

  /** With at most 32 bytes per window every position one pass can match at is covered. */
  lemma NarrowIsCovered(size: nat, o: nat, width: nat)
    requires width <= OVERLAP && o < size - MARGIN && o + width <= size
    ensures Covered(size, o, width)
  {
    var k := ChunkOf(o);
    if CHUNK * k < size { assert CoveredBy(size, o, width, k); }
    else { assert k > 0 && CoveredBy(size, o, width, k - 1); }
  }

  /** The chunked scan is the one-pass scan for every callback that looks at no more than the overlap. */
  lemma {:induction false} ChunkedIsOnePass<T(!new)>(m: Matcher<T>, text: seq<Byte>, start: nat, o: nat)
    requires m.width <= OVERLAP
    ensures CoveredPass(m, text, start, o) == OnePass(m, text, start, o)
    decreases |text| - o
  {
    hide Covered;
    if o < |text| - MARGIN {
      if Matches(m, text, start, o) { NarrowIsCovered(|text|, o, m.width); }
      ChunkedIsOnePass(m, text, start, o + 1);
    }
  }

  /** The inner chunk boundaries. */
  predicate Boundary(size: nat, e: nat) { e % CHUNK == 0 && 0 < e < size }

  /** Wider windows have blind spots, and these are exactly the positions whose window crosses the end of a chunk
      and which the next chunk's overlap no longer shows. */
  lemma BlindIff(size: nat, o: nat, width: nat)
    requires OVERLAP < width <= CHUNK && o < size - MARGIN && o + width <= size
    ensures !Covered(size, o, width) <==> exists e: nat :: Boundary(size, e) && e - width < o < e - OVERLAP
  {
    hide Covered;
    var k := ChunkOf(o);
    if e: nat :| Boundary(size, e) && e - width < o < e - OVERLAP {
      var j := e / CHUNK - 1;
      assert e == CHUNK * (j + 1) && High(size, j) == e;
      OutOfSight(size, o, width, j);
    } else {
      WideIsCovered(size, o, width);
    }
  }

  lemma WideIsCovered(size: nat, o: nat, width: nat)
    requires OVERLAP < width <= CHUNK && o < size - MARGIN && o + width <= size
    requires !exists e: nat :: Boundary(size, e) && e - width < o < e - OVERLAP
    ensures Covered(size, o, width)
  {
    var k := ChunkOf(o);
    var e := CHUNK * (k + 1);
    assert e < size ==> Boundary(size, e);
    assert CoveredBy(size, o, width, k);
  }

  // -------------------------------------------------------------- where one pass finds more

  /** A position that one pass tests with its window in the text. */
  predicate Testable(size: nat, start: nat, width: nat, o: nat)
  {
    o < size - MARGIN && o + width <= size && (start + o) % 4 == 0
  }

  /** No testable position is out of every chunk's sight. */
  ghost predicate NothingBlind(size: nat, start: nat, width: nat)
  {
    forall o: nat :: Testable(size, start, width, o) ==> Covered(size, o, width)
  }

  lemma {:induction false} NothingBlindIsOnePass<T(!new)>(m: Matcher<T>, text: seq<Byte>, start: nat, o: nat)
    requires NothingBlind(|text|, start, m.width)
    ensures CoveredPass(m, text, start, o) == OnePass(m, text, start, o)
    decreases |text| - o
  {
    hide Covered;
    if o < |text| - MARGIN {
      if Matches(m, text, start, o) { assert Testable(|text|, start, m.width, o); }
      NothingBlindIsOnePass(m, text, start, o + 1);
    }
  }

  /** One pass returns its only match. */
  lemma {:induction false} OnlyMatch<T(!new)>(m: Matcher<T>, text: seq<Byte>, start: nat, q: nat, o: nat)
    requires q <= o && Matches(m, text, start, o) && forall p: nat :: Matches(m, text, start, p) ==> p == o
    ensures OnePass(m, text, start, q) == Try(m, text, o, start + o)
    decreases o - q
  {
    hide Matches, Try;
    if q < o { OnlyMatch(m, text, start, q + 1, o); } else { InText(m, text, start, o); }
    InText(m, text, start, o);
  }

  lemma InText<T(!new)>(m: Matcher<T>, text: seq<Byte>, start: nat, o: nat)
    requires Matches(m, text, start, o)
    ensures o < |text| - MARGIN && (start + o) % 4 == 0 && Try(m, text, o, start + o).Some?
  {
  }

  /** A match that is alone and blind is lost: one pass returns it and the chunked scan returns nothing. */
  lemma LoneBlindMatchIsLost<T(!new)>(m: Matcher<T>, text: seq<Byte>, start: nat, o: nat)
    requires Matches(m, text, start, o) && !Covered(|text|, o, m.width)
    requires forall p: nat :: Matches(m, text, start, p) ==> p == o
    ensures OnePass(m, text, start, 0).Some? && CoveredPass(m, text, start, 0) == None
  {
    hide Matches, Covered, Try;
    OnlyMatch(m, text, start, 0, o);
    InText(m, text, start, o);
    forall q | 0 <= q < |text| ensures !Hit(m, text, start, q) {}
    NoHitBefore(m, text, start, 0, |text|);
  }

  /** The callback that accepts one address and nothing else. */
  function Spotter<T>(width: nat, address: nat, v: T): Matcher<T>
  {
    Matcher(width, (w, a) => if a == address then Some(v) else None)
  }

  lemma SpotterIsLost<T(!new)>(text: seq<Byte>, start: nat, width: nat, v: T, o: nat)
    requires Testable(|text|, start, width, o) && !Covered(|text|, o, width)
    ensures var m := Spotter(width, start + o, v); CoveredPass(m, text, start, 0) != OnePass(m, text, start, 0)
  {
    hide Covered;
    var m := Spotter(width, start + o, v);
    assert Matches(m, text, start, o);
    LoneBlindMatchIsLost(m, text, start, o);
  }

  /** Chunked and one-pass scan agree for every callback of a width, on every text of a size, if and only if no
      position that one pass tests is blind. */
  lemma WideScanIsOnePassIff<T(!new)>(size: nat, start: nat, width: nat, v: T)
    ensures NothingBlind(size, start, width) <==>
            forall m: Matcher<T>, text: seq<Byte> :: m.width == width && |text| == size ==>
              CoveredPass(m, text, start, 0) == OnePass(m, text, start, 0)
  {
    hide Covered, CoveredPass, OnePass, Spotter, Testable;
    if NothingBlind(size, start, width) {
      forall m: Matcher<T>, text: seq<Byte> | m.width == width && |text| == size
        ensures CoveredPass(m, text, start, 0) == OnePass(m, text, start, 0)
      {
        NothingBlindIsOnePass(m, text, start, 0);
      }
    } else {
      var o: nat :| Testable(size, start, width, o) && !Covered(size, o, width);
      var text: seq<Byte> := seq(size, _ => 0);
      SpotterIsLost(text, start, width, v, o);
      SpotterWidth(width, start + o, v);
    }
  }

  lemma SpotterWidth<T>(width: nat, address: nat, v: T)
    ensures Spotter(width, address, v).width == width
  {
  }

  /** The 40-byte callback: from an aligned start, of the aligned positions exactly the one 36 bytes before each inner
      chunk boundary is never seen; from any other start there are two before each boundary. */
  lemma FortyByteBlindSpots(size: nat, start: nat, o: nat)
    requires Testable(size, start, 40, o)
    ensures !Covered(size, o, 40) <==>
            if start % 4 == 0 then Boundary(size, o + 36)
            else Boundary(size, o + 36 + start % 4) || Boundary(size, o + 32 + start % 4)
  {
    hide Covered, Boundary;
    BlindIff(size, o, 40);
    if e: nat :| Boundary(size, e) && e - 40 < o < e - OVERLAP { SpotBefore(size, start, o, e); }
  }

  lemma SpotBefore(size: nat, start: nat, o: nat, e: nat)
    requires Boundary(size, e) && e - 40 < o < e - OVERLAP && (start + o) % 4 == 0
    ensures if start % 4 == 0 then e == o + 36 else e == o + 36 + start % 4 || e == o + 32 + start % 4
  {
    var k, q := 0x10000 * (e / CHUNK), (start + o) / 4;
    assert e == 4 * k && start + o == 4 * q && start == 4 * (start / 4) + start % 4;
  }

  // -------------------------------------------------------------- the callback that is too wide

  /** The last seven instructions the callback of `find_csr_config` looks for. */
  const CSR_TAIL: seq<Word> := [0x321D012A, 0x5280022B, 0x6A0B011F, 0x1A8A0128, 0x6A28001F, 0x1A9F07E0, 0xD65F03C0]

  function WordAt(s: seq<Byte>, at: nat): Word
    requires at + 4 <= |s|
  {
    s[at] as int + 0x100 * s[at + 1] as int + 0x1_0000 * s[at + 2] as int + 0x100_0000 * s[at + 3] as int
  }

  /** The callback: ADRP x8, LDR w8, AND w9 with any mask, then the tail; the result is the address the pair forms. */
  function CsrTest(w: seq<Byte>, pc: nat): Option<int>
  {
    if |w| < 40 then None
    else
      var adrp, load, mask := WordAt(w, 0), WordAt(w, 4), WordAt(w, 8);
      if mask / 0x80_0000 != 0x24 || mask % 0x400 != 0x109
        || (exists i :: 0 <= i < 7 && WordAt(w, 12 + 4 * i) != CSR_TAIL[i]) then None
      else if adrp / 0x8000_0000 != 1 || adrp / 0x100_0000 % 0x20 != 0x10 || adrp % 0x20 != 8 then None
      else if load / 0x40_0000 != 0x2E5 || load % 0x400 != 0x108 then None
      else Some(AdrpTarget(adrp, pc) + load / 0x400 % 0x1000 * 4)
  }

  const CSR := Matcher(40, CsrTest)

  /** ADRP x8, the same page; LDR w8, [x8]; AND w9, w8 with a mask; the tail. */
  const CSR_CODE: seq<Word> := [0x90000008, 0xB9400108, 0x12000109] + CSR_TAIL

  function ByteOf(w: Word, k: nat): Byte
    requires k < 4
  {
    match k
    case 0 => w % 0x100
    case 1 => w / 0x100 % 0x100
    case 2 => w / 0x1_0000 % 0x100
    case _ => w / 0x100_0000
  }

  function CsrByte(o: nat, i: int): Byte
  {
    if o <= i < o + 40 then ByteOf(CSR_CODE[(i - o) / 4], (i - o) % 4) else 0
  }

  /** The code at `o`, and zeros. */
  function CsrText(size: nat, o: nat): (t: seq<Byte>)
    requires o + 40 <= size
    ensures |t| == size
  {
    seq(size, i => CsrByte(o, i))
  }

  lemma ByteOfWord(w: Word)
    ensures ByteOf(w, 0) as int + 0x100 * ByteOf(w, 1) as int + 0x1_0000 * ByteOf(w, 2) as int
            + 0x100_0000 * ByteOf(w, 3) as int == w
  {
    assert w == w % 0x100 + 0x100 * (w / 0x100);
    assert w / 0x100 == w / 0x100 % 0x100 + 0x100 * (w / 0x1_0000);
    assert w / 0x1_0000 == w / 0x1_0000 % 0x100 + 0x100 * (w / 0x100_0000);
  }

  /** The aligned words of that text. */
  lemma CsrWord(size: nat, o: nat, at: nat)
    requires o + 40 <= size && at + 4 <= size && at % 4 == o % 4
    ensures WordAt(CsrText(size, o), at) == if o <= at < o + 40 then CSR_CODE[(at - o) / 4] else 0
  {
    hide ByteOf, CsrByte;
    CsrByteIs(o, at, 0);
    CsrByteIs(o, at, 1);
    CsrByteIs(o, at, 2);
    CsrByteIs(o, at, 3);
    if o <= at < o + 40 { ByteOfWord(CSR_CODE[(at - o) / 4]); }
  }

  lemma CsrByteIs(o: nat, at: nat, j: nat)
    requires j < 4 && at % 4 == o % 4
    ensures CsrByte(o, at + j) == if o <= at < o + 40 then ByteOf(CSR_CODE[(at - o) / 4], j) else 0
  {
    hide ByteOf;
    var i, k := o / 4, at / 4;
    assert o == 4 * i + o % 4 && at == 4 * k + o % 4;
    if o <= at < o + 40 { assert at + j - o == 4 * (k - i) + j; }
  }

  lemma WindowWord(text: seq<Byte>, p: nat, at: nat)
    requires p + 40 <= |text| && at + 4 <= 40
    ensures WordAt(text[p..p + 40], at) == WordAt(text, p + at)
  {
  }

  lemma CodeWord(i: nat)
    requires i < 10
    ensures |CSR_CODE| == 10 && (CSR_CODE[i] == 0xD65F03C0 <==> i == 9)
    ensures i >= 3 ==> CSR_CODE[i] == CSR_TAIL[i - 3]
    ensures CSR_CODE[0] == 0x90000008 && CSR_CODE[1] == 0xB9400108 && CSR_CODE[2] == 0x12000109
  {
  }

  /** The callback accepts the code where it is. */
  lemma CsrAccepts(size: nat, o: nat)
    requires o + 40 <= size
    ensures CsrTest(CsrText(size, o)[o..o + 40], o).Some?
  {
    hide CsrText, WordAt, AdrpTarget;
    var text := CsrText(size, o);
    forall i | 0 <= i < 10 ensures WordAt(text[o..o + 40], 4 * i) == CSR_CODE[i] {
      WindowWord(text, o, 4 * i);
      CsrWord(size, o, o + 4 * i);
    }
    forall i | 0 <= i < 7 ensures WordAt(text[o..o + 40], 12 + 4 * i) == CSR_TAIL[i] {
      assert 12 + 4 * i == 4 * (i + 3);
      assert WordAt(text[o..o + 40], 4 * (i + 3)) == CSR_CODE[i + 3];
      CodeWord(i + 3);
    }
    CodeWord(0);
    assert WordAt(text[o..o + 40], 4 * 0) == CSR_CODE[0] && WordAt(text[o..o + 40], 4 * 1) == CSR_CODE[1];
    assert WordAt(text[o..o + 40], 4 * 2) == CSR_CODE[2];
  }

  /** It accepts nothing else of that text, because only there a return instruction ends the window. */
  lemma CsrAcceptsOnce(size: nat, o: nat, p: nat)
    requires o + 40 <= size && o % 4 == 0 && Matches(CSR, CsrText(size, o), 0, p)
    ensures p == o
  {
    hide CsrText, WordAt, CsrTest;
    var text := CsrText(size, o);
    assert p + 40 <= size && p % 4 == 0 && CsrTest(text[p..p + 40], 0 + p).Some?;
    EndsInReturn(text[p..p + 40], 0 + p);
    WindowWord(text, p, 36);
    CsrWord(size, o, p + 36);
    if o <= p + 36 < o + 40 {
      CodeWord((p + 36 - o) / 4);
      NinthWord(o, p);
    }
  }

  lemma EndsInReturn(w: seq<Byte>, pc: nat)
    requires CsrTest(w, pc).Some?
    ensures |w| >= 40 && WordAt(w, 36) == 0xD65F03C0
  {
    hide WordAt, AdrpTarget;
    assert WordAt(w, 12 + 4 * 6) == CSR_TAIL[6];
  }

  lemma NinthWord(o: nat, p: nat)
    requires o % 4 == 0 && p % 4 == 0 && o <= p + 36 && (p + 36 - o) / 4 == 9
    ensures p == o
  {
    var i, k := o / 4, p / 4;
    assert o == 4 * i && p == 4 * k;
  }

  /** A kernel text in which one pass finds the pattern and the chunked scan finds nothing. */
  lemma CsrPatternIsMissed()
    ensures var text := CsrText(CHUNK + 100, CHUNK - 36);
      OnePass(CSR, text, 0, 0).Some? && CoveredPass(CSR, text, 0, 0) == None
  {
    hide CsrText, CsrTest, Covered;
    var size, o := CHUNK + 100, CHUNK - 36;
    CsrAccepts(size, o);
    assert Matches(CSR, CsrText(size, o), 0, o);
    forall p: nat | Matches(CSR, CsrText(size, o), 0, p) ensures p == o { CsrAcceptsOnce(size, o, p); }
    assert Boundary(size, o + 36);
    FortyByteBlindSpots(size, 0, o);
    LoneBlindMatchIsLost(CSR, CsrText(size, o), 0, o);
  }
}

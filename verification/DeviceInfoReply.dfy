/** The device-info reply: key/value pairs in a page that the host filled, augmented in place. */
module DeviceInfoReply {
  import opened Words
  import opened Wrappers

  const UINT32_MAX := 0xFFFF_FFFF

  type U32 = x: int | 0 <= x <= UINT32_MAX

  datatype Pair = Pair(key: U32, value: U32)

  datatype Status = ReplyOK | ReplyBounds | ReplyUnterminated

  datatype Result = Result(status: Status, pairs: U32, applied: U32, dropped: U32)

  // -------------------------------------------------------------- pairs as bytes

  function WordAt(s: seq<Byte>, at: nat): U32
    requires at + 4 <= |s|
  {
    (s[at] as int) + 0x100 * s[at + 1] as int + 0x1_0000 * s[at + 2] as int + 0x100_0000 * s[at + 3] as int
  }

  function WordBytes(v: U32): seq<Byte> { [v % 0x100, v / 0x100 % 0x100, v / 0x1_0000 % 0x100, v / 0x100_0000] }

  /** `PVGDeviceInfoReadPair` */
  function PairAt(s: seq<Byte>, offset: nat, i: nat): Pair
    requires offset + 8 * i + 8 <= |s|
  {
    Pair(WordAt(s, offset + 8 * i), WordAt(s, offset + 8 * i + 4))
  }

  /** The first `n` pairs of the reply. */
  function PairsOf(s: seq<Byte>, offset: nat, n: nat): (r: seq<Pair>)
    requires offset + 8 * n <= |s|
    ensures |r| == n
  {
    seq(n, i requires 0 <= i < n => PairAt(s, offset, i))
  }

  function Patched(s: seq<Byte>, at: nat, bytes: seq<Byte>): (r: seq<Byte>)
    requires at + |bytes| <= |s|
    ensures |r| == |s|
  {
    s[..at] + bytes + s[at + |bytes|..]
  }

  function WithPair(s: seq<Byte>, offset: nat, i: nat, pair: Pair): (r: seq<Byte>)
    requires offset + 8 * i + 8 <= |s|
    ensures |r| == |s|
  {
    Patched(s, offset + 8 * i, WordBytes(pair.key) + WordBytes(pair.value))
  }

  lemma WordRoundTrip(v: U32)
    ensures WordAt(WordBytes(v), 0) == v
  {
    assert v == v % 0x100 + 0x100 * (v / 0x100);
    assert v / 0x100 == v / 0x100 % 0x100 + 0x100 * (v / 0x1_0000);
    assert v / 0x1_0000 == v / 0x1_0000 % 0x100 + 0x100 * (v / 0x100_0000);
  }

  /** A key and a value, each little-endian. */
  lemma PairIsLittleEndian()
    ensures PairAt([1, 2, 3, 4, 5, 6, 7, 8], 0, 0) == Pair(0x0403_0201, 0x0807_0605)
  {
  }

  /** A written pair reads back, and every other pair reads as before. */
  lemma WrittenPair(s: seq<Byte>, offset: nat, i: nat, pair: Pair, j: nat)
    requires offset + 8 * i + 8 <= |s| && offset + 8 * j + 8 <= |s|
    ensures PairAt(WithPair(s, offset, i, pair), offset, j) == if j == i then pair else PairAt(s, offset, j)
  {
    var at, t := offset + 8 * i, WithPair(s, offset, i, pair);
    if j == i {
      WordRoundTrip(pair.key);
      WordRoundTrip(pair.value);
      var b := WordBytes(pair.key) + WordBytes(pair.value);
      assert forall k :: 0 <= k < 8 ==> t[at + k] == b[k];
    } else {
      var to := offset + 8 * j;
      assert forall k :: to <= k < to + 8 ==> t[k] == s[k];
    }
  }

  // -------------------------------------------------------------- the ordered upsert

  /** The first position of a key, or the length of the list. */
  function Find(l: seq<Pair>, key: U32): (p: nat)
    ensures p <= |l| && (p < |l| ==> l[p].key == key) && forall q :: 0 <= q < p ==> l[q].key != key
  {
    if l == [] || l[0].key == key then 0 else 1 + Find(l[1..], key)
  }

  predicate Accepted(keyLimit: U32, pair: Pair) { pair.key != 0 && pair.key < keyLimit }

  /** The pair goes to the first entry with its key, else to the end while there is room, else nowhere. */
  function Upsert(l: seq<Pair>, pair: Pair, usable: nat, keyLimit: U32): seq<Pair>
  {
    if !Accepted(keyLimit, pair) then l
    else if Find(l, pair.key) < |l| then l[Find(l, pair.key) := pair]
    else if |l| < usable then l + [pair]
    else l
  }

  predicate Applies(l: seq<Pair>, pair: Pair, usable: nat, keyLimit: U32)
  {
    Accepted(keyLimit, pair) && (Find(l, pair.key) < |l| || |l| < usable)
  }

  function UpsertAll(l: seq<Pair>, extras: seq<Pair>, usable: nat, keyLimit: U32): (r: seq<Pair>)
    ensures |l| <= |r|
    ensures |r| <= |l| || |r| <= usable
  {
    if extras == [] then l
    else Upsert(UpsertAll(l, extras[..|extras| - 1], usable, keyLimit), extras[|extras| - 1], usable, keyLimit)
  }

  /** How many of the extras found or made a place. */
  function AppliedCount(l: seq<Pair>, extras: seq<Pair>, usable: nat, keyLimit: U32): (n: nat)
    ensures n <= |extras|
  {
    if extras == [] then 0 else
      var front := extras[..|extras| - 1];
      AppliedCount(l, front, usable, keyLimit)
      + (if Applies(UpsertAll(l, front, usable, keyLimit), extras[|extras| - 1], usable, keyLimit) then 1 else 0)
  }

  ghost predicate UniqueKeys(l: seq<Pair>) { forall p, q :: 0 <= p < q < |l| ==> l[p].key != l[q].key }

  ghost predicate NonzeroKeys(l: seq<Pair>) { forall p <- l :: p.key != 0 }

  lemma UpsertKeepsKeys(l: seq<Pair>, pair: Pair, usable: nat, keyLimit: U32)
    ensures UniqueKeys(l) ==> UniqueKeys(Upsert(l, pair, usable, keyLimit))
    ensures NonzeroKeys(l) ==> NonzeroKeys(Upsert(l, pair, usable, keyLimit))
  {
  }

  /** Unique keys stay unique, and no zero key gets into the list. */
  lemma {:induction false} UpsertAllKeepsKeys(l: seq<Pair>, extras: seq<Pair>, usable: nat, keyLimit: U32)
    ensures UniqueKeys(l) ==> UniqueKeys(UpsertAll(l, extras, usable, keyLimit))
    ensures NonzeroKeys(l) ==> NonzeroKeys(UpsertAll(l, extras, usable, keyLimit))
  {
    hide UniqueKeys, NonzeroKeys, Upsert;
    if extras != [] {
      var front := extras[..|extras| - 1];
      UpsertAllKeepsKeys(l, front, usable, keyLimit);
      UpsertKeepsKeys(UpsertAll(l, front, usable, keyLimit), extras[|extras| - 1], usable, keyLimit);
    }
  }

  // -------------------------------------------------------------- idempotence

  /** Every accepted extra has an entry, or the list is full. */
  ghost predicate Settled(l: seq<Pair>, extras: seq<Pair>, usable: nat, keyLimit: U32)
  {
    forall e <- extras :: Accepted(keyLimit, e) ==> Find(l, e.key) < |l| || |l| >= usable
  }

  /** Keys never move. */
  lemma UpsertKeepsPositions(l: seq<Pair>, pair: Pair, usable: nat, keyLimit: U32, p: nat)
    requires p < |l|
    ensures |l| <= |Upsert(l, pair, usable, keyLimit)| && Upsert(l, pair, usable, keyLimit)[p].key == l[p].key
  {
  }

  lemma FindIs(l: seq<Pair>, key: U32, p: nat)
    requires p < |l| && l[p].key == key && forall q :: 0 <= q < p ==> l[q].key != key
    ensures Find(l, key) == p
  {
  }

  lemma FoundStaysFound(l: seq<Pair>, pair: Pair, usable: nat, keyLimit: U32, key: U32)
    requires Find(l, key) < |l|
    ensures Find(Upsert(l, pair, usable, keyLimit), key) == Find(l, key)
  {
    var l', p := Upsert(l, pair, usable, keyLimit), Find(l, key);
    forall q | 0 <= q <= p ensures l'[q].key == l[q].key { UpsertKeepsPositions(l, pair, usable, keyLimit, q); }
    FindIs(l', key, p);
  }

  lemma OthersAreNotMoved(l: seq<Pair>, pair: Pair, usable: nat, keyLimit: U32, key: U32)
    requires key != pair.key
    ensures var l', p := Upsert(l, pair, usable, keyLimit), Find(l, key);
      if p < |l| then Find(l', key) == p && l'[p] == l[p] else Find(l', key) == |l'|
  {
    var l', p := Upsert(l, pair, usable, keyLimit), Find(l, key);
    if p < |l| {
      FoundStaysFound(l, pair, usable, keyLimit, key);
    } else {
      forall q | 0 <= q < |l'| ensures l'[q].key != key {
        if q < |l| { UpsertKeepsPositions(l, pair, usable, keyLimit, q); }
      }
    }
  }

  /** Extra `i` is the last accepted one with its key. */
  ghost predicate LastWithKey(extras: seq<Pair>, keyLimit: U32, i: nat)
  {
    i < |extras| && Accepted(keyLimit, extras[i]) && forall j :: i < j < |extras| ==> extras[j].key != extras[i].key
  }

  lemma UpsertPlaces(l: seq<Pair>, pair: Pair, usable: nat, keyLimit: U32)
    requires Accepted(keyLimit, pair)
    ensures var l' := Upsert(l, pair, usable, keyLimit);
      Find(l', pair.key) < |l'| ==> l'[Find(l', pair.key)] == pair && Applies(l, pair, usable, keyLimit)
  {
    var p := Find(l, pair.key);
    if p < |l| {
      FoundStaysFound(l, pair, usable, keyLimit, pair.key);
    } else if |l| < usable {
      FindIs(l + [pair], pair.key, |l|);
    }
  }

  /** The last extra with a key decides its value, wherever the list has room for it. */
  lemma {:induction false} LastExtraWins(l: seq<Pair>, extras: seq<Pair>, usable: nat, keyLimit: U32, i: nat)
    requires LastWithKey(extras, keyLimit, i)
    ensures var r := UpsertAll(l, extras, usable, keyLimit);
      Find(r, extras[i].key) < |r| ==> r[Find(r, extras[i].key)] == extras[i]
  {
    hide Upsert, Find, Accepted;
    var n := |extras| - 1;
    var front := extras[..n];
    var before := UpsertAll(l, front, usable, keyLimit);
    if i == n {
      UpsertPlaces(before, extras[n], usable, keyLimit);
    } else {
      assert LastWithKey(front, keyLimit, i);
      LastExtraWins(l, front, usable, keyLimit, i);
      OthersAreNotMoved(before, extras[n], usable, keyLimit, extras[i].key);
    }
  }

  lemma {:induction false} UpsertAllSettles(l: seq<Pair>, extras: seq<Pair>, usable: nat, keyLimit: U32)
    ensures Settled(UpsertAll(l, extras, usable, keyLimit), extras, usable, keyLimit)
  {
    if extras != [] {
      var n := |extras| - 1;
      var front := extras[..n];
      var before := UpsertAll(l, front, usable, keyLimit);
      var after := UpsertAll(l, extras, usable, keyLimit);
      UpsertAllSettles(l, front, usable, keyLimit);
      hide UpsertAll;
      assert after == Upsert(before, extras[n], usable, keyLimit);
      forall e | e in extras && Accepted(keyLimit, e) ensures Find(after, e.key) < |after| || |after| >= usable {
        if e == extras[n] { UpsertSettles(before, e, usable, keyLimit); } else {
          assert e in front;
          if Find(before, e.key) < |before| { FoundStaysFound(before, extras[n], usable, keyLimit, e.key); }
        }
      }
    }
  }

  lemma UpsertSettles(l: seq<Pair>, pair: Pair, usable: nat, keyLimit: U32)
    requires Accepted(keyLimit, pair)
    ensures var l' := Upsert(l, pair, usable, keyLimit); Find(l', pair.key) < |l'| || |l'| >= usable
  {
    var p := Find(l, pair.key);
    if p < |l| {
      FoundStaysFound(l, pair, usable, keyLimit, pair.key);
    } else if |l| < usable {
      FindIs(l + [pair], pair.key, |l|);
    }
  }

  ghost predicate SameKeys(l: seq<Pair>, r: seq<Pair>)
  {
    |l| == |r| && forall q :: 0 <= q < |l| ==> r[q].key == l[q].key
  }

  lemma SameKeysFind(l: seq<Pair>, r: seq<Pair>, key: U32)
    requires SameKeys(l, r)
    ensures Find(r, key) == Find(l, key)
  {
    if Find(l, key) < |l| { FindIs(r, key, Find(l, key)); } else if Find(r, key) < |r| { FindIs(l, key, Find(r, key)); }
  }

  lemma SettledStep(l: seq<Pair>, before: seq<Pair>, pair: Pair, usable: nat, keyLimit: U32)
    requires SameKeys(l, before) && (Accepted(keyLimit, pair) ==> Find(l, pair.key) < |l| || |l| >= usable)
    ensures var r := Upsert(before, pair, usable, keyLimit);
      SameKeys(l, r) && forall q :: 0 <= q < |l| && (q != Find(l, pair.key) || !Accepted(keyLimit, pair)) ==>
        r[q] == before[q]
  {
    SameKeysFind(l, before, pair.key);
  }

  /** On a settled list another round of the same extras moves nothing. */
  lemma {:induction false} SettledKeepsKeys(l: seq<Pair>, extras: seq<Pair>, usable: nat, keyLimit: U32)
    requires Settled(l, extras, usable, keyLimit)
    ensures SameKeys(l, UpsertAll(l, extras, usable, keyLimit))
  {
    hide SameKeys, Upsert, Accepted;
    if extras == [] {
      assert SameKeys(l, l) by { KeysAreTheirOwn(l); }
    } else {
      var n := |extras| - 1;
      SettledFront(l, extras, usable, keyLimit);
      SettledKeepsKeys(l, extras[..n], usable, keyLimit);
      SettledStep(l, UpsertAll(l, extras[..n], usable, keyLimit), extras[n], usable, keyLimit);
    }
  }

  lemma SettledFront(l: seq<Pair>, extras: seq<Pair>, usable: nat, keyLimit: U32)
    requires Settled(l, extras, usable, keyLimit) && extras != []
    ensures Settled(l, extras[..|extras| - 1], usable, keyLimit)
    ensures Accepted(keyLimit, extras[|extras| - 1]) ==> Find(l, extras[|extras| - 1].key) < |l| || |l| >= usable
  {
    hide Accepted;
  }

  lemma KeysAreTheirOwn(l: seq<Pair>)
    ensures SameKeys(l, l)
  {
  }

  /** It changes at most the first entries of the extras' keys. */
  lemma {:induction false} SettledUntouched(l: seq<Pair>, extras: seq<Pair>, usable: nat, keyLimit: U32, q: nat)
    requires Settled(l, extras, usable, keyLimit) && q < |l|
    requires Find(l, l[q].key) != q || forall e <- extras :: e.key == l[q].key ==> !Accepted(keyLimit, e)
    ensures |UpsertAll(l, extras, usable, keyLimit)| == |l| && UpsertAll(l, extras, usable, keyLimit)[q] == l[q]
  {
    hide Upsert, Accepted;
    if extras != [] {
      var n := |extras| - 1;
      SettledFront(l, extras, usable, keyLimit);
      SettledUntouched(l, extras[..n], usable, keyLimit, q);
      SettledKeepsKeys(l, extras[..n], usable, keyLimit);
      assert extras[n] in extras;
      SettledStep(l, UpsertAll(l, extras[..n], usable, keyLimit), extras[n], usable, keyLimit);
    }
  }

  /** The last accepted extra with a key. */
  lemma {:induction false} LastOf(extras: seq<Pair>, keyLimit: U32, key: U32) returns (i: nat)
    requires exists e <- extras :: e.key == key && Accepted(keyLimit, e)
    ensures LastWithKey(extras, keyLimit, i) && extras[i].key == key
  {
    var n := |extras| - 1;
    if extras[n].key == key {
      i := n;
    } else {
      var e :| e in extras && e.key == key && Accepted(keyLimit, e);
      assert e in extras[..n];
      i := LastOf(extras[..n], keyLimit, key);
    }
  }

  /** The same extras a second time change nothing. */
  lemma UpsertAllTwice(l: seq<Pair>, extras: seq<Pair>, usable: nat, keyLimit: U32)
    ensures var r := UpsertAll(l, extras, usable, keyLimit); UpsertAll(r, extras, usable, keyLimit) == r
  {
    hide UpsertAll, Accepted, Settled;
    var r := UpsertAll(l, extras, usable, keyLimit);
    var t := UpsertAll(r, extras, usable, keyLimit);
    UpsertAllSettles(l, extras, usable, keyLimit);
    SettledKeepsKeys(r, extras, usable, keyLimit);
    forall q | 0 <= q < |r| ensures t[q] == r[q] {
      if Find(r, r[q].key) == q && exists e <- extras :: e.key == r[q].key && Accepted(keyLimit, e) {
        var i := LastOf(extras, keyLimit, r[q].key);
        LastExtraWins(l, extras, usable, keyLimit, i);
        LastExtraWins(r, extras, usable, keyLimit, i);
        SameKeysFind(r, t, r[q].key);
      } else {
        SettledUntouched(r, extras, usable, keyLimit, q);
      }
    }
  }

  // -------------------------------------------------------------- the visible list

  /** The first pair from `i` on whose key is zero, or `limit`. */
  function EndOf(s: seq<Byte>, offset: nat, i: nat, limit: nat): (e: nat)
    requires i <= limit && offset + 8 * limit <= |s|
    ensures i <= e <= limit && (e < limit ==> PairAt(s, offset, e).key == 0)
    ensures forall j :: i <= j < e ==> PairAt(s, offset, j).key != 0
    decreases limit - i
  {
    if i == limit || PairAt(s, offset, i).key == 0 then i else EndOf(s, offset, i + 1, limit)
  }

  /** What the guest reads: the pairs up to a zero key or the limit. */
  function Visible(s: seq<Byte>, offset: nat, limit: nat): (l: seq<Pair>)
    requires offset + 8 * limit <= |s|
    ensures |l| <= limit && NonzeroKeys(l)
  {
    PairsOf(s, offset, EndOf(s, offset, 0, limit))
  }

  /** No byte outside the range differs. */
  ghost predicate SameOutside(s: seq<Byte>, t: seq<Byte>, lo: nat, hi: nat)
  {
    |s| == |t| && forall k :: 0 <= k < |s| && (k < lo || hi <= k) ==> t[k] == s[k]
  }

  /** Page bytes that begin with the list `l` are read as exactly `l` if a terminator follows or `l` fills the limit. */
  lemma VisibleIs(t: seq<Byte>, offset: nat, limit: nat, l: seq<Pair>)
    requires offset + 8 * limit <= |t| && |l| <= limit && NonzeroKeys(l) && PairsOf(t, offset, |l|) == l
    requires |l| < limit ==> PairAt(t, offset, |l|).key == 0
    ensures Visible(t, offset, limit) == l
  {
    forall j | 0 <= j < |l| ensures PairAt(t, offset, j).key != 0 {
      assert l[j] in l;
      assert PairsOf(t, offset, |l|)[j] == l[j];
    }
  }

  lemma PairsWithPair(s: seq<Byte>, offset: nat, n: nat, i: nat, pair: Pair)
    requires offset + 8 * n <= |s| && i < n
    ensures PairsOf(WithPair(s, offset, i, pair), offset, n) == PairsOf(s, offset, n)[i := pair]
  {
    forall j | 0 <= j < n
      ensures PairAt(WithPair(s, offset, i, pair), offset, j) == PairsOf(s, offset, n)[i := pair][j] {
      WrittenPair(s, offset, i, pair, j);
    }
  }

  lemma PairsGrow(s: seq<Byte>, offset: nat, n: nat, pair: Pair)
    requires offset + 8 * n + 8 <= |s|
    ensures PairsOf(WithPair(s, offset, n, pair), offset, n + 1) == PairsOf(s, offset, n) + [pair]
    ensures PairsOf(WithPair(s, offset, n, pair), offset, n) == PairsOf(s, offset, n)
  {
    hide WithPair, PairAt;
    forall j | 0 <= j < n + 1
      ensures PairAt(WithPair(s, offset, n, pair), offset, j) == (PairsOf(s, offset, n) + [pair])[j] {
      WrittenPair(s, offset, n, pair, j);
    }
  }

  lemma WithPairOutside(s: seq<Byte>, offset: nat, i: nat, pair: Pair)
    requires offset + 8 * i + 8 <= |s|
    ensures SameOutside(s, WithPair(s, offset, i, pair), offset + 8 * i, offset + 8 * i + 8)
  {
  }

  lemma OutsideOn(s: seq<Byte>, t: seq<Byte>, u: seq<Byte>, lo: nat, hi: nat, lo': nat, hi': nat)
    requires SameOutside(s, t, lo, hi) && SameOutside(t, u, lo', hi') && lo <= lo' && hi <= hi'
    ensures SameOutside(s, u, lo, hi')
  {
  }

  // -------------------------------------------------------------- the methods

  /** `PVGDeviceInfoWritePair` */
  method WritePair(page: array<Byte>, offset: nat, i: nat, pair: Pair)
    requires offset + 8 * i + 8 <= page.Length
    modifies page
    ensures page[..] == WithPair(old(page[..]), offset, i, pair)
  {
    var bytes := WordBytes(pair.key) + WordBytes(pair.value);
    var at := offset + 8 * i;
    for k := 0 to 8
      invariant page[..] == Patched(old(page[..]), at, bytes[..k])
    {
      page[at + k] := bytes[k];
      assert bytes[..k + 1] == bytes[..k] + [bytes[k]];
    }
    assert bytes[..8] == bytes;
  }

  /** The number of pairs the host left before the first zero key. */
  method CountPairs(page: array<Byte>, offset: nat, limit: nat) returns (n: nat)
    requires offset + 8 * limit <= page.Length
    ensures n == EndOf(page[..], offset, 0, limit)
  {
    n := 0;
    while n < limit && PairAt(page[..], offset, n).key != 0
      invariant n <= limit && EndOf(page[..], offset, n, limit) == EndOf(page[..], offset, 0, limit)
    {
      n := n + 1;
    }
  }

  /** The position of a key among the first `n` pairs. */
  method FindPosition(page: array<Byte>, offset: nat, n: nat, key: U32) returns (position: nat)
    requires offset + 8 * n <= page.Length
    ensures position == Find(PairsOf(page[..], offset, n), key)
  {
    ghost var l := PairsOf(page[..], offset, n);
    position := 0;
    while position < n && PairAt(page[..], offset, position).key != key
      invariant position <= n && forall q :: 0 <= q < position ==> l[q].key != key
    {
      position := position + 1;
    }
    if position < n { FindIs(l, key, position); }
  }

  /** One extra pair. */
  method ApplyOne(page: array<Byte>, offset: nat, n: nat, usable: nat, keyLimit: U32, pair: Pair)
      returns (n': nat, applied: bool)
    requires offset + 8 * n <= page.Length && offset + 8 * usable <= page.Length
    modifies page
    ensures n <= n' && (n' <= n || n' <= usable) && offset + 8 * n' <= page.Length
    ensures PairsOf(page[..], offset, n') == Upsert(PairsOf(old(page[..]), offset, n), pair, usable, keyLimit)
    ensures applied == Applies(PairsOf(old(page[..]), offset, n), pair, usable, keyLimit)
    ensures SameOutside(old(page[..]), page[..], offset, offset + 8 * n')
  {
    hide PairAt, WithPair, Find;
    n', applied := n, false;
    if pair.key == 0 || pair.key >= keyLimit { return; }
    var position := FindPosition(page, offset, n, pair.key);
    if position == n {
      if n >= usable { return; }
      n' := n + 1;
      PairsGrow(page[..], offset, n, pair);
    } else {
      PairsWithPair(page[..], offset, n, position, pair);
    }
    WithPairOutside(page[..], offset, position, pair);
    WritePair(page, offset, position, pair);
    applied := true;
  }

  /** The loop over the extras. */
  method ApplyAll(page: array<Byte>, offset: nat, n: nat, usable: nat, keyLimit: U32, extras: seq<Pair>)
    returns (n': nat, applied: nat, dropped: nat)
    requires offset + 8 * n <= page.Length && offset + 8 * usable <= page.Length
    modifies page
    ensures n <= n' && (n' <= n || n' <= usable) && offset + 8 * n' <= page.Length
    ensures PairsOf(page[..], offset, n') == UpsertAll(PairsOf(old(page[..]), offset, n), extras, usable, keyLimit)
    ensures SameOutside(old(page[..]), page[..], offset, offset + 8 * n')
    ensures applied == AppliedCount(PairsOf(old(page[..]), offset, n), extras, usable, keyLimit)
    ensures applied + dropped == |extras|
  {
    hide PairAt, Upsert, Applies;
    n', applied, dropped := n, 0, 0;
    ghost var l := PairsOf(page[..], offset, n);
    for i := 0 to |extras|
      invariant n <= n' && (n' <= n || n' <= usable) && offset + 8 * n' <= page.Length && applied + dropped == i
      invariant PairsOf(page[..], offset, n') == UpsertAll(l, extras[..i], usable, keyLimit)
      invariant applied == AppliedCount(l, extras[..i], usable, keyLimit)
      invariant SameOutside(old(page[..]), page[..], offset, offset + 8 * n')
    {
      assert extras[..i + 1][..i] == extras[..i];
      ghost var before, m := page[..], n';
      var done;
      n', done := ApplyOne(page, offset, n', usable, keyLimit, extras[i]);
      if done { applied := applied + 1; } else { dropped := dropped + 1; }
      OutsideOn(old(page[..]), before, page[..], offset, offset + 8 * m, offset, offset + 8 * n');
    }
    assert extras[..|extras|] == extras;
  }

  /** What the augmentation is given: a page, how many pairs fit, how many the guest reads, and how many may be
      used. */
  datatype Space = Space(capacity: nat, limit: nat, usable: nat)

  function SpaceOf(pageSize: nat, offset: nat, count: U32): (s: Space)
    requires offset + 8 <= pageSize
    ensures 1 <= s.capacity && offset + 8 * s.capacity <= pageSize && s.usable <= s.limit <= s.capacity
    ensures s.limit <= UINT32_MAX
  {
    var physical := (pageSize - offset) / 8;
    var capacity := if physical > UINT32_MAX then UINT32_MAX else physical;
    var limit := if count < capacity then count else capacity;
    Space(capacity, limit, if count > capacity then capacity - 1 else limit)
  }

  predicate Bounded(page: array?<Byte>, pageSize: nat, offset: nat, count: U32, keyLimit: U32,
                    extras: Option<seq<Pair>>, extraCount: nat)
  {
    page != null && offset <= pageSize && pageSize - offset >= 8 && count != 0 && keyLimit != 0
      && (extras.Some? || extraCount == 0)
  }

  /** The extras, none when the pointer is null. */
  function Given(extras: Option<seq<Pair>>): seq<Pair> { match extras case Some(e) => e case None => [] }

  /** The reply after the augmentation: the visible list is the old one with the extras upserted in order, and
      nothing else in the page differs but the terminator behind the list. */
  ghost predicate Augmented(s: seq<Byte>, t: seq<Byte>, offset: nat, space: Space, keyLimit: U32, extras: seq<Pair>)
    requires |s| == |t| && offset + 8 * space.limit <= |s|
  {
    var l := UpsertAll(Visible(s, offset, space.limit), extras, space.usable, keyLimit);
    && Visible(t, offset, space.limit) == l
    && SameOutside(s, t, offset, offset + 8 * (if |l| < space.limit then |l| + 1 else space.limit))
  }

  /** The terminator, or nothing when the list fills the limit. */
  method Terminate(page: array<Byte>, offset: nat, n: nat, limit: nat)
    requires n <= limit && offset + 8 * limit <= page.Length && NonzeroKeys(PairsOf(page[..], offset, n))
    modifies page
    ensures Visible(page[..], offset, limit) == PairsOf(old(page[..]), offset, n)
    ensures SameOutside(old(page[..]), page[..], offset + 8 * n, offset + 8 * (if n < limit then n + 1 else n))
  {
    hide WithPair, PairAt, PairsOf, Visible;
    ghost var l := PairsOf(page[..], offset, n);
    if n < limit {
      PairsGrow(page[..], offset, n, Pair(0, 0));
      WrittenPair(page[..], offset, n, Pair(0, 0), n);
      WithPairOutside(page[..], offset, n, Pair(0, 0));
      WritePair(page, offset, n, Pair(0, 0));
    }
    VisibleIs(page[..], offset, limit, l);
  }

  /** The answer for page bytes `s` that became `t`.  The two counters are 32 bits wide. */
  ghost predicate Answers(s: seq<Byte>, t: seq<Byte>, offset: nat, space: Space, count: U32, keyLimit: U32,
                          extras: seq<Pair>, r: Result)
    requires |s| == |t| && offset + 8 * space.limit <= |s|
  {
    var was, now := Visible(s, offset, space.limit), Visible(t, offset, space.limit);
    if count > space.capacity && |was| == space.limit then r == Result(ReplyUnterminated, 0, 0, 0) && t == s
    else
      && r.status == ReplyOK && r.pairs == |now| && Augmented(s, t, offset, space, keyLimit, extras)
      && r.applied == AppliedCount(was, extras, space.usable, keyLimit) % (UINT32_MAX + 1)
      && (r.applied + r.dropped) % (UINT32_MAX + 1) == |extras| % (UINT32_MAX + 1)
      && (|extras| <= UINT32_MAX ==> r.applied + r.dropped == |extras|)
  }

  /** A reply without a terminator is left alone. */
  lemma RefusalAnswers(s: seq<Byte>, offset: nat, space: Space, count: U32, keyLimit: U32, extras: seq<Pair>)
    requires offset + 8 * space.limit <= |s| && count > space.capacity
    requires EndOf(s, offset, 0, space.limit) == space.limit
    ensures Answers(s, s, offset, space, count, keyLimit, extras, Result(ReplyUnterminated, 0, 0, 0))
  {
    hide EndOf, Augmented, AppliedCount;
  }

  /** The extras upserted and the list terminated make the answer. */
  lemma SuccessAnswers(s: seq<Byte>, t: seq<Byte>, u: seq<Byte>, offset: nat, space: Space, count: U32, keyLimit: U32,
                       extras: seq<Pair>,
                       m: nat, applied: nat, dropped: nat)
    requires |s| == |t| == |u| && offset + 8 * space.limit <= |s| && m <= space.limit <= UINT32_MAX
    requires count > space.capacity ==> EndOf(s, offset, 0, space.limit) < space.limit
    requires PairsOf(t, offset, m) == UpsertAll(Visible(s, offset, space.limit), extras, space.usable, keyLimit)
    requires Visible(u, offset, space.limit) == PairsOf(t, offset, m)
    requires SameOutside(s, t, offset, offset + 8 * m)
    requires SameOutside(t, u, offset + 8 * m, offset + 8 * (if m < space.limit then m + 1 else m))
    requires applied == AppliedCount(Visible(s, offset, space.limit), extras, space.usable, keyLimit)
    requires applied + dropped == |extras|
    ensures Answers(s, u, offset, space, count, keyLimit, extras,
                    Result(ReplyOK, m, applied % (UINT32_MAX + 1), dropped % (UINT32_MAX + 1)))
  {
    hide PairAt, EndOf, UpsertAll, AppliedCount, NonzeroKeys, SameOutside;
    OutsideOn(s, t, u, offset, offset + 8 * m, offset + 8 * m, offset + 8 * (if m < space.limit then m + 1 else m));
    SumWraps(applied, dropped);
  }

  /** The part of the augmentation behind the bounds check. */
  method AugmentWithin(page: array<Byte>, offset: nat, space: Space, count: U32, keyLimit: U32, extras: seq<Pair>)
      returns (r: Result)
    requires offset + 8 <= page.Length && space == SpaceOf(page.Length, offset, count)
    modifies page
    ensures Answers(old(page[..]), page[..], offset, space, count, keyLimit, extras, r)
  {
    hide PairAt, WordAt, UpsertAll, AppliedCount, NonzeroKeys, UniqueKeys, SameOutside, SpaceOf, Answers, EndOf;
    ghost var s := page[..];
    var n := CountPairs(page, offset, space.limit);
    if n == space.limit && count > space.capacity {
      RefusalAnswers(s, offset, space, count, keyLimit, extras);
      return Result(ReplyUnterminated, 0, 0, 0);
    }
    var m, applied, dropped := ApplyAll(page, offset, n, space.usable, keyLimit, extras);
    ghost var t := page[..];
    UpsertAllKeepsKeys(Visible(s, offset, space.limit), extras, space.usable, keyLimit);
    Terminate(page, offset, m, space.limit);
    SuccessAnswers(s, t, page[..], offset, space, count, keyLimit, extras, m, applied, dropped);
    r := Result(ReplyOK, m, applied % (UINT32_MAX + 1), dropped % (UINT32_MAX + 1));
  }

  /** `PVGDeviceInfoAugmentReply` */
  method Augment(page: array?<Byte>, pageSize: nat, offset: nat, count: U32, keyLimit: U32, extras: Option<seq<Pair>>,
                 extraCount: nat)
    returns (r: Result)
    requires page != null ==> page.Length == pageSize
    requires extras.Some? ==> |extras.value| == extraCount
    modifies page
    ensures if (|| page == null || pageSize < offset + 8 || count == 0 || keyLimit == 0
                || (extras == None && extraCount != 0)) then
              r == Result(ReplyBounds, 0, 0, 0) && (page != null ==> page[..] == old(page[..]))
            else
              Answers(old(page[..]), page[..], offset, SpaceOf(pageSize, offset, count), count, keyLimit,
                      Given(extras), r)
  {
    hide Answers;
    if !Bounded(page, pageSize, offset, count, keyLimit, extras, extraCount) { return Result(ReplyBounds, 0, 0, 0); }
    r := AugmentWithin(page, offset, SpaceOf(pageSize, offset, count), count, keyLimit, Given(extras));
  }

  /** What the guest gets from an accepted augmentation: a terminator whenever it was told to read past the page,
      and unique keys if they were unique. */
  lemma AugmentedReply(s: seq<Byte>, t: seq<Byte>, offset: nat, count: U32, keyLimit: U32, extras: seq<Pair>, r: Result)
    requires |s| == |t| && offset + 8 <= |s| && r.status == ReplyOK
    requires Answers(s, t, offset, SpaceOf(|s|, offset, count), count, keyLimit, extras, r)
    ensures var space := SpaceOf(|s|, offset, count);
      && (count > space.capacity ==> r.pairs < space.limit && PairAt(t, offset, r.pairs).key == 0)
      && (UniqueKeys(Visible(s, offset, space.limit)) ==> UniqueKeys(Visible(t, offset, space.limit)))
  {
    hide PairAt, UpsertAll, AppliedCount, UniqueKeys, SameOutside;
    var space := SpaceOf(|s|, offset, count);
    UpsertAllKeepsKeys(Visible(s, offset, space.limit), extras, space.usable, keyLimit);
  }

  predicate HasKey(l: seq<Pair>, key: U32) { exists p :: 0 <= p < |l| && l[p].key == key }

  lemma UpsertFindsRoom(l: seq<Pair>, pair: Pair, usable: nat, keyLimit: U32, key: U32)
    ensures HasKey(l, key) ==> HasKey(Upsert(l, pair, usable, keyLimit), key)
    ensures pair.key != 0 && pair.key < keyLimit ==>
              HasKey(Upsert(l, pair, usable, keyLimit), pair.key) || |Upsert(l, pair, usable, keyLimit)| >= usable
    ensures |l| <= |Upsert(l, pair, usable, keyLimit)|
  {
    var r := Upsert(l, pair, usable, keyLimit);
    if HasKey(l, key) {
      var p :| 0 <= p < |l| && l[p].key == key;
      assert r[p].key == key;
    }
    if Applies(l, pair, usable, keyLimit) {
      assert r[if Find(l, pair.key) < |l| then Find(l, pair.key) else |l|].key == pair.key;
    }
  }

  /** An accepted extra has its key in the list unless the list is full. */
  lemma {:induction false} ExtraFindsRoom(l: seq<Pair>, extras: seq<Pair>, usable: nat, keyLimit: U32, k: nat)
    requires k < |extras| && extras[k].key != 0 && extras[k].key < keyLimit
    ensures var r := UpsertAll(l, extras, usable, keyLimit); HasKey(r, extras[k].key) || |r| >= usable
    decreases |extras|
  {
    hide Upsert, HasKey;
    var n := |extras| - 1;
    var front := UpsertAll(l, extras[..n], usable, keyLimit);
    UpsertFindsRoom(front, extras[n], usable, keyLimit, extras[k].key);
    if k < n { ExtraFindsRoom(l, extras[..n], usable, keyLimit, k); }
  }

  /** The extras whose key is allowed and is in the list. */
  ghost function Present(l: seq<Pair>, extras: seq<Pair>, keyLimit: U32): set<nat>
  {
    set k: nat | k < |extras| && extras[k].key != 0 && extras[k].key < keyLimit && HasKey(l, extras[k].key)
  }

  /** A full list gets no new key. */
  lemma FullStaysFull(l: seq<Pair>, pair: Pair, usable: nat, keyLimit: U32, key: U32)
    requires |l| >= usable
    ensures HasKey(Upsert(l, pair, usable, keyLimit), key) <==> HasKey(l, key)
    ensures Applies(l, pair, usable, keyLimit) <==> pair.key != 0 && pair.key < keyLimit && HasKey(l, pair.key)
  {
    UpsertFindsRoom(l, pair, usable, keyLimit, key);
    var r := Upsert(l, pair, usable, keyLimit);
    if HasKey(r, key) {
      var p :| 0 <= p < |r| && r[p].key == key;
      assert l[p].key == key;
    }
  }

  lemma AppliesIff(l: seq<Pair>, pair: Pair, usable: nat, keyLimit: U32)
    ensures Applies(l, pair, usable, keyLimit) <==>
              pair.key != 0 && pair.key < keyLimit && HasKey(Upsert(l, pair, usable, keyLimit), pair.key)
  {
    if |l| >= usable {
      FullStaysFull(l, pair, usable, keyLimit, pair.key);
    } else {
      UpsertFindsRoom(l, pair, usable, keyLimit, pair.key);
      var r := Upsert(l, pair, usable, keyLimit);
      if Applies(l, pair, usable, keyLimit) {
        assert r[if Find(l, pair.key) < |l| then Find(l, pair.key) else |l|].key == pair.key;
      }
    }
  }

  /** An extra counts as applied exactly when its key is in the final list. */
  lemma {:induction false} AppliedArePresent(l: seq<Pair>, extras: seq<Pair>, usable: nat, keyLimit: U32)
    ensures AppliedCount(l, extras, usable, keyLimit)
            == |Present(UpsertAll(l, extras, usable, keyLimit), extras, keyLimit)|
    decreases |extras|
  {
    if extras == [] {
      assert Present(l, extras, keyLimit) == {};
    } else {
      hide Upsert, Applies, HasKey;
      var n := |extras| - 1;
      var front, all := UpsertAll(l, extras[..n], usable, keyLimit), UpsertAll(l, extras, usable, keyLimit);
      AppliedArePresent(l, extras[..n], usable, keyLimit);
      AppliesIff(front, extras[n], usable, keyLimit);
      forall k: nat | k < n && extras[k].key != 0 && extras[k].key < keyLimit
        ensures HasKey(all, extras[k].key) <==> HasKey(front, extras[k].key)
      {
        ExtraFindsRoom(l, extras[..n], usable, keyLimit, k);
        UpsertFindsRoom(front, extras[n], usable, keyLimit, extras[k].key);
        if |front| >= usable { FullStaysFull(front, extras[n], usable, keyLimit, extras[k].key); }
      }
      PresentStep(front, all, extras, keyLimit);
    }
  }

  lemma PresentStep(front: seq<Pair>, all: seq<Pair>, extras: seq<Pair>, keyLimit: U32)
    requires extras != []
    requires forall k: nat :: k < |extras| - 1 && extras[k].key != 0 && extras[k].key < keyLimit ==>
               (HasKey(all, extras[k].key) <==> HasKey(front, extras[k].key))
    ensures var n := |extras| - 1;
      |Present(all, extras, keyLimit)| == |Present(front, extras[..n], keyLimit)|
        + if extras[n].key != 0 && extras[n].key < keyLimit && HasKey(all, extras[n].key) then 1 else 0
  {
    hide HasKey;
    var n := |extras| - 1;
    var small, big := Present(front, extras[..n], keyLimit), Present(all, extras, keyLimit);
    assert big - {n} == small;
    if n in big { assert big == small + {n}; } else { assert big == small; }
  }

  /** Keys that are not allowed never get into the list, and never change in it. */
  lemma {:induction false} RefusedKeysStay(l: seq<Pair>, extras: seq<Pair>, usable: nat, keyLimit: U32, q: nat)
    requires var r := UpsertAll(l, extras, usable, keyLimit); q < |r| && (r[q].key == 0 || r[q].key >= keyLimit)
    ensures q < |l| && UpsertAll(l, extras, usable, keyLimit)[q] == l[q]
    decreases |extras|
  {
    if extras != [] {
      hide UpsertAll;
      UpsertAllStep(l, extras, usable, keyLimit);
      RefusedKeysStay(l, extras[..|extras| - 1], usable, keyLimit, q);
    }
  }

  lemma UpsertAllStep(l: seq<Pair>, extras: seq<Pair>, usable: nat, keyLimit: U32)
    requires extras != []
    ensures UpsertAll(l, extras, usable, keyLimit)
            == Upsert(UpsertAll(l, extras[..|extras| - 1], usable, keyLimit), extras[|extras| - 1], usable, keyLimit)
  {
    hide Upsert;
  }

  /** No accepted key is dropped while there is room: all `count` pairs when they fit the page, and otherwise all
      whole pairs of the page but the one kept for the terminator. */
  lemma DroppedOnlyWhenFull(s: seq<Byte>, t: seq<Byte>, offset: nat, count: U32, keyLimit: U32, extras: seq<Pair>,
                            r: Result, k: nat)
    requires |s| == |t| && offset + 8 <= |s| && r.status == ReplyOK && count != 0
    requires Answers(s, t, offset, SpaceOf(|s|, offset, count), count, keyLimit, extras, r)
    requires k < |extras| && extras[k].key != 0 && extras[k].key < keyLimit
    ensures offset + 8 * r.pairs <= |s|
    ensures (exists p :: 0 <= p < r.pairs && PairAt(t, offset, p).key == extras[k].key)
            || r.pairs >= if offset + 8 * count <= |s| then count else (|s| - offset) / 8 - 1
  {
    hide PairAt, UpsertAll, AppliedCount, UniqueKeys, NonzeroKeys, SameOutside, EndOf;
    var space := SpaceOf(|s|, offset, count);
    ExtraFindsRoom(Visible(s, offset, space.limit), extras, space.usable, keyLimit, k);
    var l := Visible(t, offset, space.limit);
    if HasKey(l, extras[k].key) {
      var p :| 0 <= p < |l| && l[p].key == extras[k].key;
      assert l[p] == PairAt(t, offset, p);
    }
  }

  lemma SecondAugmentIsIdle(s: seq<Byte>, t: seq<Byte>, u: seq<Byte>, offset: nat, count: U32, keyLimit: U32,
                            extras: seq<Pair>,
                            r: Result, r': Result)
    requires |s| == |t| == |u| && offset + 8 <= |s| && r.status == ReplyOK
    requires Answers(s, t, offset, SpaceOf(|s|, offset, count), count, keyLimit, extras, r)
    requires Answers(t, u, offset, SpaceOf(|s|, offset, count), count, keyLimit, extras, r')
    ensures var limit := SpaceOf(|s|, offset, count).limit;
      r'.status == ReplyOK && Visible(u, offset, limit) == Visible(t, offset, limit) && r'.pairs == r.pairs
  {
    hide PairAt, UpsertAll, AppliedCount, UniqueKeys, NonzeroKeys, SameOutside;
    var space := SpaceOf(|s|, offset, count);
    UpsertAllTwice(Visible(s, offset, space.limit), extras, space.usable, keyLimit);
  }

  lemma SumWraps(a: nat, b: nat)
    ensures (a % (UINT32_MAX + 1) + b % (UINT32_MAX + 1)) % (UINT32_MAX + 1) == (a + b) % (UINT32_MAX + 1)
  {
    var m := UINT32_MAX + 1;
    var q, p := a / m, b / m;
    assert a + b == (q + p) * m + (a % m + b % m);
  }
}

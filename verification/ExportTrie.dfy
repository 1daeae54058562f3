/** `fix_export_trie`: remapping the symbol offsets of an export trie in place, each in exactly the
    bytes it already occupies.  ULEB128: section 7.6 of the DWARF 5 standard. */
module ExportTrie {
  import opened Words
  import opened Wrappers
  import opened Relayout

  type Bytes = seq<Byte>

  datatype Uleb = Uleb(value: nat, next: nat)

  /** `ruleb`; reading past the end raises. */
  function ReadUleb(b: Bytes, p: nat): (r: Option<Uleb>)
    ensures r.Some? ==> p < r.value.next <= |b|
    decreases |b| - p
  {
    if p >= |b| then None
    else if b[p] < 0x80 then Some(Uleb(b[p], p + 1))
    else match ReadUleb(b, p + 1)
         case None => None
         case Some(u) => Some(Uleb(b[p] % 0x80 + 0x80 * u.value, u.next))
  }

  function Pow128(n: nat): (p: nat)
    ensures p > 0
  {
    if n == 0 then 1 else 0x80 * Pow128(n - 1)
  }

  /** The bytes `wpad` writes: `v` in exactly `n` bytes, high bits lost. */
  function Padded(v: int, n: nat): (b: Bytes)
    requires n > 0
    ensures |b| == n
    decreases n
  {
    if n == 1 then [v % 0x80] else [v % 0x80 + 0x80] + Padded(v / 0x80, n - 1)
  }

  /** A padded ULEB128 reads back in as many bytes as it was given, as its value modulo 2^(7n). */
  lemma {:induction false} ReadPadded(b: Bytes, p: nat, v: int, n: nat)
    requires n > 0 && p + n <= |b| && b[p..p + n] == Padded(v, n)
    ensures ReadUleb(b, p) == Some(Uleb(v % Pow128(n), p + n))
    decreases n
  {
    hide Pow128;
    Pow128Step(n);
    var w := b[p..p + n];
    assert b[p] == w[0];
    if n > 1 {
      assert b[p + 1..p + n] == w[1..] == Padded(v / 0x80, n - 1);
      ReadPadded(b, p + 1, v / 0x80, n - 1);
      ContinuedDigit(v, Pow128(n - 1));
    }
  }

  lemma ContinuedDigit(v: int, m: nat)
    requires m > 0
    ensures v % 0x80 + 0x80 >= 0x80
    ensures (v % 0x80 + 0x80) % 0x80 + 0x80 * (v / 0x80 % m) == v % (0x80 * m)
  {
    SplitModulo(v, m);
  }

  lemma Pow128Step(n: nat)
    requires n > 0
    ensures Pow128(n) == 0x80 * Pow128(n - 1) && Pow128(0) == 1
  {
  }

  lemma SplitModulo(v: int, m: nat)
    requires m > 0
    ensures v % 0x80 + 0x80 * (v / 0x80 % m) == v % (0x80 * m)
  {
    var q, r := v / 0x80 / m, v / 0x80 % m;
    assert v / 0x80 == m * q + r;
    assert v == (0x80 * m) * q + (0x80 * r + v % 0x80);
    assert 0x80 * r + v % 0x80 < 0x80 * m;
    RemainderIs(v, 0x80 * m, q, 0x80 * r + v % 0x80);
  }

  lemma RemainderIs(v: int, m: int, q: int, r: int)
    requires m > 0 && v == m * q + r && 0 <= r < m
    ensures v % m == r
  {
    SmallMultiple(m, v / m - q);
  }

  lemma SmallMultiple(m: int, d: int)
    requires m > 0 && -m < m * d < m
    ensures d == 0
  {
  }

  lemma OwnRemainder(v: int, m: nat)
    requires m > 0
    ensures v % m == v <==> 0 <= v < m
  {
  }

  /** The value survives exactly when it fits the bytes. */
  lemma PaddedKeepsValue(b: Bytes, p: nat, v: int, n: nat)
    requires n > 0 && p + n <= |b| && b[p..p + n] == Padded(v, n)
    ensures ReadUleb(b, p).Some? && ReadUleb(b, p).value.next == p + n
    ensures ReadUleb(b, p).value.value == v <==> 0 <= v < Pow128(n)
  {
    hide ReadUleb, Padded, Pow128;
    ReadPadded(b, p, v, n);
    OwnRemainder(v, Pow128(n));
  }

  /** An offset of 128 written over a one-byte field reads as zero. */
  lemma PaddedIsCut()
    ensures Padded(0x80, 1) == [0] && ReadUleb(Padded(0x80, 1), 0) == Some(Uleb(0, 1))
  {
    assert Padded(0x80, 1) == [0];
  }

  // ---------------------------------------------------------------- nodes

  /** The byte after the NUL that ends a name. */
  function SkipName(b: Bytes, p: nat): (r: Option<nat>)
    ensures r.Some? ==> p < r.value <= |b|
    decreases |b| - p
  {
    if p >= |b| then None else if b[p] == 0 then Some(p + 1) else SkipName(b, p + 1)
  }

  datatype Children = Children(nodes: seq<nat>, end: nat)

  /** The child offsets of a node, relative to the trie, from the first edge at `p`. */
  function ReadChildren(b: Bytes, p: nat, count: nat): (r: Option<Children>)
    ensures r.Some? ==> p <= r.value.end && (count > 0 ==> r.value.end <= |b|)
    decreases count
  {
    if count == 0 then Some(Children([], p))
    else match SkipName(b, p)
         case None => None
         case Some(q) =>
           match ReadUleb(b, q)
           case None => None
           case Some(u) =>
             match ReadChildren(b, u.next, count - 1)
             case None => None
             case Some(rest) => Some(Children([u.value] + rest.nodes, rest.end))
  }

  /** The offsets a terminal holds: none for a re-export or an absolute symbol, a second one for a stub
      with a resolver. */
  function FieldsAt(b: Bytes, flags: nat, q: nat): Option<seq<nat>>
  {
    if flags / 8 % 2 == 1 || flags % 4 == 2 then Some([])
    else match ReadUleb(b, q)
         case None => None
         case Some(u) =>
           if flags / 0x10 % 2 == 0 then Some([q])
           else if ReadUleb(b, u.next) == None then None else Some([q, u.next])
  }

  /** How the walk reads one node: where its offset fields start, its children, and the span of the
      bytes it reads before the fields and after the terminal. */
  datatype Node = Node(fields: seq<nat>, children: seq<nat>, head: nat, tail: nat, end: nat)

  function ReadNode(b: Bytes, n: nat): Option<Node>
  {
    match ReadUleb(b, n)
    case None => None
    case Some(size) =>
      var flags := if size.value == 0 then Some(Uleb(0, size.next)) else ReadUleb(b, size.next);
      if flags == None then None
      else
        var fields := if size.value == 0 then Some([]) else FieldsAt(b, flags.value.value, flags.value.next);
        var tail := size.next + size.value;
        if fields == None || tail >= |b| then None
        else match ReadChildren(b, tail + 1, b[tail])
             case None => None
             case Some(c) => Some(Node(fields.value, c.nodes, flags.value.next, tail, c.end))
  }

  /** Byte `i` is one the walk reads as structure of node `n`. */
  predicate IsStructure(b: Bytes, n: nat, i: nat)
  {
    var r := ReadNode(b, n);
    r.Some? && (n <= i < r.value.head || r.value.tail <= i < r.value.end)
  }

  /** Byte `i` belongs to the offset field at `f`. */
  predicate InField(b: Bytes, f: nat, i: nat)
  {
    var u := ReadUleb(b, f);
    u.Some? && f <= i < u.value.next
  }

  // ---------------------------------------------------------------- what a rewrite preserves

  /** Same length and same continuation bits. */
  ghost predicate SameBits(b: Bytes, c: Bytes)
  {
    |b| == |c| && forall i :: 0 <= i < |b| ==> (b[i] >= 0x80) == (c[i] >= 0x80)
  }

  /** The same, and different only inside `w`. */
  ghost predicate SameShape(b: Bytes, c: Bytes, w: set<nat>)
  {
    SameBits(b, c) && forall i :: 0 <= i < |b| && i !in w ==> b[i] == c[i]
  }

  /** Every number occupies as many bytes as before. */
  lemma {:induction false} SameLength(b: Bytes, c: Bytes, p: nat)
    requires SameBits(b, c)
    ensures ReadUleb(b, p).Some? == ReadUleb(c, p).Some?
    ensures ReadUleb(b, p).Some? ==> ReadUleb(b, p).value.next == ReadUleb(c, p).value.next
    decreases |b| - p
  {
    if p < |b| && b[p] >= 0x80 { SameLength(b, c, p + 1); }
  }

  lemma {:induction false} SameNumber(b: Bytes, c: Bytes, w: set<nat>, p: nat)
    requires SameShape(b, c, w)
    requires ReadUleb(b, p).Some? && forall i :: p <= i < ReadUleb(b, p).value.next ==> i !in w
    ensures ReadUleb(b, p) == ReadUleb(c, p)
    decreases |b| - p
  {
    if b[p] >= 0x80 { SameNumber(b, c, w, p + 1); }
  }

  lemma {:induction false} SameName(b: Bytes, c: Bytes, w: set<nat>, p: nat)
    requires SameShape(b, c, w)
    requires SkipName(b, p).Some? && forall i :: p <= i < SkipName(b, p).value ==> i !in w
    ensures SkipName(c, p) == SkipName(b, p)
    decreases |b| - p
  {
    if b[p] != 0 { SameName(b, c, w, p + 1); }
  }

  lemma {:induction false} SameChildren(b: Bytes, c: Bytes, w: set<nat>, p: nat, count: nat)
    requires SameShape(b, c, w)
    requires ReadChildren(b, p, count).Some? && forall i :: p <= i < ReadChildren(b, p, count).value.end ==> i !in w
    ensures ReadChildren(c, p, count) == ReadChildren(b, p, count)
    decreases count
  {
    if count > 0 {
      var q := SkipName(b, p).value;
      SameName(b, c, w, p);
      SameNumber(b, c, w, q);
      SameChildren(b, c, w, ReadUleb(b, q).value.next, count - 1);
    }
  }

  lemma SameFields(b: Bytes, c: Bytes, flags: nat, q: nat)
    requires SameBits(b, c)
    ensures FieldsAt(c, flags, q) == FieldsAt(b, flags, q)
  {
    SameLength(b, c, q);
    if ReadUleb(b, q).Some? { SameLength(b, c, ReadUleb(b, q).value.next); }
  }

  lemma StructureIsOutside(b: Bytes, w: set<nat>, n: nat)
    requires ReadNode(b, n).Some? && forall i :: IsStructure(b, n, i) ==> i !in w
    ensures var r := ReadNode(b, n).value;
            (forall i :: n <= i < r.head ==> i !in w) && (forall i :: r.tail <= i < r.end ==> i !in w)
  {
    hide ReadNode;
    var r := ReadNode(b, n).value;
    assert forall i :: n <= i < r.head ==> IsStructure(b, n, i);
    assert forall i :: r.tail <= i < r.end ==> IsStructure(b, n, i);
  }

  /** Rewriting offset fields within their bytes leaves every node's flags, names, children and field
      positions alone. */
  lemma SameNode(b: Bytes, c: Bytes, w: set<nat>, n: nat)
    requires SameShape(b, c, w) && ReadNode(b, n).Some? && forall i :: IsStructure(b, n, i) ==> i !in w
    ensures ReadNode(c, n) == ReadNode(b, n)
  {
    hide FieldsAt, ReadUleb, ReadChildren, SkipName;
    var r := ReadNode(b, n).value;
    var size := ReadUleb(b, n).value;
    StructureIsOutside(b, w, n);
    SameNumber(b, c, w, n);
    if size.value != 0 {
      SameNumber(b, c, w, size.next);
      SameFields(b, c, ReadUleb(b, size.next).value.value, ReadUleb(b, size.next).value.next);
    }
    SameChildren(b, c, w, r.tail + 1, b[r.tail]);
  }

  // ---------------------------------------------------------------- rewriting the fields of one node

  /** Where the trie is and how its offsets move: `re_base`, the new base and the address map. */
  datatype Trie = Trie(off: nat, reBase: int, nbase: int, deltas: seq<Range>)

  /** `re_base`: the old start of the range that begins at the new base. */
  function ReBase(deltas: seq<Range>, nbase: int): Option<int>
  {
    if deltas == [] then None
    else if deltas[0].lo + deltas[0].d == nbase then Some(deltas[0].lo)
    else ReBase(deltas[1..], nbase)
  }

  /** Over a layout it is the old address of the first segment. */
  lemma ReBaseIsTheFirstSegment(l: Layout)
    requires l.segs != []
    ensures ReBase(Deltas(l, |l.segs|), l.newBase) == Some(l.segs[0].va)
  {
    FirstRange(l, |l.segs|);
  }

  lemma {:induction false} FirstRange(l: Layout, n: nat)
    requires 0 < n <= |l.segs|
    ensures Deltas(l, n) != [] && Deltas(l, n)[0].lo == l.segs[0].va
    ensures Deltas(l, n)[0].d == l.newBase - l.segs[0].va
  {
    if n == 1 {
      assert Deltas(l, 1) == RangesOf(l, 0);
    } else {
      FirstRange(l, n - 1);
    }
  }

  function NewOffset(t: Trie, old_: int): Option<int>
  {
    match Amap(t.deltas, t.reBase + old_)
    case None => None
    case Some(a) => Some(a - t.nbase)
  }

  /** `fixoff` on the bytes. */
  function FixOne(t: Trie, b: Bytes, f: nat): (c: Bytes)
    requires ReadUleb(b, f).Some?
    ensures |c| == |b|
  {
    var u := ReadUleb(b, f).value;
    match NewOffset(t, u.value)
    case None => b
    case Some(v) => b[..f] + Padded(v, u.next - f) + b[u.next..]
  }

  /** Same length and continuation bits, and different only from `lo` to `hi`. */
  ghost predicate ChangedWithin(b: Bytes, c: Bytes, lo: nat, hi: nat)
  {
    SameBits(b, c) && forall i :: 0 <= i < |b| && !(lo <= i < hi) ==> b[i] == c[i]
  }

  /** A padded number has the continuation bits of the number it replaces. */
  lemma {:induction false} PaddedShape(b: Bytes, f: nat, v: int, k: nat)
    requires ReadUleb(b, f).Some? && f + k < ReadUleb(b, f).value.next
    ensures (Padded(v, ReadUleb(b, f).value.next - f)[k] >= 0x80) == (b[f + k] >= 0x80)
    decreases k
  {
    if k > 0 {
      PaddedShape(b, f + 1, v / 0x80, k - 1);
    }
  }

  lemma FixOneShape(t: Trie, b: Bytes, f: nat)
    requires ReadUleb(b, f).Some?
    ensures ChangedWithin(b, FixOne(t, b, f), f, ReadUleb(b, f).value.next)
  {
    hide Padded, ReadUleb;
    match NewOffset(t, ReadUleb(b, f).value.value)
    case None =>
    case Some(v) =>
      var n := ReadUleb(b, f).value.next;
      var c := FixOne(t, b, f);
      forall i | f <= i < n ensures (c[i] >= 0x80) == (b[i] >= 0x80) {
        PaddedShape(b, f, v, i - f);
      }
  }

  /** Field `f` of the original trie now carries its new offset, or its old one when that has none. */
  ghost predicate FieldDone(t: Trie, b: Bytes, c: Bytes, f: nat)
    requires |b| == |c|
  {
    var u := ReadUleb(b, f);
    u.Some? && c[f..u.value.next] ==
      (match NewOffset(t, u.value.value)
       case None => b[f..u.value.next]
       case Some(v) => Padded(v, u.value.next - f))
  }

  ghost predicate FieldIntact(b: Bytes, c: Bytes, f: nat)
    requires |b| == |c|
  {
    var u := ReadUleb(b, f);
    u.Some? && c[f..u.value.next] == b[f..u.value.next]
  }

  /** A field that has been fixed holds, in the same bytes, an offset that leads from the new base to where
      the map sends the address it led to from the old one, exactly when that offset fits the bytes.  An
      address without an image keeps its offset. */
  lemma DoneFieldReads(t: Trie, b: Bytes, c: Bytes, f: nat)
    requires |b| == |c| && FieldDone(t, b, c, f)
    ensures var u := ReadUleb(b, f).value;
            var r, a := ReadUleb(c, f), Amap(t.deltas, t.reBase + u.value);
            && r.Some? && r.value.next == u.next
            && (a == None ==> r.value.value == u.value)
            && (a.Some? ==>
                  (t.nbase + r.value.value == a.value <==> 0 <= a.value - t.nbase < Pow128(u.next - f)))
  {
    hide Padded, Pow128;
    var u := ReadUleb(b, f).value;
    match NewOffset(t, u.value)
    case None => IntactFieldReads(b, c, f);
    case Some(v) => PaddedKeepsValue(c, f, v, u.next - f);
  }

  lemma {:induction false} IntactFieldReads(b: Bytes, c: Bytes, f: nat)
    requires |b| == |c| && FieldIntact(b, c, f)
    ensures ReadUleb(c, f) == ReadUleb(b, f)
    decreases |b| - f
  {
    var n := ReadUleb(b, f).value.next;
    assert c[f] == c[f..n][0] && b[f] == b[f..n][0];
    if b[f] >= 0x80 {
      assert c[f + 1..n] == c[f..n][1..] && b[f + 1..n] == b[f..n][1..];
      IntactFieldReads(b, c, f + 1);
    }
  }

  function FixAll(t: Trie, b: Bytes, fields: seq<nat>): (r: Option<Bytes>)
    decreases |fields|
  {
    if fields == [] then Some(b)
    else if ReadUleb(b, fields[0]) == None then None
    else FixAll(t, FixOne(t, b, fields[0]), fields[1..])
  }

  datatype Visit = Visit(bytes: Bytes, children: seq<nat>)

  /** One iteration of the walk: fix the terminal's offsets, then read the children. */
  function VisitNode(t: Trie, b: Bytes, n: nat): Option<Visit>
  {
    match ReadUleb(b, n)
    case None => None
    case Some(size) =>
      var flags := if size.value == 0 then Some(Uleb(0, size.next)) else ReadUleb(b, size.next);
      if flags == None then None
      else
        var fields := if size.value == 0 then Some([]) else FieldsAt(b, flags.value.value, flags.value.next);
        if fields == None then None
        else match FixAll(t, b, fields.value)
             case None => None
             case Some(c) =>
               var tail := size.next + size.value;
               if tail >= |c| then None
               else match ReadChildren(c, tail + 1, c[tail])
                    case None => None
                    case Some(ch) => Some(Visit(c, ch.nodes))
  }

  // ---------------------------------------------------------------- a whole trie

  ghost predicate HasField(b: Bytes, n: nat, f: nat)
  {
    ReadNode(b, n).Some? && f in ReadNode(b, n).value.fields
  }

  ghost predicate InFields(b: Bytes, nodes: set<nat>, i: nat)
  {
    exists n, f :: n in nodes && HasField(b, n, f) && InField(b, f, i)
  }

  ghost function FieldBytes(b: Bytes, nodes: set<nat>): set<nat>
  {
    set i: nat | 0 <= i < |b| && InFields(b, nodes, i)
  }

  function Offsets(off: nat, children: seq<nat>): (r: seq<nat>)
    ensures |r| == |children|
  {
    if children == [] then [] else [off + children[0]] + Offsets(off, children[1..])
  }

  /** The children of a node as positions in the buffer. */
  ghost function ChildNodes(b: Bytes, off: nat, n: nat): seq<nat>
  {
    match ReadNode(b, n)
    case None => []
    case Some(r) => Offsets(off, r.children)
  }

  /** A set of node offsets that holds the root and the children of its members. */
  ghost predicate Closed(b: Bytes, off: nat, nodes: set<nat>)
  {
    && off in nodes
    && (forall n :: n in nodes ==> ReadNode(b, n).Some?)
    && (forall n, m :: n in nodes && m in ChildNodes(b, off, n) ==> m in nodes)
  }

  /** Every node of a closed set lies in the buffer, no offset field overlaps structure, and no two
      overlap each other.  Nodes may share children and form cycles. */
  ghost predicate WellFormed(b: Bytes, off: nat, nodes: set<nat>)
  {
    && Closed(b, off, nodes)
    && (forall n, i :: n in nodes && IsStructure(b, n, i) ==> !InFields(b, nodes, i))
    && (forall n, m, f, g, i | n in nodes && m in nodes && HasField(b, n, f) && HasField(b, m, g)
                               && InField(b, f, i) && InField(b, g, i) :: n == m && f == g)
  }

  /** Between `b` and `c` exactly the fields in `done` have been fixed and nothing else has changed. */
  ghost predicate Progress(t: Trie, b: Bytes, c: Bytes, nodes: set<nat>, done: set<nat>)
  {
    && SameShape(b, c, FieldBytes(b, nodes))
    && forall n, f :: n in nodes && HasField(b, n, f) ==>
         if f in done then FieldDone(t, b, c, f) else FieldIntact(b, c, f)
  }

  lemma NodeUnchanged(t: Trie, b: Bytes, c: Bytes, nodes: set<nat>, done: set<nat>, n: nat)
    requires WellFormed(b, t.off, nodes) && Progress(t, b, c, nodes, done) && n in nodes
    ensures ReadNode(c, n) == ReadNode(b, n)
  {
    hide ReadNode, IsStructure, InFields;
    forall i | IsStructure(b, n, i) ensures i !in FieldBytes(b, nodes) {
      assert !InFields(b, nodes, i);
    }
    SameNode(b, c, FieldBytes(b, nodes), n);
  }

  lemma FirstByteInField(b: Bytes, f: nat)
    requires ReadUleb(b, f).Some?
    ensures InField(b, f, f)
  {
  }

  /** Fixing one more field. */
  lemma FieldFixed(t: Trie, b: Bytes, c: Bytes, nodes: set<nat>, done: set<nat>, n: nat, f: nat)
    requires WellFormed(b, t.off, nodes) && Progress(t, b, c, nodes, done)
    requires n in nodes && HasField(b, n, f) && f !in done
    ensures ReadUleb(c, f).Some? && Progress(t, b, FixOne(t, c, f), nodes, done + {f})
  {
    hide ReadNode, ReadUleb, Padded, HasField;
    assert FieldIntact(b, c, f);
    IntactFieldReads(b, c, f);
    FixOneShape(t, c, f);
    var d := FixOne(t, c, f);
    var w := FieldBytes(b, nodes);
    forall i | 0 <= i < |b| && i !in w ensures b[i] == d[i] {
      assert !InFields(b, nodes, i);
      assert !InField(b, f, i);
    }
    forall m, g | m in nodes && HasField(b, m, g)
      ensures if g in done + {f} then FieldDone(t, b, d, g) else FieldIntact(b, d, g)
    {
      if g == f {
        FixedFieldIsDone(t, b, c, f);
      } else {
        OtherFieldKept(t, b, c, d, nodes, n, f, m, g);
      }
    }
  }

  lemma FixedFieldIsDone(t: Trie, b: Bytes, c: Bytes, f: nat)
    requires |b| == |c| && FieldIntact(b, c, f) && ReadUleb(c, f) == ReadUleb(b, f)
    ensures FieldDone(t, b, FixOne(t, c, f), f)
  {
    hide Padded, ReadUleb;
  }

  lemma OtherFieldKept(t: Trie, b: Bytes, c: Bytes, d: Bytes, nodes: set<nat>, n: nat, f: nat, m: nat, g: nat)
    requires WellFormed(b, t.off, nodes) && |b| == |c| == |d|
    requires n in nodes && HasField(b, n, f) && m in nodes && HasField(b, m, g) && f != g
    requires ReadUleb(b, f).Some? && ReadUleb(b, g).Some? && ChangedWithin(c, d, f, ReadUleb(b, f).value.next)
    ensures c[g..ReadUleb(b, g).value.next] == d[g..ReadUleb(b, g).value.next]
  {
    hide ReadNode, ReadUleb, HasField, IsStructure, InFields;
    forall i | g <= i < ReadUleb(b, g).value.next ensures c[i] == d[i] {
      assert InField(b, g, i);
      assert !InField(b, f, i);
    }
  }

  function SetOf(xs: seq<nat>): set<nat> { set x | x in xs }

  /** Visiting one node of a well-formed trie fixes its fields and finds its original children. */
  lemma VisitProgresses(t: Trie, b: Bytes, c: Bytes, nodes: set<nat>, done: set<nat>, n: nat)
    requires WellFormed(b, t.off, nodes) && Progress(t, b, c, nodes, done) && n in nodes
    requires forall f :: HasField(b, n, f) ==> f !in done
    ensures var r := ReadNode(b, n).value;
            var v := VisitNode(t, c, n);
            && v.Some? && v.value.children == r.children
            && Progress(t, b, v.value.bytes, nodes, done + SetOf(r.fields))
  {
    hide ReadNode, VisitNode, FixAll, Progress;
    var r := ReadNode(b, n).value;
    NodeUnchanged(t, b, c, nodes, done, n);
    AllFieldsFixed(t, b, c, nodes, done, n);
    var d := FixAll(t, c, r.fields).value;
    NodeUnchanged(t, b, d, nodes, done + SetOf(r.fields), n);
    VisitReads(t, c, d, n);
  }

  lemma VisitReads(t: Trie, c: Bytes, d: Bytes, n: nat)
    requires ReadNode(c, n).Some? && FixAll(t, c, ReadNode(c, n).value.fields) == Some(d)
    requires |c| == |d| && ReadNode(d, n) == ReadNode(c, n)
    ensures VisitNode(t, c, n) == Some(Visit(d, ReadNode(c, n).value.children))
  {
    hide ReadUleb, FixAll, FieldsAt, ReadChildren;
  }

  lemma FieldShapes(b: Bytes, n: nat)
    requires ReadNode(b, n).Some?
    ensures var fs := ReadNode(b, n).value.fields;
            |fs| == 0 || |fs| == 1 || (|fs| == 2 && fs[0] != fs[1])
  {
    hide ReadChildren;
  }

  lemma AllFieldsFixed(t: Trie, b: Bytes, c: Bytes, nodes: set<nat>, done: set<nat>, n: nat)
    requires WellFormed(b, t.off, nodes) && Progress(t, b, c, nodes, done) && n in nodes
    requires ReadNode(b, n).Some? && forall f :: HasField(b, n, f) ==> f !in done
    ensures var fs := ReadNode(b, n).value.fields;
            var d := FixAll(t, c, fs);
            d.Some? && |d.value| == |c| && Progress(t, b, d.value, nodes, done + SetOf(fs))
  {
    hide ReadNode, ReadUleb, FixOne, Progress, WellFormed;
    var fs := ReadNode(b, n).value.fields;
    FieldShapes(b, n);
    if fs == [] {
      assert done + SetOf(fs) == done;
    } else {
      assert HasField(b, n, fs[0]);
      FieldFixed(t, b, c, nodes, done, n, fs[0]);
      var d := FixOne(t, c, fs[0]);
      if |fs| == 1 {
        assert fs[1..] == [];
        assert done + SetOf(fs) == done + {fs[0]};
      } else {
        assert HasField(b, n, fs[1]);
        FieldFixed(t, b, d, nodes, done + {fs[0]}, n, fs[1]);
        assert fs[1..] == [fs[1]] && fs[1..][1..] == [];
        var e := FixOne(t, d, fs[1]);
        assert FixAll(t, e, []) == Some(e);
        assert FixAll(t, d, [fs[1]]) == Some(e);
        assert done + SetOf(fs) == done + {fs[0]} + {fs[1]};
      }
    }
  }

  // ---------------------------------------------------------------- the walk over the buffer

  /** A number whose low digits have been read already. */
  function Extend(rest: Option<Uleb>, acc: nat, scale: nat): Option<Uleb>
  {
    match rest
    case None => None
    case Some(u) => Some(Uleb(acc + scale * u.value, u.next))
  }

  lemma ExtendDigit(acc: nat, scale: nat, digit: nat, v: nat)
    ensures acc + scale * (digit + 0x80 * v) == (acc + scale * digit) + (scale * 0x80) * v
  {
  }

  lemma ExtendStep(b: Bytes, q: nat, acc: nat, scale: nat)
    requires q < |b| && b[q] >= 0x80
    ensures Extend(ReadUleb(b, q), acc, scale) == Extend(ReadUleb(b, q + 1), acc + scale * (b[q] % 0x80), scale * 0x80)
  {
    var rest := ReadUleb(b, q + 1);
    if rest.Some? { ExtendDigit(acc, scale, b[q] % 0x80, rest.value.value); }
  }

  lemma ExtendLast(b: Bytes, q: nat, acc: nat, scale: nat)
    ensures q < |b| && b[q] < 0x80 ==> Extend(ReadUleb(b, q), acc, scale) == Some(Uleb(acc + scale * b[q], q + 1))
    ensures q >= |b| ==> Extend(ReadUleb(b, q), acc, scale) == None
  {
  }

  lemma ExtendNothing(r: Option<Uleb>)
    ensures Extend(r, 0, 1) == r
  {
  }

  /** `ruleb` */
  method Ruleb(buf: array<Byte>, p: nat) returns (r: Option<Uleb>)
    ensures r == ReadUleb(buf[..], p)
  {
    hide ReadUleb, Extend;
    var acc: nat, scale: nat, q := 0, 1, p;
    ExtendNothing(ReadUleb(buf[..], p));
    while q < buf.Length && buf[q] >= 0x80
      invariant p <= q
      invariant ReadUleb(buf[..], p) == Extend(ReadUleb(buf[..], q), acc, scale)
    {
      ExtendStep(buf[..], q, acc, scale);
      acc, scale, q := acc + scale * (buf[q] % 0x80), scale * 0x80, q + 1;
    }
    ExtendLast(buf[..], q, acc, scale);
    r := if q < buf.Length then Some(Uleb(acc + scale * buf[q], q + 1)) else None;
  }

  /** `val >> (7 * i)` */
  function Shifted(val: int, i: nat): int
  {
    if i == 0 then val else Shifted(val, i - 1) / 0x80
  }

  lemma {:induction false} ShiftedInside(val: int, i: nat)
    requires i > 0
    ensures Shifted(val, i) == Shifted(val / 0x80, i - 1)
  {
    if i > 1 { ShiftedInside(val, i - 1); }
  }

  lemma {:induction false} PaddedDigit(val: int, n: nat, i: nat)
    requires i < n
    ensures Padded(val, n)[i] == Shifted(val, i) % 0x80 + (if i < n - 1 then 0x80 else 0)
    decreases n
  {
    if i > 0 {
      ShiftedInside(val, i);
      PaddedDigit(val / 0x80, n - 1, i - 1);
    }
  }

  /** `wpad` */
  method Wpad(buf: array<Byte>, p: nat, val: int, n: nat)
    requires n > 0 && p + n <= buf.Length
    modifies buf
    ensures buf[..] == old(buf[..p]) + Padded(val, n) + old(buf[p + n..])
  {
    hide Padded, Shifted;
    for i := 0 to n
      invariant forall x :: 0 <= x < i ==> buf[p + x] == Padded(val, n)[x]
      invariant forall x :: 0 <= x < buf.Length && !(p <= x < p + i) ==> buf[x] == old(buf[x])
    {
      PaddedDigit(val, n, i);
      buf[p + i] := Shifted(val, i) % 0x80 + (if i < n - 1 then 0x80 else 0);
    }
    assert buf[p..p + n] == Padded(val, n);
    assert buf[..] == buf[..p] + buf[p..p + n] + buf[p + n..];
  }

  method FixOff(t: Trie, buf: array<Byte>, f: nat) returns (ok: bool)
    modifies buf
    ensures ok == ReadUleb(old(buf[..]), f).Some?
    ensures buf[..] == if ok then FixOne(t, old(buf[..]), f) else old(buf[..])
  {
    var u := Ruleb(buf, f);
    if u == None { return false; }
    var v := NewOffset(t, u.value.value);
    if v.Some? { Wpad(buf, f, v.value, u.value.next - f); }
    return true;
  }

  function Prepend(nodes: seq<nat>, r: Option<Children>): Option<Children>
  {
    match r
    case None => None
    case Some(c) => Some(Children(nodes + c.nodes, c.end))
  }

  lemma PrependNothing(r: Option<Children>)
    ensures Prepend([], r) == r
  {
    if r.Some? { assert [] + r.value.nodes == r.value.nodes; }
  }

  lemma PrependEdge(b: Bytes, nodes: seq<nat>, cp: nat, k: nat)
    requires k > 0
    ensures var q := SkipName(b, cp);
            Prepend(nodes, ReadChildren(b, cp, k)) ==
              if q == None || ReadUleb(b, q.value) == None then None
              else var u := ReadUleb(b, q.value).value;
                   Prepend(nodes + [u.value], ReadChildren(b, u.next, k - 1))
  {
    hide SkipName, ReadUleb;
    var q := SkipName(b, cp);
    if q.Some? && ReadUleb(b, q.value).Some? {
      var u := ReadUleb(b, q.value).value;
      var rest := ReadChildren(b, u.next, k - 1);
      if rest.Some? { assert nodes + ([u.value] + rest.value.nodes) == nodes + [u.value] + rest.value.nodes; }
    }
  }

  method SkipNameAt(buf: array<Byte>, p: nat) returns (r: Option<nat>)
    ensures r == SkipName(buf[..], p)
  {
    var q := p;
    while q < buf.Length && buf[q] != 0
      invariant p <= q && SkipName(buf[..], p) == SkipName(buf[..], q)
    {
      q := q + 1;
    }
    r := if q < buf.Length then Some(q + 1) else None;
  }

  /** The loop over a node's edges. */
  method ChildrenAt(buf: array<Byte>, p: nat, count: nat) returns (r: Option<seq<nat>>)
    ensures r == match ReadChildren(buf[..], p, count) case None => None case Some(c) => Some(c.nodes)
  {
    hide SkipName, ReadUleb;
    var nodes: seq<nat>, cp, k := [], p, count;
    PrependNothing(ReadChildren(buf[..], p, count));
    while k > 0
      invariant ReadChildren(buf[..], p, count) == Prepend(nodes, ReadChildren(buf[..], cp, k))
    {
      PrependEdge(buf[..], nodes, cp, k);
      var q := SkipNameAt(buf, cp);
      if q == None { return None; }
      var u := Ruleb(buf, q.value);
      if u == None { return None; }
      nodes, cp, k := nodes + [u.value.value], u.value.next, k - 1;
    }
    assert nodes + [] == nodes;
    return Some(nodes);
  }

  method FixFields(t: Trie, buf: array<Byte>, flags: nat, q: nat) returns (ok: bool)
    modifies buf
    ensures var fs := FieldsAt(old(buf[..]), flags, q);
            ok == (fs.Some? && FixAll(t, old(buf[..]), fs.value).Some?)
            && (ok ==> Some(buf[..]) == FixAll(t, old(buf[..]), fs.value))
  {
    if flags / 8 % 2 == 1 || flags % 4 == 2 { return true; }
    ghost var b := buf[..];
    ok := FixOff(t, buf, q);
    if !ok { return; }
    ghost var c := buf[..];
    FixOneShape(t, b, q);
    SameLength(b, c, q);
    if flags / 0x10 % 2 == 1 {
      var first := Ruleb(buf, q);
      SameLength(b, c, first.value.next);
      ok := FixOff(t, buf, first.value.next);
      if ok { TwoFields(t, b, c, buf[..], q, first.value.next); }
    } else {
      OneField(t, b, c, q);
    }
  }

  lemma OneField(t: Trie, b: Bytes, c: Bytes, q: nat)
    requires ReadUleb(b, q).Some? && c == FixOne(t, b, q)
    ensures FixAll(t, b, [q]) == Some(c)
  {
    assert [q][1..] == [];
  }

  lemma TwoFields(t: Trie, b: Bytes, c: Bytes, d: Bytes, q: nat, q2: nat)
    requires ReadUleb(b, q).Some? && c == FixOne(t, b, q) && ReadUleb(c, q2).Some? && d == FixOne(t, c, q2)
    ensures FixAll(t, b, [q, q2]) == Some(d)
  {
    hide FixOne, ReadUleb;
    assert [q, q2][1..] == [q2] && [q2][1..] == [];
    assert FixAll(t, d, []) == Some(d);
    assert FixAll(t, c, [q2]) == Some(d);
  }

  /** One iteration of the walk on the buffer itself; a read past the end raises. */
  method VisitAt(t: Trie, buf: array<Byte>, n: nat) returns (r: Option<seq<nat>>)
    modifies buf
    ensures match VisitNode(t, old(buf[..]), n)
            case None => r == None
            case Some(v) => r == Some(v.children) && buf[..] == v.bytes
  {
    hide ReadUleb, FieldsAt, FixAll, ReadChildren;
    var size := Ruleb(buf, n);
    if size == None { return None; }
    if size.value.value != 0 {
      var flags := Ruleb(buf, size.value.next);
      if flags == None { return None; }
      var ok := FixFields(t, buf, flags.value.value, flags.value.next);
      if !ok { return None; }
    } else {
      NothingToFix(t, buf[..]);
    }
    var p := size.value.next + size.value.value;
    if p >= buf.Length { return None; }
    r := ChildrenAt(buf, p + 1, buf[p]);
  }

  lemma NothingToFix(t: Trie, b: Bytes)
    ensures FixAll(t, b, []) == Some(b)
  {
  }

  /** The state of the walk over a well-formed trie: visited nodes are fixed, the rest are untouched,
      and the children of a visited node are visited or waiting. */
  ghost predicate WalkInv(t: Trie, b: Bytes, c: Bytes, nodes: set<nat>, stack: seq<nat>, seen: set<nat>, done: set<nat>)
  {
    && Progress(t, b, c, nodes, done)
    && seen <= nodes && (forall n :: n in stack ==> n in nodes)
    && (t.off in seen || t.off in stack)
    && (forall n, f :: n in nodes && HasField(b, n, f) ==> (f in done <==> n in seen))
    && Waiting(t, b, stack, seen)
  }

  ghost predicate Waiting(t: Trie, b: Bytes, stack: seq<nat>, seen: set<nat>)
  {
    forall n, m :: n in seen && m in ChildNodes(b, t.off, n) ==> m in seen || m in stack
  }

  /** Visiting a waiting node keeps the invariant. */
  lemma WalkStep(t: Trie, b: Bytes, c: Bytes, nodes: set<nat>, stack: seq<nat>, seen: set<nat>, done: set<nat>, n: nat)
    requires WellFormed(b, t.off, nodes) && n in nodes && n !in seen
    requires WalkInv(t, b, c, nodes, stack + [n], seen, done)
    ensures var v := VisitNode(t, c, n);
            && v.Some? && v.value.children == ReadNode(b, n).value.children
            && WalkInv(t, b, v.value.bytes, nodes, stack + ChildNodes(b, t.off, n), seen + {n},
                       done + SetOf(ReadNode(b, n).value.fields))
  {
    hide VisitNode, ReadNode, IsStructure, InFields, Progress;
    VisitProgresses(t, b, c, nodes, done, n);
    var done' := done + SetOf(ReadNode(b, n).value.fields);
    var stack' := stack + ChildNodes(b, t.off, n);
    assert forall x :: x in stack + [n] <==> x in stack || x == n;
    assert forall x :: x in stack' <==> x in stack || x in ChildNodes(b, t.off, n);
    forall m, f | m in nodes && HasField(b, m, f) ensures f in done' <==> m in seen + {n} {
      FieldOwner(b, t.off, nodes, n, m, f);
    }
  }

  lemma FieldOwner(b: Bytes, off: nat, nodes: set<nat>, n: nat, m: nat, f: nat)
    requires WellFormed(b, off, nodes) && n in nodes && m in nodes && HasField(b, m, f)
    ensures f in ReadNode(b, n).value.fields <==> m == n
  {
    hide IsStructure, InFields, ReadUleb, ReadNode;
    FieldIsReadable(b, m, f);
    FirstByteInField(b, f);
    if f in ReadNode(b, n).value.fields {
      assert HasField(b, n, f);
    }
  }

  lemma FieldIsReadable(b: Bytes, n: nat, f: nat)
    requires HasField(b, n, f)
    ensures ReadUleb(b, f).Some?
  {
    hide ReadUleb, ReadChildren;
  }

  /** A node waiting twice is skipped the second time. */
  lemma WalkSkip(t: Trie, b: Bytes, c: Bytes, nodes: set<nat>, stack: seq<nat>, seen: set<nat>, done: set<nat>, n: nat)
    requires WalkInv(t, b, c, nodes, stack + [n], seen, done) && n in seen
    ensures WalkInv(t, b, c, nodes, stack, seen, done)
  {
    hide Progress, ReadNode;
    assert forall x :: x in stack + [n] <==> x in stack || x == n;
  }

  /** Everything the walk promises of a trie whose nodes are well formed.  The visited nodes are a closed set:
      they hold the root and their own children, and lie among those nodes.  Each of them has the
      flags, names, children and field positions it had, every field of theirs has been fixed once, every
      number has its length, and no other byte has changed. */
  ghost predicate Remapped(t: Trie, b: Bytes, c: Bytes, nodes: set<nat>, seen: set<nat>)
  {
    && SameBits(b, c) && seen <= nodes && Closed(b, t.off, seen)
    && (forall n :: n in seen ==> ReadNode(c, n) == ReadNode(b, n))
    && (forall n, f :: n in seen && HasField(b, n, f) ==> FieldDone(t, b, c, f))
    && (forall i :: 0 <= i < |b| && !InFields(b, seen, i) ==> c[i] == b[i])
  }

  lemma WalkEnds(t: Trie, b: Bytes, c: Bytes, nodes: set<nat>, seen: set<nat>, done: set<nat>)
    requires WellFormed(b, t.off, nodes) && WalkInv(t, b, c, nodes, [], seen, done)
    ensures Remapped(t, b, c, nodes, seen)
  {
    hide ReadNode, IsStructure, InFields, HasField, InField, ReadUleb;
    forall n | n in seen ensures ReadNode(c, n) == ReadNode(b, n) {
      NodeUnchanged(t, b, c, nodes, done, n);
    }
    forall i | 0 <= i < |b| && !InFields(b, seen, i) ensures c[i] == b[i] {
      UntouchedByte(t, b, c, nodes, seen, done, i);
    }
  }

  lemma UntouchedByte(t: Trie, b: Bytes, c: Bytes, nodes: set<nat>, seen: set<nat>, done: set<nat>, i: nat)
    requires Progress(t, b, c, nodes, done) && i < |b| && !InFields(b, seen, i)
    requires forall n, f :: n in nodes && HasField(b, n, f) ==> (f in done <==> n in seen)
    ensures c[i] == b[i]
  {
    hide ReadNode, HasField, ReadUleb;
    if InFields(b, nodes, i) {
      var n: nat, f: nat :| n in nodes && HasField(b, n, f) && InField(b, f, i);
      assert FieldIntact(b, c, f);
      var e := ReadUleb(b, f).value.next;
      assert c[i] == c[f..e][i - f] && b[i] == b[f..e][i - f];
    }
  }

  /** Positions of the buffer not visited yet. */
  ghost function Unseen(size: nat, seen: set<nat>): set<nat>
  {
    set i: nat | 0 <= i < size && i !in seen
  }

  method OffsetsOf(off: nat, children: seq<nat>) returns (r: seq<nat>)
    ensures r == Offsets(off, children)
  {
    r := [];
    for i := 0 to |children|
      invariant r + Offsets(off, children[i..]) == Offsets(off, children)
    {
      assert children[i..][1..] == children[i + 1..];
      r := r + [off + children[i]];
    }
  }

  /** `fix_export_trie`: the walk.  It ends on every buffer, malformed or not; on a trie with a
      well-formed set of nodes it does not raise and does what `Remapped` says. */
  method FixTrie(t: Trie, buf: array<Byte>, ghost nodes: set<nat>) returns (ok: bool, ghost seen: set<nat>)
    modifies buf
    ensures WellFormed(old(buf[..]), t.off, nodes) ==> ok && Remapped(t, old(buf[..]), buf[..], nodes, seen)
  {
    hide WellFormed, WalkInv, Remapped, VisitNode, ChildNodes, ReadNode;
    ghost var b := buf[..];
    ghost var wf := WellFormed(b, t.off, nodes);
    ghost var done: set<nat> := {};
    var stack: seq<nat>, visited: set<nat> := [t.off], {};
    if wf { WalkStarts(t, b, nodes); }
    while stack != []
      invariant wf ==> WalkInv(t, b, buf[..], nodes, stack, visited, done)
      decreases Unseen(buf.Length, visited), |stack|
    {
      var n := stack[|stack| - 1];
      ghost var before := stack;
      stack := stack[..|stack| - 1];
      assert before == stack + [n];
      if n in visited {
        if wf { WalkSkip(t, b, buf[..], nodes, stack, visited, done, n); }
      } else {
        if n >= buf.Length { OutsideIsMalformed(t, b, buf[..], nodes, stack, visited, done, n); return false, visited; }
        if wf { NextIsNode(t, b, buf[..], nodes, stack, visited, done, n); }
        assert n in Unseen(buf.Length, visited);
        visited := visited + {n};
        var children := VisitAt(t, buf, n);
        if children == None { return false, visited; }
        var more := OffsetsOf(t.off, children.value);
        stack := stack + more;
        done := done + SetOf(if ReadNode(b, n).Some? then ReadNode(b, n).value.fields else []);
      }
    }
    if wf { WalkEnds(t, b, buf[..], nodes, visited, done); }
    return true, visited;
  }

  lemma WalkStarts(t: Trie, b: Bytes, nodes: set<nat>)
    requires WellFormed(b, t.off, nodes)
    ensures WalkInv(t, b, b, nodes, [t.off], {}, {})
  {
    hide ReadNode, ReadUleb, IsStructure, InFields;
    forall n, f | n in nodes && HasField(b, n, f) ensures FieldIntact(b, b, f) {
      FieldIsReadable(b, n, f);
    }
  }

  lemma OutsideIsMalformed(t: Trie, b: Bytes, c: Bytes, nodes: set<nat>, stack: seq<nat>, seen: set<nat>,
                           done: set<nat>, n: nat)
    requires n >= |c|
    ensures !(WellFormed(b, t.off, nodes) && WalkInv(t, b, c, nodes, stack + [n], seen, done))
  {
    hide ReadUleb, ReadChildren, IsStructure, InFields;
    OutsideIsUnreadable(b, n);
    assert n in stack + [n];
  }

  lemma OutsideIsUnreadable(b: Bytes, n: nat)
    ensures n >= |b| ==> ReadUleb(b, n) == None
  {
  }

  lemma NextIsNode(t: Trie, b: Bytes, c: Bytes, nodes: set<nat>, stack: seq<nat>, seen: set<nat>, done: set<nat>,
                   n: nat)
    requires WellFormed(b, t.off, nodes) && WalkInv(t, b, c, nodes, stack + [n], seen, done) && n !in seen
    ensures ReadNode(b, n).Some?
    ensures var v := VisitNode(t, c, n);
            && v.Some? && ChildNodes(b, t.off, n) == Offsets(t.off, v.value.children)
            && WalkInv(t, b, v.value.bytes, nodes, stack + Offsets(t.off, v.value.children), seen + {n},
                       done + SetOf(ReadNode(b, n).value.fields))
  {
    hide VisitNode, ReadNode, IsStructure, InFields, Progress, HasField;
    assert n in stack + [n];
    WalkStep(t, b, c, nodes, stack, seen, done, n);
  }

  // ---------------------------------------------------------------- what the loader finds

  datatype Edge = Edge(name: Bytes, child: nat)

  /** The edges of a node, each with its name. */
  function Edges(b: Bytes, p: nat, count: nat): Option<seq<Edge>>
    decreases count
  {
    if count == 0 then Some([])
    else match SkipName(b, p)
         case None => None
         case Some(q) =>
           match ReadUleb(b, q)
           case None => None
           case Some(u) =>
             match Edges(b, u.next, count - 1)
             case None => None
             case Some(rest) => Some([Edge(b[p..q - 1], u.value)] + rest)
  }

  /** The first edge whose name begins the symbol. */
  function Match(edges: seq<Edge>, symbol: Bytes): (r: Option<Edge>)
    ensures r.Some? ==> r.value in edges && r.value.name <= symbol
  {
    if edges == [] then None
    else if edges[0].name <= symbol then Some(edges[0])
    else Match(edges[1..], symbol)
  }

  /** The loader's search: the terminal of a symbol, by the names along its path.  An empty edge leads
      nowhere. */
  function Lookup(b: Bytes, off: nat, n: nat, symbol: Bytes): Option<nat>
    decreases |symbol|
  {
    match ReadUleb(b, n)
    case None => None
    case Some(size) =>
      if symbol == [] then if size.value == 0 then None else Some(size.next)
      else if size.next + size.value >= |b| then None
      else match Edges(b, size.next + size.value + 1, b[size.next + size.value])
           case None => None
           case Some(edges) =>
             match Match(edges, symbol)
             case None => None
             case Some(e) => if e.name == [] then None else Lookup(b, off, off + e.child, symbol[|e.name|..])
  }

  /** An address of the image and how many bytes its offset takes. */
  datatype Target = Target(address: int, bytes: nat)

  /** What a terminal exports: something of another image or a bare number, an address, or a stub and its
      resolver. */
  datatype Export = Elsewhere | Here(target: Target) | Resolved(stub: Target, resolver: Target)

  function TargetAt(b: Bytes, base: int, f: nat): Option<Target>
  {
    match ReadUleb(b, f)
    case None => None
    case Some(u) => Some(Target(base + u.value, u.next - f))
  }

  /** How the loader of an image at `base` reads the terminal at `q`. */
  function ExportAt(b: Bytes, base: int, q: nat): Option<Export>
  {
    match ReadUleb(b, q)
    case None => None
    case Some(flags) =>
      if flags.value / 8 % 2 == 1 || flags.value % 4 == 2 then Some(Elsewhere)
      else
        match TargetAt(b, base, flags.next)
        case None => None
        case Some(x) =>
          if flags.value / 16 % 2 == 0 then Some(Here(x))
          else match TargetAt(b, base, flags.next + x.bytes)
               case None => None
               case Some(y) => Some(Resolved(x, y))
  }

  /** The new address is the image of the old one, exactly when its offset fits the bytes. */
  ghost predicate Follows(t: Trie, x: Target, y: Target)
  {
    && y.bytes == x.bytes
    && match Amap(t.deltas, x.address)
       case None => y.address - t.nbase == x.address - t.reBase
       case Some(a) => y.address == a <==> 0 <= a - t.nbase < Pow128(x.bytes)
  }

  ghost predicate ExportFollows(t: Trie, x: Export, y: Export)
  {
    match x
    case Elsewhere => y == Elsewhere
    case Here(a) => y.Here? && Follows(t, a, y.target)
    case Resolved(s, r) => y.Resolved? && Follows(t, s, y.stub) && Follows(t, r, y.resolver)
  }

  lemma {:induction false} EdgesAreChildren(b: Bytes, p: nat, count: nat)
    ensures Edges(b, p, count).Some? <==> ReadChildren(b, p, count).Some?
    ensures Edges(b, p, count).Some? ==>
              forall e <- Edges(b, p, count).value :: e.child in ReadChildren(b, p, count).value.nodes
    decreases count
  {
    hide ReadUleb, SkipName;
    if count > 0 && SkipName(b, p).Some? && ReadUleb(b, SkipName(b, p).value).Some? {
      EdgesAreChildren(b, ReadUleb(b, SkipName(b, p).value).value.next, count - 1);
    }
  }

  lemma SameSlice(b: Bytes, c: Bytes, w: set<nat>, lo: nat, hi: nat)
    requires SameShape(b, c, w) && lo <= hi <= |b| && forall i :: lo <= i < hi ==> i !in w
    ensures c[lo..hi] == b[lo..hi]
  {
  }

  lemma EdgesStep(b: Bytes, p: nat, count: nat)
    requires count > 0 && ReadChildren(b, p, count).Some?
    ensures SkipName(b, p).Some? && ReadUleb(b, SkipName(b, p).value).Some?
    ensures var q := SkipName(b, p).value; var u := ReadUleb(b, q).value;
      && p < q < u.next && ReadChildren(b, u.next, count - 1).Some?
      && ReadChildren(b, u.next, count - 1).value.end == ReadChildren(b, p, count).value.end >= u.next
      && Edges(b, p, count) == match Edges(b, u.next, count - 1)
                               case None => None
                               case Some(rest) => Some([Edge(b[p..q - 1], u.value)] + rest)
  {
    hide SkipName, ReadUleb;
  }

  /** Edges agree when their first names, their first children and the rest of them do. */
  lemma EdgesAgree(b: Bytes, c: Bytes, p: nat, count: nat)
    requires count > 0 && ReadChildren(b, p, count).Some? && ReadChildren(c, p, count).Some? && |b| == |c|
    requires SkipName(c, p) == SkipName(b, p) && SkipName(b, p).Some?
    requires ReadUleb(c, SkipName(b, p).value) == ReadUleb(b, SkipName(b, p).value)
    requires b[p..SkipName(b, p).value - 1] == c[p..SkipName(b, p).value - 1]
    requires ReadUleb(b, SkipName(b, p).value).Some?
    requires var n := ReadUleb(b, SkipName(b, p).value).value.next; Edges(c, n, count - 1) == Edges(b, n, count - 1)
    ensures Edges(c, p, count) == Edges(b, p, count)
  {
    EdgesStep(b, p, count);
    EdgesStep(c, p, count);
    hide *;
  }

  lemma {:induction false} SameEdges(b: Bytes, c: Bytes, w: set<nat>, p: nat, count: nat)
    requires SameShape(b, c, w)
    requires ReadChildren(b, p, count).Some? && forall i :: p <= i < ReadChildren(b, p, count).value.end ==> i !in w
    ensures Edges(c, p, count) == Edges(b, p, count)
    decreases count
  {
    if count > 0 {
      hide Edges, SkipName, ReadUleb, ReadChildren;
      EdgesStep(b, p, count);
      SameChildren(b, c, w, p, count);
      var q := SkipName(b, p).value;
      SameName(b, c, w, p);
      SameNumber(b, c, w, q);
      SameEdges(b, c, w, ReadUleb(b, q).value.next, count - 1);
      SameSlice(b, c, w, p, q - 1);
      EdgesAgree(b, c, p, count);
    }
  }

  lemma {:induction false} ChildrenAreOffset(off: nat, children: seq<nat>, x: nat)
    requires x in children
    ensures off + x in Offsets(off, children)
  {
    if x == children[0] {
      assert Offsets(off, children)[0] == off + x;
    } else {
      ChildrenAreOffset(off, children[1..], x);
    }
  }

  lemma RemappedShape(t: Trie, b: Bytes, c: Bytes, nodes: set<nat>, seen: set<nat>, n: nat)
    requires WellFormed(b, t.off, nodes) && Remapped(t, b, c, nodes, seen) && n in seen
    ensures SameShape(b, c, FieldBytes(b, seen)) && ReadNode(b, n).Some?
    ensures forall i :: IsStructure(b, n, i) ==> i !in FieldBytes(b, seen)
  {
    hide ReadNode, HasField, InField, IsStructure;
  }

  /** What reading a node reads. */
  lemma NodeParts(b: Bytes, n: nat)
    requires ReadNode(b, n).Some?
    ensures ReadUleb(b, n).Some?
    ensures var r, size := ReadNode(b, n).value, ReadUleb(b, n).value;
      && r.tail == size.next + size.value < |b|
      && ReadChildren(b, r.tail + 1, b[r.tail]) == Some(Children(r.children, r.end))
      && (if size.value == 0 then r.head == size.next && r.fields == [] else
            var flags := ReadUleb(b, size.next);
            flags.Some? && r.head == flags.value.next
            && FieldsAt(b, flags.value.value, flags.value.next) == Some(r.fields))
  {
    hide FieldsAt, ReadUleb, ReadChildren;
  }

  lemma ChildrenEndLater(b: Bytes, p: nat, count: nat)
    requires ReadChildren(b, p, count).Some?
    ensures p <= ReadChildren(b, p, count).value.end
  {
    hide ReadUleb, SkipName, ReadChildren;
  }

  /** One step of the search is the same before and after, and leads to visited nodes. */
  lemma NodeLooksAlike(t: Trie, b: Bytes, c: Bytes, nodes: set<nat>, seen: set<nat>, n: nat)
      returns (size: Uleb, edges: seq<Edge>)
    requires WellFormed(b, t.off, nodes) && Remapped(t, b, c, nodes, seen) && n in seen
    ensures ReadUleb(c, n) == ReadUleb(b, n) == Some(size)
    ensures size.next + size.value < |b| == |c| && c[size.next + size.value] == b[size.next + size.value]
    ensures Edges(c, size.next + size.value + 1, c[size.next + size.value]) == Some(edges)
    ensures Edges(b, size.next + size.value + 1, b[size.next + size.value]) == Some(edges)
    ensures forall e <- edges :: t.off + e.child in seen
  {
    hide *;
    RemappedShape(t, b, c, nodes, seen, n);
    NodeParts(b, n);
    var r := ReadNode(b, n).value;
    size := ReadUleb(b, n).value;
    SameTail(b, c, FieldBytes(b, seen), n);
    EdgesAreChildren(b, r.tail + 1, b[r.tail]);
    edges := Edges(b, r.tail + 1, b[r.tail]).value;
    forall e | e in edges ensures t.off + e.child in seen {
      ChildIsSeen(t, b, c, nodes, seen, n, e.child);
    }
  }

  lemma SameTail(b: Bytes, c: Bytes, w: set<nat>, n: nat)
    requires SameShape(b, c, w) && ReadNode(b, n).Some? && forall i :: IsStructure(b, n, i) ==> i !in w
    ensures |c| == |b| && ReadUleb(b, n).Some? && ReadUleb(c, n) == ReadUleb(b, n)
    ensures var tail := ReadNode(b, n).value.tail;
      tail < |b| && c[tail] == b[tail] && Edges(c, tail + 1, b[tail]) == Edges(b, tail + 1, b[tail])
  {
    NodeParts(b, n);
    StructureIsOutside(b, w, n);
    hide ReadNode, IsStructure, ReadUleb, ReadChildren, Edges, FieldsAt;
    var r := ReadNode(b, n).value;
    ChildrenEndLater(b, r.tail + 1, b[r.tail]);
    SameNumber(b, c, w, n);
    SameEdges(b, c, w, r.tail + 1, b[r.tail]);
  }

  lemma ChildIsSeen(t: Trie, b: Bytes, c: Bytes, nodes: set<nat>, seen: set<nat>, n: nat, x: nat)
    requires Remapped(t, b, c, nodes, seen) && n in seen && ReadNode(b, n).Some? && x in ReadNode(b, n).value.children
    ensures t.off + x in seen
  {
    ChildrenAreOffset(t.off, ReadNode(b, n).value.children, x);
    hide ReadNode, Offsets;
    assert t.off + x in ChildNodes(b, t.off, n);
  }

  lemma LookupStep(b: Bytes, off: nat, n: nat, symbol: Bytes, size: Uleb, edges: seq<Edge>)
    requires ReadUleb(b, n) == Some(size) && size.next + size.value < |b|
    requires Edges(b, size.next + size.value + 1, b[size.next + size.value]) == Some(edges)
    ensures Lookup(b, off, n, symbol) ==
            if symbol == [] then if size.value == 0 then None else Some(size.next)
            else if Match(edges, symbol) == None || Match(edges, symbol).value.name == [] then None
            else var e := Match(edges, symbol).value; Lookup(b, off, off + e.child, symbol[|e.name|..])
  {
    hide ReadUleb, Edges, Match;
  }

  /** The search finds the same terminal, of a node that was visited. */
  lemma {:induction false} LookupIsKept(t: Trie, b: Bytes, c: Bytes, nodes: set<nat>, seen: set<nat>, n: nat,
                                        symbol: Bytes) returns (m: nat)
    requires WellFormed(b, t.off, nodes) && Remapped(t, b, c, nodes, seen) && n in seen
    ensures Lookup(c, t.off, n, symbol) == Lookup(b, t.off, n, symbol)
    ensures Lookup(b, t.off, n, symbol).Some? ==>
              m in seen && ReadUleb(b, m).Some? && ReadUleb(b, m).value.value != 0
              && Lookup(b, t.off, n, symbol).value == ReadUleb(b, m).value.next
    decreases |symbol|
  {
    hide *;
    var size, edges := NodeLooksAlike(t, b, c, nodes, seen, n);
    LookupStep(b, t.off, n, symbol, size, edges);
    LookupStep(c, t.off, n, symbol, size, edges);
    m := n;
    if symbol != [] {
      var e := Match(edges, symbol);
      if e.Some? && e.value.name != [] {
        m := LookupIsKept(t, b, c, nodes, seen, t.off + e.value.child, symbol[|e.value.name|..]);
      }
    }
  }

  lemma FixedTarget(t: Trie, b: Bytes, c: Bytes, f: nat)
    requires |b| == |c| && FieldDone(t, b, c, f)
    ensures TargetAt(b, t.reBase, f).Some? && TargetAt(c, t.nbase, f).Some?
    ensures Follows(t, TargetAt(b, t.reBase, f).value, TargetAt(c, t.nbase, f).value)
  {
    hide ReadUleb, Padded, Pow128, Amap;
    DoneFieldReads(t, b, c, f);
    hide FieldDone;
  }

  lemma VisitedFieldIsDone(t: Trie, b: Bytes, c: Bytes, nodes: set<nat>, seen: set<nat>, n: nat, f: nat)
    requires Remapped(t, b, c, nodes, seen) && n in seen && ReadNode(b, n).Some? && f in ReadNode(b, n).value.fields
    ensures |c| == |b| && FieldDone(t, b, c, f)
  {
    hide ReadNode, FieldDone;
    assert HasField(b, n, f);
  }

  /** The terminal of a visited node exports what it exported, moved. */
  lemma TerminalFollows(t: Trie, b: Bytes, c: Bytes, nodes: set<nat>, seen: set<nat>, n: nat)
    requires WellFormed(b, t.off, nodes) && Remapped(t, b, c, nodes, seen) && n in seen
    requires ReadUleb(b, n).Some? && ReadUleb(b, n).value.value != 0
    ensures var q := ReadUleb(b, n).value.next;
      && ExportAt(b, t.reBase, q).Some? && ExportAt(c, t.nbase, q).Some?
      && ExportFollows(t, ExportAt(b, t.reBase, q).value, ExportAt(c, t.nbase, q).value)
  {
    var w := FieldBytes(b, seen);
    RemappedShape(t, b, c, nodes, seen, n);
    NodeParts(b, n);
    StructureIsOutside(b, w, n);
    hide *;
    var r := ReadNode(b, n).value;
    var q := ReadUleb(b, n).value.next;
    SameNumber(b, c, w, q);
    forall f | f in r.fields ensures |c| == |b| && FieldDone(t, b, c, f) {
      VisitedFieldIsDone(t, b, c, nodes, seen, n, f);
    }
    FieldsFollow(t, b, c, q, r.fields);
  }

  lemma FieldsFollow(t: Trie, b: Bytes, c: Bytes, q: nat, fields: seq<nat>)
    requires |b| == |c| && ReadUleb(b, q).Some? && ReadUleb(c, q) == ReadUleb(b, q)
    requires FieldsAt(b, ReadUleb(b, q).value.value, ReadUleb(b, q).value.next) == Some(fields)
    requires forall f <- fields :: FieldDone(t, b, c, f)
    ensures ExportAt(b, t.reBase, q).Some? && ExportAt(c, t.nbase, q).Some?
    ensures ExportFollows(t, ExportAt(b, t.reBase, q).value, ExportAt(c, t.nbase, q).value)
  {
    hide ReadUleb, FieldDone;
    if fields != [] {
      var f := fields[0];
      FixedTarget(t, b, c, f);
      if |fields| > 1 { FixedTarget(t, b, c, fields[1]); }
    }
  }

  /** What `fix_export_trie` is for: every symbol the loader found before it finds after, and where it finds
      an address, the address is the image of the one it was, exactly when its offset fits the bytes of the
      old offset. */
  lemma SymbolsFollowTheMap(t: Trie, b: Bytes, c: Bytes, nodes: set<nat>, seen: set<nat>, symbol: Bytes)
    requires WellFormed(b, t.off, nodes) && Remapped(t, b, c, nodes, seen)
    ensures Lookup(c, t.off, t.off, symbol) == Lookup(b, t.off, t.off, symbol)
    ensures Lookup(b, t.off, t.off, symbol).Some? ==>
      var q := Lookup(b, t.off, t.off, symbol).value;
      && ExportAt(b, t.reBase, q).Some? && ExportAt(c, t.nbase, q).Some?
      && ExportFollows(t, ExportAt(b, t.reBase, q).value, ExportAt(c, t.nbase, q).value)
  {
    assert t.off in seen;
    hide WellFormed, Remapped, ReadUleb, Lookup, ExportAt, ExportFollows;
    var m := LookupIsKept(t, b, c, nodes, seen, t.off, symbol);
    if Lookup(b, t.off, t.off, symbol).Some? { TerminalFollows(t, b, c, nodes, seen, m); }
  }
}

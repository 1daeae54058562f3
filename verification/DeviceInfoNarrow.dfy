/** Narrowing one value of the device info: a capability may only shrink. */
module DeviceInfoNarrow {
  import opened Words
  import opened DeviceInfoReply

  function And(a: nat, b: nat): nat
  {
    if a == 0 || b == 0 then 0 else 2 * And(a / 2, b / 2) + (if a % 2 == 1 && b % 2 == 1 then 1 else 0)
  }

  function Ones(n: nat): nat { if n == 0 then 0 else 2 * Ones(n - 1) + 1 }

  ghost predicate IsPower(v: nat) { exists n: nat :: v == Pow2(n) }

  /** Every bit of `v` is a bit of `o`. */
  predicate SubMask(v: nat, o: nat)
    decreases v
  {
    v == 0 || (v % 2 <= o % 2 && SubMask(v / 2, o / 2))
  }

  predicate IsMask(key: U32) { key == 28 || key == 33 }

  predicate IsAlignment(key: U32) { key == 32 || key == 40 }

  predicate IsNonzero(key: U32) { 29 <= key <= 31 || 34 <= key <= 37 }

  /** The test of `PVGDeviceInfoNarrowPair` on the old and the new value of a key. */
  predicate MayNarrow(key: U32, was: U32, value: U32)
  {
    && (if IsAlignment(key) then value >= was && value != 0 && And(value, value - 1) == 0
        else if IsMask(key) then And(value, UINT32_MAX - was) == 0
        else value <= was)
    && (IsNonzero(key) ==> value != 0) && (key == 37 ==> value >= 1001)
  }

  /** What the test means: a sub-mask, a larger or equal power of two, or a smaller or equal number. */
  ghost predicate Narrower(key: U32, was: U32, value: U32)
  {
    && (if IsAlignment(key) then value >= was && IsPower(value)
        else if IsMask(key) then SubMask(value, was)
        else value <= was)
    && (IsNonzero(key) ==> value != 0) && (key == 37 ==> value >= 1001)
  }

  lemma {:induction false} AndNotIsSubMask(v: nat, o: nat, n: nat)
    requires v <= Ones(n) && o <= Ones(n)
    ensures And(v, Ones(n) - o) == 0 <==> SubMask(v, o)
  {
    if n > 0 {
      AndNotIsSubMask(v / 2, o / 2, n - 1);
      assert (Ones(n) - o) / 2 == Ones(n - 1) - o / 2 && (Ones(n) - o) % 2 == 1 - o % 2;
    }
  }

  lemma {:induction false} SubMaskOn(a: nat, b: nat, c: nat)
    requires SubMask(b, a) && SubMask(c, b)
    ensures SubMask(c, a)
    decreases c
  {
    if c != 0 {
      if b == 0 { NoBits(c); }
      SubMaskOn(a / 2, b / 2, c / 2);
    }
  }

  lemma {:induction false} NoBits(c: nat)
    requires SubMask(c, 0)
    ensures c == 0
  {
    if c != 0 { NoBits(c / 2); }
  }

  lemma {:induction false} SubMaskBothWays(a: nat, b: nat)
    requires SubMask(a, b) && SubMask(b, a)
    ensures a == b
  {
    if a == 0 { NoBits(b); } else if b == 0 { NoBits(a); } else { SubMaskBothWays(a / 2, b / 2); }
  }

  /** No bit is left when the least set bit is taken out, if and only if the value is a power of two. */
  lemma {:induction false} OneBitIsPower(v: nat)
    requires v != 0
    ensures And(v, v - 1) == 0 <==> IsPower(v)
  {
    if v == 1 {
      assert v == Pow2(0);
    } else if v % 2 == 1 {
      assert And(v / 2, (v - 1) / 2) > 0 by { AndSelf(v / 2); }
      forall n: nat ensures v != Pow2(n) { if n > 0 { assert Pow2(n) % 2 == 0; } }
    } else {
      OneBitIsPower(v / 2);
      assert (v - 1) / 2 == v / 2 - 1;
      if n: nat :| v / 2 == Pow2(n) { assert v == Pow2(n + 1); }
      if n: nat :| v == Pow2(n) { assert v / 2 == Pow2(n - 1); }
    }
  }

  lemma {:induction false} AndSelf(v: nat)
    ensures And(v, v) == v
  {
    if v != 0 { AndSelf(v / 2); }
  }

  lemma OnesIsMax()
    ensures Ones(32) == UINT32_MAX
  {
    assert Ones(8) == 0xFF;
    assert Ones(16) == 0xFFFF;
    assert Ones(24) == 0xFF_FFFF;
  }

  lemma MayNarrowMeans(key: U32, was: U32, value: U32)
    ensures MayNarrow(key, was, value) <==> Narrower(key, was, value)
  {
    hide And, Ones, SubMask, IsPower;
    OnesIsMax();
    AndNotIsSubMask(value, was, 32);
    ZeroIsNoPower();
    if value != 0 { OneBitIsPower(value); }
  }

  lemma ZeroIsNoPower()
    ensures !IsPower(0)
  {
    assert forall n: nat :: Pow2(n) > 0;
  }

  /** Narrowing is a one-way street: two steps make one, and a step back is no step. */
  lemma NarrowingOn(key: U32, a: U32, b: U32, c: U32)
    requires MayNarrow(key, a, b) && MayNarrow(key, b, c)
    ensures MayNarrow(key, a, c) && (c == a ==> b == a)
  {
    MayNarrowMeans(key, a, b);
    MayNarrowMeans(key, b, c);
    MayNarrowMeans(key, a, c);
    if IsMask(key) {
      SubMaskOn(a, b, c);
      if c == a { SubMaskBothWays(a, b); }
    }
  }

  /** `PVGDeviceInfoNarrowPair`: the first entry of the key takes the value if that narrows it. */
  method NarrowPair(pairs: array<Pair>, count: nat, key: U32, value: U32) returns (ok: bool)
    requires count <= pairs.Length
    modifies pairs
    ensures var p := Find(old(pairs[..count]), key);
      && ok == (p < count && Narrower(key, old(pairs[p]).value, value))
      && pairs[..] == if ok then old(pairs[..])[p := Pair(key, value)] else old(pairs[..])
  {
    var index := 0;
    while index < count
      invariant index <= count && pairs[..] == old(pairs[..])
      invariant forall q :: 0 <= q < index ==> pairs[q].key != key
    {
      if pairs[index].key == key {
        FindIs(pairs[..count], key, index);
        MayNarrowMeans(key, pairs[index].value, value);
        ok := MayNarrow(key, pairs[index].value, value);
        if ok { pairs[index] := Pair(key, value); }
        return;
      }
      index := index + 1;
    }
    ok := false;
  }
}

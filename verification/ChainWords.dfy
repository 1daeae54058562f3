/** The 64-bit entries of an arm64e userland fixup chain (`pack_rebase`, `pack_auth_rebase`,
    `pack_bind`, `pack_auth_bind`) and the loader's reading of them.

    A mask of low bits is a remainder, and an `|` of disjoint fields is a sum. */
module ChainWords {

  type Word64 = w: int | 0 <= w < 0x1_0000_0000_0000_0000

  const TWO_8 := 0x100
  const TWO_16 := 0x1_0000
  const TWO_32 := 0x1_0000_0000
  const TWO_43 := 0x800_0000_0000
  const TWO_51 := 0x8_0000_0000_0000
  const NEXT_LIMIT := 0x800

  /** The tuple `(kind, val, auth, key, div, addrdiv, high8)`. */
  datatype Fixup = Fixup(bind: bool, val: int, auth: bool, key: int, div: int, ad: int, high8: int)

  datatype Link = Link(fixup: Fixup, next: int)

  /** The upper 13 bits: the link field, the bind bit and the authentication bit. */
  function Upper(next: int, bind: bool, auth: bool): (u: int)
    ensures 0 <= u < 0x2000
  {
    next % NEXT_LIMIT + NEXT_LIMIT * ((if bind then 1 else 0) + 2 * (if auth then 1 else 0))
  }

  /** Diversity, address diversity and key, above bit 32. */
  function Signing(div: int, ad: int, key: int): (s: int)
    ensures 0 <= s < 0x8_0000
  {
    div % TWO_16 + TWO_16 * (ad % 2 + 2 * (key % 4))
  }

  function PackRebase(offset: int, next: int, high8: int): Word64
  {
    offset % TWO_43 + TWO_43 * (high8 % TWO_8) + TWO_51 * Upper(next, false, false)
  }

  function PackAuthRebase(offset: int, div: int, ad: int, key: int, next: int): Word64
  {
    offset % TWO_32 + TWO_32 * Signing(div, ad, key) + TWO_51 * Upper(next, false, true)
  }

  function PackBind(ordinal: int, addend: int, next: int): Word64
  {
    ordinal % TWO_16 + TWO_32 * (addend % 0x8_0000) + TWO_51 * Upper(next, true, false)
  }

  function PackAuthBind(ordinal: int, div: int, ad: int, key: int, next: int): Word64
  {
    ordinal % TWO_16 + TWO_32 * Signing(div, ad, key) + TWO_51 * Upper(next, true, true)
  }

  /** The choice of packer in the weave: a plain bind drops the address's top byte. */
  function Pack(f: Fixup, next: int): Word64
  {
    if f.bind then (if f.auth then PackAuthBind(f.val, f.div, f.ad, f.key, next) else PackBind(f.val, 0, next))
    else (if f.auth then PackAuthRebase(f.val, f.div, f.ad, f.key, next) else PackRebase(f.val, next, f.high8))
  }

  function Next(w: Word64): int { w / TWO_51 % NEXT_LIMIT }

  predicate IsBind(w: Word64) { w / TWO_51 / NEXT_LIMIT % 2 == 1 }

  predicate IsAuth(w: Word64) { w / TWO_51 / NEXT_LIMIT / 2 == 1 }

  /** What the loader reads: a field the entry's form does not have reads as zero. */
  function Read(w: Word64): Link
  {
    var low := w % TWO_51;
    var signing := low / TWO_32;
    var f :=
      if IsAuth(w) then
        Fixup(IsBind(w), if IsBind(w) then low % TWO_16 else low % TWO_32, true,
              signing / TWO_16 / 2, signing % TWO_16, signing / TWO_16 % 2, 0)
      else if IsBind(w) then Fixup(true, low % TWO_16, false, 0, 0, 0, 0)
      else Fixup(false, low % TWO_43, false, 0, 0, 0, low / TWO_43);
    Link(f, Next(w))
  }

  /** The fixups whose fields fit the entry they are packed into. */
  predicate Fits(f: Fixup)
  {
    && 0 <= f.val < (if f.bind then TWO_16 else if f.auth then TWO_32 else TWO_43)
    && (if f.auth then 0 <= f.div < TWO_16 && 0 <= f.ad < 2 && 0 <= f.key < 4 && f.high8 == 0
        else f.div == 0 && f.ad == 0 && f.key == 0)
    && (!f.auth ==> if f.bind then f.high8 == 0 else 0 <= f.high8 < TWO_8)
  }

  lemma SplitWord(low: int, next: int, bind: bool, auth: bool)
    requires 0 <= low < TWO_51 && 0 <= next < NEXT_LIMIT
    ensures var w := low + TWO_51 * Upper(next, bind, auth);
            && 0 <= w < 0x1_0000_0000_0000_0000
            && w % TWO_51 == low && Next(w) == next && IsBind(w) == bind && IsAuth(w) == auth
  {
    var w := low + TWO_51 * Upper(next, bind, auth);
    assert w / TWO_51 == Upper(next, bind, auth);
  }

  lemma SplitSigning(div: int, ad: int, key: int)
    ensures var s := Signing(div, ad, key);
            s % TWO_16 == div % TWO_16 && s / TWO_16 % 2 == ad % 2 && s / TWO_16 / 2 == key % 4
  {
    assert Signing(div, ad, key) / TWO_16 == ad % 2 + 2 * (key % 4);
  }

  lemma LowHalf(a: int, q: int)
    ensures (a + TWO_16 * q) % TWO_16 == a % TWO_16
  {
    assert a + TWO_16 * q == a % TWO_16 + TWO_16 * (a / TWO_16 + q);
  }

  lemma SplitLow(a: int, b: int)
    requires 0 <= a < TWO_32 && 0 <= b < 0x8_0000
    ensures var low := a + TWO_32 * b;
            0 <= low < TWO_51 && low % TWO_32 == a && low % TWO_16 == a % TWO_16 && low / TWO_32 == b
  {
    LowHalf(a, TWO_16 * b);
  }

  lemma ReadAuth(f: Fixup, next: int)
    requires 0 <= next < NEXT_LIMIT && f.auth
    ensures var a := if f.bind then f.val % TWO_16 else f.val % TWO_32;
            Read(Pack(f, next)) == Link(Fixup(f.bind, a, true, f.key % 4, f.div % TWO_16, f.ad % 2, 0), next)
  {
    var a := if f.bind then f.val % TWO_16 else f.val % TWO_32;
    SplitSigning(f.div, f.ad, f.key);
    SplitLow(a, Signing(f.div, f.ad, f.key));
    SplitWord(a + TWO_32 * Signing(f.div, f.ad, f.key), next, f.bind, true);
  }

  lemma ReadPlainBind(f: Fixup, next: int)
    requires 0 <= next < NEXT_LIMIT && f.bind && !f.auth
    ensures Read(Pack(f, next)) == Link(Fixup(true, f.val % TWO_16, false, 0, 0, 0, 0), next)
  {
    SplitLow(f.val % TWO_16, 0);
    SplitWord(f.val % TWO_16 + TWO_32 * 0, next, true, false);
  }

  lemma ReadPlainRebase(f: Fixup, next: int)
    requires 0 <= next < NEXT_LIMIT && !f.bind && !f.auth
    ensures Read(Pack(f, next)) == Link(Fixup(false, f.val % TWO_43, false, 0, 0, 0, f.high8 % TWO_8), next)
  {
    var low := f.val % TWO_43 + TWO_43 * (f.high8 % TWO_8);
    assert low / TWO_43 == f.high8 % TWO_8 && low % TWO_43 == f.val % TWO_43;
    SplitWord(low, next, false, false);
  }

  /** Packing and reading are inverse exactly on the fixups that fit; whatever the fixup, the link
      survives. */
  lemma ReadPack(f: Fixup, next: int)
    requires 0 <= next < NEXT_LIMIT
    ensures Read(Pack(f, next)).next == next
    ensures Read(Pack(f, next)).fixup == f <==> Fits(f)
  {
    if f.auth {
      ReadAuth(f, next);
    } else if f.bind {
      ReadPlainBind(f, next);
    } else {
      ReadPlainRebase(f, next);
    }
  }

  lemma NextOfPack(f: Fixup, next: int)
    requires 0 <= next < NEXT_LIMIT
    ensures Next(Pack(f, next)) == next
  {
    ReadPack(f, next);
  }

  /** A plain bind of a pointer with top byte 0x80 is read without it. */
  lemma TopByteIsLost()
    ensures var f := Fixup(true, 0, false, 0, 0, 0, 0x80); Read(Pack(f, 0)).fixup == f.(high8 := 0)
  {
    ReadPlainBind(Fixup(true, 0, false, 0, 0, 0, 0x80), 0);
  }

  /** The fields of an entry and their bits, whatever its form: a target in 43 bits, or 32 under a signature, or an
      ordinal in 16; the top byte at bit 43; the signature at 32, 48 and 49; the link at 51; bind and auth at 62 and
      63. */
  lemma PackedBits(f: Fixup, next: int)
    requires 0 <= next < 0x800 && 0 <= f.val
    requires f.val < if f.bind then 0x1_0000 else if f.auth then 0x1_0000_0000 else 0x800_0000_0000
    requires if f.auth then 0 <= f.div < 0x1_0000 && 0 <= f.ad < 2 && 0 <= f.key < 4
             else f.div == 0 && f.ad == 0 && f.key == 0
    requires if f.auth || f.bind then f.high8 == 0 else 0 <= f.high8 < 0x100
    ensures Fits(f)
    ensures Pack(f, next) ==
            f.val + 0x800_0000_0000 * f.high8
            + 0x1_0000_0000 * f.div + 0x1_0000_0000_0000 * f.ad + 0x2_0000_0000_0000 * f.key
            + 0x8_0000_0000_0000 * next
            + (if f.bind then 0x4000_0000_0000_0000 else 0) + (if f.auth then 0x8000_0000_0000_0000 else 0)
  {
    if f.auth {
      assert Signing(f.div, f.ad, f.key) == f.div + 0x1_0000 * f.ad + 0x2_0000 * f.key;
    } else if f.bind {
      assert Pack(f, next) == PackBind(f.val, 0, next);
    } else {
      assert Pack(f, next) == PackRebase(f.val, next, f.high8);
    }
  }
}

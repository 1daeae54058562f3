/** The instruction-word arithmetic of the relocator (`_adrp_target`, `_set_adrp`, `_add_imm`,
    `_set_add_imm` and the nested `set_consumer_disp`).

    Words are numbers; a shift by a constant is a division or product by a power of two and a mask
    of low bits is a remainder.  Dafny's `/` and `%` round towards minus infinity for the positive
    divisors used here, exactly as Python's `>>` and `&` do on negative operands.  Encodings:
    section C6.2 of the Arm Architecture Reference Manual, DDI 0487. */
module A64Words {
  import opened Words

  const PAGE_4K := 0x1000

  type Word = w: int | 0 <= w < 0x1_0000_0000

  /** The address with its low 12 bits cleared. */
  function PageOf(a: int): (p: int)
    ensures p % PAGE_4K == 0 && p <= a < p + PAGE_4K
  {
    a - a % PAGE_4K
  }

  function SignExtend21(imm: int): int
  {
    if imm >= 0x10_0000 then imm - 0x20_0000 else imm
  }

  /** The page an ADRP word computes when it runs at `pc`. */
  function AdrpTarget(w: Word, pc: int): int
  {
    var immlo := w / 0x2000_0000 % 4;
    var immhi := w / 0x20 % 0x8_0000;
    PageOf(pc) + SignExtend21(immhi * 4 + immlo) * PAGE_4K
  }

  /** The five fields of an ADRP word, low to high: Rd, immhi, opcode, immlo, op. */
  function Assemble(rd: int, immhi: int, opcode: int, immlo: int, op: int): (w: Word)
    requires 0 <= rd < 0x20 && 0 <= immhi < 0x8_0000 && 0 <= opcode < 0x20 && 0 <= immlo < 4 && 0 <= op < 2
  {
    rd + 0x20 * immhi + 0x100_0000 * opcode + 0x2000_0000 * immlo + 0x8000_0000 * op
  }

  function PageDelta(pc: int, target: int): int
  {
    (PageOf(target) - PageOf(pc)) / PAGE_4K
  }

  /** `_set_adrp`: both immediate fields are replaced, without any check of their range. */
  function SetAdrp(w: Word, pc: int, target: int): Word
  {
    var imm := PageDelta(pc, target);
    Assemble(w % 0x20, imm / 4 % 0x8_0000, w / 0x100_0000 % 0x20, imm % 4, w / 0x8000_0000)
  }

  /** Whether `target` is within the signed 21-bit page range of `pc`. */
  predicate InAdrpReach(pc: int, target: int)
  {
    -0x10_0000 <= PageDelta(pc, target) < 0x10_0000
  }

  lemma AssembleFields(rd: int, immhi: int, opcode: int, immlo: int, op: int)
    requires 0 <= rd < 0x20 && 0 <= immhi < 0x8_0000 && 0 <= opcode < 0x20 && 0 <= immlo < 4 && 0 <= op < 2
    ensures var w := Assemble(rd, immhi, opcode, immlo, op);
            && w % 0x20 == rd && w / 0x20 % 0x8_0000 == immhi && w / 0x100_0000 % 0x20 == opcode
            && w / 0x2000_0000 % 4 == immlo && w / 0x8000_0000 == op
  {
    var w := Assemble(rd, immhi, opcode, immlo, op);
    var h1 := immhi + 0x8_0000 * (opcode + 0x20 * (immlo + 4 * op));
    assert w == rd + 0x20 * h1;
    assert w / 0x20 == h1;
    var h2 := opcode + 0x20 * (immlo + 4 * op);
    assert w / 0x100_0000 == h2;
    assert w / 0x2000_0000 == immlo + 4 * op;
  }

  lemma Join21(imm: int)
    ensures (imm / 4 % 0x8_0000) * 4 + imm % 4 == imm % 0x20_0000
  {
  }

  lemma Signed21(imm: int)
    ensures SignExtend21(imm % 0x20_0000) == imm <==> -0x10_0000 <= imm < 0x10_0000
  {
  }

  lemma AssembledTarget(rd: int, immhi: int, opcode: int, immlo: int, op: int, pc: int)
    requires 0 <= rd < 0x20 && 0 <= immhi < 0x8_0000 && 0 <= opcode < 0x20 && 0 <= immlo < 4 && 0 <= op < 2
    ensures AdrpTarget(Assemble(rd, immhi, opcode, immlo, op), pc)
            == PageOf(pc) + SignExtend21(immhi * 4 + immlo) * PAGE_4K
  {
    hide PageOf, SignExtend21, Assemble;
    AssembleFields(rd, immhi, opcode, immlo, op);
  }

  /** The word an assembler writes for an ADRP of `imm` pages decodes to the page that far from the page of the
      pc. */
  lemma AssembledAdrp(rd: int, imm: int, pc: int)
    requires 0 <= rd < 0x20 && -0x10_0000 <= imm < 0x10_0000
    ensures var w := 0x9000_0000 + imm % 4 * 0x2000_0000 + imm / 4 % 0x8_0000 * 0x20 + rd;
      0 <= w < 0x1_0000_0000 && AdrpTarget(w, pc) == pc - pc % 0x1000 + imm * 0x1000
  {
    assert Assemble(rd, imm / 4 % 0x8_0000, 0x10, imm % 4, 1)
           == 0x9000_0000 + imm % 4 * 0x2000_0000 + imm / 4 % 0x8_0000 * 0x20 + rd;
    hide AdrpTarget, SignExtend21, Assemble;
    AssembledTarget(rd, imm / 4 % 0x8_0000, 0x10, imm % 4, 1, pc);
    Join21(imm);
    Signed21(imm);
  }

  /** What a rewritten ADRP decodes to, in reach or not: the delta modulo 2^21 pages. */
  lemma SetAdrpPage(w: Word, pc: int, target: int)
    ensures AdrpTarget(SetAdrp(w, pc, target), pc)
            == PageOf(pc) + SignExtend21(PageDelta(pc, target) % 0x20_0000) * PAGE_4K
  {
    hide PageOf, PageDelta, SignExtend21, Assemble, AdrpTarget;
    var imm := PageDelta(pc, target);
    AssembledTarget(w % 0x20, imm / 4 % 0x8_0000, w / 0x100_0000 % 0x20, imm % 4, w / 0x8000_0000, pc);
    Join21(imm);
  }

  lemma DeltaSpans(pc: int, target: int)
    ensures PageOf(target) == PageOf(pc) + PageDelta(pc, target) * PAGE_4K
  {
  }

  /** `_set_adrp` followed by a decode at the same pc yields the page of the target exactly when the
      target is in reach; out of reach the word silently names another page. */
  lemma SetAdrpDecodes(w: Word, pc: int, target: int)
    ensures AdrpTarget(SetAdrp(w, pc, target), pc) == PageOf(target) <==> InAdrpReach(pc, target)
  {
    hide SetAdrp, AdrpTarget, PageOf, PageDelta, SignExtend21;
    SetAdrpPage(w, pc, target);
    Signed21(PageDelta(pc, target));
    DeltaSpans(pc, target);
  }

  /** An ADRP at address zero given the page at 8 GB computes page zero. */
  lemma FarPageIsMissed(w: Word)
    ensures AdrpTarget(SetAdrp(w, 0, 0x2_0000_0000), 0) == 0
  {
    hide SetAdrp, AdrpTarget;
    SetAdrpPage(w, 0, 0x2_0000_0000);
    assert PageDelta(0, 0x2_0000_0000) == 0x20_0000;
  }

  lemma SignedCongruent(x: int, y: int)
    requires -0x10_0000 <= y < 0x10_0000
    ensures SignExtend21(x % 0x20_0000) == y <==> (x - y) % 0x20_0000 == 0
  {
  }

  /** A rewritten ADRP computes a page in its reach exactly when it was given that page modulo the 8 GB that its 21
      bits span. */
  lemma SetAdrpCongruent(w: Word, pc: int, target: int, page: int)
    requires page % PAGE_4K == 0 && InAdrpReach(pc, page)
    ensures AdrpTarget(SetAdrp(w, pc, target), pc) == page <==> (PageOf(target) - page) % 0x2_0000_0000 == 0
  {
    hide SetAdrp, AdrpTarget, PageOf, PageDelta, SignExtend21;
    SetAdrpPage(w, pc, target);
    DeltaSpans(pc, target);
    DeltaSpans(pc, page);
    AlignedPage(page);
    SignedCongruent(PageDelta(pc, target), PageDelta(pc, page));
    InPages(PageDelta(pc, target) - PageDelta(pc, page));
  }

  lemma AlignedPage(page: int)
    requires page % PAGE_4K == 0
    ensures PageOf(page) == page
  {
  }

  lemma InPages(n: int)
    ensures n % 0x20_0000 == 0 <==> n * PAGE_4K % 0x2_0000_0000 == 0
  {
  }

  /** The page an ADRP computes is in its reach, and stays so when the text moves by whole pages with it. */
  lemma OwnPageInReach(w: Word, pc: int, delta: int)
    requires delta % PAGE_4K == 0
    ensures AdrpTarget(w, pc) % PAGE_4K == 0 && InAdrpReach(pc + delta, AdrpTarget(w, pc) + delta)
  {
    var imm := SignExtend21(w / 0x20 % 0x8_0000 * 4 + w / 0x2000_0000 % 4);
    assert AdrpTarget(w, pc) == PageOf(pc) + imm * PAGE_4K;
    assert PageOf(pc + delta) == PageOf(pc) + delta;
    assert PageOf(AdrpTarget(w, pc) + delta) == AdrpTarget(w, pc) + delta;
  }

  /** Rewriting an ADRP keeps Rd, the opcode and the op bit, and a second rewrite at the same pc
      forgets the first. */
  lemma SetAdrpKeepsOpcode(w: Word, pc: int, target: int)
    ensures var r := SetAdrp(w, pc, target);
            r % 0x20 == w % 0x20 && r / 0x100_0000 % 0x20 == w / 0x100_0000 % 0x20 && r / 0x8000_0000 == w / 0x8000_0000
    ensures forall target' :: SetAdrp(SetAdrp(w, pc, target), pc, target') == SetAdrp(w, pc, target')
  {
    var imm := PageDelta(pc, target);
    AssembleFields(w % 0x20, imm / 4 % 0x8_0000, w / 0x100_0000 % 0x20, imm % 4, w / 0x8000_0000);
  }

  /** An ADRP left alone moves with the text: shifting the pc by a whole number of pages shifts its
      page by as much. */
  lemma UntouchedAdrpMovesWithText(w: Word, pc: int, delta: int)
    requires delta % PAGE_4K == 0
    ensures AdrpTarget(w, pc + delta) == AdrpTarget(w, pc) + delta
  {
    assert PageOf(pc + delta) == PageOf(pc) + delta;
  }

  predicate IsAdd(w: Word)   // ADD (immediate), either width
  {
    w / 0x80_0000 % 0x100 == 0x22
  }

  predicate IsLoadStore(w: Word)   // load or store, unsigned scaled offset
  {
    w / 0x800_0000 % 8 == 7 && w / 0x100_0000 % 4 == 1
  }

  /** The scale the relocator uses: bits 31:30 of the word. */
  function CodeScale(w: Word): nat
  {
    w / 0x4000_0000
  }

  /** The scale the architecture uses: 16 bytes for a SIMD register with size 00 and opc<1> set. */
  function ArchScale(w: Word): nat
  {
    if w / 0x400_0000 % 2 == 1 && w / 0x80_0000 % 2 == 1 && CodeScale(w) == 0 then 4 else CodeScale(w)
  }

  /** `_add_imm`: the value an ADD (immediate) adds. */
  function AddImm(w: Word): int
  {
    (w / 0x400 % 0x1000) * (if w / 0x40_0000 % 2 == 1 then 0x1000 else 1)
  }

  /** The byte displacement a consumer word adds to its base, as the architecture reads it. */
  function EncodedDisp(w: Word): int
  {
    if IsAdd(w) then AddImm(w)
    else if IsLoadStore(w) then (w / 0x400 % 0x1000) * Pow2(ArchScale(w))
    else 0
  }

  /** `_set_add_imm`, also the ADD arm of `set_consumer_disp`: the shift bit is cleared. */
  function SetAddImm(w: Word, imm: int): (r: Word)
  {
    w % 0x400 + 0x400 * (imm % 0x1000) + 0x80_0000 * (w / 0x80_0000)
  }

  datatype Rewritten = Rewritten(w: Word) | Refused

  function SetConsumerDisp(w: Word, disp: int): Rewritten
  {
    if IsAdd(w) then Rewritten(SetAddImm(w, disp))
    else if IsLoadStore(w) then
      var scale := CodeScale(w);
      if disp % Pow2(scale) != 0 then Refused
      else Rewritten(w % 0x400 + 0x400 * (disp / Pow2(scale) % 0x1000) + 0x40_0000 * (w / 0x40_0000))
    else Refused
  }

  lemma SetAddImmFields(w: Word, imm: int)
    ensures var r := SetAddImm(w, imm);
            && r / 0x400 % 0x1000 == imm % 0x1000 && r / 0x40_0000 % 2 == 0
            && r % 0x400 == w % 0x400 && r / 0x80_0000 == w / 0x80_0000
  {
    var r := SetAddImm(w, imm);
    assert r == w % 0x400 + 0x400 * (imm % 0x1000 + 0x2000 * (w / 0x80_0000));
    assert r / 0x400 == imm % 0x1000 + 0x2000 * (w / 0x80_0000);
    assert r / 0x40_0000 == 2 * (w / 0x80_0000);
  }

  lemma LoadStoreFields(w: Word, f: int)
    requires 0 <= f < 0x1000
    ensures var r := w % 0x400 + 0x400 * f + 0x40_0000 * (w / 0x40_0000);
            && 0 <= r < 0x1_0000_0000 && r / 0x400 % 0x1000 == f
            && r % 0x400 == w % 0x400 && r / 0x40_0000 == w / 0x40_0000
  {
    var r := w % 0x400 + 0x400 * f + 0x40_0000 * (w / 0x40_0000);
    assert r / 0x400 == f + 0x1000 * (w / 0x40_0000);
  }

  /** A rewritten consumer adds exactly the new displacement, whatever its old shift bit was, unless
      it is a 128-bit SIMD access, whose scale is not in bits 31:30: then only a zero displacement
      survives. */
  lemma SetConsumerDispDecodes(w: Word, disp: int)
    requires 0 <= disp < PAGE_4K
    requires SetConsumerDisp(w, disp).Rewritten?
    ensures var r := SetConsumerDisp(w, disp).w;
            && r % 0x400 == w % 0x400
            && r / 0x80_0000 == w / 0x80_0000
            && (EncodedDisp(r) == disp <==> IsAdd(w) || ArchScale(w) == CodeScale(w) || disp == 0)
  {
    if IsAdd(w) {
      AddDecodes(w, disp);
    } else {
      hide IsAdd, EncodedDisp, ArchScale, CodeScale, Pow2;
      LoadStoreDecodes(w, disp);
    }
  }

  lemma AddDecodes(w: Word, disp: int)
    requires 0 <= disp < PAGE_4K && IsAdd(w)
    ensures var r := SetAddImm(w, disp);
            r % 0x400 == w % 0x400 && r / 0x80_0000 == w / 0x80_0000 && EncodedDisp(r) == disp
  {
    SetAddImmFields(w, disp);
  }

  /** The field a load or store is given holds the displacement in units of its scale. */
  lemma ScaledField(w: Word, disp: int)
    requires 0 <= disp < PAGE_4K && disp % Pow2(CodeScale(w)) == 0
    ensures var f := disp / Pow2(CodeScale(w)); 0 <= f < 0x1000 && f * Pow2(CodeScale(w)) == disp
  {
    ScaleValues(w);
  }

  lemma RewrittenLoad(w: Word, disp: int)
    requires 0 <= disp < PAGE_4K && IsLoadStore(w) && !IsAdd(w) && SetConsumerDisp(w, disp).Rewritten?
    ensures disp % Pow2(CodeScale(w)) == 0
    ensures SetConsumerDisp(w, disp).w
            == w % 0x400 + 0x400 * (disp / Pow2(CodeScale(w))) + 0x40_0000 * (w / 0x40_0000)
  {
    hide Pow2, CodeScale, IsLoadStore, IsAdd;
    if disp % Pow2(CodeScale(w)) == 0 { ScaledField(w, disp); }
  }

  lemma LoadDisp(w: Word)
    requires IsLoadStore(w) && !IsAdd(w)
    ensures EncodedDisp(w) == (w / 0x400 % 0x1000) * Pow2(ArchScale(w))
  {
  }

  lemma LoadStoreDecodes(w: Word, disp: int)
    requires 0 <= disp < PAGE_4K
    requires IsLoadStore(w) && !IsAdd(w) && SetConsumerDisp(w, disp).Rewritten?
    ensures var r := SetConsumerDisp(w, disp).w;
            && r % 0x400 == w % 0x400
            && r / 0x80_0000 == w / 0x80_0000
            && (EncodedDisp(r) == disp <==> ArchScale(w) == CodeScale(w) || disp == 0)
  {
    RewrittenLoad(w, disp);
    hide *;
    ScaledField(w, disp);
    var f := disp / Pow2(CodeScale(w));
    LoadStoreFields(w, f);
    var r := SetConsumerDisp(w, disp).w;
    SameHighBits(r, w);
    LoadDisp(r);
    ScaledTwice(f, Pow2(CodeScale(w)), Pow2(ArchScale(w)));
    ScalesDiffer(w);
  }

  lemma ScalesDiffer(w: Word)
    ensures Pow2(CodeScale(w)) == Pow2(ArchScale(w)) <==> ArchScale(w) == CodeScale(w)
  {
    ScaleValues(w);
  }

  /** Writing the same displacement again changes nothing. */
  lemma SetConsumerDispTwice(w: Word, disp: int)
    requires SetConsumerDisp(w, disp).Rewritten?
    ensures var r := SetConsumerDisp(w, disp).w;
            && r % 0x400 == w % 0x400 && r / 0x80_0000 == w / 0x80_0000
            && SetConsumerDisp(r, disp) == SetConsumerDisp(w, disp)
  {
    var r := SetConsumerDisp(w, disp).w;
    if IsAdd(w) {
      SetAddImmFields(w, disp);
      assert r / 0x80_0000 == w / 0x80_0000;
    } else {
      LoadStoreFields(w, disp / Pow2(CodeScale(w)) % 0x1000);
      SameHighBits(r, w);
    }
  }

  lemma ScaledTwice(f: int, m: int, m': int)
    ensures f * m == f * m' <==> m == m' || f == 0
  {
  }

  lemma ScaleValues(w: Word)
    ensures CodeScale(w) < 4
    ensures Pow2(CodeScale(w)) == [1, 2, 4, 8][CodeScale(w)]
    ensures Pow2(ArchScale(w)) == if ArchScale(w) == CodeScale(w) then Pow2(CodeScale(w)) else 16
    ensures ArchScale(w) != CodeScale(w) ==> CodeScale(w) == 0
  {
    assert Pow2(0) == 1 && Pow2(1) == 2 && Pow2(2) == 4 && Pow2(3) == 8 && Pow2(4) == 16;
  }

  lemma SameHighBits(r: Word, w: Word)
    requires r / 0x40_0000 == w / 0x40_0000
    ensures IsAdd(r) == IsAdd(w) && IsLoadStore(r) == IsLoadStore(w)
    ensures ArchScale(r) == ArchScale(w) && CodeScale(r) == CodeScale(w)
    ensures r / 0x80_0000 == w / 0x80_0000
  {
    var h := r / 0x40_0000;
    assert r / 0x80_0000 == h / 2 && w / 0x80_0000 == h / 2;
    assert r / 0x100_0000 == h / 4 && w / 0x100_0000 == h / 4;
    assert r / 0x400_0000 == h / 16 && w / 0x400_0000 == h / 16;
    assert r / 0x800_0000 == h / 32 && w / 0x800_0000 == h / 32;
    assert r / 0x4000_0000 == h / 256 && w / 0x4000_0000 == h / 256;
  }

  /** The fields of a word above bit 10. */
  lemma FieldsAbove(w: Word, low: int, imm: int, high: int)
    requires w == low + 0x400 * imm + 0x40_0000 * high && 0 <= low < 0x400 && 0 <= imm < 0x1000
    ensures w / 0x400 % 0x1000 == imm && w / 0x40_0000 == high
    ensures w / 0x80_0000 == high / 2 && w / 0x100_0000 == high / 4 && w / 0x400_0000 == high / 16
    ensures w / 0x800_0000 == high / 32 && w / 0x4000_0000 == high / 256
  {
    assert w / 0x400 == imm + 0x1000 * high;
    assert w / 0x40_0000 == high;
  }

  /** The word an assembler writes for ADD (immediate). */
  lemma AssembledAdd(sf: int, sh: int, imm: int, low: int, w: Word)
    requires 0 <= sf < 2 && 0 <= sh < 2 && 0 <= imm < 0x1000 && 0 <= low < 0x400
    requires w == 0x1100_0000 + sf * 0x8000_0000 + sh * 0x40_0000 + imm * 0x400 + low
    ensures IsAdd(w) && !IsLoadStore(w) && EncodedDisp(w) == if sh == 1 then imm * 0x1000 else imm
  {
    FieldsAbove(w, low, imm, 0x44 + sf * 0x200 + sh);
  }

  lemma LoadHigh(size: nat, simd: int, opc: int)
    requires size < 4 && 0 <= simd < 2 && 0 <= opc < 4
    ensures var h := 0xE4 + size * 0x100 + simd * 0x10 + opc;
      h / 32 % 8 == 7 && h / 4 % 4 == 1 && h / 16 % 2 == simd && h / 256 == size
  {
    var h := 0xE4 + size * 0x100 + simd * 0x10 + opc;
    assert h / 4 == 0x39 + 0x40 * size + 4 * simd;
    assert h / 16 == 0xE + 0x10 * size + simd;
    assert h / 32 == 7 + 8 * size;
  }

  lemma LoadIsNotAdd(size: nat, simd: int, opc: int)
    requires size < 4 && 0 <= simd < 2 && 0 <= opc < 4
    ensures var h := (0xE4 + size * 0x100 + simd * 0x10 + opc) / 2; h % 0x100 != 0x22 && h % 2 == opc / 2
  {
    var x := 0x39 + 0x40 * size + 4 * simd;
    var h := (0xE4 + size * 0x100 + simd * 0x10 + opc) / 2;
    assert h == 2 * x + opc / 2;
    assert h % 2 == opc / 2;
    assert h / 0x10 % 8 == 7;
  }

  /** The word an assembler writes for a load or store with an unsigned offset, of a general or (`simd`) a SIMD
      register. */
  lemma AssembledLoad(size: nat, simd: int, opc: int, imm: int, low: int, w: Word)
    requires size < 4 && 0 <= simd < 2 && 0 <= opc < 4 && 0 <= imm < 0x1000 && 0 <= low < 0x400
    requires w == 0x3900_0000 + size * 0x4000_0000 + simd * 0x400_0000 + opc * 0x40_0000 + imm * 0x400 + low
    ensures IsLoadStore(w) && !IsAdd(w)
    ensures EncodedDisp(w) == imm * (if simd == 1 && size == 0 && opc >= 2 then 16 else [1, 2, 4, 8][size])
  {
    hide Pow2, EncodedDisp, AddImm;
    FieldsAbove(w, low, imm, 0xE4 + size * 0x100 + simd * 0x10 + opc);
    LoadHigh(size, simd, opc);
    LoadIsNotAdd(size, simd, opc);
    ScaleValues(w);
    LoadDisp(w);
    assert Pow2(ArchScale(w)) == if simd == 1 && size == 0 && opc >= 2 then 16 else [1, 2, 4, 8][size];
  }

  /** LDR q0, [x0] rewritten to displacement 16 reads 256 bytes away: the 128-bit scale is missed. */
  lemma SimdScaleIsMissed()
    ensures exists w: Word :: SetConsumerDisp(w, 16).Rewritten? && EncodedDisp(SetConsumerDisp(w, 16).w) == 256
  {
    var w: Word := 0x3DC0_0000;
    assert Pow2(0) == 1;
    assert Pow2(4) == 16;
    assert SetConsumerDisp(w, 16) == Rewritten(0x3DC0_4000);
  }
}

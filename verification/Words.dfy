/** What each emitted word format decodes to. */
module Words {
  import opened Bits
  import opened Arm64
  import opened Emitter

  lemma AddSubImmDecodes(sub: bool, rd: nat, rn: nat, imm: int)
    requires rd < 32 && rn < 32 && 0 <= imm < 0x1000
    ensures Decode(RdRnImm(SF + (if sub then SUB_IMM else ADD_IMM), rd, rn, imm))
         == AddSubImm(true, sub, false, imm, rn, rd)
  {
    hide Bits.Or, Decode;
    var h := if sub then 0x344 else 0x244;
    RdRnImmSum(h, rd, rn, imm);
    DecodeParts(h, imm, rn, rd);
  }

  lemma MoveDecodes(sf: bool, rd: nat, rn: nat)
    requires rd < 32 && rn < 32
    ensures Decode(RdRn((if sf then SF else 0) + ADD_IMM, rd, rn)) == AddSubImm(sf, false, false, 0, rn, rd)
  {
    hide Bits.Or, Decode;
    var h := if sf then 0x244 else 0x44;
    RdRnSum(0x1000 * h, rd, rn);
    DecodeParts(h, 0, rn, rd);
  }

  lemma AddSubRegDecodes(sf: bool, sub: bool, setf: bool, rd: nat, rn: nat, rm: nat)
    requires rd < 32 && rn < 32 && rm < 32
    ensures Decode(RdRnRm((if sf then SF else 0) + (if sub then SUB_REG else ADD_REG) + (if setf then S else 0),
                          rd, rn, rm))
         == AddSubReg(sf, sub, setf, rm, rn, rd)
  {
    hide Bits.Or, Decode, DecodeFields;
    var h := (if sf then 0x200 else 0) + (if sub then 0x12C else 0x2C) + (if setf then 0x80 else 0);
    RdRnRmSum(2 * h, 0, rd, rn, rm);
    DecodeParts(h, rm * 0x40, rn, rd);
    AddSubRegFields(sf, sub, setf, rd, rn, rm);
  }

  lemma AddSubRegFields(sf: bool, sub: bool, setf: bool, rd: nat, rn: nat, rm: nat)
    requires rm < 32
    ensures DecodeFields((if sf then 0x200 else 0) + (if sub then 0x12C else 0x2C) + (if setf then 0x80 else 0),
      rm * 0x40, rn, rd)
         == AddSubReg(sf, sub, setf, rm, rn, rd)
  {
    assert rm * 0x40 / 0x40 == rm && rm * 0x40 % 0x40 == 0 && rm * 0x40 / 0x800 == 0;
  }

  /** cond is 8 (HI) or 4 (MI), the two conditions CMOV uses. */
  lemma CselDecodes(sf: bool, cond: nat, rd: nat, rn: nat, rm: nat)
    requires (cond == 8 || cond == 4) && rd < 32 && rn < 32 && rm < 32
    ensures Decode(RdRnRm((if sf then SF else 0) + (if cond == 8 then CSELHI else CSELMI), rd, rn, rm))
         == Csel(sf, cond, rm, rn, rd)
  {
    hide Bits.Or, Decode;
    var h := if sf then 0x26A else 0x6A;
    RdRnRmSum(2 * h, 4 * cond, rd, rn, rm);
    assert (rm * 0x40 + 4 * cond) / 0x40 == rm && (rm * 0x40 + 4 * cond) % 0x40 == 4 * cond;
    DecodeParts(h, rm * 0x40 + 4 * cond, rn, rd);
    CselFields(sf, cond, rm * 0x40 + 4 * cond, rm, rn, rd);
  }

  lemma CselFields(sf: bool, cond: nat, mid: nat, rm: nat, rn: nat, rd: nat)
    requires (cond == 8 || cond == 4) && rd < 32 && rn < 32 && rm < 32 && mid == rm * 0x40 + 4 * cond
    ensures DecodeFields(if sf then 0x26A else 0x6A, mid, rn, rd) == Csel(sf, cond, rm, rn, rd)
  {
    assert mid / 0x40 == rm && mid % 0x40 == 4 * cond && (mid / 2) % 2 == 0 && (mid / 4) % 16 == cond;
  }

  /** CSINC rd, WZR, WZR, cond with a condition nibble below 4: the CSET words. */
  lemma CsetDecodes(cond: nat, rd: nat)
    requires cond < 4 && rd < 32
    ensures Decode(Or(CSETNE + 0x1000 * cond, rd)) == Csinc(false, cond, 31, 31, rd)
  {
    hide Bits.Or, Decode;
    Powers();
    OrIn(CSETNE + 0x1000 * cond, rd, 0, 5, 1, 0x20, (CSETNE + 0x1000 * cond) / 0x20, 0);
    DecodeParts(0x6A, 0x7C1 + 4 * cond, 31, rd);
  }

  lemma WideDecodes(h: nat, hw: nat, imm: nat, rd: nat)
    requires hw < 4 && imm < 0x1_0000 && rd < 32
    ensures Decode(Wide(0x80_0000 * h, hw, imm, rd))
         == DecodeFields(2 * h + hw / 2, (hw % 2) * 0x800 + imm / 0x20, imm % 0x20, rd)
  {
    hide Bits.Or, Decode, DecodeFields;
    WideSum(h, hw, imm, rd);
    DecodeParts(2 * h + hw / 2, (hw % 2) * 0x800 + imm / 0x20, imm % 0x20, rd);
  }

  lemma MovZDecodes(imm: nat, rd: nat)
    requires imm < 0x1_0000 && rd < 32
    ensures Decode(Wide(MOVZ_IMM, 0, imm, rd)) == MovZ(false, 0, imm, rd)
  {
    hide Bits.Or, Decode;
    WideDecodes(0xA5, 0, imm, rd);
  }

  lemma MovNDecodes(imm: nat, rd: nat)
    requires imm < 0x1_0000 && rd < 32
    ensures Decode(Wide(MOVN_IMM, 0, imm, rd)) == MovN(true, 0, imm, rd)
  {
    hide Bits.Or, Decode;
    WideDecodes(0x125, 0, imm, rd);
  }

  lemma MovKDecodes(hw: nat, imm: nat, rd: nat)
    requires hw < 4 && imm < 0x1_0000 && rd < 32
    ensures Decode(Wide(MOVK_IMM, hw, imm, rd)) == MovK(true, hw, imm, rd)
  {
    hide Bits.Or, Decode, DecodeFields;
    WideDecodes(0x1E5, hw, imm, rd);
    MovKFields(hw, imm, rd);
  }

  lemma MovKFields(hw: nat, imm: nat, rd: nat)
    requires hw < 4 && imm < 0x1_0000
    ensures DecodeFields(0x3CA + hw / 2, (hw % 2) * 0x800 + imm / 0x20, imm % 0x20, rd) == MovK(true, hw, imm, rd)
  {
    var mid := (hw % 2) * 0x800 + imm / 0x20;
    assert mid / 0x800 == hw % 2 && mid % 0x800 == imm / 0x20;
    assert 2 * (hw / 2) + hw % 2 == hw;
  }

  lemma SxtwDecodes(rd: nat, rn: nat)
    requires rd < 32 && rn < 32
    ensures Decode(RdRn(SXTW_REG, rd, rn)) == Sbfm(0, 31, rn, rd)
  {
    hide Bits.Or, Decode;
    RdRnSum(0x24D * 0x1000 + 31, rd, rn);
    DecodeParts(0x24D, 31, rn, rd);
  }

  lemma ShiftLeftDecodes(shift: int, rn: nat, rd: nat)
    requires rn < 32 && rd < 32
    ensures Decode(ShiftLeft(SHIFT_LEFT, shift, rn, rd)) == Ubfm((-shift) % 64, (63 - shift) % 64, rn, rd)
  {
    hide Bits.Or, Decode, DecodeFields;
    ShiftLeftSum(0x34D, shift, rn, rd);
    BitfieldFields((-shift) % 64, (63 - shift) % 64, rn, rd);
    DecodeParts(0x34D, ((-shift) % 64) * 0x40 + (63 - shift) % 64, rn, rd);
  }

  lemma BitfieldFields(immr: nat, imms: nat, rn: nat, rd: nat)
    requires immr < 64 && imms < 64
    ensures DecodeFields(0x34D, immr * 0x40 + imms, rn, rd) == Ubfm(immr, imms, rn, rd)
  {
    var mid := immr * 0x40 + imms;
    assert mid / 0x40 == immr && mid % 0x40 == imms;
  }

  lemma SplitFour(f: nat)
    ensures f == (f / 0x40_0000) * 0x40_0000 + ((f / 0x400) % 0x1000) * 0x400 + ((f / 0x20) % 0x20) * 0x20 + f % 0x20
  {
    assert f / 0x400 == (f / 0x40_0000) * 0x1000 + (f / 0x400) % 0x1000;
    assert f / 0x20 == (f / 0x400) * 0x20 + (f / 0x20) % 0x20;
  }

  lemma SplitThree(f: nat)
    ensures f == (f / 0x2_0000) * 0x2_0000 + ((f / 0x20) % 0x1000) * 0x20 + f % 0x20
  {
    assert f / 0x20 == (f / 0x2_0000) * 0x1000 + (f / 0x20) % 0x1000;
  }

  lemma SplitPages(delta: int)
    ensures delta % 0x20_0000 == 4 * ((delta / 4) % 0x8_0000) + delta % 4
  {}

  lemma PageDecodes(lo: nat, top: nat, mid: nat, rn: nat, rd: nat)
    requires lo < 4 && top < 4 && mid < 0x1000 && rn < 32 && rd < 32
    ensures Decode(ADRP + lo * 0x2000_0000 + ((top * 0x1000 + mid) * 0x20 + rn) * 0x20 + rd)
         == Adrp(SignExt(((top * 0x1000 + mid) * 0x20 + rn) * 4 + lo, 0x10_0000), rd)
  {
    hide Decode, SignExt;
    var h := 0x240 + 0x80 * lo + top;
    assert h / 0x200 == 1 && h / 0x80 == 4 + lo && (h / 4) % 32 == 0x10 && h % 4 == top;
    DecodeParts(h, mid, rn, rd);
  }

  lemma AdrpDecodes(delta: int, rd: nat)
    requires rd < 32
    ensures Decode(Page(ADRP, delta, rd)) == Adrp(SignExt(delta % 0x20_0000, 0x10_0000), rd)
  {
    hide Bits.Or, Decode, SignExt, Page;
    PageSum(delta, rd);
    var lo, hi := delta % 4, (delta / 4) % 0x8_0000;
    SplitPages(delta);
    SplitThree(hi);
    PageDecodes(lo, hi / 0x2_0000, (hi / 0x20) % 0x1000, hi % 0x20, rd);
  }

  lemma AccessDecodes(load: bool, wide: bool, rt: nat, rn: nat)
    requires rt < 32 && rn < 32
    ensures Decode(RdRn((if wide then MFT else 0) + (if load then LDR32_REG else STR32_REG), rt, rn))
         == (if load then Load(if wide then 8 else 4, 0, rn, rt) else Store(if wide then 8 else 4, 0, rn, rt))
  {
    hide Bits.Or, Decode;
    var h := (if wide then 0x100 else 0) + (if load then 0x2E5 else 0x2E4);
    RdRnSum(0x1000 * h, rt, rn);
    DecodeParts(h, 0, rn, rt);
  }

  lemma UnscaledDecodes(load: bool, wide: bool, imm: int, rt: nat, rn: nat)
    requires -0x100 <= imm < 0x100 && rt < 32 && rn < 32
    ensures Decode(Unscaled((if wide then MFT else 0) + (if load then LDUR else STUR), imm, rn, rt))
         == (if load then Load(if wide then 8 else 4, imm, rn, rt) else Store(if wide then 8 else 4, imm, rn, rt))
  {
    hide Bits.Or, Decode;
    var h := (if wide then 0x100 else 0) + (if load then 0x2E1 else 0x2E0);
    UnscaledSum(2 * h, imm, rn, rt);
    DecodeParts(h, (imm % 0x200) * 4, rn, rt);
  }

  lemma PairDecodes(load: bool, rt2: nat, rn: nat, rt: nat)
    requires rt2 < 32 && rn < 32 && rt < 32
    ensures Decode(Pair(if load then LDP else STP, rt2, rn, rt))
         == (if load then Ldp(Offset, 0, rt2, rn, rt) else Stp(Offset, 0, rt2, rn, rt))
  {
    hide Bits.Or, Decode;
    var h := if load then 0x2A5 else 0x2A4;
    PairSum(0x80 * h, rt2, rn, rt);
    DecodeParts(h, rt2, rn, rt);
  }

  /** The two words around a frame: STP X30, X29, [SP, #-16]! and LDP X30, X29, [SP], #16. */
  lemma FrameDecodes()
    ensures Decode(Or(Or(PUSHP, 29 * 0x400), 30)) == Stp(PreIndex, -16, 29, 31, 30)
    ensures Decode(Or(Or(POPP, 29 * 0x400), 30)) == Ldp(PostIndex, 16, 29, 31, 30)
  {
    hide Bits.Or, Decode;
    Powers();
    OrIn(PUSHP, 29, 10, 5, 0x400, 0x20, PUSHP / 0x8000, 0x3E0);
    OrIn(PUSHP + 29 * 0x400, 30, 0, 5, 1, 0x20, PUSHP / 0x20 + 29 * 0x20, 0);
    DecodeParts(0x2A6, 0xFC0 + 29, 31, 30);
    OrIn(POPP, 29, 10, 5, 0x400, 0x20, POPP / 0x8000, 0x3E0);
    OrIn(POPP + 29 * 0x400, 30, 0, 5, 1, 0x20, POPP / 0x20 + 29 * 0x20, 0);
    DecodeParts(0x2A3, 0x040 + 29, 31, 30);
  }

  lemma ReturnDecodes()
    ensures Decode(RET) == Arm64.Ret(30)
  {
    hide Decode;
    DecodeParts(0x359, 0x7C0, 30, 0);
  }

  lemma BrkDecodes(id: nat)
    requires id < 0x1_0000
    ensures Decode(Or(BRK, id * 0x20)) == Brk(id)
  {
    hide Bits.Or, Decode;
    Powers();
    OrIn(BRK, id, 5, 16, 0x20, 0x1_0000, BRK / 0x20_0000, 0);
    DecodeParts(0x350, 0x800 + id / 0x20, id % 0x20, 0);
  }

  /** B or BL with a 26-bit offset field. */
  lemma JumpDecodes(link: bool, offset: int)
    ensures Decode(Or(if link then BLR_IMM else BR_IMM, offset % 0x400_0000))
         == (var d := 4 * SignExt(offset % 0x400_0000, 0x200_0000); if link then BL(d) else B(d))
  {
    hide Bits.Or, Decode;
    Powers();
    var f, h := offset % 0x400_0000, if link then 0x25 else 0x05;
    OrIn(0x400_0000 * h, f, 0, 26, 1, 0x400_0000, h, 0);
    var top, mid, rn, rd := 0x10 * h + f / 0x40_0000, (f / 0x400) % 0x1000, (f / 0x20) % 0x20, f % 0x20;
    SplitFour(f);
    DecodeParts(top, mid, rn, rd);
    JumpFields(link, f / 0x40_0000, mid, rn, rd);
  }

  lemma JumpFields(link: bool, t: nat, mid: nat, rn: nat, rd: nat)
    requires t < 0x10
    ensures DecodeFields(0x10 * (if link then 0x25 else 0x05) + t, mid, rn, rd)
         == (var d := 4 * SignExt((t * 0x1000 + mid) * 0x400 + rn * 0x20 + rd, 0x200_0000);
             if link then BL(d) else B(d))
  {
    hide SignExt;
  }

  lemma BCondDecodes(cond: nat, offset: int)
    requires cond < 16
    ensures Decode(Or(BCOND + cond, (offset % 0x8_0000) * 0x20))
         == BCond(cond, 4 * SignExt(offset % 0x8_0000, 0x4_0000))
  {
    hide Bits.Or, Decode;
    Powers();
    var f := offset % 0x8_0000;
    OrIn(BCOND + cond, f, 5, 19, 0x20, 0x8_0000, 0x54, cond);
    var mid, rn := (f / 0x20) % 0x1000, f % 0x20;
    SplitThree(f);
    DecodeParts(0x150 + f / 0x2_0000, mid, rn, cond);
  }
}

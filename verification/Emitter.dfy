/** Instruction words as src/arm64emitter.h composes them, and what each one decodes to. */
module Emitter {
  import opened Bits

  // x86 register numbers of the decoder, with the recompiler's own scratch names
  const RSP: nat := 4
  const RBP: nat := 5
  const SC1: nat := 16
  const SC2: nat := 17
  const XZR: nat := 21

  /** Host numbers of the two scratch registers. */
  const SC1R: nat := 12
  const SC2R: nat := 13

  /** The table x64_regs: x86 register number to AArch64 register number. */
  const X64_REGS: seq<nat> := [8, 3, 2, 14, 31, 29, 1, 0, 4, 5, 10, 11, 16, 17, 18, 19, 12, 13, 30, 6, 7, 31]

  function X64Reg(r: nat): (h: nat)
    requires r < 22
    ensures h < 32
  {
    X64_REGS[r]
  }

  /** No two guest registers share a host register, only RSP is number 31, and no guest
      register lives in a scratch register or in the link register. */
  lemma GuestRegistersApart(r: nat, q: nat)
    requires r < 16 && q < 16
    ensures X64Reg(r) == X64Reg(q) <==> r == q
    ensures X64Reg(r) == 31 <==> r == RSP
    ensures X64Reg(r) != SC1R && X64Reg(r) != SC2R && X64Reg(r) != 30
  {}

  const SF: nat := 0x8000_0000
  const S: nat := 0x2000_0000
  const MFT: nat := 0x4000_0000
  const ADD_IMM: nat := 0x1100_0000
  const SUB_IMM: nat := 0x5100_0000
  const ADD_REG: nat := 0x0B00_0000
  const SUB_REG: nat := 0x4B00_0000
  const MOVZ_IMM: nat := 0x5280_0000
  const MOVN_IMM: nat := 0x9280_0000
  const MOVK_IMM: nat := 0xF280_0000
  const SXTW_REG: nat := 0x9340_7C00
  const SHIFT_LEFT: nat := 0xD340_0000
  const ADRP: nat := 0x9000_0000
  const LDR32_REG: nat := 0xB940_0000
  const STR32_REG: nat := 0xB900_0000
  const LDUR: nat := 0xB840_0000
  const STUR: nat := 0xB800_0000
  const LDP: nat := 0xA940_0000
  const STP: nat := 0xA900_0000
  const PUSHP: nat := 0xA9BF_03E0
  const POPP: nat := 0xA8C1_03E0
  const CSELHI: nat := 0x1A80_8000
  const CSELMI: nat := 0x1A80_4000
  const CSETNE: nat := 0x1A9F_07E0
  const CSETLO: nat := 0x1A9F_27E0
  const CSETEQ: nat := 0x1A9F_17E0
  const CSETHS: nat := 0x1A9F_37E0
  const BRK: nat := 0xD420_0000
  const BR_IMM: nat := 0x1400_0000
  const BLR_IMM: nat := 0x9400_0000
  const BCOND: nat := 0x5400_0000
  const RET: nat := 0xD65F_03C0

  // ---------------------------------------------------------------- word shapes

  /** op | rd | rn << 5 | imm << 10, as a 32-bit word */
  function RdRnImm(op: nat, rd: nat, rn: nat, imm: int): nat {
    Or(Or(Or(op, rd), rn * 0x20), U32(imm * 0x400))
  }

  /** op | rd | rn << 5 | rm << 16 */
  function RdRnRm(op: nat, rd: nat, rn: nat, rm: nat): nat {
    Or(Or(Or(op, rd), rn * 0x20), rm * 0x1_0000)
  }

  /** op | rd | rn << 5 */
  function RdRn(op: nat, rd: nat, rn: nat): nat {
    Or(Or(op, rd), rn * 0x20)
  }

  /** op | hw << 21 | imm << 5 | rd */
  function Wide(op: nat, hw: nat, imm: nat, rd: nat): nat {
    Or(Or(Or(op, hw * 0x20_0000), imm * 0x20), rd)
  }

  /** op | (imm & 0x1FF) << 12 | rn << 5 | rt */
  function Unscaled(op: nat, imm: int, rn: nat, rt: nat): nat {
    Or(Or(Or(op, (imm % 0x200) * 0x1000), rn * 0x20), rt)
  }

  /** op | rt2 << 10 | rn << 5 | rt */
  function Pair(op: nat, rt2: nat, rn: nat, rt: nat): nat {
    Or(Or(Or(op, rt2 * 0x400), rn * 0x20), rt)
  }

  /** op | (-shift & 63) << 16 | ((63 - shift) & 63) << 10 | rn << 5 | rd */
  function ShiftLeft(op: nat, shift: int, rn: nat, rd: nat): nat {
    Or(Or(Or(Or(op, ((-shift) % 64) * 0x1_0000), ((63 - shift) % 64) * 0x400), rn * 0x20), rd)
  }

  /** op | (delta & 3) << 29 | ((delta >> 2) & 0x7FFFF) << 5 | rd */
  function Page(op: nat, delta: int, rd: nat): nat {
    Or(Or(Or(op, (delta % 4) * 0x2000_0000), ((delta / 4) % 0x8_0000) * 0x20), rd)
  }

  /** OR-ing v into bits k..k+n of w adds it when w is low bits below k plus high bits from k+n. */
  lemma OrIn(w: nat, v: nat, k: nat, n: nat, p: nat, q: nat, high: nat, low: nat)
    requires p == Pow2(k) && q == Pow2(n)
    requires w == p * (q * high) + low && low < p && v < q
    ensures Or(w, v * p) == w + v * p
  {
    DivUnique(w, p, q * high, low);
    DivUnique(q * high, q, high, 0);
    OrField(w, v, k, n);
  }

  lemma Powers()
    ensures Pow2(0) == 1 && Pow2(2) == 4 && Pow2(5) == 0x20 && Pow2(6) == 0x40 && Pow2(9) == 0x200
    ensures Pow2(10) == 0x400 && Pow2(12) == 0x1000 && Pow2(16) == 0x1_0000
    ensures Pow2(19) == 0x8_0000 && Pow2(21) == 0x20_0000 && Pow2(26) == 0x400_0000 && Pow2(29) == 0x2000_0000
  {
    assert Pow2(4) == 16 && Pow2(8) == 256 && Pow2(12) == 0x1000 && Pow2(16) == 0x1_0000;
    assert Pow2(20) == 0x10_0000 && Pow2(24) == 0x100_0000 && Pow2(28) == 0x1000_0000;
  }

  // In the following lemmas h is what stands above the fields in the opcode.

  lemma RdRnSum(h: nat, rd: nat, rn: nat)
    requires rd < 32 && rn < 32
    ensures RdRn(0x400 * h, rd, rn) == 0x400 * h + rd + rn * 0x20
  {
    hide Bits.Or;
    Powers();
    OrIn(0x400 * h, rd, 0, 5, 1, 0x20, 0x20 * h, 0);
    OrIn(0x400 * h + rd, rn, 5, 5, 0x20, 0x20, h, rd);
  }

  lemma RdRnImmSum(h: nat, rd: nat, rn: nat, imm: int)
    requires rd < 32 && rn < 32 && 0 <= imm < 0x1000
    ensures RdRnImm(0x40_0000 * h, rd, rn, imm) == 0x40_0000 * h + rd + rn * 0x20 + imm * 0x400
  {
    hide Bits.Or;
    Powers();
    RdRnSum(0x1000 * h, rd, rn);
    OrIn(0x40_0000 * h + rd + rn * 0x20, imm, 10, 12, 0x400, 0x1000, h, rd + rn * 0x20);
  }

  lemma RdRnRmSum(h: nat, l: nat, rd: nat, rn: nat, rm: nat)
    requires l < 0x40 && rd < 32 && rn < 32 && rm < 32
    ensures RdRnRm(0x20_0000 * h + 0x400 * l, rd, rn, rm)
         == 0x20_0000 * h + 0x400 * l + rd + rn * 0x20 + rm * 0x1_0000
  {
    hide Bits.Or;
    Powers();
    RdRnSum(0x800 * h + l, rd, rn);
    OrIn(0x20_0000 * h + 0x400 * l + rd + rn * 0x20, rm, 16, 5, 0x1_0000, 0x20, h, 0x400 * l + rd + rn * 0x20);
  }

  /** The two low register fields, OR-ed in from the top down. */
  lemma RnRdSum(h: nat, rn: nat, rd: nat)
    requires rn < 32 && rd < 32
    ensures Or(Or(0x400 * h, rn * 0x20), rd) == 0x400 * h + rn * 0x20 + rd
  {
    hide Bits.Or;
    Powers();
    OrIn(0x400 * h, rn, 5, 5, 0x20, 0x20, h, 0);
    OrIn(0x400 * h + rn * 0x20, rd, 0, 5, 1, 0x20, 0x20 * h + rn, 0);
  }

  lemma WideSum(h: nat, hw: nat, imm: nat, rd: nat)
    requires hw < 4 && imm < 0x1_0000 && rd < 32
    ensures Wide(0x80_0000 * h, hw, imm, rd) == 0x80_0000 * h + hw * 0x20_0000 + imm * 0x20 + rd
  {
    hide Bits.Or;
    Powers();
    OrIn(0x80_0000 * h, hw, 21, 2, 0x20_0000, 4, h, 0);
    var g := 4 * h + hw;
    OrIn(0x20_0000 * g, imm, 5, 16, 0x20, 0x1_0000, g, 0);
    OrIn(0x20 * (0x1_0000 * g + imm), rd, 0, 5, 1, 0x20, 0x1_0000 * g + imm, 0);
  }

  lemma UnscaledSum(h: nat, imm: int, rn: nat, rt: nat)
    requires rn < 32 && rt < 32
    ensures Unscaled(0x20_0000 * h, imm, rn, rt) == 0x20_0000 * h + (imm % 0x200) * 0x1000 + rn * 0x20 + rt
  {
    hide Bits.Or;
    Powers();
    OrIn(0x20_0000 * h, imm % 0x200, 12, 9, 0x1000, 0x200, h, 0);
    RnRdSum(0x800 * h + 4 * (imm % 0x200), rn, rt);
  }

  lemma PairSum(h: nat, rt2: nat, rn: nat, rt: nat)
    requires rt2 < 32 && rn < 32 && rt < 32
    ensures Pair(0x8000 * h, rt2, rn, rt) == 0x8000 * h + rt2 * 0x400 + rn * 0x20 + rt
  {
    hide Bits.Or;
    Powers();
    OrIn(0x8000 * h, rt2, 10, 5, 0x400, 0x20, h, 0);
    RnRdSum(0x20 * h + rt2, rn, rt);
  }

  lemma ShiftLeftSum(h: nat, shift: int, rn: nat, rd: nat)
    requires rn < 32 && rd < 32
    ensures ShiftLeft(0x40_0000 * h, shift, rn, rd)
         == 0x40_0000 * h + ((-shift) % 64) * 0x1_0000 + ((63 - shift) % 64) * 0x400 + rn * 0x20 + rd
  {
    hide Bits.Or;
    Powers();
    var r, i := (-shift) % 64, (63 - shift) % 64;
    OrIn(0x40_0000 * h, r, 16, 6, 0x1_0000, 0x40, h, 0);
    OrIn(0x1_0000 * (0x40 * h + r), i, 10, 6, 0x400, 0x40, 0x40 * h + r, 0);
    RnRdSum(0x1000 * h + 0x40 * r + i, rn, rd);
  }

  lemma PageSum(delta: int, rd: nat)
    requires rd < 32
    ensures Page(ADRP, delta, rd) == ADRP + (delta % 4) * 0x2000_0000 + ((delta / 4) % 0x8_0000) * 0x20 + rd
  {
    hide Bits.Or;
    Powers();
    var lo, hi := delta % 4, (delta / 4) % 0x8_0000;
    OrIn(ADRP, lo, 29, 2, 0x2000_0000, 4, 1, 0x1000_0000);
    var g := 0x90 + 0x20 * lo;
    OrIn(0x100_0000 * g, hi, 5, 19, 0x20, 0x8_0000, g, 0);
    OrIn(0x20 * (0x8_0000 * g + hi), rd, 0, 5, 1, 0x20, 0x8_0000 * g + hi, 0);
  }
}

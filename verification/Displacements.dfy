/** Displacements past twelve bits: emit_add_signed (src/encoder.c) shifts them into the opcode, and whatever
    instruction comes out, it is not the addition. */
module Displacements {
  import opened Bits
  import opened Memory
  import opened Arm64
  import opened Emitter
  import opened Words
  import opened Immediates
  import opened Steps
  import opened X86
  import opened Operands
  import opened Addressing

  /** Every register and the memory zero. */
  ghost function Zeros(pc: u64): State {
    State(seq(31, _ => 0), 0, Flags(false, false, false, false), BLANK, pc)
  }

  function AddWord(sub: bool, rd: nat, rn: nat, m: int): nat {
    RdRnImm(SF + (if sub then SUB_IMM else ADD_IMM), rd, rn, m)
  }

  // ---------------------------------------------------------------- what the word can be

  lemma ClassPowers()
    ensures Pow2(24) == 0x100_0000 && Pow2(28) == 0x1000_0000 && Pow2(31) == 0x8000_0000 && Pow2(32) == TWO32
  {
    assert Pow2(8) == 0x100 && Pow2(16) == 0x1_0000;
    assert Pow2(20) == 0x10_0000;
  }

  /** Bits 24, 28 and 31 of the opcode are set, and the register fields are clear of the constant. */
  lemma WordBits(sub: bool, rd: nat, rn: nat, m: int)
    requires rd < 32 && rn < 32
    ensures var w := AddWord(sub, rd, rn, m);
      w < TWO32 && (w / 0x100_0000) % 2 == 1 && (w / 0x1000_0000) % 2 == 1 && (w / 0x8000_0000) % 2 == 1 &&
      w % 0x20 == rd
  {
    hide Bits.Or;
    ClassPowers();
    Powers();
    hide Pow2, U32;
    var h := if sub then 0x344 else 0x244;
    RdRnSum(0x1000 * h, rd, rn);
    var a, b := 0x40_0000 * h + rd + rn * 0x20, U32(m * 0x400);
    OpcodeBits(h, rd, rn);
    OrKeepsBit(a, b, 24);
    OrKeepsBit(a, b, 28);
    OrKeepsBit(a, b, 31);
    OrLowBits(a, b, 5);
    LowZero(m);
    OrZero(rd);
    OrBelow(a, b);
  }

  lemma OpcodeBits(h: nat, rd: nat, rn: nat)
    requires rd < 32 && rn < 32 && (h == 0x344 || h == 0x244)
    ensures var a := 0x40_0000 * h + rd + rn * 0x20;
      a < TWO32 && (a / 0x100_0000) % 2 == 1 && (a / 0x1000_0000) % 2 == 1 && (a / 0x8000_0000) % 2 == 1 &&
      a % 0x20 == rd
  {}

  lemma LowBits(m: int)
    ensures U32(m * 0x400) == 0x400 * (m % 0x40_0000)
  {}

  lemma LowZero(m: int)
    ensures U32(m * 0x400) % 0x20 == 0
  {
    LowBits(m);
    hide U32;
    var k := m % 0x40_0000;
    DivUnique(0x400 * k, 0x20, 0x20 * k, 0);
  }

  lemma OrBelow(a: nat, b: nat)
    requires a < TWO32 && b < TWO32
    ensures Or(a, b) < TWO32
  {
    hide Bits.Or;
    ClassPowers();
    hide Pow2;
    OrShiftRight(a, b, 32);
    ShiftRightDivides(a, 32);
    ShiftRightDivides(b, 32);
    ShiftRightDivides(Or(a, b), 32);
    OrZero(0);
  }

  predicate Harmless(i: Instr) {
    i.Sbfm? || i.Ubfm? || i.Load? || i.Store? || i.BL? || i.Other?
  }

  /** So it is an add or subtract into the same register, a bitfield move, a load, a store, a call or nothing known. */
  lemma WordClass(w: nat)
    requires w < TWO32 && (w / 0x100_0000) % 2 == 1 && (w / 0x1000_0000) % 2 == 1 && (w / 0x8000_0000) % 2 == 1
    ensures var i, m: nat := Decode(w), (w / 0x400) % 0x1000;
      Harmless(i) ||
      (i.AddSubImm? && i.sf && i.rd == w % 32 && (i.imm == m || i.imm == 0x1000 * m))
  {
    var top := w / 0x40_0000;
    assert w / 0x100_0000 == top / 4 && w / 0x1000_0000 == top / 0x40 && w / 0x8000_0000 == top / 0x200;
    FieldsClass(top, (w / 0x400) % 0x1000, (w / 0x20) % 32, w % 32);
  }

  lemma FieldsClass(top: nat, mid: nat, rn: nat, rd: nat)
    requires top < 0x400 && (top / 4) % 2 == 1 && (top / 0x40) % 2 == 1 && top / 0x200 == 1
    ensures var i, m: int := DecodeFields(top, mid, rn, rd), mid;
      Harmless(i) ||
      (i.AddSubImm? && i.sf && i.rd == rd && (i.imm == m || i.imm == 0x1000 * m))
  {
    hide SignExt, DecodeBranch, DecodePair, DecodeUnscaled, DecodeMoveWide;
    KindBits(top);
    BranchClass(top, mid, rn, rd);
  }

  lemma KindBits(top: nat)
    requires top < 0x400 && (top / 4) % 2 == 1 && (top / 0x40) % 2 == 1 && top / 0x200 == 1
    ensures var kind := (top / 4) % 32; kind % 2 == 1 && kind >= 16 && 4 <= top / 0x80 < 8
  {
    var kind := (top / 4) % 32;
    assert kind / 16 == (top / 0x40) % 2 && kind % 2 == (top / 4) % 2;
  }

  lemma BranchClass(top: nat, mid: nat, rn: nat, rd: nat)
    requires top < 0x400 && (top / 4) % 2 == 1 && (top / 0x40) % 2 == 1 && top / 0x200 == 1
    ensures var i := DecodeBranch(top, mid, rn, rd); i.BL? || i.Other?
  {
    hide SignExt;
  }

  // ---------------------------------------------------------------- what it does to zeros

  lemma {:induction false} ZeroBytes(k: nat)
    ensures FromBytes(seq(k, _ => 0)) == 0
  {
    if k > 0 {
      ZeroBytes(k - 1);
      assert seq(k, _ => 0)[1..] == seq(k - 1, _ => 0);
    }
  }

  lemma BlankLoads(a: int, size: nat)
    ensures LoadWord(BLANK, a, size) == 0
  {
    var k := if size == 8 then 8 else 4;
    assert ReadBytes(BLANK, a, k) == seq(k, _ => 0);
    ZeroBytes(k);
  }

  lemma OthersKeepZeros(i: Instr, pc: u64, r: nat)
    requires Harmless(i) && r < 32 && r != 30
    ensures var o := Exec(i, Zeros(pc)); o.Next? ==> XSp(o.s, r) == 0
  {
    hide LoadWord, StoreWord, U64, SignExtendWord, Pow2;
    ZeroTimes(1);
    if i.Load? { BlankLoads(U64(XSp(Zeros(pc), i.rn) + i.off), i.size); }
    if i.Ubfm? && i.imms < 63 { ZeroTimes(Pow2(63 - i.imms)); }
  }

  lemma ZeroTimes(p: nat)
    ensures U64(0 * p) == 0 && SignExtendWord(0) == 0
  {}

  lemma AddToZeros(i: Instr, pc: u64)
    requires i.AddSubImm? && i.sf && i.imm < TWO32
    ensures var o, v := Exec(i, Zeros(pc)), U64(if i.sub then 0 - i.imm else i.imm);
      o.Next? && i.rd < 32 ==> XSp(o.s, i.rd) == v || (i.rd == 31 && XSp(o.s, i.rd) == 0)
  {
    hide AddSub;
    AddSubResult(0, U64(i.imm), true, i.sub);
  }

  /** No field of twelve bits, shifted or not, added or subtracted, makes up for the lost ones. */
  lemma LostBits(m: int, neg: bool, v: int, sub: bool)
    requires 0x1000 <= m <= 0x8000_0000_0000_0000 && (v == m % 0x1000 || v == 0x1000 * (m % 0x1000))
    ensures U64(if neg then -m else m) != U64(if sub then -v else v) && U64(if neg then -m else m) != 0
  {
    assert v != m && 0 <= v < TWO32;
  }

  /** From zeros, the word leaves v in register rd. */
  ghost predicate Lands(w: nat, rd: nat, v: u64, pc: u64) {
    var o := Step(w, Zeros(pc));
    o.Next? && XSp(o.s, rd) == v
  }

  /** From zeros the word never leaves the constant in its target. */
  lemma FarFails(sub: bool, rd: nat, rn: nat, m: nat, neg: bool, pc: u64)
    requires rd < 32 && rd != 30 && rn < 32 && 0x1000 <= m <= 0x8000_0000_0000_0000
    ensures !Lands(AddWord(sub, rd, rn, m), rd, U64(if neg then 0 - m else m), pc)
  {
    hide Decode, Exec, AddWord, U64, XSp;
    var w := AddWord(sub, rd, rn, m);
    WordBits(sub, rd, rn, m);
    WordClass(w);
    FieldIs(sub, rd, rn, m);
    var i := Decode(w);
    LostBits(m, neg, m % 0x1000, true);
    if i.AddSubImm? {
      AddToZeros(i, pc);
      LostBits(m, neg, i.imm, i.sub);
    } else {
      OthersKeepZeros(i, pc, rd);
    }
  }

  lemma FieldIs(sub: bool, rd: nat, rn: nat, m: nat)
    requires rd < 32 && rn < 32
    ensures (AddWord(sub, rd, rn, m) / 0x400) % 0x1000 == m % 0x1000
  {
    hide RdRnImm;
    MiddleBits(sub, rd, rn, m);
  }

  /** A displacement from 64 to 128 KiB comes out as a branch with link. */
  lemma FarIsCall(r0: nat, r1: nat, imm: nat)
    requires r0 < 32 && r1 < 32 && 0x1_0000 <= imm < 0x2_0000
    ensures Decode(AddSigned(r0, r1, imm)).BL?
  {
    hide Bits.Or, Decode;
    Powers();
    hide Pow2, U32;
    RdRnSum(0x24_4000, r0, r1);
    var a, b := 0x9100_0000 + r0 + r1 * 0x20, U32(imm * 0x400);
    OrShiftRight(a, b, 26);
    ShiftRightDivides(a, 26);
    ShiftRightDivides(b, 26);
    ShiftRightDivides(Or(a, b), 26);
    OneIn(imm);
    CallBits();
    CallClass(Or(a, b));
  }

  lemma OneIn(imm: nat)
    requires 0x1_0000 <= imm < 0x2_0000
    ensures U32(imm * 0x400) / 0x400_0000 == 1
  {}

  lemma CallBits()
    ensures Or(0x24, 1) == 0x25
  {
    hide Bits.Or;
    OrStep(0x24, 1);
    OrZero(0x12);
  }

  lemma CallClass(w: nat)
    requires w / 0x400_0000 == 0x25
    ensures Decode(w).BL?
  {
    hide SignExt;
    var top := w / 0x40_0000;
    assert top / 0x10 == 0x25;
  }

  // ---------------------------------------------------------------- when the displacement is added

  lemma FarStepFails(r0: nat, r1: nat, imm: i64, pc: u64)
    requires r0 < 32 && r0 != 30 && r1 < 32 && !(-0x1000 < imm < 0x1000)
    ensures !Lands(AddSigned(r0, r1, imm), r0, U64(imm), pc)
  {
    hide Lands, RdRnImm, U64;
    var m: int := imm;
    FarFails(imm <= 0, r0, r1, if m > 0 then m else -m, imm < 0, pc);
  }

  /** The word of emit_add_signed adds the constant, from every state, exactly when it fits twelve bits. */
  lemma AddSignedStepExact(r0: nat, r1: nat, imm: i64)
    requires r0 < 32 && r0 != 30 && r1 < 32
    ensures (forall s: State :: Step(AddSigned(r0, r1, imm), s) == Next(Advance(SetXSp(s, r0, Add64(XSp(s, r1), imm)))))
       <==> -0x1000 < imm < 0x1000
  {
    hide Step, AddSigned;
    if -0x1000 < imm < 0x1000 {
      forall s: State ensures Step(AddSigned(r0, r1, imm), s) == Next(Advance(SetXSp(s, r0, Add64(XSp(s, r1), imm)))) {
        StepAdd(r0, r1, imm, s);
      }
    } else {
      FarStepFails(r0, r1, imm, 0);
      var s := Zeros(0);
      assert Step(AddSigned(r0, r1, imm), s) != Next(Advance(SetXSp(s, r0, Add64(XSp(s, r1), imm))));
    }
  }

  /** The words for op leave its address in reg, and change nothing else, from every state. */
  ghost predicate AlwaysRight(op: Operand, reg: nat, at: Place)
    requires Numbered(op) && reg < 30
  {
    forall s: State :: s.pc == at.host ==>
      AddressWords(op, reg, at).Words? &&
      OnlySets(Run(AddressWords(op, reg, at).ws, s), s, reg, U64(OperandSum(op, View(s), at.rip)))
  }

  /** emit_address_decode forms the address of a base or index with a displacement, from every state, exactly
      when the displacement fits twelve bits. */
  lemma DisplacementExact(op: Operand, reg: nat, at: Place)
    requires op.t.mem && op.t.imm && (op.t.idx || op.t.reg) && Numbered(op) && reg < 30
    requires op.t.idx ==> op.idx != RSP && op.scale < 4 && (op.t.reg ==> X64Reg(op.reg) != reg)
    requires -0x8000_0000_0000_0000 <= op.imm < 0x8000_0000_0000_0000
    ensures AlwaysRight(op, reg, at) <==> -0x1000 < op.imm < 0x1000
  {
    hide Run, View, AddressWords, OperandSum, U64, X64Reg;
    if -0x1000 < op.imm < 0x1000 {
      forall s: State | s.pc == at.host
        ensures AddressWords(op, reg, at).Words?
        ensures OnlySets(Run(AddressWords(op, reg, at).ws, s), s, reg, U64(OperandSum(op, View(s), at.rip)))
      {
        AddressOfOperand(op, reg, at, s);
      }
    } else {
      var s := Zeros(at.host);
      SumOfZeros(op, at);
      if op.t.idx { IndexedFails(op, reg, at); } else { BasedFails(op, reg, at); }
      assert s.pc == at.host;
    }
  }

  lemma SumOfZeros(op: Operand, at: Place)
    requires op.t.imm && (op.t.idx || op.t.reg) && Numbered(op)
    ensures OperandSum(op, View(Zeros(at.host)), at.rip) == op.imm
  {
    hide Pow2;
    if op.t.idx { ZeroTimes(Pow2(op.scale)); }
  }

  lemma BasedFails(op: Operand, reg: nat, at: Place)
    requires op.t.mem && op.t.imm && op.t.reg && !op.t.idx && Numbered(op) && reg < 30
    requires -0x8000_0000_0000_0000 <= op.imm < 0x8000_0000_0000_0000 && !(-0x1000 < op.imm < 0x1000)
    ensures var e, s := AddressWords(op, reg, at), Zeros(at.host);
      e.Words? && !OnlySets(Run(e.ws, s), s, reg, U64(op.imm))
  {
    hide Step, AddSigned, Run;
    GuestRegistersApart(op.reg, op.reg);
    var w := AddSigned(reg, X64Reg(op.reg), op.imm);
    FarStepFails(reg, X64Reg(op.reg), op.imm, at.host);
    RunOne(w, Zeros(at.host));
  }

  lemma IndexedFails(op: Operand, reg: nat, at: Place)
    requires op.t.mem && op.t.imm && op.t.idx && Numbered(op) && reg < 30
    requires op.idx != RSP && op.scale < 4 && (op.t.reg ==> X64Reg(op.reg) != reg)
    requires -0x8000_0000_0000_0000 <= op.imm < 0x8000_0000_0000_0000 && !(-0x1000 < op.imm < 0x1000)
    ensures var e, s := AddressWords(op, reg, at), Zeros(at.host);
      e.Words? && !OnlySets(Run(e.ws, s), s, reg, U64(op.imm))
  {
    hide Bits.Or, Step, Run, RdRn, RdRnRm, ShiftLeft, AddSigned, Pow2;
    var s, ws, w := Zeros(at.host), IndexWords(op, reg), AddSigned(reg, reg, op.imm);
    IndexAndBase(op, reg, s);
    ZeroTimes(Pow2(op.scale));
    var t := Run(ws, s).s;
    assert t.x == s.x;
    assert t == Zeros(t.pc);
    FarStepFails(reg, reg, op.imm, t.pc);
    RunConcat(ws, [w], s);
    RunOne(w, t);
    assert AddressWords(op, reg, at) == Words(ws + [w]);
  }
}

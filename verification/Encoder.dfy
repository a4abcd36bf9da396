/** The encoder of src/encoder.c as it runs: every routine appends to the context's host buffer, the
    peephole rewinds it.  Each is proved to emit the word sequence whose meaning the translation
    modules establish. */
module Encoder {
  import opened Bits
  import opened Emitter
  import opened Immediates
  import opened Steps
  import opened X86
  import opened Operands
  import opened Addressing
  import opened Arithmetic
  import opened Conditions
  import opened CallTree
  import opened Moves
  import opened PushPop
  import opened CompileContext
  import opened Decoder

  // instruction types of src/decoder.h
  const T_ADD := 0
  const T_SUB := 5
  const T_CMP := 7
  const T_MOV := 19
  const T_LEA := 69
  const T_RET := 72
  const T_LEAVE := 73

  method EmitAddSigned(c: Context, r0: nat, r1: nat, imm: int)
    requires c.Valid() && c.Room(1)
    modifies c`hp, c.host
    ensures c.Valid() && c.hp == old(c.hp) + 1 && c.Emitted() == old(c.Emitted()) + [AddSigned(r0, r1, imm)]
  {
    if imm > 0 { c.Emit32(RdRnImm(SF + ADD_IMM, r0, r1, imm)); } else { c.Emit32(RdRnImm(SF + SUB_IMM, r0, r1, -imm)); }
  }

  method EmitSubSigned(c: Context, r0: nat, r1: nat, imm: int)
    requires c.Valid() && c.Room(1)
    modifies c`hp, c.host
    ensures c.Valid() && c.hp == old(c.hp) + 1 && c.Emitted() == old(c.Emitted()) + [SubSigned(r0, r1, imm)]
  {
    if imm > 0 { c.Emit32(RdRnImm(SF + SUB_IMM, r0, r1, imm)); } else { c.Emit32(RdRnImm(SF + ADD_IMM, r0, r1, -imm)); }
  }

  method EmitImm(c: Context, imm: i64, rd: nat)
    requires c.Valid() && c.Room(4)
    modifies c`hp, c.host
    ensures c.Valid() && c.hp == old(c.hp) + |ImmWords(imm, rd)| && c.Emitted() == old(c.Emitted()) + ImmWords(imm, rd)
  {
    hide Bits.Or, Wide, RdRn;
    if 0 <= imm <= 0x7FFF {
      c.Emit32(Wide(MOVZ_IMM, 0, imm, rd));
    } else if imm < 0 && -1 - imm <= 0x7FFF {
      c.Emit32(Wide(MOVN_IMM, 0, -1 - imm, rd));
    } else if -0x8000_0000 <= imm <= 0x7FFF_FFFF {
      c.Emit32(Wide(MOVZ_IMM, 0, imm % 0x1_0000, rd));
      c.Emit32(Wide(MOVK_IMM, 1, (imm / 0x1_0000) % 0x1_0000, rd));
      if imm < 0 { c.Emit32(RdRn(SXTW_REG, rd, rd)); }
    } else {
      c.Emit32(Wide(MOVZ_IMM, 0, imm % 0x1_0000, rd));
      c.Emit32(Wide(MOVK_IMM, 1, (imm / 0x1_0000) % 0x1_0000, rd));
      c.Emit32(Wide(MOVK_IMM, 2, (imm / 0x1_0000_0000) % 0x1_0000, rd));
      c.Emit32(Wide(MOVK_IMM, 3, (imm / 0x1_0000_0000_0000) % 0x1_0000, rd));
    }
  }

  /** Appending e, or a panic. */
  twostate predicate Appends(c: Context, ok: bool, e: Emission)
    reads c, c.host
  {
    (ok <==> e.Words?) &&
    (ok && old(c.hp) <= c.host.Length ==>
      c.hp <= c.host.Length && c.hp == old(c.hp) + |e.ws| && c.host[..c.hp] == old(c.host[..c.hp]) + e.ws)
  }

  /** The words are for the guest address after the instruction and the host address of the first of them. */
  method EmitAddressDecode(c: Context, op: Operand, reg: nat) returns (ok: bool)
    requires c.Valid() && c.Room(3) && Numbered(op)
    modifies c`hp, c.host
    ensures Appends(c, ok, AddressWords(op, reg, Place(U64(c.guestBase + c.gp), U64(c.hostBase + 4 * old(c.hp)))))
  {
    hide Bits.Or, RdRn, RdRnRm, RdRnImm, ShiftLeft, Page, AddSigned;
    if op.t == MEM_IMM {
      var at := c.At();
      var full := U64(at.rip + op.imm);
      var delta := PageDelta(full, at.host);
      if delta < -0x1_0000_0000 || delta > 0x1_0000_0000 { return false; }
      c.Emit32(Page(ADRP, delta, reg));
      c.Emit32(RdRnImm(SF + ADD_IMM, reg, reg, full % 0x1000));
    } else if op.t.idx {
      if op.scale != 0 {
        c.Emit32(ShiftLeft(SHIFT_LEFT, op.scale, X64Reg(op.idx), reg));
      } else {
        c.Emit32(RdRn(SF + ADD_IMM, reg, X64Reg(op.idx)));
      }
      if op.t.reg { c.Emit32(RdRnRm(SF + ADD_REG, reg, reg, X64Reg(op.reg))); }
      if op.t.imm && op.imm != 0 { EmitAddSigned(c, reg, reg, op.imm); }
    } else if op.t.imm {
      EmitAddSigned(c, reg, X64Reg(op.reg), op.imm);
    } else {
      c.Emit32(RdRn(SF + ADD_IMM, reg, X64Reg(op.reg)));
    }
    ok := true;
  }

  method EmitLoad(c: Context, rd: nat, op: Operand, wide: bool) returns (ok: bool)
    requires c.Valid() && c.Room(4) && Numbered(op)
    modifies c`hp, c.host
    ensures Appends(c, ok, LoadWords(op, rd, wide, old(c.At())))
  {
    hide Bits.Or, RdRn, Unscaled, AddressWords;
    ok := true;
    if op.t == MEM_REG_IMM && op.imm > -256 && op.imm < 255 {
      c.Emit32(Unscaled(SizeBit(wide) + LDUR, op.imm, X64Reg(op.reg), rd));
    } else if op.t == MEM_REG {
      c.Emit32(RdRn(SizeBit(wide) + LDR32_REG, rd, X64Reg(op.reg)));
    } else {
      AddressLength(op, SC1R, c.At());
      ok := EmitAddressDecode(c, op, SC1R);
      if ok { c.Emit32(RdRn(SizeBit(wide) + LDR32_REG, rd, SC1R)); }
    }
  }

  method EmitStore(c: Context, rd: nat, op: Operand, wide: bool, address: bool) returns (ok: bool)
    requires c.Valid() && c.Room(4) && Numbered(op)
    modifies c`hp, c.host
    ensures Appends(c, ok, StoreWords(op, rd, wide, old(c.At()), address))
  {
    hide Bits.Or, RdRn, Unscaled, AddressWords;
    ok := true;
    if op.t == MEM_REG_IMM && op.imm > -256 && op.imm < 255 {
      c.Emit32(Unscaled(SizeBit(wide) + STUR, op.imm, X64Reg(op.reg), rd));
    } else if op.t == MEM_REG {
      c.Emit32(RdRn(SizeBit(wide) + STR32_REG, rd, X64Reg(op.reg)));
    } else {
      AddressLength(op, SC1R, c.At());
      if address { ok := EmitAddressDecode(c, op, SC1R); }
      if ok { c.Emit32(RdRn(SizeBit(wide) + STR32_REG, rd, SC1R)); }
    }
  }

  lemma AddressLength(op: Operand, reg: nat, at: Place)
    requires Numbered(op)
    ensures AddressWords(op, reg, at).Words? ==> |AddressWords(op, reg, at).ws| <= 3
  {}

  // ---------------------------------------------------------------- the cases of encode

  /** An operand as the cases of encode read it. */
  function ToArg(op: Operand): Arg
    requires op.t.mem || op.t == REG_ONLY || -0x8000_0000_0000_0000 <= op.imm < 0x8000_0000_0000_0000
  {
    if op.t.mem then MemArg(op) else if op.t == REG_ONLY then RegArg(op.reg) else ImmArg(op.imm)
  }

  predicate Sound(op: Operand) {
    (op.t.mem || op.t.reg ==> Numbered(op)) && -0x8000_0000_0000_0000 <= op.imm < 0x8000_0000_0000_0000
  }

  /** Operands of a two-operand instruction. */
  predicate TwoOperands(a: Operand, b: Operand) {
    Sound(a) && Sound(b) && Encodable(ToArg(a), ToArg(b))
  }

  function ToSource(b: Operand): Source {
    if b.t == REG_ONLY then Register(b.reg) else Constant(b.imm)
  }

  /** ADD and SUB, all operand shapes. */
  function ArithWords(sub: bool, wide: bool, a: Operand, b: Operand, at: Place): Emission
    requires TwoOperands(a, b)
  {
    if b.t.mem then LoadArithWords(sub, wide, X64Reg(a.reg), b, at)
    else if a.t.mem then UpdateWords(sub, wide, a, ToSource(b), at)
    else Words([ArithWord(sub, wide, X64Reg(a.reg), ToSource(b))])
  }

  function ComputeWord(sub: bool, wide: bool, rd: nat, register: bool, rm: nat, imm: int): nat {
    if register then RdRnRm(SfBit(wide) + (if sub then SUB_REG else ADD_REG) + S, rd, rd, rm)
    else if sub then SubSigned(rd, rd, imm)
    else AddSigned(rd, rd, imm)
  }

  method EmitCompute(c: Context, sub: bool, wide: bool, rd: nat, register: bool, rm: nat, imm: int)
    requires c.Valid() && c.Room(1)
    modifies c`hp, c.host
    ensures c.Valid() && c.hp == old(c.hp) + 1
    ensures c.Emitted() == old(c.Emitted()) + [ComputeWord(sub, wide, rd, register, rm, imm)]
  {
    hide Bits.Or, RdRnRm, SubSigned, AddSigned;
    if register {
      c.Emit32(RdRnRm(SfBit(wide) + (if sub then SUB_REG else ADD_REG) + S, rd, rd, rm));
    } else if sub {
      EmitSubSigned(c, rd, rd, imm);
    } else {
      EmitAddSigned(c, rd, rd, imm);
    }
  }

  /** The specified words, by the parts the method emits. */
  lemma ArithParts(sub: bool, wide: bool, a: Operand, b: Operand, at: Place)
    requires TwoOperands(a, b)
    ensures var r0 := if a.t.mem then SC2R else X64Reg(a.reg);
      var r1 := if b.t == REG_ONLY then X64Reg(b.reg) else SC2R;
      var w := ComputeWord(sub, wide, r0, b.t.mem || b.t == REG_ONLY, r1, b.imm);
      ArithWords(sub, wide, a, b, at) ==
      if b.t.mem then
        var load := LoadWords(b, SC2R, wide, at);
        if load.Panic? then Panic else Words(load.ws + [w])
      else if a.t.mem then
        var load, store := LoadWords(a, SC2R, wide, at), StoreWords(a, SC2R, wide, at, false);
        if load.Panic? || store.Panic? then Panic else Words(load.ws + [w] + store.ws)
      else Words([w])
  {
    hide Bits.Or, RdRnRm, RdRn, RdRnImm, LoadWords, StoreWords, AddSigned, SubSigned, X64Reg, SfBit;
  }

  method EncodeArith(c: Context, sub: bool, wide: bool, a: Operand, b: Operand) returns (ok: bool)
    requires c.Valid() && c.Room(9) && TwoOperands(a, b)
    modifies c`hp, c.host
    ensures Appends(c, ok, ArithWords(sub, wide, a, b, old(c.At())))
  {
    hide Bits.Or, ComputeWord, ArithWords, LoadWords, StoreWords, U64, X64Reg;
    ArithParts(sub, wide, a, b, c.At());
    ok := true;
    var r0: nat, r1: nat, register := SC2R, SC2R, b.t == REG_ONLY;
    if b.t.mem {
      LoadLength(b, SC2R, wide, c.At());
      ok := EmitLoad(c, SC2R, b, wide);
      register := true;
    } else if a.t.mem {
      LoadLength(a, SC2R, wide, c.At());
      StoreLength(a, wide, c.At());
      ok := EmitLoad(c, SC2R, a, wide);
    }
    if !ok { return; }
    if !a.t.mem { r0 := X64Reg(a.reg); }
    if b.t == REG_ONLY { r1 := X64Reg(b.reg); }
    EmitCompute(c, sub, wide, r0, register, r1, b.imm);
    if a.t.mem {
      StoreAnywhere(a, wide, c.At(), old(c.At()));
      ok := EmitStore(c, SC2R, a, wide, false);
    }
  }

  lemma LoadLength(op: Operand, rd: nat, wide: bool, at: Place)
    requires Numbered(op)
    ensures LoadWords(op, rd, wide, at).Words? ==> |LoadWords(op, rd, wide, at).ws| <= 4
  {
    hide AddressWords, RdRn, Unscaled;
    AddressLength(op, SC1R, at);
  }

  lemma StoreLength(op: Operand, wide: bool, at: Place)
    requires Numbered(op)
    ensures StoreWords(op, SC2R, wide, at, false).Words? && |StoreWords(op, SC2R, wide, at, false).ws| <= 4
  {}

  lemma StoreAnywhere(op: Operand, wide: bool, at: Place, there: Place)
    requires Numbered(op)
    ensures StoreWords(op, SC2R, wide, at, false) == StoreWords(op, SC2R, wide, there, false)
  {}

  /** The comparison of r0 with a register or a constant. */
  method EmitCompare(c: Context, wide: bool, r0: nat, register: bool, r1: nat, imm: i64)
    requires c.Valid() && c.Room(5)
    modifies c`hp, c.host
    ensures Appends(c, true,
      Words(if register then [CompareWord(wide, r0, r1)] else ImmWords(imm, SC1R) + [CompareWord(wide, r0, SC1R)]))
  {
    hide Bits.Or, RdRnRm, ImmWords, SfBit;
    if register {
      c.Emit32(RdRnRm(SfBit(wide) + SUB_REG + S, X64Reg(XZR), r0, r1));
    } else {
      ImmLength(imm, SC1R);
      EmitImm(c, imm, SC1R);
      c.Emit32(RdRnRm(SfBit(wide) + SUB_REG + S, X64Reg(XZR), r0, X64Reg(SC1)));
    }
  }

  method EncodeCmp(c: Context, wide: bool, a: Operand, b: Operand) returns (ok: bool)
    requires c.Valid() && c.Room(9) && TwoOperands(a, b)
    modifies c`hp, c.host
    ensures Appends(c, ok, CmpWords(ToArg(a), ToArg(b), wide, old(c.At())))
  {
    hide Bits.Or, LoadWords, ImmWords, CompareWord, X64Reg, U64;
    ok := true;
    var r0: nat, r1: nat, register := SC2R, SC2R, b.t == REG_ONLY;
    if b.t.mem {
      LoadLength(b, SC2R, wide, c.At());
      ok := EmitLoad(c, SC2R, b, wide);
      register := true;
    } else if a.t.mem {
      LoadLength(a, SC2R, wide, c.At());
      ok := EmitLoad(c, SC2R, a, wide);
    }
    if !ok { return; }
    if !a.t.mem { r0 := X64Reg(a.reg); }
    if b.t == REG_ONLY { r1 := X64Reg(b.reg); }
    EmitCompare(c, wide, r0, register, r1, b.imm);
  }

  lemma ImmLength(imm: i64, rd: nat)
    ensures 1 <= |ImmWords(imm, rd)| <= 4
  {}

  method EncodeMov(c: Context, wide: bool, a: Operand, b: Operand) returns (ok: bool)
    requires c.Valid() && c.Room(8) && TwoOperands(a, b)
    modifies c`hp, c.host
    ensures Appends(c, ok, MovWords(ToArg(a), ToArg(b), wide, old(c.At())))
  {
    hide Bits.Or, RdRn, LoadWords, StoreWords, ImmWords;
    ok := true;
    ImmLength(b.imm, SC2R);
    if a.t == REG_ONLY && b.t == REG_ONLY {
      c.Emit32(RdRn(SfBit(wide) + ADD_IMM, X64Reg(a.reg), X64Reg(b.reg)));
    } else if a.t == REG_ONLY && !b.t.mem {
      EmitImm(c, b.imm, X64Reg(a.reg));
    } else if b.t.mem {
      ok := EmitLoad(c, X64Reg(a.reg), b, wide);
    } else {
      var r1;
      if b.t == REG_ONLY {
        r1 := X64Reg(b.reg);
      } else if b.imm == 0 {
        r1 := X64Reg(XZR);
      } else {
        EmitImm(c, b.imm, SC2R);
        r1 := X64Reg(SC2);
      }
      ghost var n := c.hp - old(c.hp);
      assert c.At() == Place(old(c.At()).rip, U64(old(c.At()).host + 4 * n)) by { HostMoves(c.hostBase, old(c.hp), n); }
      ok := EmitStore(c, r1, a, wide, true);
    }
  }

  lemma HostMoves(base: u64, hp: nat, n: nat)
    ensures U64(base + 4 * (hp + n)) == U64(U64(base + 4 * hp) + 4 * n)
  {
    Wraps(base + 4 * hp, 4 * n);
  }

  method EncodeLea(c: Context, a: Operand, b: Operand) returns (ok: bool)
    requires c.Valid() && c.Room(3) && Sound(a) && Sound(b) && a.t == REG_ONLY && b.t.mem
    modifies c`hp, c.host
    ensures Appends(c, ok, LeaWords(a.reg, b, Place(U64(c.guestBase + c.gp), U64(c.hostBase + 4 * old(c.hp)))))
  {
    ok := EmitAddressDecode(c, b, X64Reg(a.reg));
  }

  /** LEAVE; RET. */
  function LeaveWords(): seq<nat> {
    [RdRnImm(SF + ADD_IMM, X64Reg(RSP), X64Reg(RBP), 0), PopFrame()]
  }

  /** The frame code that call trees are made of is what is emitted for PUSH RBP, with or without MOV RBP,
      RSP, for LEAVE; RET and POP RBP; RET, and over the BRK of a CALL. */
  lemma FrameCodeEmitted(at: Place, site: u64, target: u64)
    ensures EncodeOp(START, Push(RBP)).words == OpenWords(Saved)
    ensures OpenWords(Saved) + MovWords(RegArg(RBP), RegArg(RSP), true, at).ws == OpenWords(Framed)
    ensures EncodeOp(START, Pop(RBP)).words + [RET] == CloseWords(Saved) && LeaveWords() + [RET] == CloseWords(Framed)
    ensures PatchWord(CALL, (target - site) / 4) == Patch(CallWord(site, target))
  {
    hide Bits.Or, RdRn, RdRnImm;
  }

  /** The cases other than PUSH and POP, and SETcc. */
  predicate Modelled(i: Instruction) {
    Sound(i.a) && Sound(i.b) &&
    if i.size == 8 then SETO <= i.t < SETO + 16 && i.a.t == REG_ONLY
    else if i.t == T_ADD || i.t == T_SUB || i.t == T_CMP || i.t == T_MOV then TwoOperands(i.a, i.b)
    else if i.t == T_LEA then i.a.t == REG_ONLY && i.b.t.mem
    else if CMOVO <= i.t < CMOVO + 16 then i.a.t == REG_ONLY && i.b.t == REG_ONLY
    else i.t == T_LEAVE || i.t == T_RET
  }

  function OneWord(p: Patched): Emission {
    if p.Patch? then Words([p.w]) else Panic
  }

  /** What encode emits for them. */
  function EncodeWords(i: Instruction, at: Place): Emission
    requires Modelled(i)
  {
    var wide := i.size == 64;
    if i.size == 8 then OneWord(SetWord(i.t, i.a.reg))
    else if i.t == T_ADD || i.t == T_SUB then ArithWords(i.t == T_SUB, wide, i.a, i.b, at)
    else if i.t == T_CMP then CmpWords(ToArg(i.a), ToArg(i.b), wide, at)
    else if i.t == T_MOV then MovWords(ToArg(i.a), ToArg(i.b), wide, at)
    else if i.t == T_LEA then LeaWords(i.a.reg, i.b, at)
    else if i.t == T_LEAVE then Words(LeaveWords())
    else if i.t == T_RET then Words([RET])
    else OneWord(CmovWord(i.t, wide, i.a.reg, i.b.reg))
  }

  lemma SetupLength(op: StackOp)
    ensures |SetupWords(op)| <= 4
  {}

  /** Bringing the operand of a PUSH into a register, and the same words for a POP. */
  method EmitOperand(c: Context, op: StackOp) returns (r0: nat)
    requires c.Valid() && c.Room(4) && ValidOp(op)
    modifies c`hp, c.host
    ensures c.Valid() && c.hp == old(c.hp) + |SetupWords(op)| && c.Emitted() == old(c.Emitted()) + SetupWords(op) &&
      r0 == OperandReg(op)
  {
    hide Bits.Or, RdRn, ImmWords, X64Reg;
    r0 := SC1R;
    if op.PushImm? {
      EmitImm(c, op.imm, SC1R);
    } else if op.r == RSP {
      c.Emit32(RdRn(SF + ADD_IMM, SC1R, 31));
    } else {
      r0 := X64Reg(op.r);
    }
  }

  method EmitPop(c: Context, fused: bool, first: nat, r0: nat)
    requires c.Valid() && c.Room(3)
    modifies c`hp, c.host
    ensures c.Valid() && c.Emitted() == old(c.Emitted()) + if fused then FusedPopWords(first, r0) else PopWords(r0)
  {
    hide Bits.Or, RdRn, Pair, AddSigned;
    c.Emit32(RdRn(SF + ADD_IMM, SC2R, 31));
    if fused {
      c.Emit32(Pair(LDP, r0, SC2R, first));
      EmitAddSigned(c, 31, SC2R, 16);
    } else {
      c.Emit32(RdRn(MFT + LDR32_REG, r0, SC2R));
      EmitAddSigned(c, 31, SC2R, 8);
    }
  }

  method EmitPush(c: Context, fused: bool, first: nat, r0: nat)
    requires c.Valid() && c.Room(3)
    modifies c`hp, c.host
    ensures c.Valid() && c.Emitted() == old(c.Emitted()) + if fused then FusedPushWords(first, r0) else PushWords(r0)
  {
    hide Bits.Or, RdRn, Pair, SubSigned;
    if fused {
      EmitSubSigned(c, SC2R, 31, 16);
      c.Emit32(Pair(STP, first, SC2R, r0));
    } else {
      EmitSubSigned(c, SC2R, 31, 8);
      c.Emit32(RdRn(MFT + STR32_REG, r0, SC2R));
    }
    c.Emit32(RdRn(SF + ADD_IMM, 31, SC2R));
  }

  /** The encoder with its two file-scope variables. */
  class Encoder {
    var previous: Previous
    var register: nat

    constructor ()
      ensures previous == NoPrevious
    {
      previous, register := NoPrevious, 0;
    }

    ghost function Peep(c: Context): Peephole
      requires c.Valid()
      reads this, c, c.host
    {
      Peephole(c.Emitted(), previous, register)
    }

    /** The POP case for a register. */
    method EncodePop(c: Context, r: nat)
      requires c.Valid() && c.Room(7) && r < 16 && (previous != NoPrevious ==> c.hp >= 3)
      modifies this, c`hp, c.host
      ensures c.Valid() && Peep(c) == EncodeOp(old(Peep(c)), Pop(r))
    {
      hide Bits.Or, RdRn, SetupWords, OperandReg, PopWords, FusedPopWords;
      if r == RBP {
        c.Emit32(Or(Or(POPP, 29 * 0x400), 30));
        return;
      }
      SetupLength(Pop(r));
      var r0 := EmitOperand(c, Pop(r));
      if previous == PopPrevious {
        previous := NoPrevious;
        c.Patch(3);
        EmitPop(c, true, register, r0);
      } else {
        previous, register := PopPrevious, r0;
        EmitPop(c, false, 0, r0);
      }
    }

    /** The PUSH case for a register or a constant. */
    method EncodePush(c: Context, op: StackOp)
      requires c.Valid() && c.Room(7) && ValidOp(op) && !op.Pop? && (previous != NoPrevious ==> c.hp >= 3)
      modifies this, c`hp, c.host
      ensures c.Valid() && Peep(c) == EncodeOp(old(Peep(c)), op)
    {
      hide Bits.Or, RdRn, SetupWords, OperandReg, X64Reg, PushWords, FusedPushWords;
      if previous == PushPrevious { c.Patch(3); }
      if op == Push(RBP) {
        c.Emit32(Or(Or(PUSHP, 29 * 0x400), 30));
        return;
      }
      SetupLength(op);
      var r0 := EmitOperand(c, op);
      if previous == PushPrevious {
        previous := NoPrevious;
        EmitPush(c, true, register, r0);
      } else {
        previous, register := PushPrevious, r0;
        EmitPush(c, false, 0, r0);
      }
    }

    /** Every other modelled case; an 8-bit instruction returns before the peephole is reset. */
    method Encode(c: Context, i: Instruction) returns (ok: bool)
      requires c.Valid() && c.Room(9) && Modelled(i)
      modifies this, c`hp, c.host
      ensures Appends(c, ok, EncodeWords(i, old(c.At())))
      ensures register == old(register) && previous == if i.size == 8 then old(previous) else NoPrevious
    {
      hide Bits.Or, RdRn, RdRnRm, RdRnImm, X64Reg, ArithWords, CmpWords, MovWords, AddressWords;
      var wide := i.size == 64;
      ok := true;
      if i.size == 8 {
        var p := SetWord(i.t, i.a.reg);
        if p.Patch? { c.Emit32(p.w); } else { ok := false; }
        return;
      }
      previous := NoPrevious;
      if i.t == T_ADD || i.t == T_SUB {
        ok := EncodeArith(c, i.t == T_SUB, wide, i.a, i.b);
      } else if i.t == T_CMP {
        ok := EncodeCmp(c, wide, i.a, i.b);
      } else if i.t == T_MOV {
        ok := EncodeMov(c, wide, i.a, i.b);
      } else if i.t == T_LEA {
        ok := EncodeLea(c, i.a, i.b);
      } else if i.t == T_LEAVE {
        c.Emit32(RdRnImm(SF + ADD_IMM, X64Reg(RSP), X64Reg(RBP), 0));
        c.Emit32(Or(Or(POPP, 29 * 0x400), 30));
      } else if i.t == T_RET {
        c.Emit32(RET);
      } else {
        var p := CmovWord(i.t, wide, i.a.reg, i.b.reg);
        if p.Patch? { c.Emit32(p.w); } else { ok := false; }
      }
    }
  }
}

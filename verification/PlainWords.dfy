/** No word that the encoder emits for the modelled instructions can be taken for an unresolved jump, whatever
    its operands, displacements and constants. */
module PlainWords {
  import opened Bits
  import opened Arm64
  import opened Emitter
  import opened Words
  import opened Immediates
  import opened Steps
  import opened Operands
  import opened Addressing
  import opened Arithmetic
  import opened Conditions
  import opened Moves
  import opened PushPop
  import opened Decoder
  import opened Encoder
  import Compilation
  import Linker

  /** One of three bits is set that are clear in every BRK. */
  predicate Marked(w: nat) {
    (w / 0x100_0000) % 2 == 1 || (w / 0x200_0000) % 2 == 1 || (w / 0x800_0000) % 2 == 1
  }

  predicate NoBrk(w: nat) { !Linker.IsBrk(w) }

  predicate AllNoBrk(ws: seq<nat>) {
    forall k :: 0 <= k < |ws| ==> NoBrk(ws[k])
  }

  lemma MarkedNoBrk(w: nat)
    requires Marked(w)
    ensures NoBrk(w)
  {
    var top := w / 0x40_0000;
    assert w / 0x100_0000 == top / 4 && w / 0x200_0000 == top / 8 && w / 0x800_0000 == top / 32;
    if top != 0x350 { TopNoBrk(w); }
  }

  lemma TopNoBrk(w: nat)
    requires w / 0x40_0000 != 0x350
    ensures NoBrk(w)
  {}

  /** OR-ing in more fields keeps the mark. */
  lemma OrMarked(a: nat, b: nat)
    requires Marked(a)
    ensures Marked(Or(a, b))
  {
    hide Bits.Or;
    assert Pow2(24) == 0x100_0000 && Pow2(25) == 0x200_0000 && Pow2(27) == 0x800_0000 by { MarkPowers(); }
    hide Pow2;
    if (a / 0x100_0000) % 2 == 1 { OrKeepsBit(a, b, 24); }
    else if (a / 0x200_0000) % 2 == 1 { OrKeepsBit(a, b, 25); }
    else { OrKeepsBit(a, b, 27); }
  }

  lemma MarkPowers()
    ensures Pow2(24) == 0x100_0000 && Pow2(25) == 0x200_0000 && Pow2(27) == 0x800_0000
  {
    assert Pow2(8) == 0x100 && Pow2(16) == 0x1_0000;
    assert Pow2(20) == 0x10_0000;
  }

  lemma RdRnImmNoBrk(op: nat, rd: nat, rn: nat, imm: int)
    requires Marked(op)
    ensures NoBrk(RdRnImm(op, rd, rn, imm))
  {
    hide Bits.Or, Marked, NoBrk;
    OrMarked(op, rd);
    OrMarked(Or(op, rd), rn * 0x20);
    OrMarked(Or(Or(op, rd), rn * 0x20), U32(imm * 0x400));
    MarkedNoBrk(RdRnImm(op, rd, rn, imm));
  }

  lemma RdRnRmNoBrk(op: nat, rd: nat, rn: nat, rm: nat)
    requires Marked(op)
    ensures NoBrk(RdRnRm(op, rd, rn, rm))
  {
    hide Bits.Or, Marked, NoBrk;
    OrMarked(op, rd);
    OrMarked(Or(op, rd), rn * 0x20);
    OrMarked(Or(Or(op, rd), rn * 0x20), rm * 0x1_0000);
    MarkedNoBrk(RdRnRm(op, rd, rn, rm));
  }

  lemma RdRnNoBrk(op: nat, rd: nat, rn: nat)
    requires Marked(op)
    ensures NoBrk(RdRn(op, rd, rn))
  {
    hide Bits.Or, Marked, NoBrk;
    OrMarked(op, rd);
    OrMarked(Or(op, rd), rn * 0x20);
    MarkedNoBrk(RdRn(op, rd, rn));
  }

  lemma WideNoBrk(op: nat, hw: nat, imm: nat, rd: nat)
    requires Marked(op)
    ensures NoBrk(Wide(op, hw, imm, rd))
  {
    hide Bits.Or, Marked, NoBrk;
    OrMarked(op, hw * 0x20_0000);
    OrMarked(Or(op, hw * 0x20_0000), imm * 0x20);
    OrMarked(Or(Or(op, hw * 0x20_0000), imm * 0x20), rd);
    MarkedNoBrk(Wide(op, hw, imm, rd));
  }

  lemma UnscaledNoBrk(op: nat, imm: int, rn: nat, rt: nat)
    requires Marked(op)
    ensures NoBrk(Unscaled(op, imm, rn, rt))
  {
    hide Bits.Or, Marked, NoBrk;
    OrMarked(op, (imm % 0x200) * 0x1000);
    OrMarked(Or(op, (imm % 0x200) * 0x1000), rn * 0x20);
    OrMarked(Or(Or(op, (imm % 0x200) * 0x1000), rn * 0x20), rt);
    MarkedNoBrk(Unscaled(op, imm, rn, rt));
  }

  lemma ShiftLeftNoBrk(op: nat, shift: int, rn: nat, rd: nat)
    requires Marked(op)
    ensures NoBrk(ShiftLeft(op, shift, rn, rd))
  {
    hide Bits.Or, Marked, NoBrk;
    var a := Or(op, ((-shift) % 64) * 0x1_0000);
    OrMarked(op, ((-shift) % 64) * 0x1_0000);
    OrMarked(a, ((63 - shift) % 64) * 0x400);
    OrMarked(Or(a, ((63 - shift) % 64) * 0x400), rn * 0x20);
    OrMarked(Or(Or(a, ((63 - shift) % 64) * 0x400), rn * 0x20), rd);
    MarkedNoBrk(ShiftLeft(op, shift, rn, rd));
  }

  lemma PageNoBrk(delta: int, rd: nat)
    requires rd < 32
    ensures NoBrk(Page(ADRP, delta, rd))
  {
    hide Bits.Or, Decode, Page;
    AdrpDecodes(delta, rd);
  }

  // ---------------------------------------------------------------- the emitters

  ghost predicate Quiet(e: Emission) { e.Words? ==> AllNoBrk(e.ws) }

  lemma Opcodes()
    ensures Marked(SF + ADD_IMM) && Marked(SF + SUB_IMM) && Marked(ADD_IMM) && Marked(SF + ADD_REG) && Marked(SXTW_REG)
    ensures Marked(MOVZ_IMM) && Marked(MOVN_IMM) && Marked(MOVK_IMM) && Marked(SHIFT_LEFT) && Marked(RET) &&
      Marked(POPP)
    ensures Marked(CSETNE) && Marked(CSETHS) && Marked(CSETEQ) && Marked(CSETLO)
  {}

  lemma SizedOpcodes(wide: bool)
    ensures Marked(SfBit(wide) + ADD_IMM) && Marked(SfBit(wide) + ADD_REG + S) && Marked(SfBit(wide) + SUB_REG + S)
    ensures Marked(SizeBit(wide) + LDUR) && Marked(SizeBit(wide) + STUR) && Marked(SizeBit(wide) + LDR32_REG) &&
      Marked(SizeBit(wide) + STR32_REG)
    ensures Marked(SfBit(wide) + CSELHI) && Marked(SfBit(wide) + CSELMI)
  {}

  lemma AddSignedNoBrk(r0: nat, r1: nat, imm: int)
    ensures NoBrk(AddSigned(r0, r1, imm)) && NoBrk(SubSigned(r0, r1, imm))
  {
    hide Marked, NoBrk, RdRnImm;
    Opcodes();
    if imm > 0 {
      RdRnImmNoBrk(SF + ADD_IMM, r0, r1, imm);
      RdRnImmNoBrk(SF + SUB_IMM, r0, r1, imm);
    } else {
      RdRnImmNoBrk(SF + ADD_IMM, r0, r1, -imm);
      RdRnImmNoBrk(SF + SUB_IMM, r0, r1, -imm);
    }
  }

  lemma ImmNoBrk(imm: i64, rd: nat)
    ensures AllNoBrk(ImmWords(imm, rd))
  {
    hide Marked, NoBrk, Wide, RdRn;
    Opcodes();
    forall hw: nat, v: nat
      ensures NoBrk(Wide(MOVK_IMM, hw, v, rd)) && NoBrk(Wide(MOVZ_IMM, hw, v, rd)) && NoBrk(Wide(MOVN_IMM, hw, v, rd))
    {
      WideNoBrk(MOVK_IMM, hw, v, rd);
      WideNoBrk(MOVZ_IMM, hw, v, rd);
      WideNoBrk(MOVN_IMM, hw, v, rd);
    }
    RdRnNoBrk(SXTW_REG, rd, rd);
  }

  lemma AddressNoBrk(op: Operand, reg: nat, at: Place)
    requires Numbered(op) && reg < 32
    ensures Quiet(AddressWords(op, reg, at))
  {
    hide Marked, NoBrk, RdRn, RdRnRm, RdRnImm, ShiftLeft, Page, AddSigned, X64Reg, PageDelta;
    Opcodes();
    if op.t == MEM_IMM {
      var full := U64(at.rip + op.imm);
      PageNoBrk(PageDelta(full, at.host), reg);
      RdRnImmNoBrk(SF + ADD_IMM, reg, reg, full % 0x1000);
    } else if op.t.idx {
      ShiftLeftNoBrk(SHIFT_LEFT, op.scale, X64Reg(op.idx), reg);
      RdRnNoBrk(SF + ADD_IMM, reg, X64Reg(op.idx));
      if op.t.reg { RdRnRmNoBrk(SF + ADD_REG, reg, reg, X64Reg(op.reg)); }
      AddSignedNoBrk(reg, reg, op.imm);
    } else {
      AddSignedNoBrk(reg, X64Reg(op.reg), op.imm);
      RdRnNoBrk(SF + ADD_IMM, reg, X64Reg(op.reg));
    }
  }

  lemma Joined(a: seq<nat>, b: seq<nat>)
    requires AllNoBrk(a) && AllNoBrk(b)
    ensures AllNoBrk(a + b)
  {}

  lemma LoadNoBrk(op: Operand, rd: nat, wide: bool, at: Place)
    requires Numbered(op)
    ensures Quiet(LoadWords(op, rd, wide, at))
  {
    hide Marked, NoBrk, RdRn, Unscaled, AddressWords, X64Reg;
    SizedOpcodes(wide);
    if Direct(op) {
      UnscaledNoBrk(SizeBit(wide) + LDUR, op.imm, X64Reg(op.reg), rd);
      RdRnNoBrk(SizeBit(wide) + LDR32_REG, rd, X64Reg(op.reg));
    }
    RdRnNoBrk(SizeBit(wide) + LDR32_REG, rd, SC1R);
    AddressNoBrk(op, SC1R, at);
  }

  lemma StoreNoBrk(op: Operand, rd: nat, wide: bool, at: Place, address: bool)
    requires Numbered(op)
    ensures Quiet(StoreWords(op, rd, wide, at, address))
  {
    hide Marked, NoBrk, RdRn, Unscaled, AddressWords, X64Reg;
    SizedOpcodes(wide);
    if Direct(op) {
      UnscaledNoBrk(SizeBit(wide) + STUR, op.imm, X64Reg(op.reg), rd);
      RdRnNoBrk(SizeBit(wide) + STR32_REG, rd, X64Reg(op.reg));
    }
    RdRnNoBrk(SizeBit(wide) + STR32_REG, rd, SC1R);
    AddressNoBrk(op, SC1R, at);
  }

  lemma ArithNoBrk(sub: bool, wide: bool, rd: nat, src: Source)
    requires src.Register? ==> src.r < 16
    ensures NoBrk(ArithWord(sub, wide, rd, src))
  {
    hide Marked, NoBrk, RdRnRm, AddSigned, SubSigned;
    SizedOpcodes(wide);
    if src.Register? {
      RdRnRmNoBrk(SfBit(wide) + (if sub then SUB_REG else ADD_REG) + S, rd, rd, X64Reg(src.r));
    } else {
      AddSignedNoBrk(rd, rd, src.imm);
    }
  }

  /** No BRK among at most n words. */
  ghost predicate Fits(e: Emission, n: nat) {
    e.Words? ==> |e.ws| <= n && AllNoBrk(e.ws)
  }

  lemma LoadFits(op: Operand, rd: nat, wide: bool, at: Place)
    requires Numbered(op)
    ensures Fits(LoadWords(op, rd, wide, at), 4)
  {
    hide LoadWords, NoBrk;
    LoadNoBrk(op, rd, wide, at);
    LoadLength(op, rd, wide, at);
  }

  lemma StoreFits(op: Operand, rd: nat, wide: bool, at: Place, address: bool)
    requires Numbered(op)
    ensures Fits(StoreWords(op, rd, wide, at, address), 4)
  {
    hide NoBrk, AddressWords, RdRn, Unscaled;
    StoreNoBrk(op, rd, wide, at, address);
    AddressLength(op, SC1R, at);
  }

  lemma One(w: nat)
    requires NoBrk(w)
    ensures AllNoBrk([w])
  {}

  lemma ArithFits(sub: bool, wide: bool, a: Operand, b: Operand, at: Place)
    requires TwoOperands(a, b)
    ensures Fits(ArithWords(sub, wide, a, b, at), 9)
  {
    hide NoBrk, LoadWords, StoreWords, ArithWord, RdRnRm, Marked, X64Reg, AllNoBrk;
    SizedOpcodes(wide);
    if b.t.mem {
      var rd, op := X64Reg(a.reg), SfBit(wide) + (if sub then SUB_REG else ADD_REG) + S;
      RdRnRmNoBrk(op, rd, rd, SC2R);
      One(RdRnRm(op, rd, rd, SC2R));
      LoadFits(b, SC2R, wide, at);
      if LoadWords(b, SC2R, wide, at).Words? { Joined(LoadWords(b, SC2R, wide, at).ws, [RdRnRm(op, rd, rd, SC2R)]); }
    } else {
      var rd := if a.t.mem then SC2R else X64Reg(a.reg);
      var w := ArithWord(sub, wide, rd, ToSource(b));
      ArithNoBrk(sub, wide, rd, ToSource(b));
      One(w);
      if a.t.mem {
        var l, st := LoadWords(a, SC2R, wide, at), StoreWords(a, SC2R, wide, at, false);
        LoadFits(a, SC2R, wide, at);
        StoreFits(a, SC2R, wide, at, false);
        if l.Words? && st.Words? {
          Joined(l.ws, [w]);
          Joined(l.ws + [w], st.ws);
        }
      }
    }
  }

  lemma ImmFits(imm: i64, rd: nat)
    ensures |ImmWords(imm, rd)| <= 4 && AllNoBrk(ImmWords(imm, rd))
  {
    hide ImmWords, NoBrk;
    ImmNoBrk(imm, rd);
    ImmLength(imm, rd);
  }

  lemma CompareNoBrk(wide: bool, rn: nat, rm: nat)
    ensures NoBrk(CompareWord(wide, rn, rm))
  {
    hide NoBrk, Marked, RdRnRm;
    SizedOpcodes(wide);
    RdRnRmNoBrk(SfBit(wide) + SUB_REG + S, X64Reg(XZR), rn, rm);
  }

  lemma CmpFits(a: Arg, b: Arg, wide: bool, at: Place)
    requires Encodable(a, b)
    ensures Fits(CmpWords(a, b, wide, at), 9)
  {
    hide NoBrk, LoadWords, CompareWord, ImmWords, AllNoBrk, X64Reg;
    forall rn: nat, rm: nat ensures AllNoBrk([CompareWord(wide, rn, rm)]) {
      CompareNoBrk(wide, rn, rm);
      One(CompareWord(wide, rn, rm));
    }
    if b.MemArg? {
      var l := LoadWords(b.op, SC2R, wide, at);
      LoadFits(b.op, SC2R, wide, at);
      if l.Words? { Joined(l.ws, [CompareWord(wide, X64Reg(a.r), SC2R)]); }
    } else {
      var l := if a.MemArg? then LoadWords(a.op, SC2R, wide, at) else Words([]);
      var rn := if a.MemArg? then SC2R else X64Reg(a.r);
      if a.MemArg? { LoadFits(a.op, SC2R, wide, at); } else { NoneNoBrk(); }
      if l.Words? {
        if b.RegArg? {
          Joined(l.ws, [CompareWord(wide, rn, X64Reg(b.r))]);
        } else {
          ImmFits(b.imm, SC1R);
          Joined(l.ws, ImmWords(b.imm, SC1R));
          Joined(l.ws + ImmWords(b.imm, SC1R), [CompareWord(wide, rn, SC1R)]);
        }
      }
    }
  }

  lemma NoneNoBrk()
    ensures AllNoBrk([])
  {}

  lemma MovFits(a: Arg, b: Arg, wide: bool, at: Place)
    requires Encodable(a, b)
    ensures Fits(MovWords(a, b, wide, at), 9)
  {
    hide NoBrk, LoadWords, StoreWords, ImmWords, AllNoBrk, X64Reg, RdRn, Marked;
    SizedOpcodes(wide);
    if a.RegArg? && b.RegArg? {
      RdRnNoBrk(SfBit(wide) + ADD_IMM, X64Reg(a.r), X64Reg(b.r));
      One(RdRn(SfBit(wide) + ADD_IMM, X64Reg(a.r), X64Reg(b.r)));
    } else if a.RegArg? && b.ImmArg? {
      ImmFits(b.imm, X64Reg(a.r));
    } else if a.RegArg? {
      LoadFits(b.op, X64Reg(a.r), wide, at);
    } else if b.RegArg? {
      StoreFits(a.op, X64Reg(b.r), wide, at, true);
    } else {
      var setup := if b.imm == 0 then [] else ImmWords(b.imm, SC2R);
      var rd, p := if b.imm == 0 then X64Reg(XZR) else SC2R, Place(at.rip, U64(at.host + 4 * |setup|));
      if b.imm == 0 { NoneNoBrk(); } else { ImmFits(b.imm, SC2R); }
      StoreFits(a.op, rd, wide, p, true);
      if StoreWords(a.op, rd, wide, p, true).Words? { Joined(setup, StoreWords(a.op, rd, wide, p, true).ws); }
    }
  }

  lemma LeaFits(r: nat, op: Operand, at: Place)
    requires r < 16 && Numbered(op)
    ensures Fits(LeaWords(r, op, at), 9)
  {
    hide NoBrk, AddressWords, X64Reg;
    AddressNoBrk(op, X64Reg(r), at);
    AddressLength(op, X64Reg(r), at);
  }

  lemma SetFits(t: int, r: nat)
    requires r < 16
    ensures Fits(OneWord(SetWord(t, r)), 9)
  {
    hide Bits.Or, NoBrk, Marked, X64Reg;
    Opcodes();
    forall op: nat | Marked(op) ensures NoBrk(Or(op, X64Reg(r))) {
      OrMarked(op, X64Reg(r));
      MarkedNoBrk(Or(op, X64Reg(r)));
    }
  }

  lemma CmovFits(t: int, wide: bool, r0: nat, r1: nat)
    requires r0 < 16 && r1 < 16
    ensures Fits(OneWord(CmovWord(t, wide, r0, r1)), 9)
  {
    hide NoBrk, Marked, X64Reg, RdRnRm;
    SizedOpcodes(wide);
    RdRnRmNoBrk(SfBit(wide) + CSELHI, X64Reg(r0), X64Reg(r1), X64Reg(r0));
    RdRnRmNoBrk(SfBit(wide) + CSELMI, X64Reg(r0), X64Reg(r1), X64Reg(r0));
  }

  lemma LeaveFits()
    ensures AllNoBrk(LeaveWords()) && AllNoBrk([RET])
  {
    hide Bits.Or, NoBrk, Marked, RdRnImm;
    Opcodes();
    RdRnImmNoBrk(SF + ADD_IMM, X64Reg(RSP), X64Reg(RBP), 0);
    OrMarked(POPP, 29 * 0x400);
    OrMarked(Or(POPP, 29 * 0x400), 30);
    MarkedNoBrk(PopFrame());
    MarkedNoBrk(RET);
  }

  /** The words of every modelled instruction are plain, and at most nine. */
  lemma EncodeWordsArePlain(i: Instruction, at: Place)
    requires Modelled(i)
    ensures var e := EncodeWords(i, at);
      e.Words? ==> |e.ws| <= 9 && forall k :: 0 <= k < |e.ws| ==> !Linker.IsBrk(e.ws[k])
  {
    hide Linker.IsBrk, ArithWords, CmpWords, MovWords, LeaWords, OneWord, SetWord, CmovWord, LeaveWords;
    var wide := i.size == 64;
    if i.size == 8 {
      SetFits(i.t, i.a.reg);
    } else if i.t == T_ADD || i.t == T_SUB {
      ArithFits(i.t == T_SUB, wide, i.a, i.b, at);
    } else if i.t == T_CMP {
      CmpFits(ToArg(i.a), ToArg(i.b), wide, at);
    } else if i.t == T_MOV {
      MovFits(ToArg(i.a), ToArg(i.b), wide, at);
    } else if i.t == T_LEA {
      LeaFits(i.a.reg, i.b, at);
    } else if i.t == T_LEAVE || i.t == T_RET {
      LeaveFits();
      LeaveLength();
    } else {
      CmovFits(i.t, wide, i.a.reg, i.b.reg);
    }
  }

  lemma LeaveLength()
    ensures |LeaveWords()| == 2
  {}

  // ---------------------------------------------------------------- the compile loop

  /** A guest instruction and its length. */
  datatype Line = Line(i: Instruction, len: nat)

  /** What decode_instr and encode make of it at guest address gp, behind n words written from host address base on. */
  function CompileLine(l: Line, gp: nat, base: nat, n: nat): (r: Compilation.Compiled)
    requires Modelled(l.i)
  {
    var e := EncodeWords(l.i, Place(U64(gp + l.len), U64(base + 4 * n)));
    Compilation.Compiled(l.len, l.i.t == T_RET, 0, if e.Words? then AsItems(e.ws) else [])
  }

  /** The guest with this program, compiled from host address base on. */
  function CompileProgram(program: nat -> Line, base: nat): Compilation.Guest
    requires forall gp: nat :: Modelled(program(gp).i)
  {
    (gp: nat, ws: seq<nat>, n: nat) requires Modelled(program(gp).i) => CompileLine(program(gp), gp, base, |ws|)
  }

  function AsItems(ws: seq<nat>): (r: seq<Compilation.Item>)
    ensures |r| == |ws| && forall k :: 0 <= k < |ws| ==> r[k] == Compilation.Plain(ws[k])
  {
    if ws == [] then [] else AsItems(ws[..|ws| - 1]) + [Compilation.Plain(ws[|ws| - 1])]
  }

  lemma {:induction false} NoJumps(ws: seq<nat>)
    ensures Compilation.Jumps(AsItems(ws)) == 0
  {
    if ws != [] {
      var n := |ws| - 1;
      NoJumps(ws[..n]);
      assert AsItems(ws)[..n] == AsItems(ws[..n]);
    }
  }

  /** Every guest program of modelled instructions meets what the compile loop asks of a guest, wherever it is
      compiled. */
  lemma EncodedIsSane(program: nat -> Line, base: nat)
    requires forall gp: nat :: Modelled(program(gp).i) && 1 <= program(gp).len <= 15
    requires forall gp: nat :: program(gp).i.t == T_RET || gp + program(gp).len < TWO32
    ensures Compilation.Sane(CompileProgram(program, base))
  {
    hide Modelled, CompileLine;
    forall gp: nat, ws: seq<nat>, n: nat | gp < TWO32 && n <= |ws|
      ensures Compilation.SaneAt(CompileProgram(program, base)(gp, ws, n), gp, ws, n)
    {
      LineIsSane(program(gp), gp, base, ws, n);
    }
  }

  lemma LineIsSane(l: Line, gp: nat, base: nat, ws: seq<nat>, n: nat)
    requires Modelled(l.i) && 1 <= l.len <= 15 && (l.i.t == T_RET || gp + l.len < TWO32) && n <= |ws|
    ensures Compilation.SaneAt(CompileLine(l, gp, base, |ws|), gp, ws, n)
  {
    hide Modelled, EncodeWords, Linker.IsBrk, AsItems, Compilation.Jumps, Compilation.Proper;
    var at := Place(U64(l.len + gp), U64(base + 4 * |ws|));
    EncodeWordsArePlain(l.i, at);
    var e := EncodeWords(l.i, at);
    if e.Words? {
      NoJumps(e.ws);
      ItemsAreProper(e.ws);
    } else {
      NoJumps([]);
      assert AsItems([]) == [];
    }
  }

  lemma ItemsAreProper(ws: seq<nat>)
    requires forall k :: 0 <= k < |ws| ==> !Linker.IsBrk(ws[k])
    ensures var r := AsItems(ws); |r| == |ws| && forall k :: 0 <= k < |r| ==> Compilation.Proper(r[k])
  {
    hide Linker.IsBrk, AsItems;
  }
}

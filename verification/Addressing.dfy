/** Address formation: emit_address_decode of src/encoder.c. */
module Addressing {
  import opened Bits
  import opened Memory
  import opened Arm64
  import opened Emitter
  import opened Words
  import opened Immediates
  import opened Steps
  import opened X86
  import opened Operands

  /** Where code is being compiled: the guest address after the instruction, and the host
      address of the next word.  Both are pointers below 2^64. */
  datatype Place = Place(rip: u64, host: u64)

  /** The distance in pages from the ADRP to the operand, as a signed 64-bit quantity. */
  function PageDelta(full: u64, host: u64): int {
    var d := U64(Floor(full) - Floor(host));
    (if d < 0x8000_0000_0000_0000 then d else d - TWO64) / 0x1000
  }

  function Floor(a: int): int { a - a % 0x1000 }

  datatype Emission = Words(ws: seq<nat>) | Panic

  /** emit_address_decode for an operand without the FS prefix. */
  function AddressWords(op: Operand, reg: nat, at: Place): Emission
    requires Numbered(op)
  {
    if op.t == MEM_IMM then
      var full := U64(at.rip + op.imm);
      var delta := PageDelta(full, at.host);
      if delta < -0x1_0000_0000 || delta > 0x1_0000_0000 then Panic
      else Words([Page(ADRP, delta, reg), RdRnImm(SF + ADD_IMM, reg, reg, full % 0x1000)])
    else if op.t.idx then
      Words([if op.scale != 0 then ShiftLeft(SHIFT_LEFT, op.scale, X64Reg(op.idx), reg)
             else RdRn(SF + ADD_IMM, reg, X64Reg(op.idx))]
            + (if op.t.reg then [RdRnRm(SF + ADD_REG, reg, reg, X64Reg(op.reg))] else [])
            + (if op.t.imm && op.imm != 0 then [AddSigned(reg, reg, op.imm)] else []))
    else if op.t.imm then
      Words([AddSigned(reg, X64Reg(op.reg), op.imm)])
    else
      Words([RdRn(SF + ADD_IMM, reg, X64Reg(op.reg))])
  }

  // ---------------------------------------------------------------- RIP-relative operands

  lemma PageBits(full: u64, host: u64)
    ensures var delta := PageDelta(full, host);
      -0x8_0000_0000_0000 <= delta < 0x8_0000_0000_0000 && U64(Floor(host) + delta * 0x1000) == Floor(full)
  {
    var d := U64(Floor(full) - Floor(host));
    var sd := if d < 0x8000_0000_0000_0000 then d else d - TWO64;
    FloorAligned(full);
    FloorAligned(host);
    hide Floor;
    Aligned(Floor(full), Floor(host), d, sd);
  }

  lemma Aligned(a: int, b: int, d: u64, sd: int)
    requires a % 0x1000 == 0 && b % 0x1000 == 0 && 0 <= a < TWO64 && 0 <= b < TWO64 && d == U64(a - b)
    requires sd == if d < 0x8000_0000_0000_0000 then d else d - TWO64
    ensures sd == 0x1000 * (sd / 0x1000) && U64(b + sd) == a
  {
    var k := if a >= b then 0 else 1;
    Whole(a - b + k * TWO64, -k);
    assert d == a - b + k * TWO64;
    hide U64;
    PageMultiple(a, b, k);
    if sd == d { Whole(a, k); } else { Whole(a, k - 1); PageMultiple(d, 0, -1); }
  }

  lemma PageMultiple(a: int, b: int, k: int)
    requires a % 0x1000 == 0 && b % 0x1000 == 0
    ensures (a - b + k * TWO64) % 0x1000 == 0
  {
    assert a - b + k * TWO64 == 0x1000 * (a / 0x1000 - b / 0x1000 + k * 0x10_0000_0000_0000);
  }

  lemma Whole(a: int, k: int)
    requires 0 <= a < TWO64
    ensures U64(a + k * TWO64) == a
  {}

  lemma FloorAligned(a: u64)
    ensures Floor(a) % 0x1000 == 0 && 0 <= Floor(a) <= a
  {}

  /** A page count reaches its target through the 21-bit field exactly when it fits. */
  lemma FieldReaches(base: int, delta: int)
    requires -0x1_0000_0000 <= delta <= 0x1_0000_0000
    ensures U64(base + SignExt(delta % 0x20_0000, 0x10_0000) * 0x1000) == U64(base + delta * 0x1000)
       <==> -0x10_0000 <= delta < 0x10_0000
  {
    var field := SignExt(delta % 0x20_0000, 0x10_0000);
    assert (field - delta) % 0x20_0000 == 0;
    var k := (field - delta) / 0x20_0000;
    assert field == delta + 0x20_0000 * k && -0x1001 < k < 0x1001;
    assert base + field * 0x1000 == (base + delta * 0x1000) + 0x2_0000_0000 * k;
    SameResidue(base + delta * 0x1000, 0x2_0000_0000 * k);
  }

  lemma SameResidue(x: int, d: int)
    requires -TWO64 < d < TWO64
    ensures U64(x + d) == U64(x) <==> d == 0
  {}

  lemma StepAdrp(delta: int, reg: nat, s: State)
    requires reg < 31
    ensures Step(Page(ADRP, delta, reg), s)
         == Next(Advance(SetX(s, reg, U64(Floor(s.pc) + SignExt(delta % 0x20_0000, 0x10_0000) * 0x1000))))
  {
    hide Bits.Or, Decode, Page;
    AdrpDecodes(delta, reg);
  }

  lemma StepAddImm(reg: nat, imm: int, s: State)
    requires reg < 31 && 0 <= imm < 0x1000
    ensures Step(RdRnImm(SF + ADD_IMM, reg, reg, imm), s) == Next(Advance(SetX(s, reg, Add64(s.x[reg], imm))))
  {
    hide Bits.Or, Decode, RdRnImm, AddWithCarry;
    AddSubImmDecodes(false, reg, reg, imm);
    AddSubResult(s.x[reg], imm, true, false);
  }

  /** A RIP-relative operand is reached exactly when its page is within 2^20 pages. */
  lemma RipRelativeExact(op: Operand, reg: nat, at: Place, s: State)
    requires op.t == MEM_IMM && Numbered(op) && reg < 31 && s.pc == at.host
    ensures var e, full := AddressWords(op, reg, at), U64(at.rip + op.imm);
      var delta := PageDelta(full, at.host);
      (e.Panic? <==> !(-0x1_0000_0000 <= delta <= 0x1_0000_0000)) &&
      (e.Words? ==> exists v: u64 :: OnlySets(Run(e.ws, s), s, reg, v) &&
                            (v == full <==> -0x10_0000 <= delta < 0x10_0000))
  {
    hide Bits.Or, Step, Page, RdRnImm;
    var full := U64(at.rip + op.imm);
    var delta := PageDelta(full, at.host);
    if -0x1_0000_0000 <= delta <= 0x1_0000_0000 {
      var a, b := Page(ADRP, delta, reg), RdRnImm(SF + ADD_IMM, reg, reg, full % 0x1000);
      StepAdrp(delta, reg, s);
      var o := Step(a, s);
      var page := o.s.x[reg];
      StepAddImm(reg, full % 0x1000, o.s);
      var v := Add64(page, full % 0x1000);
      OnlySetsTwice(s, o, Step(b, o.s), reg, page, v);
      RunCons(a, [b], s);
      RunOne(b, o.s);
      assert [a] + [b] == [a, b];
      PageBits(full, at.host);
      FieldReaches(Floor(at.host), delta);
      LowBitsBack(page, full);
    }
  }

  lemma LowBitsBack(page: u64, full: u64)
    ensures Add64(page, full % 0x1000) == full <==> page == Floor(full)
  {
    SameResidue(Floor(full) + full % 0x1000, page - Floor(full));
  }

  // ---------------------------------------------------------------- base, index, displacement

  lemma StepScale(scale: nat, rn: nat, rd: nat, s: State)
    requires 0 < scale < 4 && rn < 31 && rd < 31
    ensures Step(ShiftLeft(SHIFT_LEFT, scale, rn, rd), s)
         == Next(Advance(SetX(s, rd, U64(s.x[rn] * Pow2(scale)))))
  {
    hide Bits.Or, Decode, ShiftLeft;
    ShiftLeftDecodes(scale, rn, rd);
    var k: int := scale;
    assert (-k) % 64 == 64 - k && (63 - k) % 64 == 63 - k;
  }

  lemma StepAddReg(sf: bool, sub: bool, setf: bool, rd: nat, rn: nat, rm: nat, s: State)
    requires rd < 32 && rn < 32 && rm < 32
    ensures var w := RdRnRm(SfBit(sf) + (if sub then SUB_REG else ADD_REG) + (if setf then S else 0), rd, rn, rm);
      var r := AddSub(X(s, rn), X(s, rm), sf, sub);
      Step(w, s) == Next(Advance(SetX(if setf then s.(f := r.f) else s, rd, r.result)))
  {
    hide Bits.Or, Decode, RdRnRm, AddSub;
    AddSubRegDecodes(sf, sub, setf, rd, rn, rm);
  }

  /** The first word of an indexed address: the scaled index. */
  lemma StepIndex(op: Operand, reg: nat, s: State)
    requires op.idx < 16 && op.idx != RSP && op.scale < 4 && reg < 31
    ensures OnlySets(Step(if op.scale != 0 then ShiftLeft(SHIFT_LEFT, op.scale, X64Reg(op.idx), reg)
                          else RdRn(SF + ADD_IMM, reg, X64Reg(op.idx)), s),
                     s, reg, U64(X(s, X64Reg(op.idx)) * Pow2(op.scale)))
  {
    hide Bits.Or, Step, RdRn, ShiftLeft;
    GuestRegistersApart(op.idx, op.idx);
    if op.scale != 0 { StepScale(op.scale, X64Reg(op.idx), reg, s); } else { StepMove(reg, X64Reg(op.idx), s); }
  }

  /** A step that adds to reg, after a run that left v there. */
  lemma ThenAdds(ws: seq<nat>, w: nat, s: State, reg: nat, v: u64, d: int)
    requires reg < 31 && OnlySets(Run(ws, s), s, reg, v)
    requires OnlySets(Step(w, Run(ws, s).s), Run(ws, s).s, reg, Add64(v, d))
    ensures OnlySets(Run(ws + [w], s), s, reg, Add64(v, d))
  {
    hide Step, Run;
    var o := Run(ws, s);
    OnlySetsTwice(s, o, Step(w, o.s), reg, v, Add64(v, d));
    RunConcat(ws, [w], s);
    RunOne(w, o.s);
  }

  lemma Regroup(x: int, y: int, z: int)
    ensures Add64(U64(x), y) == U64(x + y) && Add64(Add64(U64(x), y), z) == U64(x + y + z)
  {}

  function BaseValue(op: Operand, s: State): u64
    requires op.t.reg ==> op.reg < 16
  {
    if op.t.reg then X(s, X64Reg(op.reg)) else 0
  }

  function IndexWords(op: Operand, reg: nat): seq<nat>
    requires op.idx < 16 && (op.t.reg ==> op.reg < 16)
  {
    [if op.scale != 0 then ShiftLeft(SHIFT_LEFT, op.scale, X64Reg(op.idx), reg)
     else RdRn(SF + ADD_IMM, reg, X64Reg(op.idx))]
    + (if op.t.reg then [RdRnRm(SF + ADD_REG, reg, reg, X64Reg(op.reg))] else [])
  }

  lemma IndexAndBase(op: Operand, reg: nat, s: State)
    requires op.idx < 16 && (op.t.reg ==> op.reg < 16) && op.idx != RSP && op.scale < 4 && reg < 31
    requires op.t.reg ==> X64Reg(op.reg) != reg
    ensures OnlySets(Run(IndexWords(op, reg), s), s, reg, U64(X(s, X64Reg(op.idx)) * Pow2(op.scale) + BaseValue(op, s)))
  {
    hide Bits.Or, Step, Run, RdRn, RdRnRm, ShiftLeft, Pow2, X64Reg, U64, Add64;
    var x := X(s, X64Reg(op.idx)) * Pow2(op.scale);
    var a := if op.scale != 0 then ShiftLeft(SHIFT_LEFT, op.scale, X64Reg(op.idx), reg)
      else RdRn(SF + ADD_IMM, reg, X64Reg(op.idx));
    StepIndex(op, reg, s);
    RunOne(a, s);
    Regroup(x, BaseValue(op, s), 0);
    if op.t.reg {
      var b, o := RdRnRm(SF + ADD_REG, reg, reg, X64Reg(op.reg)), Run([a], s);
      StepAddBase(op.reg, reg, o.s);
      ThenAdds([a], b, s, reg, U64(x), BaseValue(op, s));
    } else {
      assert IndexWords(op, reg) == [a];
    }
  }

  lemma StepAddBase(r: nat, reg: nat, s: State)
    requires r < 16 && reg < 31
    ensures OnlySets(Step(RdRnRm(SF + ADD_REG, reg, reg, X64Reg(r)), s), s, reg, Add64(s.x[reg], X(s, X64Reg(r))))
  {
    hide Bits.Or, Step, RdRnRm, X64Reg, AddSub;
    StepAddReg(true, false, false, reg, reg, X64Reg(r), s);
    AddSubResult(s.x[reg], X(s, X64Reg(r)), true, false);
  }

  /** Indexed forms.  The base is read as a data register, so RSP counts as zero. */
  lemma IndexedAddress(op: Operand, reg: nat, at: Place, s: State)
    requires op.t.idx && op.t.mem && Numbered(op) && op.idx != RSP && op.scale < 4 && reg < 31
    requires op.t.reg ==> X64Reg(op.reg) != reg
    requires op.t.imm ==> -0x1000 < op.imm < 0x1000
    ensures var e := AddressWords(op, reg, at);
      e.Words? && OnlySets(Run(e.ws, s), s, reg,
        U64(X(s, X64Reg(op.idx)) * Pow2(op.scale) + BaseValue(op, s) + (if op.t.imm then op.imm else 0)))
  {
    hide Bits.Or, Step, Run, RdRn, RdRnRm, ShiftLeft, AddSigned, Pow2;
    var x := X(s, X64Reg(op.idx)) * Pow2(op.scale) + BaseValue(op, s);
    var ws := IndexWords(op, reg);
    IndexAndBase(op, reg, s);
    if op.t.imm && op.imm != 0 {
      StepAdd(reg, reg, op.imm, Run(ws, s).s);
      ThenAdds(ws, AddSigned(reg, reg, op.imm), s, reg, U64(x), op.imm);
      Regroup(x, op.imm, 0);
    } else {
      assert AddressWords(op, reg, at) == Words(ws + []) && ws + [] == ws;
    }
  }

  /** Base forms, where RSP does count. */
  lemma BasedAddress(op: Operand, reg: nat, at: Place, s: State)
    requires !op.t.idx && op.t.reg && op.t.mem && Numbered(op) && reg < 31
    requires op.t.imm ==> -0x1000 < op.imm < 0x1000
    ensures var e := AddressWords(op, reg, at);
      e.Words? && OnlySets(Run(e.ws, s), s, reg, U64(XSp(s, X64Reg(op.reg)) + (if op.t.imm then op.imm else 0)))
  {
    hide Bits.Or, Step, Run, RdRn, AddSigned;
    if op.t.imm {
      StepAdd(reg, X64Reg(op.reg), op.imm, s);
      RunOne(AddSigned(reg, X64Reg(op.reg), op.imm), s);
    } else {
      StepMove(reg, X64Reg(op.reg), s);
      RunOne(RdRn(SF + ADD_IMM, reg, X64Reg(op.reg)), s);
    }
  }

  // ---------------------------------------------------------------- decode, then emit

  /** Where decode followed by emit departs from the architecture: an R12 index is dropped, RSP
      as the base of an indexed form reads as zero, and a SIB operand with neither base nor
      (recognised) index is taken as RIP-relative. */
  function AddressError(e: Encoding, g: Guest, rip: int): int
    requires e.rexX < 2 && e.rexB < 2 && e.rm < 8 && e.base < 8 && e.index < 8
  {
    var index: int, sp: int := IndexTerm(e, g), g.r[RSP];
    (if DropsIndex(e) then -index else 0)
    + (if NoBase(e) && !(HasIndex(e) && !DropsIndex(e)) then rip else 0)
    + (if HasIndex(e) && !DropsIndex(e) && !NoBase(e) && BaseNumber(e) == RSP then -sp else 0)
  }

  /** What the operand left by the decoder stands for in emit_address_decode. */
  function OperandSum(op: Operand, g: Guest, rip: int): int
    requires Numbered(op)
  {
    if op.t == MEM_IMM then rip + op.imm
    else if op.t.idx then
      g.r[op.idx] * Pow2(op.scale) + (if op.t.reg && op.reg != RSP then g.r[op.reg] else 0)
      + (if op.t.imm then op.imm else 0)
    else g.r[op.reg] + if op.t.imm then op.imm else 0
  }

  /** The address it was decoded for: RSP counts as a base of an index too. */
  function IntendedSum(op: Operand, g: Guest, rip: int): int
    requires Numbered(op)
  {
    OperandSum(op, g, rip) + if op.t != MEM_IMM && op.t.idx && op.t.reg && op.reg == RSP then g.r[RSP] else 0
  }

  lemma ErrorAccounts(op: Operand, e: Encoding, g: Guest, rip: int)
    requires Numbered(op) && e.mod < 3
    requires e.rexX < 2 && e.rexB < 2 && e.rm < 8 && e.base < 8 && e.index < 8
    requires op.t.mem
    requires (op.t.reg <==> !RipRelative(e) && !NoBase(e)) && (op.t.reg ==> op.reg == BaseNumber(e))
    requires (op.t.idx <==> HasIndex(e) && !DropsIndex(e)) &&
      (op.t.idx ==> op.idx == 8 * e.rexX + e.index && op.scale == e.scale)
    requires (if op.t.imm then op.imm == Displacement(e) else Displacement(e) == 0) && (!op.t.reg ==> op.t.imm)
    ensures U64(EffectiveAddress(e, g, rip) + AddressError(e, g, rip)) == U64(OperandSum(op, g, rip))
  {
    hide Pow2, U64, BaseNumber;
    var sum, err := BaseTerm(e, g, rip) + IndexTerm(e, g) + Displacement(e), AddressError(e, g, rip);
    assert sum + err == OperandSum(op, g, rip);
    Wraps(sum, err);
  }

  lemma Wraps(x: int, y: int)
    ensures U64(U64(x) + y) == U64(x + y)
  {}

  /** For every ModR/M + SIB encoding whose displacement fits (twelve bits and sign, or 2^20 pages
      when it is taken as RIP-relative): decoding it, extending it by REX and emitting its address
      leaves the effective address plus AddressError in the target register and changes nothing
      else, and decoding consumes exactly the encoding's bytes. */
  lemma AddressMeans(code: Code, gp: nat, stale: Operand, modrm: u8, rex: nat, reg: nat, at: Place, s: State)
    requires modrm < 0xC0 && reg < 31 && s.pc == at.host
    requires var op := ExtendRm(DecodeRm(code, gp, stale, modrm).op, rex);
      (op.t.idx && op.t.reg && op.reg < 16 ==> X64Reg(op.reg) != reg) &&
      (if op.t == MEM_IMM then -0x10_0000 <= PageDelta(U64(at.rip + op.imm), at.host) < 0x10_0000
       else op.t.imm ==> -0x1000 < op.imm < 0x1000)
    ensures var d, e := DecodeRm(code, gp, stale, modrm), ReadEncoding(code, gp, modrm, rex);
      Numbered(ExtendRm(d.op, rex)) &&
      var words := AddressWords(ExtendRm(d.op, rex), reg, at);
      d.gp == gp + Tail(e) && words.Words? &&
      OnlySets(Run(words.ws, s), s, reg, U64(EffectiveAddress(e, View(s), at.rip) + AddressError(e, View(s), at.rip)))
  {
    hide Bits.Or, Step, Run, AddressWords, Pow2, DecodeRm, PageDelta, EffectiveAddress, AddressError, U64;
    var d, e := DecodeRm(code, gp, stale, modrm), ReadEncoding(code, gp, modrm, rex);
    var op := ExtendRm(d.op, rex);
    DecodeRmMeans(code, gp, stale, modrm, rex);
    DecodedIsNumbered(code, gp, stale, modrm, rex);
    ErrorAccounts(op, e, View(s), at.rip);
    AddressOfOperand(op, reg, at, s);
  }

  lemma AddressOfOperand(op: Operand, reg: nat, at: Place, s: State)
    requires op.t.mem && (op.t.idx || op.t.reg || op.t.imm) && Numbered(op) && reg < 31 && s.pc == at.host
    requires op.t.idx ==> op.idx != RSP && op.scale < 4 && (op.t.reg ==> X64Reg(op.reg) != reg)
    requires !op.t.idx && !op.t.reg ==> op.t == MEM_IMM
    requires if op.t == MEM_IMM then -0x10_0000 <= PageDelta(U64(at.rip + op.imm), at.host) < 0x10_0000
             else op.t.imm ==> -0x1000 < op.imm < 0x1000
    ensures var e := AddressWords(op, reg, at);
      e.Words? && OnlySets(Run(e.ws, s), s, reg, U64(OperandSum(op, View(s), at.rip)))
  {
    hide Bits.Or, Step, Run, AddressWords, Pow2, PageDelta;
    if op.t == MEM_IMM {
      RipRelativeExact(op, reg, at, s);
    } else if op.t.idx {
      ViewReads(s, op.idx);
      if op.t.reg { ViewReads(s, op.reg); GuestRegistersApart(op.reg, op.reg); }
      IndexedAddress(op, reg, at, s);
    } else {
      ViewReads(s, op.reg);
      BasedAddress(op, reg, at, s);
    }
  }

  /** The forms whose address is right whatever the registers hold. */
  predicate RightForm(e: Encoding) {
    !DropsIndex(e) && !(NoBase(e) && !HasIndex(e)) && !(HasIndex(e) && !NoBase(e) && BaseNumber(e) == RSP)
  }

  /** AddressMeans gives the effective address from every register state exactly for those forms. */
  lemma RightFormExact(e: Encoding)
    requires e.mod < 3 && e.scale < 4 && e.rexX < 2 && e.rexB < 2 && e.rm < 8 && e.base < 8 && e.index < 8
    ensures RightForm(e)
       <==> forall g: Guest, rip: u64 ::
              U64(EffectiveAddress(e, g, rip) + AddressError(e, g, rip)) == EffectiveAddress(e, g, rip)
  {
    if RightForm(e) {
      forall g: Guest, rip: u64
        ensures U64(EffectiveAddress(e, g, rip) + AddressError(e, g, rip)) == EffectiveAddress(e, g, rip)
      {
        hide EffectiveAddress;
        assert AddressError(e, g, rip) == 0;
      }
    } else {
      hide EffectiveAddress;
      var g, rip: u64 := Guest(seq(16, _ => 1), BLANK), 100;
      assert Pow2(0) == 1 && Pow2(1) == 2 && Pow2(2) == 4 && Pow2(3) == 8;
      var err := AddressError(e, g, rip);
      assert err != 0 && -100 <= err <= 100;
      SameResidue(EffectiveAddress(e, g, rip), err);
    }
  }
}

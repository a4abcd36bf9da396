/** The LEA case of src/encoder.c: emit_address_decode with a guest register as its target. */
module LoadAddress {
  import opened Bits
  import opened Arm64
  import opened Emitter
  import opened Words
  import opened Immediates
  import opened Steps
  import opened X86
  import opened Operands
  import opened Addressing
  import opened Arithmetic
  import opened Conditions
  import opened Moves

  /** The first word's result: the scaled index, which a shift cannot deliver into RSP. */
  function ScaledIndex(r: nat, op: Operand, g: Guest): u64
    requires op.idx < 16
  {
    if r == RSP && op.scale != 0 then g.r[RSP] else U64(g.r[op.idx] * Pow2(op.scale))
  }

  /** What the second word adds: the base as it is by then, nothing for RSP on either side. */
  function AddedBase(r: nat, op: Operand, g: Guest): u64
    requires op.idx < 16 && (op.t.reg ==> op.reg < 16)
  {
    if !op.t.reg || r == RSP || op.reg == RSP then 0 else if op.reg == r then ScaledIndex(r, op, g) else g.r[op.reg]
  }

  /** What is left in register r. */
  function LeaResult(r: nat, op: Operand, g: Guest, rip: int): u64
    requires Numbered(op)
  {
    if op.t == MEM_IMM then
      if r == RSP then Add64(g.r[RSP], U64(rip + op.imm) % 0x1000) else U64(rip + op.imm)
    else if op.t.idx then U64(ScaledIndex(r, op, g) + AddedBase(r, op, g) + if op.t.imm then op.imm else 0)
    else U64(g.r[op.reg] + if op.t.imm then op.imm else 0)
  }

  /** When that is the address, modulo the operand's width: always without an index and off the
      instruction pointer, unless RSP is to get the latter; with an index, when the target is neither RSP
      nor the base, nor RSP the base, or the registers happen to make up for it. */
  predicate SameAddress(wide: bool, r: nat, op: Operand, g: Guest, rip: int)
    requires Numbered(op)
  {
    var m := Width(wide);
    if op.t == MEM_IMM then r != RSP || g.r[RSP] % m == Floor(U64(rip + op.imm)) % m
    else if !op.t.idx then true
    else
      var scaled, base := U64(g.r[op.idx] * Pow2(op.scale)), if op.t.reg then g.r[op.reg] else 0;
      if r == RSP then ScaledIndex(r, op, g) % m == (scaled + base) % m
      else if op.t.reg && op.reg == RSP then base % m == 0
      else if op.t.reg && op.reg == r then scaled % m == base % m
      else true
  }

  /** The code forms 64 bits whatever the operand size; LEA r32 keeps the low 32 and clears the rest. */
  predicate LeaRight(wide: bool, r: nat, op: Operand, g: Guest, rip: int)
    requires Numbered(op)
  {
    SameAddress(wide, r, op, g, rip) && (wide || LeaResult(r, op, g, rip) < TWO32)
  }

  lemma Congruent(x: int, y: int, m: nat)
    requires m > 0
    ensures x % m == y % m <==> (x - y) % m == 0
  {
    var p, r, q, t := x / m, x % m, y / m, y % m;
    assert x - y == m * (p - q) + (r - t) && m * (p - q - 1) == m * (p - q) - m;
    if r < t { DivUnique(x - y, m, p - q - 1, r - t + m); } else { DivUnique(x - y, m, p - q, r - t); }
  }

  lemma Cancels(x: int, y: int, k: int, m: nat)
    requires m > 0
    ensures (x + k) % m == (y + k) % m <==> x % m == y % m
  {
    Congruent(x + k, y + k, m);
    Congruent(x, y, m);
  }

  /** The result is the address, in the operand's width, in exactly those cases. */
  lemma LeaRightExact(wide: bool, r: nat, op: Operand, g: Guest, rip: int)
    requires r < 16 && Numbered(op)
    ensures LeaResult(r, op, g, rip) == U64(IntendedSum(op, g, rip)) % Width(wide) <==> LeaRight(wide, r, op, g, rip)
  {
    hide LeaResult, IntendedSum, SameAddress;
    AddressExact(wide, r, op, g, rip);
    InWidth(LeaResult(r, op, g, rip), U64(IntendedSum(op, g, rip)), wide);
  }

  /** So where LEA r64 is right, LEA r32 is right exactly for addresses below 2^32. */
  lemma NarrowExact(r: nat, op: Operand, g: Guest, rip: int)
    requires r < 16 && Numbered(op) && LeaRight(true, r, op, g, rip)
    ensures LeaRight(false, r, op, g, rip) <==> U64(IntendedSum(op, g, rip)) < TWO32
  {
    hide LeaResult, IntendedSum, SameAddress;
    LeaRightExact(true, r, op, g, rip);
    LeaRightExact(false, r, op, g, rip);
    InWidth(LeaResult(r, op, g, rip), U64(IntendedSum(op, g, rip)), true);
    InWidth(LeaResult(r, op, g, rip), U64(IntendedSum(op, g, rip)), false);
  }

  lemma InWidth(x: u64, y: u64, wide: bool)
    ensures x == y % Width(wide) <==> x % Width(wide) == y % Width(wide) && (wide || x < TWO32)
  {}

  lemma AddressExact(wide: bool, r: nat, op: Operand, g: Guest, rip: int)
    requires r < 16 && Numbered(op)
    ensures LeaResult(r, op, g, rip) % Width(wide) == U64(IntendedSum(op, g, rip)) % Width(wide)
       <==> SameAddress(wide, r, op, g, rip)
  {
    hide Pow2, Width, U64, Floor;
    if op.t == MEM_IMM {
      if r == RSP { PageExact(wide, g.r[RSP], U64(rip + op.imm)); }
    } else if op.t.idx {
      IndexedExact(wide, r, op, g, rip);
    }
  }

  lemma PageExact(wide: bool, sp: u64, full: u64)
    ensures Add64(sp, full % 0x1000) % Width(wide) == full % Width(wide)
      <==> sp % Width(wide) == Floor(full) % Width(wide)
  {
    hide Width;
    assert Width(wide) > 0 by { WidthBounds(wide, 0); }
    var x: int, low: int := sp, full % 0x1000;
    SameModulo(x + low, wide);
    Cancels(x, Floor(full), low, Width(wide));
  }

  lemma IndexedExact(wide: bool, r: nat, op: Operand, g: Guest, rip: int)
    requires r < 16 && Numbered(op) && op.t != MEM_IMM && op.t.idx
    ensures LeaResult(r, op, g, rip) % Width(wide) == U64(IntendedSum(op, g, rip)) % Width(wide)
       <==> SameAddress(wide, r, op, g, rip)
  {
    hide Pow2, U64, Width;
    var m := Width(wide);
    assert m > 0 by { WidthBounds(wide, 0); }
    var x, k := g.r[op.idx] * Pow2(op.scale), if op.t.imm then op.imm else 0;
    var base: int := if op.t.reg then g.r[op.reg] else 0;
    var first: int, second: int := ScaledIndex(r, op, g), AddedBase(r, op, g);
    assert IntendedSum(op, g, rip) == x + base + k;
    SameModulo(first + second + k, wide);
    SameModulo(x + base + k, wide);
    SameModulo(x, wide);
    Congruent(U64(x), x, m);
    Cancels(first + second, x + base, k, m);
    Cancels(U64(x), x, base, m);
    if r != RSP {
      Cancels(U64(x), x, second, m);
      Cancels(second, base, x, m);
      ZeroResidue(m);
    }
  }

  lemma ZeroResidue(m: nat)
    requires m > 0
    ensures 0 % m == 0
  {}

  lemma Small(x: int)
    ensures 0 <= x < TWO64 ==> U64(x) == x
  {}

  /** For instance LEA EAX, [RAX-1] with RAX zero: the form is right, the upper half is not. */
  lemma LeaBelowZero(g: Guest, rip: int)
    requires g.r[0] == 0
    ensures var op := Operand(MEM_REG_IMM, 0, 0, 0, -1);
      SameAddress(false, 0, op, g, rip) && LeaResult(0, op, g, rip) == TWO64 - 1 && !LeaRight(false, 0, op, g, rip)
  {}

  // ---------------------------------------------------------------- what the words do

  ghost predicate Leaves(o: Outcome, s: State, r: nat, v: u64)
    requires r < 16
  {
    o.Next? && View(o.s) == SetReg(View(s), r, v) && o.s.f == s.f
  }

  lemma Collect(x: int, b: int, k: int)
    ensures U64(U64(x) + b + k) == U64(x + b + k) && Add64(Add64(U64(x), b), k) == U64(x + b + k)
  {}

  /** The target is not the base: the address as for any other register. */
  lemma LeaElsewhere(r: nat, op: Operand, at: Place, s: State)
    requires r < 16 && r != RSP && Reachable(op, at) && s.pc == at.host && (op.t.idx && op.t.reg ==> op.reg != r)
    ensures var e := LeaWords(r, op, at);
      e.Words? && Leaves(Run(e.ws, s), s, r, LeaResult(r, op, View(s), at.rip))
  {
    hide Step, Run, AddressWords, Pow2, View, SetReg, X64Reg, U64;
    if op.t.reg { GuestRegistersApart(r, op.reg); }
    GuestRegistersApart(r, r);
    AddressOfOperand(op, X64Reg(r), at, s);
    var g := View(s);
    var v: u64 := U64(OperandSum(op, g, at.rip));
    ViewSetsGuest(s, r, v);
    ViewIgnoresPc(SetXSp(s, X64Reg(r), v), Run(AddressWords(op, X64Reg(r), at).ws, s).s.pc);
    if op.t.idx { Collect(g.r[op.idx] * Pow2(op.scale), AddedBase(r, op, g), if op.t.imm then op.imm else 0); }
  }

  /** The target is the base: it is overwritten before it is added. */
  lemma LeaOwnBase(r: nat, op: Operand, at: Place, s: State)
    requires r < 16 && r != RSP && Reachable(op, at) && s.pc == at.host && op.t.idx && op.t.reg && op.reg == r
    ensures var e := LeaWords(r, op, at);
      e.Words? && Leaves(Run(e.ws, s), s, r, LeaResult(r, op, View(s), at.rip))
  {
    hide Step, Run, Pow2, View, SetReg, X64Reg, RdRn, RdRnRm, ShiftLeft, AddSigned, Add64, U64;
    var reg, g := X64Reg(r), View(s);
    GuestRegistersApart(r, r);
    ViewReads(s, op.idx);
    var k := if op.t.imm then op.imm else 0;
    var x := g.r[op.idx] * Pow2(op.scale);
    var first := U64(x);
    var ws := IndexWords(op, reg);
    IndexOntoBase(op, reg, s);
    var v := Add64(first, first);
    if k != 0 {
      StepAdd(reg, reg, k, Run(ws, s).s);
      ThenAdds(ws, AddSigned(reg, reg, k), s, reg, v, k);
    } else {
      assert AddressWords(op, reg, at) == Words(ws + []) && ws + [] == ws;
    }
    Regroup(first, first, k);
    Doubled(first, k);
    ViewSetsGuest(s, r, Add64(v, k));
    ViewIgnoresPc(SetXSp(s, reg, Add64(v, k)), Run(AddressWords(op, reg, at).ws, s).s.pc);
  }

  lemma Doubled(first: u64, k: int)
    ensures Add64(Add64(first, first), k) == U64(first + first + k) &&
      Add64(Add64(first, first), 0) == Add64(first, first)
  {}

  lemma IndexOntoBase(op: Operand, reg: nat, s: State)
    requires op.idx < 16 && (op.t.reg ==> op.reg < 16) && op.idx != RSP && op.scale < 4 && reg < 31 && op.t.reg &&
      X64Reg(op.reg) == reg
    ensures var first := U64(X(s, X64Reg(op.idx)) * Pow2(op.scale));
      OnlySets(Run(IndexWords(op, reg), s), s, reg, Add64(first, first))
  {
    hide Step, Run, RdRn, RdRnRm, ShiftLeft, Pow2, U64, Add64;
    var first := U64(X(s, X64Reg(op.idx)) * Pow2(op.scale));
    var ws := IndexWords(op, reg);
    StepIndex(op, reg, s);
    RunOne(ws[0], s);
    StepAddBase(op.reg, reg, Run([ws[0]], s).s);
    ThenAdds([ws[0]], ws[1], s, reg, first, first);
  }

  // ---------------------------------------------------------------- RSP as the target

  /** Only SP changed. */
  ghost predicate OnlySp(o: Outcome, s: State, v: u64) {
    o.Next? && o.s == s.(sp := v, pc := o.s.pc)
  }

  lemma OnlySpTwice(ws: seq<nat>, w: nat, s: State, v: u64, x: u64)
    requires OnlySp(Run(ws, s), s, v) && OnlySp(Step(w, Run(ws, s).s), Run(ws, s).s, x)
    ensures OnlySp(Run(ws + [w], s), s, x)
  {
    hide Step, Run;
    RunConcat(ws, [w], s);
    RunOne(w, Run(ws, s).s);
  }

  lemma OnlySpLeaves(o: Outcome, s: State, v: u64)
    requires OnlySp(o, s, v)
    ensures Leaves(o, s, RSP, v)
  {
    hide View, SetReg;
    ViewSetsGuest(s, RSP, v);
    ViewIgnoresPc(SetXSp(s, 31, v), o.s.pc);
  }

  /** Shifts, register additions and page addresses cannot name SP as their target. */
  lemma StepShiftIntoSp(scale: nat, rn: nat, s: State)
    requires 0 < scale < 4 && rn < 31
    ensures OnlySp(Step(ShiftLeft(SHIFT_LEFT, scale, rn, 31), s), s, s.sp)
  {
    hide Bits.Or, Decode, ShiftLeft, Pow2;
    ShiftLeftDecodes(scale, rn, 31);
    var k: int := scale;
    assert (-k) % 64 == 64 - k && (63 - k) % 64 == 63 - k;
  }

  lemma StepAddIntoSp(rm: nat, s: State)
    requires rm < 32
    ensures OnlySp(Step(RdRnRm(SF + ADD_REG, 31, 31, rm), s), s, s.sp)
  {
    hide Step, RdRnRm, AddSub;
    StepAddReg(true, false, false, 31, 31, rm, s);
  }

  lemma StepPageIntoSp(delta: int, s: State)
    ensures OnlySp(Step(Page(ADRP, delta, 31), s), s, s.sp)
  {
    hide Bits.Or, Decode, Page;
    AdrpDecodes(delta, 31);
  }

  lemma StepSp(w: nat, s: State, v: u64)
    requires Step(w, s) == Next(Advance(SetXSp(s, 31, v)))
    ensures OnlySp(Step(w, s), s, v)
  {}

  lemma LowIntoSp(imm: nat, s: State)
    requires imm < 0x1000
    ensures OnlySp(Step(RdRnImm(SF + ADD_IMM, 31, 31, imm), s), s, Add64(s.sp, imm))
  {
    hide Bits.Or, Decode, RdRnImm, AddSub;
    AddSubImmDecodes(false, 31, 31, imm);
    Small(imm);
    AddSubResult(s.sp, imm, true, false);
  }

  lemma PageLeaIntoSp(op: Operand, at: Place, s: State)
    requires Reachable(op, at) && s.pc == at.host && op.t == MEM_IMM
    ensures var e := LeaWords(RSP, op, at);
      e.Words? && Leaves(Run(e.ws, s), s, RSP, LeaResult(RSP, op, View(s), at.rip))
  {
    hide Step, Run, View, SetReg, Page, RdRnImm;
    var full := U64(at.rip + op.imm);
    var a, b := Page(ADRP, PageDelta(full, at.host), 31), RdRnImm(SF + ADD_IMM, 31, 31, full % 0x1000);
    ViewReads(s, RSP);
    StepPageIntoSp(PageDelta(full, at.host), s);
    RunOne(a, s);
    LowIntoSp(full % 0x1000, Run([a], s).s);
    OnlySpTwice([a], b, s, s.sp, Add64(s.sp, full % 0x1000));
    assert [a] + [b] == [a, b];
    OnlySpLeaves(Run([a, b], s), s, Add64(s.sp, full % 0x1000));
  }

  lemma IndexIntoSp(op: Operand, s: State)
    requires op.idx < 16 && (op.t.reg ==> op.reg < 16) && op.idx != RSP && op.scale < 4
    ensures OnlySp(Run(IndexWords(op, 31), s), s, ScaledIndex(RSP, op, View(s)))
  {
    hide Step, Run, View, RdRn, RdRnRm, ShiftLeft, X64Reg;
    var ws, v := IndexWords(op, 31), ScaledIndex(RSP, op, View(s));
    GuestRegistersApart(op.idx, op.idx);
    ViewReads(s, op.idx);
    ViewReads(s, RSP);
    SpNumber();
    RunOne(ws[0], s);
    if op.scale != 0 {
      StepShiftIntoSp(op.scale, X64Reg(op.idx), s);
    } else {
      StepMove(31, X64Reg(op.idx), s);
      Unscaled0(XSp(s, X64Reg(op.idx)));
      StepSp(ws[0], s, v);
    }
    if op.t.reg {
      StepAddIntoSp(X64Reg(op.reg), Run([ws[0]], s).s);
      OnlySpTwice([ws[0]], ws[1], s, v, v);
      assert ws == [ws[0]] + [ws[1]];
    } else {
      assert ws == [ws[0]];
    }
  }

  lemma Unscaled0(x: u64)
    ensures U64(x * Pow2(0)) == x
  {}

  lemma IndexLeaIntoSp(op: Operand, at: Place, s: State)
    requires Reachable(op, at) && s.pc == at.host && op.t.idx
    ensures var e := LeaWords(RSP, op, at);
      e.Words? && Leaves(Run(e.ws, s), s, RSP, LeaResult(RSP, op, View(s), at.rip))
  {
    hide Step, Run, View, SetReg, RdRn, RdRnRm, ShiftLeft, AddSigned, ScaledIndex, Pow2;
    var ws, v, k := IndexWords(op, 31), ScaledIndex(RSP, op, View(s)), if op.t.imm then op.imm else 0;
    IndexIntoSp(op, s);
    var t := Run(ws, s).s;
    if k != 0 {
      StepAdd(31, 31, k, t);
      StepSp(AddSigned(31, 31, k), t, Add64(v, k));
      OnlySpTwice(ws, AddSigned(31, 31, k), s, v, Add64(v, k));
      assert AddressWords(op, 31, at) == Words(ws + [AddSigned(31, 31, k)]);
    } else {
      assert AddressWords(op, 31, at) == Words(ws + []) && ws + [] == ws;
      Small(v);
      assert Add64(v, 0) == v;
    }
    SpNumber();
    OnlySpLeaves(Run(AddressWords(op, 31, at).ws, s), s, Add64(v, k));
  }

  lemma BaseLeaIntoSp(op: Operand, at: Place, s: State)
    requires Reachable(op, at) && s.pc == at.host && !op.t.idx && op.t != MEM_IMM
    ensures var e := LeaWords(RSP, op, at);
      e.Words? && Leaves(Run(e.ws, s), s, RSP, LeaResult(RSP, op, View(s), at.rip))
  {
    hide Step, Run, View, SetReg, RdRn, AddSigned, X64Reg;
    var rn, k := X64Reg(op.reg), if op.t.imm then op.imm else 0;
    ViewReads(s, op.reg);
    var w := AddressWords(op, X64Reg(RSP), at).ws[0];
    SpNumber();
    if op.t.imm { StepAdd(31, rn, op.imm, s); } else { StepMove(31, rn, s); }
    StepSp(w, s, U64(XSp(s, rn) + k));
    RunOne(w, s);
    OnlySpLeaves(Run([w], s), s, U64(XSp(s, rn) + k));
  }

  /** LEA with every target and in both widths: what it leaves in the register, and that this is the
      effective address in the operand's width exactly in the cases above. */
  lemma LeaMeans(wide: bool, r: nat, op: Operand, at: Place, s: State)
    requires r < 16 && Reachable(op, at) && s.pc == at.host
    ensures var e, g := LeaWords(r, op, at), View(s);
      e.Words? && var o := Run(e.ws, s);
      o.Next? && View(o.s) == SetReg(g, r, LeaResult(r, op, g, at.rip)) &&
      (View(o.s) == SetReg(g, r, U64(IntendedSum(op, g, at.rip)) % Width(wide))
       <==> LeaRight(wide, r, op, g, at.rip)) && o.s.f == s.f
  {
    hide Run, View, SetReg, LeaWords, LeaResult, LeaRight, IntendedSum;
    if r != RSP {
      if op.t.idx && op.t.reg && op.reg == r { LeaOwnBase(r, op, at, s); } else { LeaElsewhere(r, op, at, s); }
    } else if op.t == MEM_IMM {
      PageLeaIntoSp(op, at, s);
    } else if op.t.idx {
      IndexLeaIntoSp(op, at, s);
    } else {
      BaseLeaIntoSp(op, at, s);
    }
    var g, full := View(s), U64(IntendedSum(op, View(s), at.rip));
    LeaRightExact(wide, r, op, g, at.rip);
    SetRegSame(g, r, LeaResult(r, op, g, at.rip), full % Width(wide));
  }
}

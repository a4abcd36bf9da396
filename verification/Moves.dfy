/** The MOV and LEA cases of src/encoder.c. */
module Moves {
  import opened Bits
  import opened Memory
  import opened Arm64
  import opened Emitter
  import opened Words
  import opened Immediates
  import opened Steps
  import opened X86
  import opened Operands
  import opened Addressing
  import opened Arithmetic
  import opened Conditions

  /** MOV between registers, from a constant, and to and from memory.  A zero constant is stored from
      the zero register; any other goes through SC2. */
  function MovWords(a: Arg, b: Arg, wide: bool, at: Place): Emission
    requires (a.RegArg? ==> a.r < 16) && (b.RegArg? ==> b.r < 16)
    requires (a.MemArg? ==> Numbered(a.op)) && (b.MemArg? ==> Numbered(b.op))
  {
    if a.RegArg? && b.RegArg? then Words([RdRn(SfBit(wide) + ADD_IMM, X64Reg(a.r), X64Reg(b.r))])
    else if a.RegArg? && b.ImmArg? then Words(ImmWords(b.imm, X64Reg(a.r)))
    else if a.RegArg? && b.MemArg? then LoadWords(b.op, X64Reg(a.r), wide, at)
    else if a.MemArg? && b.ImmArg? then
      var setup := if b.imm == 0 then [] else ImmWords(b.imm, SC2R);
      var store := StoreWords(a.op, if b.imm == 0 then X64Reg(XZR) else SC2R, wide,
        Place(at.rip, U64(at.host + 4 * |setup|)), true);
      if store.Panic? then Panic else Words(setup + store.ws)
    else if a.MemArg? && b.RegArg? then StoreWords(a.op, X64Reg(b.r), wide, at, true)
    else Panic
  }

  function LeaWords(r: nat, op: Operand, at: Place): Emission
    requires r < 16 && Numbered(op)
  {
    AddressWords(op, X64Reg(r), at)
  }

  lemma StepMoveSized(wide: bool, rd: nat, rn: nat, s: State)
    requires rd < 32 && rn < 32
    ensures Step(RdRn(SfBit(wide) + ADD_IMM, rd, rn), s) == Next(Advance(SetXSp(s, rd, XSp(s, rn) % Width(wide))))
  {
    hide Bits.Or, Decode, RdRn, AddWithCarry;
    MoveDecodes(wide, rd, rn);
    AddSubResult(XSp(s, rn), 0, wide, false);
  }

  /** MOV r, r: RSP may be either side. */
  lemma MovRegisters(a: nat, b: nat, wide: bool, at: Place, s: State)
    requires a < 16 && b < 16
    ensures var e := MovWords(RegArg(a), RegArg(b), wide, at);
      e.Words? && var o := Run(e.ws, s);
      o.Next? && View(o.s) == SetReg(View(s), a, View(s).r[b] % Width(wide)) && o.s.f == s.f
  {
    hide Bits.Or, Step, Run, RdRn;
    var w := RdRn(SfBit(wide) + ADD_IMM, X64Reg(a), X64Reg(b));
    StepMoveSized(wide, X64Reg(a), X64Reg(b), s);
    RunOne(w, s);
    ViewReads(s, b);
    var v := View(s).r[b] % Width(wide);
    ViewSetsGuest(s, a, v);
    ViewIgnoresPc(SetXSp(s, X64Reg(a), v), Step(w, s).s.pc);
  }

  /** MOV r, imm: the sign-extended constant is loaded whatever the operand size, so the 32-bit form,
      which zero-extends, is right exactly for constants that are not negative; into RSP nothing is
      written, which is right exactly when RSP holds the result already. */
  lemma MovConstantExact(a: nat, imm: i64, wide: bool, at: Place, s: State)
    requires a < 16 && (!wide ==> -0x8000_0000 <= imm < 0x8000_0000)
    ensures var e, v := MovWords(RegArg(a), ImmArg(imm), wide, at), U64(imm) % Width(wide);
      e.Words? && var o := Run(e.ws, s);
      o.Next? && View(o.s) == (if a == RSP then View(s) else SetReg(View(s), a, U64(imm))) &&
      (View(o.s) == SetReg(View(s), a, v) <==> if a == RSP then View(s).r[RSP] == v else wide || imm >= 0) &&
      o.s.f == s.f
  {
    hide Bits.Or, Step, Run, ImmWords, View, SetReg;
    GuestRegistersApart(a, a);
    var o, v := Run(ImmWords(imm, X64Reg(a)), s), U64(imm) % Width(wide);
    if a == RSP {
      ImmWordsIdle(imm);
      RunIdle(ImmWords(imm, 31), s);
      ViewIgnoresPc(s, o.s.pc);
      SetRegSame(View(s), a, View(s).r[a], v);
      SetRegKeeps(View(s), a);
    } else {
      ImmWordsLoad(imm, X64Reg(a), s);
      ViewSetsGuest(s, a, U64(imm));
      ViewIgnoresPc(SetXSp(s, X64Reg(a), U64(imm)), o.s.pc);
      SetRegSame(View(s), a, U64(imm), v);
    }
  }

  /** MOV r, [m]: right for every register but RSP, which nothing is loaded into. */
  lemma MovLoads(a: nat, op: Operand, wide: bool, at: Place, s: State)
    requires a < 16 && Reachable(op, at) && s.pc == at.host
    ensures var e, v := MovWords(RegArg(a), MemArg(op), wide, at), LoadWord(s.mem, Address(op, s, at), Bytes(wide));
      e.Words? && var o := Run(e.ws, s);
      o.Next? && (View(o.s) == SetReg(View(s), a, v) <==> a != RSP || View(s).r[RSP] == v) && o.s.f == s.f
  {
    hide Bits.Or, Step, Run, LoadWords, LoadWord, Address, View, SetReg;
    GuestRegistersApart(a, a);
    LoadMeans(op, X64Reg(a), wide, at, s);
    var o, v := Run(LoadWords(op, X64Reg(a), wide, at).ws, s), LoadWord(s.mem, Address(op, s, at), Bytes(wide));
    LoadView(op, a, s, o.s, Address(op, s, at), v);
    SetRegSame(View(s), a, View(s).r[a], v);
    SetRegKeeps(View(s), a);
  }

  lemma LoadView(op: Operand, a: nat, s: State, t: State, address: u64, v: u64)
    requires a < 16 && t == SetX(s.(x := if Direct(op) then s.x else s.x[SC1R := address]), X64Reg(a), v).(pc := t.pc)
    ensures View(t) == if a == RSP then View(s) else SetReg(View(s), a, v)
  {
    var g := if a == RSP then View(s) else SetReg(View(s), a, v);
    forall i: nat | i < 16 ensures View(t).r[i] == g.r[i] {
      GuestRegistersApart(i, a);
      GuestRegistersApart(i, i);
    }
  }

  // ---------------------------------------------------------------- words that fall through

  ghost predicate Falls(w: nat) {
    var i := Decode(w);
    !i.B? && !i.BL? && !i.BCond? && !i.Br? && !i.Blr? && !i.Ret?
  }

  lemma StepFalls(w: nat, s: State)
    requires Falls(w) && Step(w, s).Next?
    ensures Step(w, s).s.pc == U64(s.pc + 4)
  {
    hide Decode, Exec;
    ExecFalls(Decode(w), s);
  }

  lemma ExecFalls(i: Instr, s: State)
    requires !i.B? && !i.BL? && !i.BCond? && !i.Br? && !i.Blr? && !i.Ret? && Exec(i, s).Next?
    ensures Exec(i, s).s.pc == U64(s.pc + 4)
  {
    hide AddSub, LoadWord, StoreWord, InsertHalfword, CondHolds, U64, Bits.Pow2, SignExtendWord, HalfwordWeight, X, XSp,
      Width;
  }

  lemma NoWords(s: State)
    ensures U64(s.pc + 4 * 0) == s.pc
  {}

  lemma {:induction false} RunFalls(ws: seq<nat>, s: State)
    requires (forall k :: 0 <= k < |ws| ==> Falls(ws[k])) && Run(ws, s).Next?
    ensures Run(ws, s).s.pc == U64(s.pc + 4 * |ws|)
  {
    hide Step, Falls, U64;
    if ws != [] {
      StepFalls(ws[0], s);
      RunFalls(ws[1..], Step(ws[0], s).s);
      Wraps(s.pc + 4, 4 * |ws[1..]|);
    } else {
      NoWords(s);
    }
  }

  lemma ImmWordsFall(imm: i64, rd: nat)
    requires rd < 31
    ensures forall k :: 0 <= k < |ImmWords(imm, rd)| ==> Falls(ImmWords(imm, rd)[k])
  {
    hide Bits.Or, Decode, Wide, RdRn;
    if 0 <= imm <= 0x7FFF { MovZDecodes(imm, rd); }
    if imm < 0 && -1 - imm <= 0x7FFF { MovNDecodes(-1 - imm, rd); }
    MovZDecodes(imm % 0x1_0000, rd);
    MovKDecodes(1, (imm / 0x1_0000) % 0x1_0000, rd);
    MovKDecodes(2, (imm / 0x1_0000_0000) % 0x1_0000, rd);
    MovKDecodes(3, (imm / 0x1_0000_0000_0000) % 0x1_0000, rd);
    SxtwDecodes(rd, rd);
  }

  // ---------------------------------------------------------------- MOV to memory

  function StoreSetup(b: Arg): seq<nat> {
    if b.ImmArg? && b.imm != 0 then ImmWords(b.imm, SC2R) else []
  }

  /** Where the address words of a store begin. */
  function StorePlace(b: Arg, at: Place): Place {
    Place(at.rip, U64(at.host + 4 * |StoreSetup(b)|))
  }

  lemma RunStoreSetup(b: Arg, s: State) returns (t: State)
    ensures Run(StoreSetup(b), s) == Next(t) && t.pc == U64(s.pc + 4 * |StoreSetup(b)|) && t.mem == s.mem
    ensures OnlyScratch(s, t) && t.f == s.f && (b.ImmArg? && b.imm != 0 ==> t.x[SC2R] == U64(b.imm))
  {
    hide Run, ImmWords, Falls;
    if b.ImmArg? && b.imm != 0 {
      ImmWordsLoad(b.imm, SC2R, s);
      ImmWordsFall(b.imm, SC2R);
      RunFalls(StoreSetup(b), s);
    } else {
      RunNothing(s);
    }
    t := Run(StoreSetup(b), s).s;
  }

  /** MOV [m], r and MOV [m], imm touch nothing but the word at the operand's address, where they store
      the source truncated to the operand's width, except that zero is stored for RSP: right exactly
      for any other source, or when RSP is zero in that width. */
  lemma MovStores(op: Operand, b: Arg, wide: bool, at: Place, s: State)
    requires Reachable(op, StorePlace(b, at)) && s.pc == at.host && !b.MemArg? && (b.RegArg? ==> b.r < 16)
    ensures var e := MovWords(MemArg(op), b, wide, at);
      var v: u64 := if b.ImmArg? then U64(b.imm) else View(s).r[b.r];
      e.Words? && var o := Run(e.ws, s);
      o.Next? && View(o.s) == View(s).(mem := o.s.mem) &&
      (o.s.mem == StoreWord(s.mem, Address(op, s, at), Bytes(wide), v)
       <==> b != RegArg(RSP) || View(s).r[RSP] % Width(wide) == 0) && o.s.f == s.f
  {
    hide *;
    PlaceRegisters(op, b, at);
    MovStoresHost(op, b, wide, at, s);
    if b.RegArg? && b.r == RSP { StoreExact(s.mem, Address(op, s, at), wide, 0, View(s).r[b.r]); ZeroModulo(wide); }
  }

  lemma PlaceRegisters(op: Operand, b: Arg, at: Place)
    requires Reachable(op, StorePlace(b, at))
    ensures Numbered(op)
  {}

  lemma ZeroModulo(wide: bool)
    ensures 0 % Width(wide) == 0
  {}

  lemma MovStoresHost(op: Operand, b: Arg, wide: bool, at: Place, s: State)
    requires Reachable(op, StorePlace(b, at)) && s.pc == at.host && !b.MemArg? && (b.RegArg? ==> b.r < 16)
    ensures var e := MovWords(MemArg(op), b, wide, at);
      var v: u64 := if b.ImmArg? then U64(b.imm) else if b.r == RSP then 0 else View(s).r[b.r];
      e.Words? && var o := Run(e.ws, s);
      o.Next? && View(o.s) == View(s).(mem := o.s.mem) &&
      o.s.mem == StoreWord(s.mem, Address(op, s, at), Bytes(wide), v) && o.s.f == s.f
  {
    hide Bits.Or, Step, Run, StoreWords, StoreWord, ImmWords, OperandSum, StoreSetup;
    var rd := if b.RegArg? then X64Reg(b.r) else if b.imm == 0 then 31 else SC2R;
    var p := StorePlace(b, at);
    var t := RunStoreSetup(b, s);
    if b.RegArg? { GuestRegistersApart(b.r, b.r); if b.r != RSP { ViewReads(s, b.r); } }
    ScratchInvisible(s, t);
    StoreMeans(op, rd, wide, p, true, t);
    var store := StoreWords(op, rd, wide, p, true).ws;
    RunConcat(StoreSetup(b), store, s);
    StoreEmission(op, b, rd, wide, at);
    StoreView(op, t, Run(store, t).s, Address(op, t, p));
  }

  lemma StoreEmission(op: Operand, b: Arg, rd: nat, wide: bool, at: Place)
    requires Numbered(op) && !b.MemArg? && (b.RegArg? ==> b.r < 16)
    requires rd == if b.RegArg? then X64Reg(b.r) else if b.imm == 0 then 31 else SC2R
    ensures var e := StoreWords(op, rd, wide, StorePlace(b, at), true);
      MovWords(MemArg(op), b, wide, at) == if e.Panic? then Panic else Words(StoreSetup(b) + e.ws)
  {
    hide StoreWords, ImmWords;
    if b.RegArg? {
      assert U64(at.host + 0) == at.host;
      var e := StoreWords(op, rd, wide, at, true);
      if e.Words? { assert [] + e.ws == e.ws; }
    }
  }

  lemma StoreView(op: Operand, s: State, t: State, a: u64)
    requires t.sp == s.sp && t.x == if Direct(op) then s.x else s.x[SC1R := a]
    ensures View(t) == View(s).(mem := t.mem)
  {
    forall i: nat | i < 16 ensures View(t).r[i] == View(s).r[i] { GuestRegistersApart(i, i); }
  }
}

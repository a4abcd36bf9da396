/** Constants: emit_imm, emit_add_signed and emit_sub_signed of src/encoder.c. */
module Immediates {
  import opened Bits
  import opened Arm64
  import opened Emitter
  import opened Words

  function ImmWords(imm: i64, rd: nat): seq<nat> {
    if 0 <= imm <= 0x7FFF then
      [Wide(MOVZ_IMM, 0, imm, rd)]
    else if imm < 0 && -1 - imm <= 0x7FFF then
      [Wide(MOVN_IMM, 0, -1 - imm, rd)]
    else if -0x8000_0000 <= imm <= 0x7FFF_FFFF then
      [Wide(MOVZ_IMM, 0, imm % 0x1_0000, rd), Wide(MOVK_IMM, 1, (imm / 0x1_0000) % 0x1_0000, rd)]
      + if imm < 0 then [RdRn(SXTW_REG, rd, rd)] else []
    else
      [Wide(MOVZ_IMM, 0, imm % 0x1_0000, rd), Wide(MOVK_IMM, 1, (imm / 0x1_0000) % 0x1_0000, rd),
       Wide(MOVK_IMM, 2, (imm / 0x1_0000_0000) % 0x1_0000, rd),
       Wide(MOVK_IMM, 3, (imm / 0x1_0000_0000_0000) % 0x1_0000, rd)]
  }

  /** The state after a data-processing word, apart from pc: only register rd changed. */
  ghost predicate OnlySets(o: Outcome, s: State, rd: nat, v: u64) {
    o.Next? && o.s == SetX(s, rd, v).(pc := o.s.pc)
  }

  lemma OnlySetsTwice(s: State, o: Outcome, p: Outcome, rd: nat, v: u64, w: u64)
    requires rd < 31 && OnlySets(o, s, rd, v) && OnlySets(p, o.s, rd, w)
    ensures OnlySets(p, s, rd, w)
  {
    assert s.x[rd := v][rd := w] == s.x[rd := w];
  }

  lemma StepMovZ(imm: nat, rd: nat, s: State)
    requires imm < 0x1_0000 && rd < 31
    ensures OnlySets(Step(Wide(MOVZ_IMM, 0, imm, rd), s), s, rd, imm)
  {
    hide Bits.Or, Decode, Wide;
    MovZDecodes(imm, rd);
  }

  lemma StepMovN(imm: nat, rd: nat, s: State)
    requires imm < 0x1_0000 && rd < 31
    ensures OnlySets(Step(Wide(MOVN_IMM, 0, imm, rd), s), s, rd, U64(-1 - imm))
  {
    hide Bits.Or, Decode, Wide;
    MovNDecodes(imm, rd);
  }

  /** MOVK into a register whose halfword hw and everything above it is still zero. */
  lemma StepMovK(hw: nat, imm: nat, rd: nat, s: State)
    requires 1 <= hw < 4 && imm < 0x1_0000 && rd < 31 && s.x[rd] < HalfwordWeight(hw)
    ensures s.x[rd] + imm * HalfwordWeight(hw) < TWO64
    ensures OnlySets(Step(Wide(MOVK_IMM, hw, imm, rd), s), s, rd, s.x[rd] + imm * HalfwordWeight(hw))
  {
    hide Bits.Or, Decode, Wide;
    MovKDecodes(hw, imm, rd);
    assert s.x[rd] / HalfwordWeight(hw) == 0;
  }

  lemma StepSxtw(rd: nat, s: State)
    requires rd < 31
    ensures OnlySets(Step(RdRn(SXTW_REG, rd, rd), s), s, rd, SignExtendWord(s.x[rd]))
  {
    hide Bits.Or, Decode, RdRn;
    SxtwDecodes(rd, rd);
  }

  lemma Halfwords(imm: i64)
    ensures imm % 0x1_0000_0000 == imm % 0x1_0000 + ((imm / 0x1_0000) % 0x1_0000) * 0x1_0000
    ensures imm % 0x1_0000_0000_0000 == imm % 0x1_0000_0000 + ((imm / 0x1_0000_0000) % 0x1_0000) * 0x1_0000_0000
    ensures U64(imm) == imm % 0x1_0000_0000_0000 + ((imm / 0x1_0000_0000_0000) % 0x1_0000) * 0x1_0000_0000_0000
  {
    SplitMod(imm, 0x1_0000);
    SplitMod(imm, 0x1_0000_0000);
    SplitMod(imm, 0x1_0000_0000_0000);
  }

  lemma SplitMod(x: int, p: nat)
    requires p == 0x1_0000 || p == 0x1_0000_0000 || p == 0x1_0000_0000_0000
    ensures x % (p * 0x1_0000) == x % p + ((x / p) % 0x1_0000) * p
  {
    var q, r := x / p, x % p;
    var a, b := q / 0x1_0000, q % 0x1_0000;
    assert x == (p * 0x1_0000) * a + (b * p + r);
    DivUnique(x, p * 0x1_0000, a, b * p + r);
  }

  /** Materialising any 64-bit constant in any register: all four shapes of the sequence. */
  lemma ImmWordsLoad(imm: i64, rd: nat, s: State)
    requires rd < 31
    ensures OnlySets(Run(ImmWords(imm, rd), s), s, rd, U64(imm))
  {
    hide Bits.Or, Step, Wide, RdRn;
    if 0 <= imm <= 0x7FFF {
      StepMovZ(imm, rd, s);
      RunOne(Wide(MOVZ_IMM, 0, imm, rd), s);
    } else if imm < 0 && -1 - imm <= 0x7FFF {
      StepMovN(-1 - imm, rd, s);
      RunOne(Wide(MOVN_IMM, 0, -1 - imm, rd), s);
    } else if -0x8000_0000 <= imm <= 0x7FFF_FFFF {
      ImmWord32(imm, rd, s);
    } else {
      ImmWord64(imm, rd, s);
    }
  }

  lemma LowWord(imm: i64, rd: nat, s: State)
    requires rd < 31
    ensures OnlySets(
      Run([Wide(MOVZ_IMM, 0, imm % 0x1_0000, rd), Wide(MOVK_IMM, 1, (imm / 0x1_0000) % 0x1_0000, rd)], s),
                     s, rd, imm % 0x1_0000_0000)
  {
    hide Bits.Or, Step, Wide, RdRn;
    var lo, hi := imm % 0x1_0000, (imm / 0x1_0000) % 0x1_0000;
    var w0, w1 := Wide(MOVZ_IMM, 0, lo, rd), Wide(MOVK_IMM, 1, hi, rd);
    StepMovZ(lo, rd, s);
    var o := Step(w0, s);
    StepMovK(1, hi, rd, o.s);
    Halfwords(imm);
    OnlySetsTwice(s, o, Step(w1, o.s), rd, lo, lo + hi * 0x1_0000);
    RunOne(w1, o.s);
    RunCons(w0, [w1], s);
    assert [w0] + [w1] == [w0, w1];
  }

  lemma ImmWord32(imm: i64, rd: nat, s: State)
    requires rd < 31 && -0x8000_0000 <= imm <= 0x7FFF_FFFF && !(-0x8000 <= imm <= 0x7FFF)
    ensures OnlySets(Run(ImmWords(imm, rd), s), s, rd, U64(imm))
  {
    hide Bits.Or, Step, Wide, RdRn;
    var ws := [Wide(MOVZ_IMM, 0, imm % 0x1_0000, rd), Wide(MOVK_IMM, 1, (imm / 0x1_0000) % 0x1_0000, rd)];
    LowWord(imm, rd, s);
    if imm < 0 {
      var o, w := Run(ws, s), RdRn(SXTW_REG, rd, rd);
      StepSxtw(rd, o.s);
      RunOne(w, o.s);
      RunConcat(ws, [w], s);
      OnlySetsTwice(s, o, Step(w, o.s), rd, imm % 0x1_0000_0000, U64(imm));
    } else {
      assert ImmWords(imm, rd) == ws;
    }
  }

  lemma ImmWord64(imm: i64, rd: nat, s: State)
    requires rd < 31 && !(-0x8000_0000 <= imm <= 0x7FFF_FFFF)
    ensures OnlySets(Run(ImmWords(imm, rd), s), s, rd, U64(imm))
  {
    hide Bits.Or, Step, Wide, RdRn;
    var h2, h3 := (imm / 0x1_0000_0000) % 0x1_0000, (imm / 0x1_0000_0000_0000) % 0x1_0000;
    var ws := [Wide(MOVZ_IMM, 0, imm % 0x1_0000, rd), Wide(MOVK_IMM, 1, (imm / 0x1_0000) % 0x1_0000, rd)];
    var w2, w3 := Wide(MOVK_IMM, 2, h2, rd), Wide(MOVK_IMM, 3, h3, rd);
    LowWord(imm, rd, s);
    Halfwords(imm);
    var o := Run(ws, s);
    StepMovK(2, h2, rd, o.s);
    var p := Step(w2, o.s);
    OnlySetsTwice(s, o, p, rd, imm % 0x1_0000_0000, imm % 0x1_0000_0000_0000);
    StepMovK(3, h3, rd, p.s);
    OnlySetsTwice(s, p, Step(w3, p.s), rd, imm % 0x1_0000_0000_0000, U64(imm));
    RunOne(w3, p.s);
    RunCons(w2, [w3], o.s);
    RunConcat(ws, [w2] + [w3], s);
    assert ws + ([w2] + [w3]) == ImmWords(imm, rd);
  }

  // ---------------------------------------------------------------- add and subtract

  /** A word that writes nothing: its destination is the zero register. */
  ghost predicate Idle(w: nat) {
    forall s :: Step(w, s) == Next(Advance(s))
  }

  lemma ImmWordsIdle(imm: i64)
    ensures forall k :: 0 <= k < |ImmWords(imm, 31)| ==> Idle(ImmWords(imm, 31)[k])
  {
    hide Bits.Or, Decode, Wide, RdRn;
    if 0 <= imm <= 0x7FFF { MovZDecodes(imm, 31); }
    if imm < 0 && -1 - imm <= 0x7FFF { MovNDecodes(-1 - imm, 31); }
    MovZDecodes(imm % 0x1_0000, 31);
    MovKDecodes(1, (imm / 0x1_0000) % 0x1_0000, 31);
    MovKDecodes(2, (imm / 0x1_0000_0000) % 0x1_0000, 31);
    MovKDecodes(3, (imm / 0x1_0000_0000_0000) % 0x1_0000, 31);
    SxtwDecodes(31, 31);
  }

  lemma {:induction false} RunIdle(ws: seq<nat>, s: State)
    requires forall k :: 0 <= k < |ws| ==> Idle(ws[k])
    ensures Run(ws, s).Next? && Run(ws, s).s == s.(pc := Run(ws, s).s.pc)
  {
    hide Step;
    if ws != [] {
      assert Idle(ws[0]);
      RunIdle(ws[1..], Advance(s));
    }
  }

  function AddSigned(r0: nat, r1: nat, imm: int): nat {
    if imm > 0 then RdRnImm(SF + ADD_IMM, r0, r1, imm) else RdRnImm(SF + SUB_IMM, r0, r1, -imm)
  }

  function SubSigned(r0: nat, r1: nat, imm: int): nat {
    if imm > 0 then RdRnImm(SF + SUB_IMM, r0, r1, imm) else RdRnImm(SF + ADD_IMM, r0, r1, -imm)
  }

  /** i is a 64-bit add or subtract immediate computing rn + imm into rd. */
  ghost predicate Adds(i: Instr, rd: nat, rn: nat, imm: int) {
    i.AddSubImm? && i.sf && !i.setf && i.rd == rd && i.rn == rn && imm == (if i.sub then 0 - i.imm else i.imm + 0)
  }

  lemma StepAdds(w: nat, s: State, rd: nat, rn: nat, imm: int)
    requires Adds(Decode(w), rd, rn, imm) && -0x1000 < imm < 0x1000
    ensures Step(w, s) == Next(Advance(SetXSp(s, rd, U64(XSp(s, rn) + imm))))
  {
    hide Bits.Or, Decode, AddSub;
    var i := Decode(w);
    var x := XSp(s, rn);
    AddSubResult(x, U64(i.imm), true, i.sub);
    if i.sub { Negated(x, imm); } else { SmallImmediate(imm); }
  }

  lemma Negated(x: int, imm: int)
    requires -0x1000 < imm <= 0
    ensures U64(x - U64(0 - imm)) == U64(x + imm)
  {}

  lemma SmallImmediate(imm: int)
    requires 0 <= imm < 0x1000
    ensures U64(imm) == imm
  {}

  /** Bits 21..10 of an OR come from bits 21..10 of its operands. */
  lemma MiddleOfOr(a: nat, b: nat)
    ensures (Or(a, b) / 0x400) % 0x1000 == Or((a / 0x400) % 0x1000, (b / 0x400) % 0x1000)
  {
    hide Bits.Or;
    Powers();
    OrShiftRight(a, b, 10);
    ShiftRightDivides(Or(a, b), 10);
    ShiftRightDivides(a, 10);
    ShiftRightDivides(b, 10);
    OrLowBits(a / 0x400, b / 0x400, 12);
  }

  lemma ShiftedField(imm: nat)
    ensures (U32(imm * 0x400) / 0x400) % 0x1000 == imm % 0x1000
  {
    assert U32(imm * 0x400) == 0x400 * (imm % 0x40_0000);
  }

  /** Whatever imm is, bits 21..10 of the word hold imm modulo 2^12. */
  lemma MiddleBits(sub: bool, rd: nat, rn: nat, imm: nat)
    requires rd < 32 && rn < 32
    ensures (RdRnImm(SF + (if sub then SUB_IMM else ADD_IMM), rd, rn, imm) / 0x400) % 0x1000 == imm % 0x1000
  {
    hide Bits.Or, Bits.U32;
    var h := if sub then 0x344 else 0x244;
    RdRnSum(0x1000 * h, rd, rn);
    var a, b := 0x40_0000 * h + rd + rn * 0x20, U32(imm * 0x400);
    assert a / 0x400 == 0x1000 * h;
    MiddleOfOr(a, b);
    ShiftedField(imm);
    OrZeroLeft(imm % 0x1000);
  }

  /** emit_add_signed adds its constant exactly when the constant fits twelve bits. */
  lemma AddSignedExact(r0: nat, r1: nat, imm: int)
    requires r0 < 32 && r1 < 32
    ensures Adds(Decode(AddSigned(r0, r1, imm)), r0, r1, imm) <==> -0x1000 < imm < 0x1000
  {
    hide Bits.Or;
    var m: nat := if imm > 0 then imm else -imm;
    if m < 0x1000 {
      AddSubImmDecodes(imm <= 0, r0, r1, m);
    } else {
      NotAdds(imm <= 0, r0, r1, m, imm);
    }
  }

  lemma SubSignedExact(r0: nat, r1: nat, imm: int)
    requires r0 < 32 && r1 < 32
    ensures Adds(Decode(SubSigned(r0, r1, imm)), r0, r1, -imm) <==> -0x1000 < imm < 0x1000
  {
    hide Bits.Or;
    var m: nat := if imm > 0 then imm else -imm;
    if m < 0x1000 {
      AddSubImmDecodes(imm > 0, r0, r1, m);
    } else {
      NotAdds(imm > 0, r0, r1, m, -imm);
    }
  }

  lemma NotAdds(sub: bool, rd: nat, rn: nat, m: nat, imm: int)
    requires rd < 32 && rn < 32 && m >= 0x1000 && (imm == m || imm + m == 0)
    ensures !Adds(Decode(RdRnImm(SF + (if sub then SUB_IMM else ADD_IMM), rd, rn, m)), rd, rn, imm)
  {
    hide Bits.Or, RdRnImm, Decode;
    MiddleBits(sub, rd, rn, m);
    var w := RdRnImm(SF + (if sub then SUB_IMM else ADD_IMM), rd, rn, m);
    if Decode(w).AddSubImm? { ImmediateField(w); }
  }

  lemma ImmediateField(w: nat)
    requires Decode(w).AddSubImm?
    ensures var mid: int := (w / 0x400) % 0x1000; Decode(w).imm == mid || Decode(w).imm == 0x1000 * mid
  {
    PartsImmediate(w / 0x40_0000, (w / 0x400) % 0x1000, (w / 0x20) % 32, w % 32);
  }

  lemma PartsImmediate(top: nat, mid: nat, rn: nat, rd: nat)
    requires DecodeFields(top, mid, rn, rd).AddSubImm?
    ensures var m: int := mid;
      DecodeFields(top, mid, rn, rd).imm == m || DecodeFields(top, mid, rn, rd).imm == 0x1000 * m
  {}
}

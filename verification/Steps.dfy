/** The effect of single emitted words, as needed by the translation proofs. */
module Steps {
  import opened Bits
  import opened Memory
  import opened Arm64
  import opened Emitter
  import opened Words
  import opened Immediates

  function SfBit(wide: bool): nat { if wide then SF else 0 }

  function SizeBit(wide: bool): nat { if wide then MFT else 0 }

  function Bytes(wide: bool): nat { if wide then 8 else 4 }

  /** ADD rd, rn, #0: a move that can name SP on either side. */
  lemma StepMove(rd: nat, rn: nat, s: State)
    requires rd < 32 && rn < 32
    ensures Step(RdRn(SF + ADD_IMM, rd, rn), s) == Next(Advance(SetXSp(s, rd, XSp(s, rn))))
  {
    hide Bits.Or, Decode, RdRn, AddWithCarry;
    MoveDecodes(true, rd, rn);
    AddSubResult(XSp(s, rn), 0, true, false);
  }

  lemma StepAdd(rd: nat, rn: nat, imm: int, s: State)
    requires rd < 32 && rn < 32 && -0x1000 < imm < 0x1000
    ensures Step(AddSigned(rd, rn, imm), s) == Next(Advance(SetXSp(s, rd, Add64(XSp(s, rn), imm))))
    ensures Step(SubSigned(rd, rn, imm), s) == Next(Advance(SetXSp(s, rd, Add64(XSp(s, rn), -imm))))
  {
    hide Bits.Or, Decode, AddSigned, SubSigned;
    AddSignedExact(rd, rn, imm);
    SubSignedExact(rd, rn, imm);
    StepAdds(AddSigned(rd, rn, imm), s, rd, rn, imm);
    StepAdds(SubSigned(rd, rn, imm), s, rd, rn, -imm);
  }

  lemma StepLoad(wide: bool, rt: nat, rn: nat, s: State)
    requires rt < 32 && rn < 32
    ensures Step(RdRn(SizeBit(wide) + LDR32_REG, rt, rn), s)
         == Next(Advance(SetX(s, rt, LoadWord(s.mem, XSp(s, rn), Bytes(wide)))))
  {
    hide Bits.Or, Decode, RdRn, LoadWord, X, SetX;
    AccessDecodes(true, wide, rt, rn);
    assert U64(XSp(s, rn) + 0) == XSp(s, rn);
  }

  lemma StepStore(wide: bool, rt: nat, rn: nat, s: State)
    requires rt < 32 && rn < 32
    ensures Step(RdRn(SizeBit(wide) + STR32_REG, rt, rn), s)
         == Next(Advance(s.(mem := StoreWord(s.mem, XSp(s, rn), Bytes(wide), X(s, rt)))))
  {
    hide Bits.Or, Decode, RdRn, StoreWord, X;
    AccessDecodes(false, wide, rt, rn);
    assert U64(XSp(s, rn) + 0) == XSp(s, rn);
  }

  lemma StepStp(rt2: nat, rn: nat, rt: nat, s: State)
    requires rt2 < 32 && rn < 32 && rt < 32
    ensures Step(Pair(STP, rt2, rn, rt), s)
         == Next(Advance(s.(mem :=
              StoreWord(StoreWord(s.mem, XSp(s, rn), 8, X(s, rt)), Add64(XSp(s, rn), 8), 8, X(s, rt2)))))
  {
    hide Bits.Or, Decode, Pair, StoreWord;
    PairDecodes(false, rt2, rn, rt);
  }

  /** Loading a pair into one register twice has no defined result. */
  lemma StepLdp(rt2: nat, rn: nat, rt: nat, s: State)
    requires rt2 < 32 && rn < 32 && rt < 32
    ensures Step(Pair(LDP, rt2, rn, rt), s)
         == if rt == rt2 then Fault
            else Next(Advance(SetX(SetX(s, rt, LoadWord(s.mem, XSp(s, rn), 8)),
                                   rt2, LoadWord(s.mem, Add64(XSp(s, rn), 8), 8))))
  {
    hide Bits.Or, Decode, Pair, LoadWord;
    PairDecodes(true, rt2, rn, rt);
  }

  lemma RunThree(a: nat, b: nat, c: nat, s: State)
    ensures Run([a, b, c], s)
         == var o := Step(a, s); if o.Fault? then Fault
            else var p := Step(b, o.s); if p.Fault? then Fault else Step(c, p.s)
  {
    hide Step;
    var o := Step(a, s);
    assert [a, b, c] == [a] + ([b] + [c]);
    RunCons(a, [b] + [c], s);
    if o.Next? {
      RunCons(b, [c], o.s);
      var p := Step(b, o.s);
      if p.Next? { RunOne(c, p.s); }
    }
  }
}

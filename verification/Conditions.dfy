/** CMP and its consumers: Jcc, CMOVcc and SETcc.  An x86 condition travels from the opcode byte
    to the decoder's instruction type, to the patch record of a BRK, and ends as the condition
    nibble of the B.cond that src/patcher.c writes over the BRK. */
module Conditions {
  import opened Bits
  import opened Options
  import opened Memory
  import opened Arm64
  import opened Emitter
  import opened Words
  import opened Immediates
  import opened Steps
  import opened X86
  import opened Operands
  import opened Addressing
  import opened Arithmetic
  import opened StatusFlags

  // instruction types of src/decoder.h
  const JO := 20
  const CMOVO := 36
  const SETO := 52
  const CALL := 74
  const JMP := 75

  // ---------------------------------------------------------------- CMP

  datatype Arg = RegArg(r: nat) | ImmArg(imm: i64) | MemArg(op: Operand)

  /** The operand pairs that CMP is emitted for: at most one memory operand, a constant only second. */
  predicate Comparable(a: Arg, b: Arg, at: Place) {
    Encodable(a, b) && (a.MemArg? ==> Reachable(a.op, at)) && (b.MemArg? ==> Reachable(b.op, at))
  }

  /** Operand pairs as the decoder produces them: a first operand that is no constant, at most one
      operand in memory, register numbers below 16. */
  predicate Encodable(a: Arg, b: Arg) {
    !a.ImmArg? && !(a.MemArg? && b.MemArg?) &&
    (a.RegArg? ==> a.r < 16) && (b.RegArg? ==> b.r < 16) &&
    (a.MemArg? ==> Numbered(a.op)) && (b.MemArg? ==> Numbered(b.op))
  }

  function CompareWord(wide: bool, rn: nat, rm: nat): nat {
    RdRnRm(SfBit(wide) + SUB_REG + S, X64Reg(XZR), rn, rm)
  }

  /** The CMP case of encode. */
  function CmpWords(a: Arg, b: Arg, wide: bool, at: Place): Emission
    requires Encodable(a, b)
  {
    if b.MemArg? then
      var load := LoadWords(b.op, SC2R, wide, at);
      if load.Panic? then Panic else Words(load.ws + [CompareWord(wide, X64Reg(a.r), SC2R)])
    else
      var load := if a.MemArg? then LoadWords(a.op, SC2R, wide, at) else Words([]);
      var rn := if a.MemArg? then SC2R else X64Reg(a.r);
      if load.Panic? then Panic
      else if b.RegArg? then Words(load.ws + [CompareWord(wide, rn, X64Reg(b.r))])
      else Words(load.ws + ImmWords(b.imm, SC1R) + [CompareWord(wide, rn, SC1R)])
  }

  /** What CMP compares. */
  ghost function ArgValue(a: Arg, wide: bool, s: State, at: Place): u64
    requires (a.RegArg? ==> a.r < 16) && (a.MemArg? ==> Numbered(a.op))
  {
    match a
    case RegArg(r) => View(s).r[r]
    case ImmArg(imm) => U64(imm)
    case MemArg(op) => LoadWord(s.mem, Address(op, s, at), Bytes(wide))
  }

  /** What the host compares: RSP reads as zero. */
  ghost function HostArg(a: Arg, wide: bool, s: State, at: Place): u64
    requires (a.RegArg? ==> a.r < 16) && (a.MemArg? ==> Numbered(a.op))
  {
    if a == RegArg(RSP) then 0 else ArgValue(a, wide, s, at)
  }

  /** When comparing x with y where RSP, if it is one of them, reads as zero sets the same flags: RSP is zero
      in the width m, or both values lie as stated, or both operands are RSP. */
  predicate CmpRight(a: Arg, b: Arg, x: nat, y: nat, m: nat) {
    SubReadsRight(a == RegArg(RSP), b == RegArg(RSP), x, y, m)
  }

  lemma CmpRightExact(a: Arg, b: Arg, x: nat, y: nat, m: nat)
    requires (m == TWO64 || m == TWO32) && x < m && y < m && (a == RegArg(RSP) && b == RegArg(RSP) ==> x == y)
    ensures CmpFlags(if a == RegArg(RSP) then 0 else x, if b == RegArg(RSP) then 0 else y, m) == CmpFlags(x, y, m)
       <==> CmpRight(a, b, x, y, m)
  {
    hide CmpFlags, SubReadsRight;
    SubReadsExact(a == RegArg(RSP), b == RegArg(RSP), x, y, m);
  }

  lemma StepCompare(wide: bool, rn: nat, rm: nat, s: State)
    requires rn < 32 && rm < 32
    ensures var o, m := Step(CompareWord(wide, rn, rm), s), Width(wide);
      o.Next? && o.s == s.(f := o.s.f, pc := o.s.pc) && FlagsAgree(o.s.f, CmpFlags(X(s, rn) % m, X(s, rm) % m, m))
  {
    hide Bits.Or, Step, RdRnRm, AddWithCarry, CmpFlags;
    StepAddReg(wide, true, true, 31, rn, rm, s);
    SubtractionFlags(X(s, rn) % Width(wide), X(s, rm) % Width(wide), Width(wide));
  }

  /** s with different scratch registers. */
  ghost predicate OnlyScratch(s: State, t: State) {
    t.sp == s.sp && t.mem == s.mem && forall r :: 0 <= r < 31 && r != SC1R && r != SC2R ==> t.x[r] == s.x[r]
  }

  lemma ScratchInvisible(s: State, t: State)
    requires OnlyScratch(s, t)
    ensures View(t) == View(s)
  {
    forall i: nat | i < 16 ensures View(t).r[i] == View(s).r[i] { GuestRegistersApart(i, i); }
  }

  /** The loads and constants before the comparison put both values in registers. */
  lemma CompareOperands(a: Arg, b: Arg, wide: bool, at: Place, s: State)
    returns (ws: seq<nat>, rn: nat, rm: nat, t: State)
    requires Comparable(a, b, at) && s.pc == at.host
    ensures rn < 32 && rm < 32 && CmpWords(a, b, wide, at) == Words(ws + [CompareWord(wide, rn, rm)])
    ensures Run(ws, s) == Next(t) && OnlyScratch(s, t)
    ensures X(t, rn) == HostArg(a, wide, s, at) && X(t, rm) == HostArg(b, wide, s, at)
  {
    hide Bits.Or, Step, Run, CompareWord, LoadWords, ImmWords, LoadWord, Address, View;
    ws, t := [], s;
    RunNothing(s);
    if a.RegArg? { ViewReads(s, a.r); GuestRegistersApart(a.r, a.r); rn := X64Reg(a.r); }
    if b.RegArg? { ViewReads(s, b.r); GuestRegistersApart(b.r, b.r); rm := X64Reg(b.r); }
    if a.MemArg? || b.MemArg? {
      var op := if a.MemArg? then a.op else b.op;
      LoadMeans(op, SC2R, wide, at, s);
      ws := LoadWords(op, SC2R, wide, at).ws;
      t := Run(ws, s).s;
      if a.MemArg? { rn := SC2R; } else { rm := SC2R; }
    }
    if b.ImmArg? {
      ImmWordsLoad(b.imm, SC1R, t);
      RunConcat(ws, ImmWords(b.imm, SC1R), s);
      ws, t, rm := ws + ImmWords(b.imm, SC1R), Run(ImmWords(b.imm, SC1R), t).s, SC1R;
    }
  }

  /** CMP leaves the guest alone; the flags it sets stand for the x86 ones exactly when the operands are
      read right or it makes no difference. */
  lemma CmpMeans(a: Arg, b: Arg, wide: bool, at: Place, s: State)
    requires Comparable(a, b, at) && s.pc == at.host
    ensures var e, m := CmpWords(a, b, wide, at), Width(wide);
      var x, y := ArgValue(a, wide, s, at) % m, ArgValue(b, wide, s, at) % m;
      e.Words? && var o := Run(e.ws, s);
      o.Next? && View(o.s) == View(s) && (FlagsAgree(o.s.f, CmpFlags(x, y, m)) <==> CmpRight(a, b, x, y, m))
  {
    hide Bits.Or, Step, Run, CompareWord, CmpWords, ArgValue, CmpFlags, CmpRight, View;
    var m := Width(wide);
    var x, y := ArgValue(a, wide, s, at) % m, ArgValue(b, wide, s, at) % m;
    var ws, rn, rm, t := CompareOperands(a, b, wide, at, s);
    var w := CompareWord(wide, rn, rm);
    StepCompare(wide, rn, rm, t);
    RunConcat(ws, [w], s);
    RunOne(w, t);
    ScratchInvisible(s, Step(w, t).s);
    CmpRightExact(a, b, x, y, m);
    ZeroReads(wide);
  }

  lemma ZeroReads(wide: bool)
    ensures 0 % Width(wide) == 0
  {}

  // ---------------------------------------------------------------- Jcc

  /** decode and decode_0F: the instruction type of the one-byte (70+cc) and two-byte (0F 80+cc)
      conditional jumps, of CMOVcc (0F 40+cc) and of SETcc (0F 90+cc). */
  function ShortJump(byte: nat): int { JO + byte - 0x70 }

  function NearJump(byte: nat): int { byte - 0x80 + JO }

  function ConditionalMove(byte: nat): int { byte - 0x40 + CMOVO }

  function ConditionalSet(byte: nat): int { byte - 0x90 + SETO }

  /** The conditional jump types that encode turns into a BRK. */
  predicate PatchedJump(t: int) {
    t == JO + CC_G || t == JO + CC_GE || t == JO + CC_L || t == JO + CC_LE ||
    t == JO + CC_NE || t == JO + CC_BE || t == JO + CC_AE || t == JO + CC_E
  }

  /** The switch of brk_handler: the word written over the BRK, or a panic for any other type. */
  datatype Patched = Patch(w: nat) | UnknownPatch

  function PatchWord(t: int, offset: int): Patched {
    if t == JO + CC_L then Patch(Or(0x5400_000B, (offset % 0x8_0000) * 0x20))
    else if t == JO + CC_LE then Patch(Or(0x5400_000D, (offset % 0x8_0000) * 0x20))
    else if t == JO + CC_E then Patch(Or(0x5400_0000, (offset % 0x8_0000) * 0x20))
    else if t == JO + CC_AE then Patch(Or(0x5400_0002, (offset % 0x8_0000) * 0x20))
    else if t == JO + CC_NE then Patch(Or(0x5400_0001, (offset % 0x8_0000) * 0x20))
    else if t == JO + CC_G then Patch(Or(0x5400_000C, (offset % 0x8_0000) * 0x20))
    else if t == JO + CC_GE then Patch(Or(0x5400_000A, (offset % 0x8_0000) * 0x20))
    else if t == JO + CC_BE then Patch(Or(0x5400_0009, (offset % 0x8_0000) * 0x20))
    else if t == JMP then Patch(Or(BR_IMM, offset % 0x400_0000))
    else if t == CALL then Patch(Or(BLR_IMM, offset % 0x400_0000))
    else UnknownPatch
  }

  function HostCondition(t: int): nat {
    if t == JO + CC_L then 11 else if t == JO + CC_LE then 13 else if t == JO + CC_E then 0
    else if t == JO + CC_AE then 2 else if t == JO + CC_NE then 1 else if t == JO + CC_G then 12
    else if t == JO + CC_GE then 10 else 9
  }

  lemma PatchedJumpDecodes(t: int, offset: int)
    requires PatchedJump(t)
    ensures var p := PatchWord(t, offset);
      p.Patch? && Decode(p.w) == BCond(HostCondition(t), 4 * SignExt(offset % 0x8_0000, 0x4_0000))
  {
    hide Bits.Or, Decode, SignExt;
    BCondDecodes(HostCondition(t), offset);
  }

  lemma ConditionCarries(t: int, f: Flags, g: GuestFlags)
    requires PatchedJump(t) && FlagsAgree(f, g)
    ensures CondHolds(HostCondition(t), f) <==> Holds(t - JO, g)
  {}

  /** A 19-bit word offset reaches its target exactly when it fits. */
  lemma BranchReach(offset: int, pc: u64)
    requires -0x1000_0000 <= offset < 0x1000_0000
    ensures U64(pc + 4 * SignExt(offset % 0x8_0000, 0x4_0000)) == U64(pc + 4 * offset)
      <==> -0x4_0000 <= offset < 0x4_0000
  {
    var field := SignExt(offset % 0x8_0000, 0x4_0000);
    assert (field - offset) % 0x8_0000 == 0;
    SameResidue(pc + 4 * offset, 4 * (field - offset));
  }

  /** A conditional jump of either encoding, once patched, on flags that stand for the x86 ones. */
  lemma JumpTaken(cc: nat, offset: int, s: State, g: GuestFlags)
    requires cc < 16 && PatchedJump(ShortJump(0x70 + cc)) && -0x4_0000 <= offset < 0x4_0000 && FlagsAgree(s.f, g)
    ensures var p := PatchWord(ShortJump(0x70 + cc), offset);
      p.Patch? && var j := Step(p.w, s);
      j.Next? && View(j.s) == View(s) && j.s.pc == U64(s.pc + if Holds(cc, g) then 4 * offset else 4)
  {
    hide Bits.Or, Decode, PatchWord, Holds, CondHolds, SignExt, FlagsAgree;
    var t := ShortJump(0x70 + cc);
    PatchedJumpDecodes(t, offset);
    ConditionCarries(t, s.f, g);
    BranchReach(offset, s.pc);
    ViewIgnoresPc(s, Step(PatchWord(t, offset).w, s).s.pc);
  }

  /** After ADD the carry is not inverted: the jumps that do not look at it are right, AE is taken when it should not
      be and the other way round, and BE is taken when the sum is zero or there was no carry. */
  lemma JumpAfterAdd(cc: nat, offset: int, s: State, g: GuestFlags)
    requires cc < 16 && PatchedJump(ShortJump(0x70 + cc)) && -0x4_0000 <= offset < 0x4_0000
    requires ResultAgrees(s.f, g) && s.f.c == g.cf
    ensures var p := PatchWord(ShortJump(0x70 + cc), offset);
      p.Patch? && var j := Step(p.w, s);
      var taken := if cc == CC_AE then !Holds(cc, g) else if cc == CC_BE then g.zf || !g.cf else Holds(cc, g);
      j.Next? && View(j.s) == View(s) && j.s.pc == U64(s.pc + if taken then 4 * offset else 4)
  {
    hide Bits.Or, Decode, PatchWord, SignExt;
    var t := ShortJump(0x70 + cc);
    PatchedJumpDecodes(t, offset);
    BranchReach(offset, s.pc);
    ViewIgnoresPc(s, Step(PatchWord(t, offset).w, s).s.pc);
  }

  /** From opcode to taken branch: CMP followed by a conditional jump of either encoding, once
      patched, branches exactly when the x86 condition holds of the compared values. */
  lemma CompareAndJump(a: Arg, b: Arg, wide: bool, at: Place, s: State, cc: nat, offset: int)
    requires Comparable(a, b, at) && s.pc == at.host && cc < 16 && PatchedJump(ShortJump(0x70 + cc))
    requires -0x4_0000 <= offset < 0x4_0000
    requires var m := Width(wide); CmpRight(a, b, ArgValue(a, wide, s, at) % m, ArgValue(b, wide, s, at) % m, m)
    ensures ShortJump(0x70 + cc) == NearJump(0x80 + cc)
    ensures var m, e := Width(wide), CmpWords(a, b, wide, at);
      var flags := CmpFlags(ArgValue(a, wide, s, at) % m, ArgValue(b, wide, s, at) % m, m);
      e.Words? && var o := Run(e.ws, s);
      o.Next? &&
      var p := PatchWord(ShortJump(0x70 + cc), offset);
      p.Patch? && var j := Step(p.w, o.s);
      j.Next? && View(j.s) == View(s) &&
      j.s.pc == U64(o.s.pc + if Holds(cc, flags) then 4 * offset else 4)
  {
    hide Run, Step, CmpWords, ArgValue, CmpFlags, CmpRight, FlagsAgree, PatchWord, Holds, View;
    CmpMeans(a, b, wide, at, s);
    var m := Width(wide);
    JumpTaken(cc, offset, Run(CmpWords(a, b, wide, at).ws, s).s,
      CmpFlags(ArgValue(a, wide, s, at) % m, ArgValue(b, wide, s, at) % m, m));
  }

  // ---------------------------------------------------------------- CMOVcc and SETcc

  /** The CMOVA and CMOVS cases; every other CMOVcc panics. */
  function CmovWord(t: int, wide: bool, r0: nat, r1: nat): Patched
    requires r0 < 16 && r1 < 16
  {
    if t == CMOVO + CC_A then Patch(RdRnRm(SfBit(wide) + CSELHI, X64Reg(r0), X64Reg(r1), X64Reg(r0)))
    else if t == CMOVO + CC_S then Patch(RdRnRm(SfBit(wide) + CSELMI, X64Reg(r0), X64Reg(r1), X64Reg(r0)))
    else UnknownPatch
  }

  /** CMOVA and CMOVS move, or keep, the operand's width and zero-extend it in either case; as a source
      RSP reads as zero, and as a target it keeps what it has.  The value is right exactly when ... */
  predicate CmovRight(wide: bool, moved: bool, r0: nat, r1: nat, g: Guest)
    requires r0 < 16 && r1 < 16
  {
    if r0 == RSP then g.r[if moved then r1 else r0] % Width(wide) == g.r[RSP]
    else !moved || r1 != RSP || g.r[RSP] % Width(wide) == 0
  }

  lemma CmovMeans(cc: nat, wide: bool, r0: nat, r1: nat, s: State, g: GuestFlags)
    requires (cc == CC_A || cc == CC_S) && r0 < 16 && r1 < 16 && FlagsAgree(s.f, g)
    ensures var p, v := CmovWord(ConditionalMove(0x40 + cc), wide, r0, r1),
      View(s).r[if Holds(cc, g) then r1 else r0] % Width(wide);
      p.Patch? && var o := Step(p.w, s);
      o.Next? && (View(o.s) == SetReg(View(s), r0, v) <==> CmovRight(wide, Holds(cc, g), r0, r1, View(s))) &&
      o.s.f == s.f
  {
    hide *;
    CmovDoes(cc, wide, r0, r1, s, g);
    var taken, m := if Holds(cc, g) then r1 else r0, Width(wide);
    WidthBounds(wide, View(s).r[taken]);
    SetRegSame(View(s), r0, CmovValue(wide, r0, taken, View(s)), View(s).r[taken] % m);
    CmovExact(wide, Holds(cc, g), r0, r1, View(s));
  }

  function CmovValue(wide: bool, r0: nat, taken: nat, g: Guest): u64
    requires r0 < 16 && taken < 16
  {
    if r0 == RSP then g.r[RSP] else HostRead(taken, g) % Width(wide)
  }

  lemma CmovExact(wide: bool, moved: bool, r0: nat, r1: nat, g: Guest)
    requires r0 < 16 && r1 < 16
    ensures var taken := if moved then r1 else r0;
      CmovValue(wide, r0, taken, g) == g.r[taken] % Width(wide) <==> CmovRight(wide, moved, r0, r1, g)
  {
    ZeroReads(wide);
    hide Width;
  }

  lemma CmovDoes(cc: nat, wide: bool, r0: nat, r1: nat, s: State, g: GuestFlags)
    requires (cc == CC_A || cc == CC_S) && r0 < 16 && r1 < 16 && FlagsAgree(s.f, g)
    ensures var p, taken := CmovWord(ConditionalMove(0x40 + cc), wide, r0, r1), if Holds(cc, g) then r1 else r0;
      p.Patch? && var o := Step(p.w, s);
      o.Next? && View(o.s) == SetReg(View(s), r0, CmovValue(wide, r0, taken, View(s))) && o.s.f == s.f
  {
    hide Step, View, SetReg, X64Reg, Holds, CmovWord, ConditionalMove, FlagsAgree;
    CmovStep(cc, wide, r0, r1, s, g);
    var taken := if Holds(cc, g) then r1 else r0;
    GuestRegistersApart(r0, r0);
    ViewReads(s, taken);
    SpNumber();
    var w := X(s, X64Reg(taken)) % Width(wide);
    if r0 == RSP {
      ViewIgnoresPc(s, U64(s.pc + 4));
      SetRegKeeps(View(s), RSP);
    } else {
      ViewSetsGuest(s, r0, w);
      ViewIgnoresPc(SetX(s, X64Reg(r0), w), U64(s.pc + 4));
    }
  }

  lemma CmovStep(cc: nat, wide: bool, r0: nat, r1: nat, s: State, g: GuestFlags)
    requires (cc == CC_A || cc == CC_S) && r0 < 16 && r1 < 16 && FlagsAgree(s.f, g)
    ensures var p, w := CmovWord(ConditionalMove(0x40 + cc), wide, r0, r1),
      X(s, X64Reg(if Holds(cc, g) then r1 else r0)) % Width(wide);
      p.Patch? && Step(p.w, s) == Next(Advance(SetX(s, X64Reg(r0), w)))
  {
    hide Bits.Or, Step, RdRnRm, X64Reg, Width;
    GuestRegistersApart(r0, r1);
    GuestRegistersApart(r1, r0);
    StepCsel(wide, if cc == CC_A then 8 else 4, X64Reg(r0), X64Reg(r1), s);
  }

  lemma StepCsel(wide: bool, cond: nat, rd: nat, rn: nat, s: State)
    requires (cond == 8 || cond == 4) && rd < 32 && rn < 32
    ensures Step(RdRnRm(SfBit(wide) + (if cond == 8 then CSELHI else CSELMI), rd, rn, rd), s)
         == Next(Advance(SetX(s, rd, (if CondHolds(cond, s.f) then X(s, rn) else X(s, rd)) % Width(wide))))
  {
    hide Bits.Or, Decode, RdRnRm, CondHolds;
    CselDecodes(wide, cond, rd, rn, rd);
  }

  /** The four SETcc that encode8bit emits. */
  function SetWord(t: int, r: nat): Patched
    requires r < 16
  {
    if t == SETO + CC_NE then Patch(Or(CSETNE, X64Reg(r)))
    else if t == SETO + CC_AE then Patch(Or(CSETHS, X64Reg(r)))
    else if t == SETO + CC_E then Patch(Or(CSETEQ, X64Reg(r)))
    else if t == SETO + CC_B then Patch(Or(CSETLO, X64Reg(r)))
    else UnknownPatch
  }

  /** CSET holds the inverse of the wanted condition in its nibble. */
  lemma CsetConditions(f: Flags, g: GuestFlags)
    requires FlagsAgree(f, g)
    ensures (CondHolds(0, f) <==> !Holds(CC_NE, g)) && (CondHolds(1, f) <==> !Holds(CC_E, g))
    ensures (CondHolds(2, f) <==> !Holds(CC_B, g)) && (CondHolds(3, f) <==> !Holds(CC_AE, g))
  {}

  lemma StepCset(k: nat, rd: nat, s: State)
    requires k < 4 && rd < 32
    ensures Step(Or(CSETNE + 0x1000 * k, rd), s) == Next(Advance(SetX(s, rd, if CondHolds(k, s.f) then 0 else 1)))
  {
    hide Bits.Or, Decode, CondHolds;
    CsetDecodes(k, rd);
  }

  lemma StepSet(cc: nat, r: nat, s: State, g: GuestFlags)
    requires (cc == CC_NE || cc == CC_AE || cc == CC_E || cc == CC_B) && r < 16 && FlagsAgree(s.f, g)
    ensures var p := SetWord(ConditionalSet(0x90 + cc), r);
      p.Patch? && Step(p.w, s) == Next(Advance(SetX(s, X64Reg(r), if Holds(cc, g) then 1 else 0)))
  {
    hide Bits.Or, Step, X64Reg, FlagsAgree, CondHolds, Holds;
    CsetConditions(s.f, g);
    GuestRegistersApart(r, r);
    StepCset(if cc == CC_NE then 0 else if cc == CC_E then 1 else if cc == CC_B then 2 else 3, X64Reg(r), s);
  }

  // A byte register: ModR/M field rm, and the low four bits of the REX prefix if there is one.

  function RexB(rex: Option<nat>): nat { if rex.Some? && rex.value % 2 == 1 then 1 else 0 }

  function RexR(rex: Option<nat>): nat { if rex.Some? && (rex.value / 4) % 2 == 1 then 1 else 0 }

  /** The register number that reaches encode: decode_0F does not initialise reverse for SETcc, so REX.B
      counts only if that field happens to be set, and REX.R counts otherwise. */
  function SetGets(rm: nat, rex: Option<nat>, reverse: bool): nat {
    rm + 8 * if reverse then RexB(rex) else RexR(rex)
  }

  /** Intel SDM Vol. 2A, section 2.2.1.2: without REX, numbers 4 to 7 are AH, CH, DH and BH. */
  predicate HighByte(rm: nat, rex: Option<nat>) { rex.None? && rm >= 4 }

  function ByteOwner(rm: nat, rex: Option<nat>): nat {
    if HighByte(rm, rex) then rm - 4 else 8 * RexB(rex) + rm
  }

  function ByteOf(v: u64, high: bool): nat {
    if high then (v / 0x100) % 0x100 else v % 0x100
  }

  function WithByte(v: u64, high: bool, bit: nat): u64
    requires bit < 2
  {
    if high then v - 0x100 * ByteOf(v, true) + 0x100 * bit else v - ByteOf(v, false) + bit
  }

  /** SETcc as the architecture has it: one byte of one register. */
  function SetByte(g: Guest, rm: nat, rex: Option<nat>, bit: nat): Guest
    requires rm < 8 && bit < 2
  {
    var r := ByteOwner(rm, rex);
    SetReg(g, r, WithByte(g.r[r], HighByte(rm, rex), bit))
  }

  /** When writing the whole register got comes to the same. */
  predicate SetRight(g: Guest, rm: nat, rex: Option<nat>, reverse: bool, bit: nat)
    requires rm < 8
  {
    var got, r := SetGets(rm, rex, reverse), ByteOwner(rm, rex);
    if got == r && got != RSP then g.r[r] < 0x100
    else (got == RSP || g.r[got] == bit) && ByteOf(g.r[r], HighByte(rm, rex)) == bit
  }

  /** SETcc: the register that encode got becomes the condition, or nothing happens if that is RSP.  This
      is right exactly when the register is the byte's own and its other bytes are zero, or nothing was
      to change on either side. */
  lemma SetccExact(cc: nat, rm: nat, rex: Option<nat>, reverse: bool, s: State, g: GuestFlags)
    requires (cc == CC_NE || cc == CC_AE || cc == CC_E || cc == CC_B) && rm < 8 && FlagsAgree(s.f, g)
    ensures var got, bit := SetGets(rm, rex, reverse), if Holds(cc, g) then 1 else 0;
      var p := SetWord(ConditionalSet(0x90 + cc), got);
      p.Patch? && var o := Step(p.w, s);
      o.Next? && View(o.s) == (if got == RSP then View(s) else SetReg(View(s), got, bit)) &&
      (View(o.s) == SetByte(View(s), rm, rex, bit) <==> SetRight(View(s), rm, rex, reverse, bit)) && o.s.f == s.f
  {
    hide Step, SetWord, Holds, View, SetReg, X64Reg, WithByte, ByteOf;
    var got, r, high := SetGets(rm, rex, reverse), ByteOwner(rm, rex), HighByte(rm, rex);
    var bit: nat := if Holds(cc, g) then 1 else 0;
    StepSet(cc, got, s, g);
    GuestRegistersApart(got, got);
    if got == RSP {
      SpNumber();
      ViewIgnoresPc(s, U64(s.pc + 4));
    } else {
      ViewSetsGuest(s, got, bit);
      ViewIgnoresPc(SetX(s, X64Reg(got), bit), U64(s.pc + 4));
    }
    var v := WithByte(View(s).r[r], high, bit);
    SetTwoRegs(View(s), got, if got == RSP then View(s).r[RSP] else bit, r, v);
    SetRegKeeps(View(s), RSP);
    BytesSame(View(s).r[r], high, bit);
  }

  lemma SetTwoRegs(g: Guest, q: nat, v: u64, r: nat, w: u64)
    requires q < 16 && r < 16
    ensures SetReg(g, q, v) == SetReg(g, r, w) <==> if q == r then v == w else g.r[q] == v && g.r[r] == w
  {
    assert SetReg(g, q, v).r[q] == v && SetReg(g, r, w).r[r] == w;
    if q != r { assert SetReg(g, q, v).r[r] == g.r[r] && SetReg(g, r, w).r[q] == g.r[q]; }
  }

  lemma SpNumber()
    ensures X64Reg(RSP) == 31
  {}

  lemma BytesSame(v: u64, high: bool, bit: nat)
    requires bit < 2
    ensures WithByte(v, high, bit) == v <==> ByteOf(v, high) == bit
    ensures !high ==> (WithByte(v, high, bit) == bit <==> v < 0x100)
  {}
}

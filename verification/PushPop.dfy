/** The PUSH/POP peephole of src/encoder.c: two adjacent pushes (or pops) are fused by
    rewinding the host buffer three words and emitting one STP (or LDP). */
module PushPop {
  import opened Bits
  import opened Memory
  import opened Arm64
  import opened Emitter
  import opened Immediates
  import opened Steps
  import opened X86

  datatype Previous = NoPrevious | PushPrevious | PopPrevious

  /** The words emitted so far and the encoder's prev_instruction and prev_register. */
  datatype Peephole = Peephole(words: seq<nat>, previous: Previous, register: nat)

  const START := Peephole([], NoPrevious, 0)

  function PushWords(r: nat): (ws: seq<nat>)
    ensures |ws| == 3
  {
    [SubSigned(SC2R, 31, 8), RdRn(MFT + STR32_REG, r, SC2R), RdRn(SF + ADD_IMM, 31, SC2R)]
  }

  function FusedPushWords(previous: nat, r: nat): (ws: seq<nat>)
    ensures |ws| == 3
  {
    [SubSigned(SC2R, 31, 16), Pair(STP, previous, SC2R, r), RdRn(SF + ADD_IMM, 31, SC2R)]
  }

  function PopWords(r: nat): (ws: seq<nat>)
    ensures |ws| == 3
  {
    [RdRn(SF + ADD_IMM, SC2R, 31), RdRn(MFT + LDR32_REG, r, SC2R), AddSigned(31, SC2R, 8)]
  }

  function FusedPopWords(previous: nat, r: nat): (ws: seq<nat>)
    ensures |ws| == 3
  {
    [RdRn(SF + ADD_IMM, SC2R, 31), Pair(LDP, r, SC2R, previous), AddSigned(31, SC2R, 16)]
  }

  function PushFrame(): nat { Or(Or(PUSHP, 29 * 0x400), 30) }

  function PopFrame(): nat { Or(Or(POPP, 29 * 0x400), 30) }

  /** Constants and RSP go through scratch register SC1. */
  predicate UsesScratch(op: StackOp) {
    op.PushImm? || op.r == RSP
  }

  function SetupWords(op: StackOp): seq<nat> {
    if op.PushImm? then ImmWords(op.imm, SC1R)
    else if op.r == RSP then [RdRn(SF + ADD_IMM, SC1R, 31)]
    else []
  }

  function OperandReg(op: StackOp): nat
    requires ValidOp(op)
  {
    if UsesScratch(op) then SC1R else X64Reg(op.r)
  }

  function Rewind(ws: seq<nat>): seq<nat> {
    if |ws| >= 3 then ws[..|ws| - 3] else []
  }

  /** The POP and PUSH cases of encode. */
  function EncodeOp(p: Peephole, op: StackOp): Peephole
    requires ValidOp(op)
  {
    var r := OperandReg(op);
    if op.Pop? then
      if op.r == RBP then p.(words := p.words + [PopFrame()])
      else
        var ws := p.words + SetupWords(op);
        if p.previous.PopPrevious? then Peephole(Rewind(ws) + FusedPopWords(p.register, r), NoPrevious, p.register)
        else Peephole(ws + PopWords(r), PopPrevious, r)
    else
      var ws := if p.previous.PushPrevious? then Rewind(p.words) else p.words;
      if op == Push(RBP) then p.(words := ws + [PushFrame()])
      else
        var vs := ws + SetupWords(op);
        if p.previous.PushPrevious? then Peephole(vs + FusedPushWords(p.register, r), NoPrevious, p.register)
        else Peephole(vs + PushWords(r), PushPrevious, r)
  }

  function Translate(ops: seq<StackOp>): Peephole
    requires AllValid(ops)
  {
    if ops == [] then START else EncodeOp(Translate(ops[..|ops| - 1]), ops[|ops| - 1])
  }

  // ---------------------------------------------------------------- when it is right

  /** Every PUSH and POP except those of RBP, which has its own frame words, and POP RSP. */
  predicate Plain(op: StackOp) {
    ValidOp(op) && op != Push(RBP) && op != Pop(RBP) && op != Pop(RSP)
  }

  predicate AllPlain(ops: seq<StackOp>) {
    forall i :: 0 <= i < |ops| ==> Plain(ops[i])
  }

  predicate SameKind(a: StackOp, b: StackOp) {
    a.Pop? <==> b.Pop?
  }

  /** The last operation is fused with the one before it: runs of one kind pair up from the left. */
  predicate Fuses(ops: seq<StackOp>) {
    |ops| >= 2 && SameKind(ops[|ops| - 2], ops[|ops| - 1]) && !Fuses(ops[..|ops| - 1])
  }

  /** Two operations that may be fused: distinct POP targets; a PUSH pair must not read RSP
      second nor need two different values in the one scratch register. */
  predicate MayFuse(a: StackOp, b: StackOp) {
    if b.Pop? then a != b
    else b != Push(RSP) && (UsesScratch(a) && UsesScratch(b) ==> a == b)
  }

  predicate Admissible(ops: seq<StackOp>) {
    ops == [] ||
    (Admissible(ops[..|ops| - 1]) && (Fuses(ops) ==> MayFuse(ops[|ops| - 2], ops[|ops| - 1])))
  }

  /** The emitted words do to the guest state what the instructions do. */
  ghost predicate Agrees(words: seq<nat>, ops: seq<StackOp>, s: State)
    requires AllValid(ops)
  {
    var o := Run(words, s);
    o.Next? && View(o.s) == StackRun(ops, View(s))
  }

  ghost predicate Faithful(ops: seq<StackOp>)
    requires AllValid(ops)
  {
    forall s :: Agrees(Translate(ops).words, ops, s)
  }

  // ---------------------------------------------------------------- the emitted groups

  lemma RunPush(r: nat, s: State)
    requires r < 31 && r != SC2R
    ensures var o, top := Run(PushWords(r), s), Add64(s.sp, -8);
      o.Next? && o.s == s.(x := s.x[SC2R := top], sp := top, mem := StoreWord(s.mem, top, 8, s.x[r]), pc := o.s.pc)
  {
    hide Bits.Or, Step, RdRn, SubSigned, StoreWord;
    var a, b, c := SubSigned(SC2R, 31, 8), RdRn(MFT + STR32_REG, r, SC2R), RdRn(SF + ADD_IMM, 31, SC2R);
    StepAdd(SC2R, 31, 8, s);
    var t := Step(a, s).s;
    StepStore(true, r, SC2R, t);
    StepMove(31, SC2R, Step(b, t).s);
    RunThree(a, b, c, s);
  }

  lemma RunFusedPush(p: nat, r: nat, s: State)
    requires p < 31 && p != SC2R && r < 31 && r != SC2R
    ensures var o, first, second := Run(FusedPushWords(p, r), s), Add64(s.sp, -8), Add64(s.sp, -16);
      o.Next? && o.s == s.(x := s.x[SC2R := second], sp := second, pc := o.s.pc,
                           mem := StoreWord(StoreWord(s.mem, first, 8, s.x[p]), second, 8, s.x[r]))
  {
    hide Bits.Or, Step, RdRn, Pair, SubSigned, StoreWord;
    var a, b, c := SubSigned(SC2R, 31, 16), Pair(STP, p, SC2R, r), RdRn(SF + ADD_IMM, 31, SC2R);
    StepAdd(SC2R, 31, 16, s);
    var t := Step(a, s).s;
    StepStp(p, SC2R, r, t);
    StepMove(31, SC2R, Step(b, t).s);
    RunThree(a, b, c, s);
    PairOrder(s.mem, s.sp, s.x[p], s.x[r]);
  }

  /** Storing a pair upwards and pushing its two halves downwards give the same memory. */
  lemma PairOrder(m: Mem, sp: u64, v: u64, w: u64)
    ensures var first, second := Add64(sp, -8), Add64(sp, -16);
      StoreWord(StoreWord(m, second, 8, w), Add64(second, 8), 8, v) ==
      StoreWord(StoreWord(m, first, 8, v), second, 8, w)
  {
    var first, second := Add64(sp, -8), Add64(sp, -16);
    assert Add64(second, 8) == first;
    WritesCommute(m, second, LittleEndian(w, 8), first, LittleEndian(v, 8));
  }

  lemma RunPop(r: nat, s: State)
    requires r < 31 && r != SC2R
    ensures var o := Run(PopWords(r), s);
      o.Next? && o.s == s.(x := s.x[SC2R := s.sp][r := LoadWord(s.mem, s.sp, 8)], sp := Add64(s.sp, 8), pc := o.s.pc)
  {
    hide Bits.Or, Step, RdRn, AddSigned, LoadWord;
    var a, b, c := RdRn(SF + ADD_IMM, SC2R, 31), RdRn(MFT + LDR32_REG, r, SC2R), AddSigned(31, SC2R, 8);
    StepMove(SC2R, 31, s);
    var t := Step(a, s).s;
    StepLoad(true, r, SC2R, t);
    StepAdd(31, SC2R, 8, Step(b, t).s);
    RunThree(a, b, c, s);
  }

  lemma RunFusedPop(p: nat, r: nat, s: State)
    requires p < 31 && p != SC2R && r < 31 && r != SC2R
    ensures var o := Run(FusedPopWords(p, r), s);
      if p == r then o.Fault?
      else o.Next? &&
           o.s == s.(x := s.x[SC2R := s.sp][p := LoadWord(s.mem, s.sp, 8)][r := LoadWord(s.mem, Add64(s.sp, 8), 8)],
                                sp := Add64(s.sp, 16), pc := o.s.pc)
  {
    hide Bits.Or, Step, RdRn, Pair, AddSigned, LoadWord;
    var a, b, c := RdRn(SF + ADD_IMM, SC2R, 31), Pair(LDP, r, SC2R, p), AddSigned(31, SC2R, 16);
    StepMove(SC2R, 31, s);
    var t := Step(a, s).s;
    StepLdp(r, SC2R, p, t);
    if p != r { StepAdd(31, SC2R, 16, Step(b, t).s); }
    RunThree(a, b, c, s);
  }

  // ---------------------------------------------------------------- groups against instructions

  /** The operand is in its register, and nothing but SC1 has changed. */
  lemma RunSetup(op: StackOp, s: State)
    requires Plain(op) && !op.Pop?
    ensures var o, v := Run(SetupWords(op), s), Operand(op, View(s));
      o.Next? && o.s == s.(x := if UsesScratch(op) then s.x[SC1R := v] else s.x, pc := o.s.pc)
      && OperandReg(op) < 31 && OperandReg(op) != SC2R && o.s.x[OperandReg(op)] == v
  {
    hide Bits.Or, Step, RdRn, ImmWords;
    if op.PushImm? {
      ImmWordsLoad(op.imm, SC1R, s);
    } else {
      ViewReads(s, op.r);
      GuestRegistersApart(op.r, op.r);
      if op.r == RSP {
        StepMove(SC1R, 31, s);
        RunOne(RdRn(SF + ADD_IMM, SC1R, 31), s);
      }
    }
  }

  lemma ViewOf(s: State, t: State, r: nat, v: u64)
    requires (r == SC1R || r == SC2R) && t == s.(x := s.x[r := v], pc := t.pc)
    ensures View(t) == View(s)
  {
    ViewIgnoresScratch(s, r, v);
    ViewIgnoresPc(SetX(s, r, v), t.pc);
  }

  /** Changing SP, memory and scratch registers only. */
  lemma ViewMoves(s: State, t: State, v: u64, sp: u64, m: Mem)
    requires t == s.(x := s.x[SC2R := v], sp := sp, mem := m, pc := t.pc)
    ensures View(t) == SetReg(View(s), RSP, sp).(mem := m)
  {
    forall i: nat | i < 16 ensures View(t).r[i] == SetReg(View(s), RSP, sp).r[i] {
      GuestRegistersApart(i, RSP);
    }
  }

  lemma PushAgrees(op: StackOp, r: nat, s: State)
    requires Plain(op) && !op.Pop? && r < 31 && r != SC2R && s.x[r] == Operand(op, View(s))
    ensures var o := Run(PushWords(r), s); o.Next? && View(o.s) == StackStep(op, View(s))
  {
    hide PushWords, StoreWord, Run, Bits.Or;
    RunPush(r, s);
    var top := Add64(s.sp, -8);
    ViewReads(s, RSP);
    ViewMoves(s, Run(PushWords(r), s).s, top, top, StoreWord(s.mem, top, 8, s.x[r]));
  }

  lemma PushPairAgrees(a: StackOp, b: StackOp, p: nat, r: nat, s: State)
    requires Plain(a) && !a.Pop? && Plain(b) && !b.Pop? && b != Push(RSP)
    requires p < 31 && p != SC2R && r < 31 && r != SC2R
    requires s.x[p] == Operand(a, View(s)) && s.x[r] == Operand(b, View(s))
    ensures var o := Run(FusedPushWords(p, r), s); o.Next? && View(o.s) == StackStep(b, StackStep(a, View(s)))
  {
    hide FusedPushWords, StoreWord, Run, StackStep, Bits.Or;
    RunFusedPush(p, r, s);
    var first, second := Add64(s.sp, -8), Add64(s.sp, -16);
    ViewReads(s, RSP);
    var m := StoreWord(StoreWord(s.mem, first, 8, s.x[p]), second, 8, s.x[r]);
    ViewMoves(s, Run(FusedPushWords(p, r), s).s, second, second, m);
    TwoPushes(a, b, View(s));
    hide View;
    ViewMemory(s);
  }

  lemma ViewMemory(s: State)
    ensures View(s).mem == s.mem
  {}

  /** Two pushes at once. */
  lemma TwoPushes(a: StackOp, b: StackOp, g: Guest)
    requires Plain(a) && !a.Pop? && Plain(b) && !b.Pop? && b != Push(RSP)
    ensures var first, second := Add64(g.r[RSP], -8), Add64(g.r[RSP], -16);
      StackStep(b, StackStep(a, g))
      == SetReg(g, RSP, second).(mem := StoreWord(StoreWord(g.mem, first, 8, Operand(a, g)), second, 8, Operand(b, g)))
  {
    hide StoreWord;
    var first, second := Add64(g.r[RSP], -8), Add64(g.r[RSP], -16);
    assert Add64(first, -8) == second;
    assert Operand(b, StackStep(a, g)) == Operand(b, g);
    assert SetReg(SetReg(g, RSP, first), RSP, second) == SetReg(g, RSP, second);
  }

  /** Loads into guest registers with SP raised. */
  lemma ViewPops(s: State, t: State, op: StackOp, v: u64, sp: u64)
    requires Plain(op) && op.Pop?
    requires t == s.(x := s.x[SC2R := s.sp][X64Reg(op.r) := v], sp := sp, pc := t.pc)
    ensures View(t) == SetReg(SetReg(View(s), RSP, sp), op.r, v)
  {
    forall i: nat | i < 16 ensures View(t).r[i] == SetReg(SetReg(View(s), RSP, sp), op.r, v).r[i] {
      GuestRegistersApart(i, RSP);
      GuestRegistersApart(i, op.r);
    }
  }

  lemma PopAgrees(op: StackOp, s: State)
    requires Plain(op) && op.Pop?
    ensures var o := Run(PopWords(X64Reg(op.r)), s); o.Next? && View(o.s) == StackStep(op, View(s))
  {
    hide PopWords, LoadWord, Run, Bits.Or;
    GuestRegistersApart(op.r, op.r);
    RunPop(X64Reg(op.r), s);
    ViewReads(s, RSP);
    ViewPops(s, Run(PopWords(X64Reg(op.r)), s).s, op, LoadWord(s.mem, s.sp, 8), Add64(s.sp, 8));
  }

  lemma PopPairAgrees(a: StackOp, b: StackOp, s: State)
    requires Plain(a) && a.Pop? && Plain(b) && b.Pop? && a != b
    ensures var o := Run(FusedPopWords(X64Reg(a.r), X64Reg(b.r)), s);
      o.Next? && View(o.s) == StackStep(b, StackStep(a, View(s)))
  {
    hide FusedPopWords, LoadWord, Run, Bits.Or;
    GuestRegistersApart(a.r, a.r);
    GuestRegistersApart(b.r, a.r);
    GuestRegistersApart(b.r, b.r);
    RunFusedPop(X64Reg(a.r), X64Reg(b.r), s);
    ViewReads(s, RSP);
    var v, w := LoadWord(s.mem, s.sp, 8), LoadWord(s.mem, Add64(s.sp, 8), 8);
    var t := Run(FusedPopWords(X64Reg(a.r), X64Reg(b.r)), s).s;
    assert Add64(Add64(s.sp, 8), 8) == Add64(s.sp, 16);
    ViewPopsTwo(s, t, a, b, v, w, Add64(s.sp, 8), Add64(s.sp, 16));
  }

  lemma ViewPopsTwo(s: State, t: State, a: StackOp, b: StackOp, v: u64, w: u64, mid: u64, sp: u64)
    requires Plain(a) && a.Pop? && Plain(b) && b.Pop? && a != b
    requires t == s.(x := s.x[SC2R := s.sp][X64Reg(a.r) := v][X64Reg(b.r) := w], sp := sp, pc := t.pc)
    ensures View(t) == SetReg(SetReg(SetReg(SetReg(View(s), RSP, mid), a.r, v), RSP, sp), b.r, w)
  {
    var g := SetReg(SetReg(SetReg(SetReg(View(s), RSP, mid), a.r, v), RSP, sp), b.r, w);
    forall i: nat | i < 16 ensures View(t).r[i] == g.r[i] {
      GuestRegistersApart(i, RSP);
      GuestRegistersApart(i, a.r);
      GuestRegistersApart(i, b.r);
    }
  }

  // ---------------------------------------------------------------- whole sequences

  function Kind(op: StackOp): Previous {
    if op.Pop? then PopPrevious else PushPrevious
  }

  /** The three words of one unfused operation. */
  function Single(op: StackOp): (ws: seq<nat>)
    requires ValidOp(op)
    ensures |ws| == 3
  {
    if op.Pop? then PopWords(OperandReg(op)) else PushWords(OperandReg(op))
  }

  /** The peephole invariant.  When the encoder remembers a previous operation, the last three
      words are that operation alone, and before them its operand is still in its register. */
  ghost predicate Tracks(ops: seq<StackOp>, p: Peephole, s: State)
    requires AllValid(ops)
  {
    Agrees(p.words, ops, s) &&
    (p.previous.NoPrevious? <==> (ops == [] || Fuses(ops))) &&
    (!p.previous.NoPrevious? ==>
      var op, before := ops[|ops| - 1], ops[..|ops| - 1];
      var o := Run(Rewind(p.words), s);
      p.previous == Kind(op) && p.register == OperandReg(op) &&
      |p.words| >= 3 && p.words == Rewind(p.words) + Single(op) &&
      o.Next? && View(o.s) == StackRun(before, View(s)) &&
      (!op.Pop? ==> X(o.s, p.register) == Operand(op, View(o.s))))
  }

  lemma Appended(ops: seq<StackOp>, op: StackOp)
    ensures (ops + [op])[..|ops|] == ops && (ops + [op])[|ops|] == op
  {}

  lemma RewindGroup(ws: seq<nat>, g: seq<nat>)
    requires |g| == 3
    ensures Rewind(ws + g) == ws && |ws + g| >= 3
  {}

  lemma TracksSingle(ops: seq<StackOp>, op: StackOp, ws: seq<nat>, t: State, s: State)
    requires AllPlain(ops) && Plain(op) && !Fuses(ops + [op])
    requires Run(ws, s) == Next(t) && View(t) == StackRun(ops, View(s))
    requires !op.Pop? ==> X(t, OperandReg(op)) == Operand(op, View(t))
    requires var o := Run(Single(op), t); o.Next? && View(o.s) == StackStep(op, View(t))
    ensures Tracks(ops + [op], Peephole(ws + Single(op), Kind(op), OperandReg(op)), s)
  {
    hide PushWords, PopWords, StackStep, Run, Operand, Fuses;
    Appended(ops, op);
    RunConcat(ws, Single(op), s);
    RewindGroup(ws, Single(op));
    assert StackRun(ops + [op], View(s)) == StackStep(op, StackRun(ops, View(s)));
  }

  /** An operation that does not fuse appends its own group. */
  lemma TracksUnfusedPop(ops: seq<StackOp>, op: StackOp, p: Peephole, s: State)
    requires AllPlain(ops) && Plain(op) && op.Pop? && Tracks(ops, p, s) && p.previous != Kind(op)
    ensures Tracks(ops + [op], EncodeOp(p, op), s)
  {
    hide PushWords, PopWords, StackStep, Run, StackRun;
    NotFused(ops, op, p, s);
    assert p.words + SetupWords(op) == p.words;
    PopAgrees(op, Run(p.words, s).s);
    TracksSingle(ops, op, p.words, Run(p.words, s).s, s);
  }

  lemma TracksUnfusedPush(ops: seq<StackOp>, op: StackOp, p: Peephole, s: State)
    requires AllPlain(ops) && Plain(op) && !op.Pop? && Tracks(ops, p, s) && p.previous != Kind(op)
    ensures Tracks(ops + [op], EncodeOp(p, op), s)
  {
    hide PushWords, PopWords, StackStep, Run, StackRun, SetupWords;
    NotFused(ops, op, p, s);
    var u := Run(p.words, s).s;
    var t := SetupState(op, u);
    RunConcat(p.words, SetupWords(op), s);
    PushAgrees(op, OperandReg(op), t);
    TracksSingle(ops, op, p.words + SetupWords(op), t, s);
  }

  lemma NotFused(ops: seq<StackOp>, op: StackOp, p: Peephole, s: State)
    requires AllPlain(ops) && Plain(op) && Tracks(ops, p, s) && p.previous != Kind(op)
    ensures !Fuses(ops + [op])
  {
    hide Run, StackRun;
    Appended(ops, op);
  }

  /** RunSetup with the guest's view of it. */
  lemma SetupState(op: StackOp, s: State) returns (t: State)
    requires Plain(op) && !op.Pop?
    ensures Run(SetupWords(op), s) == Next(t) && View(t) == View(s)
    ensures OperandReg(op) < 31 && OperandReg(op) != SC2R && t.x[OperandReg(op)] == Operand(op, View(s))
    ensures t.x == if UsesScratch(op) then s.x[SC1R := Operand(op, View(s))] else s.x
  {
    hide Run, SetupWords;
    RunSetup(op, s);
    t := Run(SetupWords(op), s).s;
    if UsesScratch(op) { ViewOf(s, t, SC1R, Operand(op, View(s))); } else { ViewIgnoresPc(s, t.pc); }
  }

  lemma TwoSteps(ops: seq<StackOp>, op: StackOp, g: Guest)
    requires AllPlain(ops) && Plain(op) && ops != []
    ensures StackRun(ops + [op], g)
         == StackStep(op, StackStep(ops[|ops| - 1], StackRun(ops[..|ops| - 1], g)))
  {
    hide StackStep;
    Appended(ops, op);
  }

  /** A fused operation replaces the previous group by one for the pair. */
  lemma TracksFusedPop(ops: seq<StackOp>, op: StackOp, p: Peephole, s: State)
    requires AllPlain(ops) && Plain(op) && op.Pop? && Tracks(ops, p, s) && p.previous.PopPrevious?
    requires MayFuse(ops[|ops| - 1], op)
    ensures Tracks(ops + [op], EncodeOp(p, op), s)
  {
    hide PushWords, PopWords, FusedPopWords, StackStep, Run, StackRun;
    var a, t := ops[|ops| - 1], Run(Rewind(p.words), s).s;
    Appended(ops, op);
    assert p.words + SetupWords(op) == p.words;
    PopPairAgrees(a, op, t);
    TwoSteps(ops, op, View(s));
    RunConcat(Rewind(p.words), FusedPopWords(p.register, OperandReg(op)), s);
  }

  lemma TracksFusedPush(ops: seq<StackOp>, op: StackOp, p: Peephole, s: State)
    requires AllPlain(ops) && Plain(op) && !op.Pop? && Tracks(ops, p, s) && p.previous.PushPrevious?
    requires MayFuse(ops[|ops| - 1], op)
    ensures Tracks(ops + [op], EncodeOp(p, op), s)
  {
    hide PushWords, PopWords, FusedPushWords, StackStep, Run, StackRun, SetupWords;
    var a, u := ops[|ops| - 1], Run(Rewind(p.words), s).s;
    Appended(ops, op);
    var t := SetupState(op, u);
    OperandRegLow(a);
    assert t.x[p.register] == Operand(a, View(t));
    PushPairAgrees(a, op, p.register, OperandReg(op), t);
    TwoSteps(ops, op, View(s));
    RunParts(Rewind(p.words), SetupWords(op), FusedPushWords(p.register, OperandReg(op)), s, u, t);
  }

  lemma RunParts(a: seq<nat>, b: seq<nat>, c: seq<nat>, s: State, t: State, u: State)
    requires Run(a, s) == Next(t) && Run(b, t) == Next(u)
    ensures Run(a + b + c, s) == Run(c, u)
  {
    hide Run;
    RunConcat(a, b, s);
    RunConcat(a + b, c, s);
  }

  lemma OperandRegLow(op: StackOp)
    requires Plain(op)
    ensures OperandReg(op) < 31 && OperandReg(op) != SC2R && (OperandReg(op) == SC1R <==> UsesScratch(op))
  {
    if !op.PushImm? { GuestRegistersApart(op.r, op.r); }
  }

  lemma {:induction false} TranslationTracks(ops: seq<StackOp>, s: State)
    requires AllPlain(ops) && Admissible(ops)
    ensures Tracks(ops, Translate(ops), s)
  {
    hide PushWords, PopWords, StackStep, Run, StackRun, EncodeOp;
    if ops == [] {
      EmptyTracks(s);
    } else {
      var before, op := ops[..|ops| - 1], ops[|ops| - 1];
      assert ops == before + [op];
      TranslationTracks(before, s);
      var p := Translate(before);
      if p.previous != Kind(op) {
        if op.Pop? { TracksUnfusedPop(before, op, p, s); } else { TracksUnfusedPush(before, op, p, s); }
      } else {
        if op.Pop? { TracksFusedPop(before, op, p, s); } else { TracksFusedPush(before, op, p, s); }
      }
    }
  }

  lemma EmptyTracks(s: State)
    ensures Tracks([], START, s)
  {}

  // ---------------------------------------------------------------- and only then

  /** Net number of eightbytes the operations add to RSP. */
  function Net(ops: seq<StackOp>): int {
    if ops == [] then 0 else Net(ops[..|ops| - 1]) + if ops[|ops| - 1].Pop? then 1 else -1
  }

  lemma {:induction false} StackPointerAfter(ops: seq<StackOp>, g: Guest)
    requires AllPlain(ops)
    ensures StackRun(ops, g).r[RSP] == U64(g.r[RSP] + 8 * Net(ops))
  {
    if ops != [] {
      hide StackRun;
      var before, op := ops[..|ops| - 1], ops[|ops| - 1];
      StackPointerAfter(before, g);
      StackPointerStep(op, StackRun(before, g));
      AddToWrapped(g.r[RSP] + 8 * Net(before), if op.Pop? then 8 else -8);
      StackRunLast(ops, g);
    } else {
      StackRunEmpty(g);
    }
  }

  lemma StackRunLast(ops: seq<StackOp>, g: Guest)
    requires AllPlain(ops) && ops != []
    ensures StackRun(ops, g) == StackStep(ops[|ops| - 1], StackRun(ops[..|ops| - 1], g))
  {
    hide StackStep;
  }

  lemma StackRunEmpty(g: Guest)
    ensures StackRun([], g) == g
  {}

  lemma StackPointerStep(op: StackOp, g: Guest)
    requires Plain(op)
    ensures StackStep(op, g).r[RSP] == Add64(g.r[RSP], if op.Pop? then 8 else -8)
  {
    hide StoreWord, LoadWord;
  }

  lemma AddToWrapped(x: int, d: int)
    ensures Add64(U64(x), d) == U64(x + d)
  {}

  lemma FusedPushMemory(p: nat, r: nat, t: State)
    requires p < 31 && p != SC2R && r < 31 && r != SC2R
    ensures var o := Run(FusedPushWords(p, r), t);
      o.Next? && LoadWord(o.s.mem, Add64(t.sp, -8), 8) == t.x[p] && LoadWord(o.s.mem, Add64(t.sp, -16), 8) == t.x[r]
  {
    hide FusedPushWords, Run, StoreWord, LoadWord;
    RunFusedPush(p, r, t);
    TwoStores(t.mem, Add64(t.sp, -8), t.x[p], Add64(t.sp, -16), t.x[r]);
  }

  lemma TwoStores(m: Mem, a: int, v: u64, b: int, w: u64)
    requires a + 8 <= b || b + 8 <= a
    ensures var n := StoreWord(StoreWord(m, a, 8, v), b, 8, w); LoadWord(n, a, 8) == v && LoadWord(n, b, 8) == w
  {
    hide StoreWord, LoadWord;
    LoadStored(m, a, v);
    LoadElsewhere(StoreWord(m, a, 8, v), b, w, a);
    LoadStored(StoreWord(m, a, 8, v), b, w);
  }

  lemma TwoPushesMemory(a: StackOp, b: StackOp, g: Guest)
    requires Plain(a) && !a.Pop? && Plain(b) && !b.Pop?
    ensures var h, sp := StackStep(b, StackStep(a, g)), g.r[RSP];
      LoadWord(h.mem, Add64(sp, -8), 8) == Operand(a, g) &&
      LoadWord(h.mem, Add64(sp, -16), 8) == Operand(b, StackStep(a, g))
  {
    hide StoreWord, LoadWord;
    var sp := g.r[RSP];
    assert Add64(Add64(sp, -8), -8) == Add64(sp, -16);
    TwoStores(g.mem, Add64(sp, -8), Operand(a, g), Add64(sp, -16), Operand(b, StackStep(a, g)));
  }

  lemma {:induction false} TwinPopsFail(ops: seq<StackOp>, op: StackOp, s: State)
    requires AllPlain(ops) && Plain(op) && Admissible(ops) && Fuses(ops + [op])
    requires op.Pop? && ops != [] && ops[|ops| - 1] == op
    ensures !Agrees(Translate(ops + [op]).words, ops + [op], s)
  {
    hide PushWords, PopWords, FusedPopWords, StackStep, Run, StackRun;
    var p := Translate(ops);
    TranslationTracks(ops, s);
    Appended(ops, op);
    assert p.words + SetupWords(op) == p.words;
    OperandRegLow(op);
    RunFusedPop(p.register, OperandReg(op), Run(Rewind(p.words), s).s);
    RunConcat(Rewind(p.words), FusedPopWords(p.register, OperandReg(op)), s);
  }

  /** What a fused pair of pushes leaves in memory. */
  lemma PushPairOutcome(ops: seq<StackOp>, op: StackOp, s: State) returns (t: State)
    requires AllPlain(ops) && Plain(op) && Admissible(ops) && Fuses(ops + [op]) && !op.Pop? && ops != []
    ensures View(t) == StackRun(ops[..|ops| - 1], View(s))
    ensures var a, o := ops[|ops| - 1], Run(Translate(ops + [op]).words, s);
      o.Next? &&
      LoadWord(o.s.mem, Add64(t.sp, -8), 8) ==
      (if UsesScratch(a) && UsesScratch(op) then Operand(op, View(t)) else Operand(a, View(t))) &&
      LoadWord(o.s.mem, Add64(t.sp, -16), 8) == Operand(op, View(t))
  {
    hide PushWords, PopWords, FusedPushWords, StackStep, Run, StackRun, SetupWords, LoadWord, View, Rewind, OperandReg,
      Operand, Admissible;
    var p, a := Translate(ops), ops[|ops| - 1];
    TranslationTracks(ops, s);
    Appended(ops, op);
    var u := Run(Rewind(p.words), s).s;
    t := SetupState(op, u);
    OperandRegLow(a);
    FusedPushMemory(p.register, OperandReg(op), t);
    RunParts(Rewind(p.words), SetupWords(op), FusedPushWords(p.register, OperandReg(op)), s, u, t);
  }

  lemma PushRspSecondFails(ops: seq<StackOp>, s: State)
    requires AllPlain(ops) && Admissible(ops) && Fuses(ops + [Push(RSP)]) && ops != []
    ensures !Agrees(Translate(ops + [Push(RSP)]).words, ops + [Push(RSP)], s)
  {
    hide StackStep, Run, StackRun, LoadWord, StoreWord, Translate, Fuses;
    var a, op := ops[|ops| - 1], Push(RSP);
    KindOfFused(ops, op);
    var t := PushPairOutcome(ops, op, s);
    TwoPushesMemory(a, op, View(t));
    TwoSteps(ops, op, View(s));
    StackPointerStep(a, View(t));
    ViewReads(t, RSP);
  }

  lemma PointerReaches(ops: seq<StackOp>, imm: i64, s: State, t: State)
    requires AllPlain(ops) && View(t) == StackRun(ops, View(s)) && s.sp == U64(imm + 1 - 8 * Net(ops))
    ensures t.sp != U64(imm)
  {
    hide StackRun, Net;
    ViewReads(t, RSP);
    ViewReads(s, RSP);
    StackPointerAfter(ops, View(s));
    AddToWrapped(imm + 1 - 8 * Net(ops), 8 * Net(ops));
    assert t.sp == U64(imm + 1);
  }

  lemma DistinctConstants(i: i64, j: i64)
    requires U64(i) == U64(j)
    ensures i == j
  {}

  /** A constant pushed second overwrites a different first operand held in SC1. */
  lemma ScratchClashFails(ops: seq<StackOp>, imm: i64, s: State)
    requires AllPlain(ops) && Admissible(ops) && Fuses(ops + [PushImm(imm)]) && ops != []
    requires var a := ops[|ops| - 1]; UsesScratch(a) && a != PushImm(imm)
    requires s.sp == U64(imm + 1 - 8 * Net(ops[..|ops| - 1]))
    ensures !Agrees(Translate(ops + [PushImm(imm)]).words, ops + [PushImm(imm)], s)
  {
    hide StackStep, Run, StackRun, LoadWord, StoreWord, Translate, Fuses, Net, U64, Admissible, View, Step;
    var before, a, op := ops[..|ops| - 1], ops[|ops| - 1], PushImm(imm);
    KindOfFused(ops, op);
    hide Plain;
    var t := PushPairOutcome(ops, op, s);
    TwoPushesMemory(a, op, View(t));
    TwoSteps(ops, op, View(s));
    PointerReaches(before, imm, s, t);
    OperandsDiffer(a, imm, t);
    hide Operand, UsesScratch, AllPlain;
    OperandOfImm(imm, View(t), StackStep(a, View(t)));
    ViewMemory(Run(Translate(ops + [op]).words, s).s);
    ViewReads(t, RSP);
  }

  lemma OperandOfImm(imm: i64, g: Guest, h: Guest)
    ensures Operand(PushImm(imm), g) == Operand(PushImm(imm), h)
  {}

  lemma OperandsDiffer(a: StackOp, imm: i64, t: State)
    requires ValidOp(a) && !a.Pop? && UsesScratch(a) && a != PushImm(imm) && t.sp != U64(imm)
    ensures Operand(PushImm(imm), View(t)) != Operand(a, View(t))
  {
    ViewReads(t, RSP);
    if a.PushImm? && U64(a.imm) == U64(imm) { DistinctConstants(a.imm, imm); }
  }

  /** A pair that may not be fused goes wrong from some state. */
  lemma BadPairFails(ops: seq<StackOp>, op: StackOp)
    requires AllPlain(ops) && Plain(op) && Admissible(ops) && Fuses(ops + [op])
    requires ops != [] && !MayFuse(ops[|ops| - 1], op)
    ensures !Faithful(ops + [op])
  {
    hide Agrees, Translate, Fuses, Net;
    KindOfFused(ops, op);
    var s := AnyState(if op.PushImm? then U64(op.imm + 1 - 8 * Net(ops[..|ops| - 1])) else 0);
    if op.Pop? {
      TwinPopsFail(ops, op, s);
    } else if op.PushImm? {
      ScratchClashFails(ops, op.imm, s);
    } else {
      PushRspSecondFails(ops, s);
    }
    assert !Agrees(Translate(ops + [op]).words, ops + [op], s);
  }

  lemma KindOfFused(ops: seq<StackOp>, op: StackOp)
    requires ops != [] && Fuses(ops + [op])
    ensures SameKind(ops[|ops| - 1], op)
  {
    Appended(ops, op);
  }

  ghost function AnyState(sp: u64): State {
    State(seq(31, _ => 0), sp, Flags(false, false, false, false), BLANK, 0)
  }

  lemma {:induction false} PrefixAdmissible(ops: seq<StackOp>, n: nat)
    requires n <= |ops| && Admissible(ops)
    ensures Admissible(ops[..n])
  {
    if n < |ops| {
      PrefixAdmissible(ops[..|ops| - 1], n);
      assert ops[..|ops| - 1][..n] == ops[..n];
    } else {
      assert ops[..n] == ops;
    }
  }

  /** The translation of PUSH and POP sequences is right at every point, from every state,
      exactly when each fused pair may be fused. */
  lemma {:induction false} FusionExact(ops: seq<StackOp>)
    requires AllPlain(ops)
    ensures Admissible(ops) <==> forall n :: 0 <= n <= |ops| ==> Faithful(ops[..n])
  {
    hide Agrees, Translate;
    if Admissible(ops) {
      forall n | 0 <= n <= |ops| ensures Faithful(ops[..n]) {
        PrefixAdmissible(ops, n);
        forall s ensures Agrees(Translate(ops[..n]).words, ops[..n], s) { TranslationTracks(ops[..n], s); }
      }
    } else if forall n :: 0 <= n <= |ops| ==> Faithful(ops[..n]) {
      var before := ops[..|ops| - 1];
      forall n | 0 <= n <= |before| ensures Faithful(before[..n]) {
        assert before[..n] == ops[..n];
      }
      FusionExact(before);
      assert ops == before + [ops[|ops| - 1]] && ops[..|ops|] == ops;
      BadPairFails(before, ops[|ops| - 1]);
    }
  }

  // ---------------------------------------------------------------- the words around

  /** Whatever stood in the buffer before stays in front of the translation: rewinds stay inside it. */
  lemma {:induction false} TranslateKeepsPrefix(before: seq<nat>, p: Peephole, op: StackOp)
    requires Plain(op) && (!p.previous.NoPrevious? ==> |p.words| >= 3)
    ensures EncodeOp(p.(words := before + p.words), op) == EncodeOp(p, op).(words := before + EncodeOp(p, op).words)
    ensures !EncodeOp(p, op).previous.NoPrevious? ==> |EncodeOp(p, op).words| >= 3
  {
    hide PushWords, PopWords, FusedPushWords, FusedPopWords, SetupWords, OperandReg, Rewind;
    var vs := SetupWords(op);
    if op.Pop? {
      assert vs == [] by { PopSetup(op); }
      assert before + p.words + vs == before + p.words && p.words + vs == p.words;
    } else {
      var ws := if p.previous.PushPrevious? then Rewind(p.words) else p.words;
      assert (before + ws) + vs == before + (ws + vs);
    }
    if !p.previous.NoPrevious? { RewindBehind(before, p.words); }
    GroupLengths(op, p.register);
  }

  lemma RewindBehind(before: seq<nat>, ws: seq<nat>)
    requires |ws| >= 3
    ensures Rewind(before + ws) == before + Rewind(ws)
  {}

  lemma GroupLengths(op: StackOp, r: nat)
    requires Plain(op)
    ensures |PushWords(OperandReg(op))| == 3 && |PopWords(OperandReg(op))| == 3
  {}

  lemma PopSetup(op: StackOp)
    requires Plain(op) && op.Pop?
    ensures SetupWords(op) == []
  {}

  lemma TranslateLast(ops: seq<StackOp>, op: StackOp)
    requires AllValid(ops) && ValidOp(op)
    ensures Translate(ops + [op]) == EncodeOp(Translate(ops), op)
  {
    hide EncodeOp;
    Appended(ops, op);
  }

  /** POP RSP on its own loads into a scratch register and moves SP by eight regardless. */
  lemma PopRspAlone(s: State)
    ensures var o := Run([RdRn(SF + ADD_IMM, SC1R, 31)] + PopWords(SC1R), s);
      o.Next? && (View(o.s) == StackStep(Pop(RSP), View(s)) <==> LoadWord(s.mem, s.sp, 8) == Add64(s.sp, 8))
  {
    hide Bits.Or, Step, Run, RdRn, PopWords, LoadWord;
    var w := RdRn(SF + ADD_IMM, SC1R, 31);
    StepMove(SC1R, 31, s);
    var t := Step(w, s).s;
    RunPop(SC1R, t);
    RunCons(w, PopWords(SC1R), s);
    var u := Run(PopWords(SC1R), t).s;
    PopRspViews(s, u, t.x, LoadWord(s.mem, s.sp, 8));
  }

  lemma PopRspViews(s: State, u: State, x: Regs, v: u64)
    requires x == s.x[SC1R := s.sp] && v == LoadWord(s.mem, s.sp, 8)
    requires u == s.(x := x[SC2R := s.sp][SC1R := v], sp := Add64(s.sp, 8), pc := u.pc)
    ensures View(u) == StackStep(Pop(RSP), View(s)) <==> v == Add64(s.sp, 8)
  {
    hide LoadWord;
    ViewReads(s, RSP);
    forall i: nat | i < 16
      ensures View(u).r[i] == SetReg(View(s), RSP, Add64(s.sp, 8)).r[i]
    {
      GuestRegistersApart(i, RSP);
    }
    var g := StackStep(Pop(RSP), View(s));
    assert g.r[RSP] == v && View(u).r[RSP] == Add64(s.sp, 8);
    assert g == SetReg(View(s), RSP, v);
  }
}

/** What the peephole of src/encoder.c does when prev_instruction outlives its three words: POP RBP, PUSH RBP
    and the 8-bit instructions emit code without clearing it, and POP RSP emits a word before it looks. */
module Leftovers {
  import opened Bits
  import opened Memory
  import opened Arm64
  import opened Emitter
  import opened Immediates
  import opened Steps
  import opened X86
  import opened PushPop

  /** The last operation is a push that the next push would be fused with. */
  predicate OpenPush(ops: seq<StackOp>) {
    ops != [] && !ops[|ops| - 1].Pop? && !Fuses(ops)
  }

  predicate OpenPop(ops: seq<StackOp>) {
    ops != [] && ops[|ops| - 1].Pop? && !Fuses(ops)
  }

  /** What TranslationTracks says about an open operation. */
  lemma Opened(ops: seq<StackOp>, s: State)
    requires AllPlain(ops) && Admissible(ops)
    ensures var p := Translate(ops);
      (p.previous.PushPrevious? <==> OpenPush(ops)) && (p.previous.PopPrevious? <==> OpenPop(ops)) &&
      Agrees(p.words, ops, s) &&
      (OpenPush(ops) || OpenPop(ops) ==>
        var a, o := ops[|ops| - 1], Run(Rewind(p.words), s);
        p.register == OperandReg(a) && p.words == Rewind(p.words) + Single(a) &&
        o.Next? && View(o.s) == StackRun(ops[..|ops| - 1], View(s)) &&
        (!a.Pop? ==> X(o.s, p.register) == Operand(a, View(o.s))))
  {
    hide Run, StackRun, Translate, Fuses, View, Single, Rewind, Agrees, OperandReg, Operand, X;
    TranslationTracks(ops, s);
  }

  // ---------------------------------------------------------------- PUSH RBP

  /** The code in front of the frame word is right for the operations before it, from every state, exactly
      when the last of them is not an open push; that one is erased. */
  lemma PushFrameExact(ops: seq<StackOp>)
    requires AllPlain(ops) && Admissible(ops)
    ensures var ws := Translate(ops + [Push(RBP)]).words;
      ws != [] && ws[|ws| - 1] == PushFrame() && var front := ws[..|ws| - 1];
      ((forall s :: Agrees(front, ops, s)) <==> !OpenPush(ops)) &&
      (OpenPush(ops) ==> forall s :: !Agrees(front, ops, s) && Agrees(front, ops[..|ops| - 1], s))
  {
    hide Agrees, PushFrame, Translate, Fuses, Front;
    var front := Front(ops);
    var ws := Translate(ops + [Push(RBP)]).words;
    FrameWords(ops);
    assert ws[..|ws| - 1] == front;
    forall s ensures Agrees(front, ops, s) <==> !OpenPush(ops) { FrontAgrees(ops, s); }
    if OpenPush(ops) {
      var before := ops[..|ops| - 1];
      forall s ensures Agrees(front, before, s) { FrontAgrees(ops, s); }
      var one := AnyState(0);
      assert !Agrees(front, ops, one);
    }
  }

  /** What a PUSH leaves standing before it emits. */
  function Front(ops: seq<StackOp>): seq<nat>
    requires AllPlain(ops)
  {
    var p := Translate(ops);
    if p.previous.PushPrevious? then Rewind(p.words) else p.words
  }

  lemma FrameWords(ops: seq<StackOp>)
    requires AllPlain(ops)
    ensures AllValid(ops + [Push(RBP)]) && Translate(ops + [Push(RBP)]).words == Front(ops) + [PushFrame()]
  {
    hide PushFrame, Translate;
    TranslateLast(ops, Push(RBP));
  }

  lemma FrontAgrees(ops: seq<StackOp>, s: State)
    requires AllPlain(ops) && Admissible(ops)
    ensures (Agrees(Front(ops), ops, s) <==> !OpenPush(ops)) &&
      (OpenPush(ops) ==> Agrees(Front(ops), ops[..|ops| - 1], s))
  {
    hide Run, StackRun, Translate, View, Rewind, Single, OpenPush, OpenPop;
    Opened(ops, s);
    if OpenPush(ops) { LastPushCounts(ops, View(s)); }
  }

  lemma LastPushCounts(ops: seq<StackOp>, g: Guest)
    requires AllPlain(ops) && OpenPush(ops)
    ensures ops != [] && StackRun(ops, g) != StackRun(ops[..|ops| - 1], g)
  {
    hide StackStep, StackRun, Fuses;
    StackRunLast(ops, g);
    StackPointerStep(ops[|ops| - 1], StackRun(ops[..|ops| - 1], g));
  }

  /** The next PUSH still counts as second of a pair: it takes back the frame word and two words from
      in front of the erased push, whatever they are. */
  lemma PushFrameThenPush(before: seq<nat>, ops: seq<StackOp>, b: StackOp)
    requires AllPlain(ops) && Admissible(ops) && OpenPush(ops) && Plain(b) && !b.Pop?
    requires |before| + |Front(ops)| >= 2
    ensures var p := Translate(ops);
      var q := EncodeOp(p.(words := before + p.words), Push(RBP));
      var all := before + Front(ops);
      q.words == all + [PushFrame()] &&
      EncodeOp(q, b).words == all[..|all| - 2] + SetupWords(b) + FusedPushWords(p.register, OperandReg(b))
  {
    hide Translate, PushFrame, FusedPushWords, SetupWords, OperandReg, Agrees, Run, View, Single, Rewind;
    var p := Translate(ops);
    Opened(ops, AnyState(0));
    var all := before + Front(ops);
    RewindGroupBehind(before, p.words, Single(ops[|ops| - 1]));
    RewindOne(all, PushFrame());
  }

  lemma RewindGroupBehind(before: seq<nat>, ws: seq<nat>, g: seq<nat>)
    requires |g| == 3 && ws == Rewind(ws) + g
    ensures Rewind(before + ws) == before + Rewind(ws)
  {}

  lemma RewindOne(ws: seq<nat>, w: nat)
    requires |ws| >= 2
    ensures Rewind(ws + [w]) == ws[..|ws| - 2]
  {}

  /** PUSH RBP behind an open push is the one operation that leaves less code than there was: two words less, which
      is in front of the block's start when the open push ends the block before. */
  lemma OnlyFrameShrinks(p: Peephole, op: StackOp)
    requires ValidOp(op) && (p.previous.NoPrevious? || |p.words| >= 3)
    ensures var q := EncodeOp(p, op);
      (|q.words| < |p.words| <==> op == Push(RBP) && p.previous.PushPrevious?) &&
      (|q.words| < |p.words| ==> |q.words| == |p.words| - 2)
  {
    hide SetupWords, OperandReg, PushFrame, PopFrame;
  }

  // ---------------------------------------------------------------- words in between

  /** An open pair's second half after words that did not clear prev_instruction. */
  function AfterWords(ops: seq<StackOp>, ws: seq<nat>, b: StackOp): Peephole
    requires AllPlain(ops) && ValidOp(b)
  {
    var p := Translate(ops);
    EncodeOp(p.(words := p.words + ws), b)
  }

  predicate Second(ops: seq<StackOp>, b: StackOp) {
    if b.Pop? then OpenPop(ops) else OpenPush(ops)
  }

  /** What the rewind leaves: it takes the last three words, whatever they are. */
  function Remains(ops: seq<StackOp>, ws: seq<nat>): seq<nat>
    requires AllPlain(ops) && ops != []
  {
    var p := Translate(ops);
    if |ws| <= 3 then Rewind(p.words) + Single(ops[|ops| - 1])[..|ws|] else p.words + ws[..|ws| - 3]
  }

  /** The words of the second half. */
  function SecondWords(a: StackOp, b: StackOp): seq<nat>
    requires ValidOp(a) && ValidOp(b)
  {
    SetupWords(b) +
    if b.Pop? then FusedPopWords(OperandReg(a), OperandReg(b)) else FusedPushWords(OperandReg(a), OperandReg(b))
  }

  /** Up to three words in between are taken back, together with as many words of the first half as make up
      three; of more words the last three are, and the first half stands. */
  lemma WordsAreTakenBack(ops: seq<StackOp>, ws: seq<nat>, b: StackOp)
    requires AllPlain(ops) && Admissible(ops) && Plain(b) && Second(ops, b)
    ensures AfterWords(ops, ws, b).words == Remains(ops, ws) + SecondWords(ops[|ops| - 1], b)
  {
    hide Translate, FusedPushWords, FusedPopWords, SetupWords, OperandReg, Agrees, Run, View, Single, Rewind;
    var p, a := Translate(ops), ops[|ops| - 1];
    Opened(ops, AnyState(0));
    RewindBack(p.words, Rewind(p.words), Single(a), ws);
    if b.Pop? { NoSetupForPop(b); }
    var x, r := Rewind(p.words + ws), OperandReg(b);
    var f := if b.Pop? then FusedPopWords(p.register, r) else FusedPushWords(p.register, r);
    NothingBetween(p.words + ws);
    NothingBetween(f);
    ThreeParts(x, SetupWords(b), f);
  }

  lemma RewindBack(all: seq<nat>, x: seq<nat>, g: seq<nat>, ws: seq<nat>)
    requires |g| == 3 && all == x + g
    ensures Rewind(all + ws) == if |ws| <= 3 then x + g[..|ws|] else all + ws[..|ws| - 3]
  {}

  lemma ThreeParts(x: seq<nat>, y: seq<nat>, z: seq<nat>)
    ensures x + y + z == x + (y + z)
  {}

  lemma NothingBetween(ws: seq<nat>)
    ensures ws + [] == ws && [] + ws == ws
  {}

  lemma NoSetupForPop(b: StackOp)
    requires Plain(b) && b.Pop?
    ensures SetupWords(b) == []
  {}

  lemma RewindForeign(x: seq<nat>, g: seq<nat>, w: nat)
    requires |g| == 3
    ensures Rewind(x + g + [w]) == x + [g[0]]
  {}

  /** A push finds its operand in its register. */
  ghost predicate OperandHeld(a: StackOp, s: State)
    requires ValidOp(a)
  {
    !a.Pop? ==> X(s, OperandReg(a)) == Operand(a, View(s))
  }

  /** The first word of an operation only moves SP, or SP - 8, into the scratch register. */
  lemma FirstWordHarmless(a: StackOp, s: State)
    requires Plain(a)
    ensures var o := Run([Single(a)[0]], s);
      o.Next? && View(o.s) == View(s) &&
      o.s == s.(x := s.x[SC2R := if a.Pop? then s.sp else Add64(s.sp, -8)], pc := o.s.pc)
  {
    hide Bits.Or, Step, Run, RdRn, SubSigned, View;
    var w := Single(a)[0];
    if a.Pop? { StepMove(SC2R, 31, s); } else { StepAdd(SC2R, 31, 8, s); }
    RunOne(w, s);
    var v := if a.Pop? then s.sp else Add64(s.sp, -8);
    ViewIgnoresScratch(s, SC2R, v);
    ViewIgnoresPc(SetX(s, SC2R, v), Step(w, s).s.pc);
  }

  /** The second word loads or stores what the operation will once more load or store. */
  lemma TwoWordsHarmless(a: StackOp, s: State)
    requires Plain(a) && OperandHeld(a, s)
    ensures var o := Run(Single(a)[..2], s);
      o.Next? && StackStep(a, View(o.s)) == StackStep(a, View(s)) && OperandHeld(a, o.s)
  {
    hide Bits.Or, Step, Run, RdRn, SubSigned, AddSigned, View, StackStep, LoadWord, StoreWord;
    OperandRegLow(a);
    var first, second := Single(a)[0], Single(a)[1];
    FirstWordHarmless(a, s);
    var t := Run([first], s).s;
    assert Single(a)[..2] == [first] + [second];
    RunConcat([first], [second], s);
    RunOne(second, t);
    ViewReads(s, RSP);
    if a.Pop? { StepLoad(true, OperandReg(a), SC2R, t); } else { StepStore(true, OperandReg(a), SC2R, t); }
    var u := Step(second, t).s;
    if a.Pop? { LoadedTwice(a, t, u); } else { StoredTwice(a, t, u); }
  }

  lemma LoadedTwice(a: StackOp, s: State, t: State)
    requires Plain(a) && a.Pop? && s.x[SC2R] == s.sp
    requires t == s.(x := s.x[OperandReg(a) := LoadWord(s.mem, s.sp, 8)], pc := t.pc)
    ensures StackStep(a, View(t)) == StackStep(a, View(s))
  {
    hide LoadWord;
    PlainPop(a);
    ViewReads(s, RSP);
    ViewSetsGuest(s, a.r, LoadWord(s.mem, s.sp, 8));
    ViewIgnoresPc(SetXSp(s, X64Reg(a.r), LoadWord(s.mem, s.sp, 8)), t.pc);
    SetTwice(View(s), a.r, LoadWord(s.mem, s.sp, 8), Add64(s.sp, 8));
  }

  lemma SetTwice(g: Guest, r: nat, v: u64, sp: u64)
    requires r < 16 && r != RSP
    ensures SetReg(SetReg(SetReg(g, r, v), RSP, sp), r, v) == SetReg(SetReg(g, RSP, sp), r, v)
    ensures SetReg(g, r, v).r[RSP] == g.r[RSP] && SetReg(g, r, v).mem == g.mem
  {
    assert g.r[r := v][RSP := sp][r := v] == g.r[RSP := sp][r := v];
  }

  lemma StoredTwice(a: StackOp, s: State, t: State)
    requires Plain(a) && !a.Pop? && s.x[OperandReg(a)] == Operand(a, View(s))
    requires t == s.(mem := StoreWord(s.mem, Add64(s.sp, -8), 8, s.x[OperandReg(a)]), pc := t.pc)
    ensures StackStep(a, View(t)) == StackStep(a, View(s)) && t.x[OperandReg(a)] == Operand(a, View(t))
  {
    hide StoreWord;
    ViewReads(s, RSP);
    var top, v := Add64(s.sp, -8), s.x[OperandReg(a)];
    ViewWithMemory(s, t);
    StoreTwice(s.mem, top, v);
  }

  lemma ViewWithMemory(s: State, t: State)
    requires t == s.(mem := t.mem, pc := t.pc)
    ensures View(t) == View(s).(mem := t.mem)
  {
    assert View(t).r == View(s).r;
  }

  lemma StoreTwice(m: Mem, a: int, v: u64)
    ensures StoreWord(StoreWord(m, a, 8, v), a, 8, v) == StoreWord(m, a, 8, v)
  {}

  lemma SecondHalf(a: StackOp, b: StackOp, t: State)
    requires Plain(a) && Plain(b) && SameKind(a, b) && MayFuse(a, b)
    requires OperandHeld(a, t)
    ensures var o := Run(SecondWords(a, b), t); o.Next? && View(o.s) == StackStep(b, StackStep(a, View(t)))
  {
    hide FusedPushWords, FusedPopWords, SetupWords, Run, View, StackStep;
    if b.Pop? {
      NoSetupForPop(b);
      NothingBetween(FusedPopWords(OperandReg(a), OperandReg(b)));
      PopPairAgrees(a, b, t);
    } else {
      OperandRegLow(a);
      var v := SetupState(b, t);
      PushPairAgrees(a, b, OperandReg(a), OperandReg(b), v);
      RunConcat(SetupWords(b), FusedPushWords(OperandReg(a), OperandReg(b)), t);
    }
  }

  /** A part of the first half of up to two words, run on its own. */
  lemma PartHarmless(a: StackOp, k: nat, s: State)
    requires Plain(a) && k <= 2 && OperandHeld(a, s)
    ensures var o := Run(Single(a)[..k], s);
      o.Next? && StackStep(a, View(o.s)) == StackStep(a, View(s)) && OperandHeld(a, o.s)
  {
    hide Run, StackStep, View, Single, Operand;
    OperandRegLow(a);
    if k == 0 {
      assert Single(a)[..0] == [];
      NoWordsRun(s);
    } else if k == 1 {
      FirstWordHarmless(a, s);
      assert Single(a)[..1] == [Single(a)[0]];
      SameOperand(a, View(s), View(Run([Single(a)[0]], s).s));
    } else {
      TwoWordsHarmless(a, s);
    }
  }

  lemma SameOperand(a: StackOp, g: Guest, h: Guest)
    requires ValidOp(a) && g == h
    ensures !a.Pop? ==> Operand(a, g) == Operand(a, h)
  {}

  lemma NoWordsRun(s: State)
    ensures Run([], s) == Next(s)
  {}

  /** So one or two words have no effect: the code does what it would do had they never been there. */
  lemma WordsAreLost(ops: seq<StackOp>, ws: seq<nat>, b: StackOp, s: State)
    requires AllPlain(ops) && Admissible(ops) && Plain(b) && Second(ops, b) && MayFuse(ops[|ops| - 1], b) && |ws| <= 2
    ensures AllValid(ops + [b]) && Agrees(AfterWords(ops, ws, b).words, ops + [b], s)
  {
    hide Translate, SecondWords, OperandReg, Run, View, Single, Rewind, StackRun, StackStep, AfterWords, Operand, Fuses;
    hide MayFuse, Admissible;
    var p, a := Translate(ops), ops[|ops| - 1];
    Opened(ops, s);
    WordsAreTakenBack(ops, ws, b);
    OperandRegLow(a);
    var x, part := Rewind(p.words), Single(a)[..|ws|];
    var u := Run(x, s).s;
    PartHarmless(a, |ws|, u);
    var t := Run(part, u).s;
    SecondHalf(a, b, t);
    RunParts(x, part, SecondWords(a, b), s, u, t);
    TwoSteps(ops, b, View(s));
  }

  /** Of three or more words the last three are lost, and the first half, which has already been done, is
      done once more. */
  lemma FirstHalfTwice(ops: seq<StackOp>, ws: seq<nat>, b: StackOp, s: State, t: State)
    requires AllPlain(ops) && Admissible(ops) && Plain(b) && Second(ops, b) && MayFuse(ops[|ops| - 1], b) && |ws| >= 3
    requires Run(Translate(ops).words + ws[..|ws| - 3], s) == Next(t)
    requires OperandHeld(ops[|ops| - 1], t)
    ensures var o := Run(AfterWords(ops, ws, b).words, s);
      o.Next? && View(o.s) == StackStep(b, StackStep(ops[|ops| - 1], View(t)))
  {
    hide Translate, SecondWords, OperandReg, Run, View, Rewind, StackRun, StackStep, AfterWords, Operand, Fuses;
    hide MayFuse, Admissible;
    var p, a := Translate(ops), ops[|ops| - 1];
    Opened(ops, s);
    WordsAreTakenBack(ops, ws, b);
    OperandRegLow(a);
    if |ws| == 3 { WholeGroup(p.words, Rewind(p.words), Single(a), ws); }
    SecondHalf(a, b, t);
    RunConcat(Translate(ops).words + ws[..|ws| - 3], SecondWords(a, b), s);
  }

  lemma WholeGroup(all: seq<nat>, x: seq<nat>, g: seq<nat>, ws: seq<nat>)
    requires |g| == |ws| == 3 && all == x + g
    ensures x + g[..3] == all && all + ws[..0] == all
  {}

  /** With exactly three words, a pair comes out as three operations. */
  lemma ThreeForTwo(ops: seq<StackOp>, ws: seq<nat>, b: StackOp, s: State)
    requires AllPlain(ops) && Admissible(ops) && Plain(b) && Second(ops, b) && MayFuse(ops[|ops| - 1], b)
    requires |ws| == 3 && ops[|ops| - 1] != Push(RSP)
    ensures var a := ops[|ops| - 1];
      AllValid(ops + [a] + [b]) && Agrees(AfterWords(ops, ws, b).words, ops + [a] + [b], s)
  {
    hide Translate, Run, View, Rewind, StackRun, StackStep, AfterWords, Fuses, MayFuse, Admissible, Operand, OperandReg;
    var p, a := Translate(ops), ops[|ops| - 1];
    Opened(ops, s);
    var t := Run(p.words, s).s;
    StillInRegister(ops, s);
    NothingBetween(p.words);
    assert ws[..0] == [];
    FirstHalfTwice(ops, ws, b, s, t);
    LastStep(ops, a, View(s));
    LastStep(ops + [a], b, View(s));
  }

  /** After a push its operand is still in its register, unless it is RSP, which has moved. */
  lemma StillInRegister(ops: seq<StackOp>, s: State)
    requires AllPlain(ops) && Admissible(ops) && (OpenPush(ops) || OpenPop(ops)) && ops[|ops| - 1] != Push(RSP)
    ensures var o, a := Run(Translate(ops).words, s), ops[|ops| - 1];
      o.Next? && View(o.s) == StackRun(ops, View(s)) && OperandHeld(a, o.s)
  {
    hide Translate, Run, View, Rewind, StackRun, StackStep, Fuses, Admissible, PushWords, PopWords, OperandReg, X64Reg;
    var p, a := Translate(ops), ops[|ops| - 1];
    Opened(ops, s);
    if !a.Pop? {
      OperandRegLow(a);
      var u := Run(Rewind(p.words), s).s;
      RunPush(OperandReg(a), u);
      RunConcat(Rewind(p.words), PushWords(OperandReg(a)), s);
      var t := Run(p.words, s).s;
      if a.Push? { PlainPush(a); ViewReads(t, a.r); }
    }
  }

  lemma PlainPush(a: StackOp)
    requires Plain(a) && a.Push? && a != Push(RSP)
    ensures a.r < 16 && a.r != RSP && OperandReg(a) == X64Reg(a.r)
  {}

  /** POP RBP between two pops is lost, and so is PUSH RBP. */
  lemma FrameWordIsLost(ops: seq<StackOp>, frame: StackOp, b: StackOp, s: State)
    requires AllPlain(ops) && Admissible(ops) && Plain(b) && Second(ops, b) && MayFuse(ops[|ops| - 1], b)
    requires frame == Pop(RBP) || (frame == Push(RBP) && b.Pop?)
    ensures AllValid(ops + [frame] + [b]) && Agrees(Translate(ops + [frame] + [b]).words, ops + [b], s)
  {
    hide Translate, Agrees, Run, View, Single, Rewind, StackRun, FusedPopWords, FusedPushWords, PushFrame, PopFrame;
    Opened(ops, s);
    TranslateLast(ops, frame);
    TranslateLast(ops + [frame], b);
    var w := if frame.Pop? then PopFrame() else PushFrame();
    WordsAreLost(ops, [w], b, s);
  }

  // ---------------------------------------------------------------- SETcc in between

  /** A SETcc between the two halves is lost: harmless exactly when its register held the result already,
      or is popped by the second half. */
  lemma SetBetweenExact(ops: seq<StackOp>, ws: seq<nat>, b: StackOp, q: nat, v: u64, s: State)
    requires AllPlain(ops) && Admissible(ops) && Plain(b) && Second(ops, b) && MayFuse(ops[|ops| - 1], b) && |ws| <= 2
    requires q < 16
    ensures var o := Run(AfterWords(ops, ws, b).words, s);
      var g := StackRun(ops, View(s));
      o.Next? && (View(o.s) == StackStep(b, SetReg(g, q, v)) <==> g.r[q] == v || b == Pop(q))
  {
    hide Run, View, StackRun, AfterWords, StackStep, Second, Admissible, MayFuse;
    WordsAreLost(ops, ws, b, s);
    AppendedRun(ops, b, View(s));
    SetThenStep(b, StackRun(ops, View(s)), q, v);
  }

  lemma AppendedRun(ops: seq<StackOp>, b: StackOp, g: Guest)
    requires AllPlain(ops) && Plain(b)
    ensures StackRun(ops + [b], g) == StackStep(b, StackRun(ops, g))
  {
    hide StackStep;
    Appended(ops, b);
  }

  lemma SetThenStep(b: StackOp, g: Guest, q: nat, v: u64)
    requires Plain(b) && q < 16
    ensures StackStep(b, g) == StackStep(b, SetReg(g, q, v)) <==> g.r[q] == v || b == Pop(q)
  {
    hide LoadWord, StoreWord;
    if g.r[q] == v {
      assert SetReg(g, q, v) == g;
    } else if b == Pop(q) {
      assert StackStep(b, g).r == StackStep(b, SetReg(g, q, v)).r;
    } else if q == RSP {
      StackPointerStep(b, g);
      StackPointerStep(b, SetReg(g, q, v));
      Distinct(g.r[RSP], v, if b.Pop? then 8 else -8);
    } else {
      assert StackStep(b, g).r[q] == g.r[q] && StackStep(b, SetReg(g, q, v)).r[q] == v;
    }
  }

  lemma Distinct(x: u64, y: u64, d: int)
    requires x != y
    ensures Add64(x, d) != Add64(y, d)
  {
    var q, t := (x + d) / TWO64, (y + d) / TWO64;
    assert x + d == TWO64 * q + Add64(x, d) && y + d == TWO64 * t + Add64(y, d);
    assert x - y == TWO64 * (q - t) + (Add64(x, d) - Add64(y, d));
  }

  // ---------------------------------------------------------------- POP RSP

  /** The word before POP RSP's own look at prev_instruction is such a word too.  Alone or as second of a
      pair, RSP ends eight above where the popped word was: right exactly when that is the popped word. */
  lemma PopRspExact(ops: seq<StackOp>, s: State)
    requires AllPlain(ops) && Admissible(ops)
    ensures AllValid(ops + [Pop(RSP)]) && var g := StackRun(ops, View(s));
      Agrees(Translate(ops + [Pop(RSP)]).words, ops + [Pop(RSP)], s)
      <==> LoadWord(g.mem, g.r[RSP], 8) == Add64(g.r[RSP], 8)
  {
    hide Translate, Run, View, StackRun, StackStep, LoadWord, OpenPop;
    PopRspWords(ops);
    LastStep(ops, Pop(RSP), View(s));
    if OpenPop(ops) { PopRspSecond(ops, s); } else { PopRspFirst(ops, s); }
  }

  lemma PopRspSecond(ops: seq<StackOp>, s: State)
    requires AllPlain(ops) && Admissible(ops) && OpenPop(ops)
    ensures var p, g := Translate(ops), StackRun(ops, View(s));
      var o := Run(Rewind(p.words) + [Single(ops[|ops| - 1])[0]] + FusedPopWords(p.register, SC1R), s);
      o.Next? && (View(o.s) == StackStep(Pop(RSP), g) <==> LoadWord(g.mem, g.r[RSP], 8) == Add64(g.r[RSP], 8))
  {
    hide Translate, Run, View, StackRun, StackStep, LoadWord, FusedPopWords, Rewind, Single, Fuses, OperandReg, Agrees;
    var p, a := Translate(ops), ops[|ops| - 1];
    Opened(ops, s);
    var x, first := Rewind(p.words), [Single(a)[0]];
    var u := Run(x, s).s;
    FirstWordHarmless(a, u);
    var t := Run(first, u).s;
    FusedPopRsp(a, t);
    LastStep(ops[..|ops| - 1], a, View(s));
    assert ops[..|ops| - 1] + [a] == ops;
    RunParts(x, first, FusedPopWords(p.register, SC1R), s, u, t);
  }

  lemma PopRspFirst(ops: seq<StackOp>, s: State)
    requires AllPlain(ops) && Admissible(ops)
    ensures var p, g := Translate(ops), StackRun(ops, View(s));
      var o := Run(p.words + ([RdRn(SF + ADD_IMM, SC1R, 31)] + PopWords(SC1R)), s);
      o.Next? && (View(o.s) == StackStep(Pop(RSP), g) <==> LoadWord(g.mem, g.r[RSP], 8) == Add64(g.r[RSP], 8))
  {
    hide Translate, Run, View, StackRun, StackStep, LoadWord, RdRn, PopWords;
    var p := Translate(ops);
    Opened(ops, s);
    var u := Run(p.words, s).s;
    PopRspAlone(u);
    ViewReads(u, RSP);
    ViewMemory(u);
    RunConcat(p.words, [RdRn(SF + ADD_IMM, SC1R, 31)] + PopWords(SC1R), s);
  }

  lemma LastStep(ops: seq<StackOp>, b: StackOp, g: Guest)
    requires AllValid(ops) && ValidOp(b)
    ensures AllValid(ops + [b]) && StackRun(ops + [b], g) == StackStep(b, StackRun(ops, g))
  {
    hide StackStep;
    Appended(ops, b);
  }

  lemma PopRspWords(ops: seq<StackOp>)
    requires AllPlain(ops) && Admissible(ops)
    ensures AllValid(ops + [Pop(RSP)]) && var p, w := Translate(ops), RdRn(SF + ADD_IMM, SC1R, 31);
      Translate(ops + [Pop(RSP)]).words ==
        if OpenPop(ops) then Rewind(p.words) + [Single(ops[|ops| - 1])[0]] + FusedPopWords(p.register, SC1R)
        else p.words + ([w] + PopWords(SC1R))
  {
    hide *;
    PlainIsValid(ops);
    var p, w := Translate(ops), RdRn(SF + ADD_IMM, SC1R, 31);
    OpenPopWords(ops);
    TranslateLast(ops, Pop(RSP));
    EncodePopRsp(p);
    if OpenPop(ops) {
      RewindForeign(Rewind(p.words), Single(ops[|ops| - 1]), w);
    } else {
      ThreeParts(p.words, [w], PopWords(SC1R));
    }
  }

  lemma PlainIsValid(ops: seq<StackOp>)
    requires AllPlain(ops)
    ensures AllValid(ops) && ValidOp(Pop(RSP)) && AllValid(ops + [Pop(RSP)])
  {}

  lemma OpenPopWords(ops: seq<StackOp>)
    requires AllPlain(ops) && Admissible(ops)
    ensures var p := Translate(ops);
      (p.previous.PopPrevious? <==> OpenPop(ops)) && (OpenPop(ops) ==> ops != [] && ValidOp(ops[|ops| - 1])) &&
      (OpenPop(ops) ==> |Single(ops[|ops| - 1])| == 3 && p.words == Rewind(p.words) + Single(ops[|ops| - 1]))
  {
    hide Translate, Run, View, StackRun, Rewind, Single, Fuses, Agrees, OperandReg, Operand;
    Opened(ops, AnyState(0));
  }

  lemma EncodePopRsp(p: Peephole)
    ensures var w := RdRn(SF + ADD_IMM, SC1R, 31);
      EncodeOp(p, Pop(RSP)).words ==
        if p.previous.PopPrevious? then Rewind(p.words + [w]) + FusedPopWords(p.register, SC1R)
          else p.words + [w] + PopWords(SC1R)
  {
    hide RdRn, PopWords, FusedPopWords, Rewind;
  }

  lemma FusedPopRsp(a: StackOp, t: State)
    requires Plain(a) && a.Pop?
    ensures var o, g := Run(FusedPopWords(OperandReg(a), SC1R), t), StackStep(a, View(t));
      o.Next? && (View(o.s) == StackStep(Pop(RSP), g) <==> LoadWord(g.mem, g.r[RSP], 8) == Add64(g.r[RSP], 8))
  {
    hide Run, FusedPopWords, LoadWord, View, SetReg;
    OperandRegLow(a);
    var r := OperandReg(a);
    RunFusedPop(r, SC1R, t);
    ViewReads(t, RSP);
    ViewMemory(t);
    var o, v, w := Run(FusedPopWords(r, SC1R), t), LoadWord(t.mem, t.sp, 8), LoadWord(t.mem, Add64(t.sp, 8), 8);
    assert Add64(Add64(t.sp, 8), 8) == Add64(t.sp, 16);
    FusedPopView(a, t, o.s, v, w, Add64(t.sp, 16));
    ThreeRegs(View(t), a.r, Add64(t.sp, 8), v, Add64(t.sp, 16), w);
  }

  lemma PlainPop(a: StackOp)
    requires Plain(a) && a.Pop?
    ensures a.r < 16 && a.r != RSP && OperandReg(a) == X64Reg(a.r) < 31
  {
    GuestRegistersApart(a.r, a.r);
  }

  lemma FusedPopView(a: StackOp, s: State, t: State, v: u64, w: u64, sp: u64)
    requires Plain(a) && a.Pop?
    requires t == s.(x := s.x[SC2R := s.sp][OperandReg(a) := v][SC1R := w], sp := sp, pc := t.pc)
    ensures View(t) == SetReg(SetReg(View(s), RSP, sp), a.r, v)
  {
    hide Plain, OperandReg, X64Reg, View, SetReg;
    PlainPop(a);
    ViewSkips(s, t, OperandReg(a), a.r, v, w, sp);
  }

  lemma ViewSkips(s: State, t: State, h: nat, r: nat, v: u64, w: u64, sp: u64)
    requires r < 16 && r != RSP && h == X64Reg(r) && h < 31
    requires t == s.(x := s.x[SC2R := s.sp][h := v][SC1R := w], sp := sp, pc := t.pc)
    ensures View(t) == SetReg(SetReg(View(s), RSP, sp), r, v)
  {
    hide X64Reg;
    var g := SetReg(SetReg(View(s), RSP, sp), r, v);
    forall i: nat | i < 16 ensures View(t).r[i] == g.r[i] {
      GuestRegistersApart(i, RSP);
      GuestRegistersApart(i, r);
    }
  }

  lemma ThreeRegs(g: Guest, r: nat, mid: u64, v: u64, sp: u64, w: u64)
    requires r < 16 && r != RSP
    ensures var h := SetReg(SetReg(g, RSP, mid), r, v);
      h.mem == g.mem && h.r[RSP] == mid && (SetReg(SetReg(g, RSP, sp), r, v) == SetReg(h, RSP, w) <==> w == sp) &&
      SetReg(h, RSP, w) == SetReg(SetReg(h, RSP, sp), RSP, w)
  {
    var h, a := SetReg(SetReg(g, RSP, mid), r, v), SetReg(SetReg(g, RSP, sp), r, v);
    assert a.r[RSP] == sp && SetReg(h, RSP, w).r[RSP] == w;
    if w == sp { assert a == SetReg(h, RSP, w); }
  }
}

/** Calls and returns.  The recompiler turns CALL into a plain BL, which pushes nothing, and turns
    PUSH RBP and LEAVE into words that save and restore X30 together with X29.  A call tree is run
    in lockstep with the x86 stack discipline it stands for. */
module CallTree {
  import opened Bits
  import opened Memory
  import opened Arm64
  import opened Emitter
  import opened Words
  import opened Steps
  import opened PushPop
  import opened Addressing
  import opened Moves

  /** How a function treats X30: a framed one opens with PUSH RBP; MOV RBP, RSP and closes with LEAVE; RET,
      one that saves RBP opens with PUSH RBP and closes with POP RBP; RET, a bare one closes with RET. */
  datatype Kind = Framed | Saved | Bare

  /** One execution of a function; entry is the host address of its first word. */
  datatype Function = Function(kind: Kind, entry: u64, body: Body)

  /** Work is straight-line translated code that lowers RSP by down (raises it when negative);
      back is the guest return address of a call. */
  datatype Body =
    | Return
    | Work(words: seq<nat>, down: int, rest: Body)
    | Call(callee: Function, back: int, rest: Body)

  /** What the x86 side does to RSP, RBP and the stack slots of calls and frames. */
  datatype Shadow = Shadow(rsp: int, rbp: int, rip: int, stack: map<int, int>)

  function Slot(g: Shadow, a: int): int {
    if a in g.stack then g.stack[a] else 0
  }

  function PushSlot(g: Shadow, v: int): Shadow {
    g.(rsp := g.rsp - 8, stack := g.stack[g.rsp - 8 := v])
  }

  function EnterFrame(g: Shadow): Shadow {
    var h := PushSlot(g, g.rbp);
    h.(rbp := h.rsp)
  }

  function LeaveFrame(g: Shadow): Shadow {
    g.(rsp := g.rbp + 8, rbp := Slot(g, g.rbp))
  }

  function PopReturn(g: Shadow): Shadow {
    g.(rip := Slot(g, g.rsp), rsp := g.rsp + 8)
  }

  /** PUSH RBP; MOV RBP, RSP. */
  function PrologueWords(): seq<nat> {
    [PushFrame(), RdRn(SF + ADD_IMM, 29, 31)]
  }

  /** LEAVE; RET. */
  function EpilogueWords(): seq<nat> {
    [RdRnImm(SF + ADD_IMM, 31, 29, 0), PopFrame(), RET]
  }

  function OpenWords(kind: Kind): seq<nat> {
    match kind
    case Framed => PrologueWords()
    case Saved => [PushFrame()]
    case Bare => []
  }

  function CloseWords(kind: Kind): seq<nat> {
    match kind
    case Framed => EpilogueWords()
    case Saved => [PopFrame(), RET]
    case Bare => [RET]
  }

  function OpenShadow(kind: Kind, g: Shadow): Shadow {
    match kind
    case Framed => EnterFrame(g)
    case Saved => PushSlot(g, g.rbp)
    case Bare => g
  }

  function CloseShadow(kind: Kind, g: Shadow): Shadow {
    match kind
    case Framed => PopReturn(LeaveFrame(g))
    case Saved => PopReturn(g.(rbp := Slot(g, g.rsp), rsp := g.rsp + 8))
    case Bare => PopReturn(g)
  }

  /** Where the body begins. */
  function BodyAt(f: Function): u64 { U64(f.entry + 4 * |OpenWords(f.kind)|) }

  /** The BL that patching leaves at address at for a callee at address target. */
  function CallWord(at: u64, target: u64): nat {
    Or(BLR_IMM, ((target - at) / 4) % 0x400_0000)
  }

  /** Astray covers a fault and arriving anywhere but at the next word of the caller; level says that
      after PUSH RBP and after every prologue SP and X29 were the x86 RSP and RBP. */
  datatype Run2 = Astray | Done(s: State, g: Shadow, level: bool)

  ghost function RunFunction(f: Function, s: State, g: Shadow): Run2
    decreases f
  {
    var o, h := Run(OpenWords(f.kind), s), OpenShadow(f.kind, g);
    if s.pc != f.entry || o.Fault? then Astray
    else
      var r := RunBody(f.kind, f.body, BodyAt(f), o.s, h);
      if r.Astray? then Astray
      else r.(level := r.level && (f.kind == Bare || (o.s.sp == h.rsp && o.s.x[29] == h.rbp)))
  }

  /** In straight-line code the x86 RBP goes with X29. */
  ghost function RunBody(kind: Kind, b: Body, at: u64, s: State, g: Shadow): Run2
    decreases b
  {
    if s.pc != at then Astray
    else
      match b
      case Return =>
        var o := Run(CloseWords(kind), s);
        if o.Fault? then Astray else Done(o.s, CloseShadow(kind, g), true)
      case Work(words, down, rest) =>
        var o := Run(words, s);
        if o.Fault? then Astray
        else RunBody(kind, rest, U64(at + 4 * |words|), o.s, AfterWork(g, down, o.s))
      case Call(callee, back, rest) =>
        var o := Step(CallWord(at, callee.entry), s);
        if o.Fault? then Astray
        else
          var r := RunFunction(callee, o.s, PushSlot(g, back));
          if r.Astray? then Astray
          else
            var q := RunBody(kind, rest, U64(at + 4), r.s, r.g);
            if q.Astray? then Astray else q.(level := q.level && r.level)
  }

  function AfterWork(g: Shadow, down: int, s: State): Shadow {
    g.(rsp := g.rsp - down, rbp := s.x[29])
  }

  // ---------------------------------------------------------------- what is asked of the code

  /** Memory of the stack from a upwards is as it was. */
  ghost predicate KeepsStack(s: State, t: State, a: int, top: int) {
    forall x: int :: a <= x < top ==> t.mem[x] == s.mem[x]
  }

  /** Straight-line code: its words fall through, move SP as announced without leaving the function's part
      of the stack, which ends at base, and leave everything from base on alone, and the registers that
      the function does not save. */
  ghost predicate WorkOk(kind: Kind, words: seq<nat>, down: int, s: State, base: int, top: int) {
    var o := Run(words, s);
    AllFall(words) && o.Next? && (kind != Saved ==> o.s.x[29] == s.x[29]) && (kind == Bare ==> o.s.x[30] == s.x[30]) &&
    o.s.sp == s.sp - down && o.s.sp <= base && KeepsStack(s, o.s, base, top)
  }

  ghost predicate AllFall(words: seq<nat>) {
    forall k :: 0 <= k < |words| ==> Falls(words[k])
  }

  lemma WorkGoesOn(kind: Kind, words: seq<nat>, down: int, s: State, base: int, top: int)
    requires WorkOk(kind, words, down, s, base, top)
    ensures Run(words, s).Next? && Run(words, s).s.pc == U64(s.pc + 4 * |words|)
  {
    hide Run, Falls, KeepsStack;
    RunFalls(words, s);
  }

  /** A BL at at can reach target. */
  predicate InReach(at: u64, target: u64) {
    (target - at) % 4 == 0 && -0x200_0000 <= (target - at) / 4 < 0x200_0000
  }

  /** Where a function's part of the stack ends. */
  function Base(kind: Kind, sp: int): int {
    if kind == Bare then sp else sp - 16
  }

  /** Every piece of code met along the run keeps its part and the stack has room for the frames. */
  ghost predicate FunctionOk(f: Function, s: State, g: Shadow, top: int)
    decreases f
  {
    var o := Run(OpenWords(f.kind), s);
    (f.kind != Bare ==> 24 <= s.sp <= top) &&
    (o.Next? ==> BodyOk(f.kind, f.body, BodyAt(f), o.s, OpenShadow(f.kind, g), Base(f.kind, s.sp), top))
  }

  ghost predicate BodyOk(kind: Kind, b: Body, at: u64, s: State, g: Shadow, base: int, top: int)
    decreases b
  {
    match b
    case Return => kind == Framed || s.sp == base
    case Work(words, down, rest) =>
      WorkOk(kind, words, down, s, base, top) &&
      var t := Run(words, s).s;
      BodyOk(kind, rest, U64(at + 4 * |words|), t, AfterWork(g, down, t), base, top)
    case Call(callee, back, rest) =>
      InReach(at, callee.entry) &&
      var o := Step(CallWord(at, callee.entry), s);
      o.Next? ==>
        FunctionOk(callee, o.s, PushSlot(g, back), top) &&
        var r := RunFunction(callee, o.s, PushSlot(g, back));
        r.Done? && r.s.pc == U64(at + 4) ==> BodyOk(kind, rest, U64(at + 4), r.s, r.g, base, top)
  }

  // ---------------------------------------------------------------- the frame words

  lemma StepPushFrame(s: State)
    requires s.sp >= 16
    ensures Step(PushFrame(), s) == Next(Advance(
      s.(sp := s.sp - 16, mem := StoreWord(StoreWord(s.mem, s.sp - 16, 8, s.x[30]), s.sp - 8, 8, s.x[29]))))
  {
    hide Bits.Or, Decode, StoreWord;
    FrameDecodes();
  }

  lemma StepPopFrame(s: State)
    requires s.sp + 16 < TWO64
    ensures Step(PopFrame(), s) == Next(Advance(
      s.(sp := s.sp + 16, x := s.x[30 := LoadWord(s.mem, s.sp, 8)][29 := LoadWord(s.mem, s.sp + 8, 8)])))
  {
    hide Bits.Or, Decode, LoadWord, Exec;
    FrameDecodes();
    PopsPair(s);
  }

  lemma PopsPair(s: State)
    requires s.sp + 16 < TWO64
    ensures Exec(Ldp(PostIndex, 16, 29, 31, 30), s) == Next(Advance(
      s.(sp := s.sp + 16, x := s.x[30 := LoadWord(s.mem, s.sp, 8)][29 := LoadWord(s.mem, s.sp + 8, 8)])))
  {
    hide LoadWord;
  }

  lemma StepFramePointer(s: State)
    ensures Step(RdRnImm(SF + ADD_IMM, 31, 29, 0), s) == Next(Advance(s.(sp := s.x[29])))
  {
    hide Bits.Or, Decode, RdRnImm, AddWithCarry;
    AddSubImmDecodes(false, 31, 29, 0);
    AddSubResult(s.x[29], 0, true, false);
  }

  lemma StepReturn(s: State)
    ensures Step(RET, s) == Next(s.(pc := s.x[30]))
  {
    hide Decode;
    ReturnDecodes();
  }

  lemma StepCall(at: u64, target: u64, s: State)
    requires InReach(at, target) && s.pc == at
    ensures Step(CallWord(at, target), s) == Next(s.(x := s.x[30 := U64(at + 4)], pc := target))
  {
    hide Bits.Or, Decode;
    var offset := (target - at) / 4;
    JumpDecodes(true, offset);
    assert 4 * SignExt(offset % 0x400_0000, 0x200_0000) == target - at;
  }

  lemma RunPrologue(s: State)
    requires s.sp >= 16
    ensures var o, fp := Run(PrologueWords(), s), s.sp - 16;
      o.Next? && o.s == s.(x := s.x[29 := fp], sp := fp, pc := U64(s.pc + 8),
                           mem := StoreWord(StoreWord(s.mem, fp, 8, s.x[30]), fp + 8, 8, s.x[29]))
  {
    hide Bits.Or, Step, Run, RdRn, PushFrame, StoreWord, U64, LoadWord;
    var a, b := PushFrame(), RdRn(SF + ADD_IMM, 29, 31);
    StepPushFrame(s);
    var t := Step(a, s).s;
    StepMove(29, 31, t);
    RunCons(a, [b], s);
    RunOne(b, t);
    assert [a] + [b] == PrologueWords();
    Wraps(s.pc + 4, 4);
  }

  lemma RunEpilogue(s: State)
    requires s.x[29] + 16 < TWO64
    ensures var o, fp := Run(EpilogueWords(), s), s.x[29];
      var ret := LoadWord(s.mem, fp, 8);
      o.Next? && o.s == s.(x := s.x[30 := ret][29 := LoadWord(s.mem, fp + 8, 8)], sp := fp + 16, pc := ret)
  {
    hide Bits.Or, Step, RdRnImm, PopFrame, LoadWord;
    var a, b, c := RdRnImm(SF + ADD_IMM, 31, 29, 0), PopFrame(), RET;
    StepFramePointer(s);
    var t := Step(a, s).s;
    StepPopFrame(t);
    StepReturn(Step(b, t).s);
    RunThree(a, b, c, s);
  }

  // ---------------------------------------------------------------- frames on the stack

  /** Inside a function that has saved X30 and X29 at fp; in a framed one X29 points there. */
  ghost predicate Frame(kind: Kind, s: State, fp: u64, ret: u64, rbp: u64, top: int) {
    fp + 16 <= top < TWO64 && s.sp <= fp && (kind == Framed ==> s.x[29] == fp) &&
    LoadWord(s.mem, fp, 8) == ret && LoadWord(s.mem, fp + 8, 8) == rbp
  }

  /** On the x86 side the saved RBP is there and, above it, the return address; SP is RSP and X29 RBP. */
  ghost predicate InFrame(kind: Kind, s: State, g: Shadow, fp: u64, ret: u64, rbp: u64, back: int, top: int) {
    Frame(kind, s, fp, ret, rbp, top) &&
    g.rsp == s.sp && g.rbp == s.x[29] && Slot(g, fp) == rbp && Slot(g, fp + 8) == back
  }

  /** What a returned call has restored: control after the BL, SP, frame pointer and all of the
      stack above; on the x86 side likewise. */
  ghost predicate Returned(r: Run2, s: State, g: Shadow, sp: int, ret: u64, rbp: u64, back: int, top: int) {
    r.Done? && r.level && r.s.pc == ret && r.s.sp == sp && r.s.x[29] == rbp && KeepsStack(s, r.s, sp, top) &&
    r.g.rsp == sp && r.g.rbp == rbp && r.g.rip == back && forall a: int :: a >= sp ==> Slot(r.g, a) == Slot(g, a)
  }

  lemma LoadKept(s: State, t: State, a: int, top: int, x: int)
    requires KeepsStack(s, t, a, top) && a <= x && x + 8 <= top
    ensures LoadWord(t.mem, x, 8) == LoadWord(s.mem, x, 8)
  {
    assert ReadBytes(t.mem, x, 8) == ReadBytes(s.mem, x, 8);
  }

  lemma StoresBelow(m: Mem, a: int, v: u64, w: u64, x: int)
    requires a + 16 <= x
    ensures StoreWord(StoreWord(m, a, 8, v), a + 8, 8, w)[x] == m[x]
  {}

  lemma StoresRead(m: Mem, a: int, v: u64, w: u64)
    ensures var n := StoreWord(StoreWord(m, a, 8, v), a + 8, 8, w); LoadWord(n, a, 8) == v && LoadWord(n, a + 8, 8) == w
  {
    TwoStores(m, a, v, a + 8, w);
  }

  /** PUSH RBP, with or without MOV RBP, RSP, saves X30 and X29. */
  lemma Opens(kind: Kind, s: State, top: int)
    requires kind != Bare && 24 <= s.sp <= top < TWO64
    ensures var o := Run(OpenWords(kind), s);
      o.Next? && o.s.pc == U64(s.pc + 4 * |OpenWords(kind)|) && o.s.sp == s.sp - 16 && KeepsStack(s, o.s, s.sp, top) &&
      o.s.x[29] == (if kind == Framed then s.sp - 16 else s.x[29]) &&
      Frame(kind, o.s, s.sp - 16, s.x[30], s.x[29], top)
  {
    hide Run, PrologueWords, PushFrame, StoreWord, LoadWord, KeepsStack, Step, U64;
    var fp := s.sp - 16;
    if kind == Framed {
      RunPrologue(s);
      TwoOpening();
    } else {
      StepPushFrame(s);
      RunOne(PushFrame(), s);
    }
    SavedPair(s, Run(OpenWords(kind), s).s, fp, top);
  }

  lemma SavedPair(s: State, t: State, fp: u64, top: int)
    requires fp + 16 <= top < TWO64 && t.mem == StoreWord(StoreWord(s.mem, fp, 8, s.x[30]), fp + 8, 8, s.x[29])
    ensures LoadWord(t.mem, fp, 8) == s.x[30] && LoadWord(t.mem, fp + 8, 8) == s.x[29] && KeepsStack(s, t, fp + 16, top)
  {
    hide StoreWord, LoadWord;
    StoresRead(s.mem, fp, s.x[30], s.x[29]);
    forall x: int | fp + 16 <= x < top { StoresBelow(s.mem, fp, s.x[30], s.x[29], x); }
  }

  lemma TwoOpening()
    ensures |PrologueWords()| == 2
  {}

  /** So SP is RSP although CALL pushed nothing. */
  lemma PrologueEnters(kind: Kind, s: State, g: Shadow, top: int)
    requires kind != Bare && 24 <= s.sp <= top < TWO64 && g.rsp == s.sp - 8 && g.rbp == s.x[29]
    ensures var o, h := Run(OpenWords(kind), s), OpenShadow(kind, g);
      o.Next? && o.s.pc == U64(s.pc + 4 * |OpenWords(kind)|) && KeepsStack(s, o.s, s.sp, top) &&
      InFrame(kind, o.s, h, s.sp - 16, s.x[30], s.x[29], Slot(g, g.rsp), top) &&
      forall a: int :: a >= s.sp ==> Slot(h, a) == Slot(g, a)
  {
    hide Run, OpenWords, Frame, KeepsStack;
    Opens(kind, s, top);
  }

  /** LEAVE; RET or POP RBP; RET restores them. */
  lemma Closes(kind: Kind, s: State, fp: u64, ret: u64, rbp: u64, top: int)
    requires kind != Bare && Frame(kind, s, fp, ret, rbp, top) && (kind == Saved ==> s.sp == fp)
    ensures var o := Run(CloseWords(kind), s);
      o.Next? && o.s.pc == ret && o.s.x[30] == ret && o.s.sp == fp + 16 && o.s.x[29] == rbp &&
      KeepsStack(s, o.s, fp + 16, top)
  {
    hide Run, EpilogueWords, PopFrame, LoadWord, Step;
    if kind == Framed {
      RunEpilogue(s);
    } else {
      StepPopFrame(s);
      var t := Step(PopFrame(), s).s;
      StepReturn(t);
      RunCons(PopFrame(), [RET], s);
      RunOne(RET, t);
      assert [PopFrame()] + [RET] == [PopFrame(), RET];
    }
  }

  /** In step with the x86 machine. */
  lemma EpilogueLeaves(kind: Kind, s: State, g: Shadow, fp: u64, ret: u64, rbp: u64, back: int, top: int)
    requires kind != Bare && InFrame(kind, s, g, fp, ret, rbp, back, top) && (kind == Saved ==> s.sp == fp)
    ensures var o := Run(CloseWords(kind), s);
      o.Next? && Returned(Done(o.s, CloseShadow(kind, g), true), s, g, fp + 16, ret, rbp, back, top)
  {
    hide Run, CloseWords, LoadWord, KeepsStack;
    Closes(kind, s, fp, ret, rbp, top);
  }

  lemma FrameKept(kind: Kind, s: State, t: State, fp: u64, ret: u64, rbp: u64, top: int)
    requires Frame(kind, s, fp, ret, rbp, top) && KeepsStack(s, t, fp, top) && t.sp <= fp
    requires kind == Framed ==> t.x[29] == s.x[29]
    ensures Frame(kind, t, fp, ret, rbp, top)
  {
    hide LoadWord;
    LoadKept(s, t, fp, top, fp);
    LoadKept(s, t, fp, top, fp + 8);
  }

  // ---------------------------------------------------------------- where RET goes

  /** X30 at the end of a body that begins at at: the word after its last BL, or what it was. */
  function Link(b: Body, at: u64, link: u64): u64
    decreases b
  {
    match b
    case Return => link
    case Work(words, down, rest) => Link(rest, U64(at + 4 * |words|), link)
    case Call(callee, back, rest) => Link(rest, U64(at + 4), U64(at + 4))
  }

  /** Every function in the tree saves X30 or makes no call, or else X30 happened to hold the word after its
      last BL already when it was entered. */
  predicate Balanced(f: Function, link: u64)
    decreases f
  {
    CallsBalanced(f.body, BodyAt(f)) && (f.kind == Bare ==> Link(f.body, BodyAt(f), link) == link)
  }

  predicate CallsBalanced(b: Body, at: u64)
    decreases b
  {
    match b
    case Return => true
    case Work(words, down, rest) => CallsBalanced(rest, U64(at + 4 * |words|))
    case Call(callee, back, rest) => Balanced(callee, U64(at + 4)) && CallsBalanced(rest, U64(at + 4))
  }

  /** For instance a function that makes one call and no more returns only to where it made that call. */
  lemma OneCallExact(entry: u64, callee: Function, back: int, link: u64)
    requires Balanced(callee, U64(entry + 4))
    ensures Balanced(Function(Bare, entry, Call(callee, back, Return)), link) <==> link == U64(entry + 4)
  {
    var f := Function(Bare, entry, Call(callee, back, Return));
    NoOpening(f);
    hide OpenWords, BodyAt;
    assert CallsBalanced(Return, U64(entry + 4)) && Link(Return, U64(entry + 4), U64(entry + 4)) == U64(entry + 4);
    assert CallsBalanced(f.body, entry) && Link(f.body, entry, link) == U64(entry + 4);
  }

  lemma NoOpening(f: Function)
    requires f.kind == Bare
    ensures BodyAt(f) == f.entry
  {}

  /** The host's side of a return: control and X30 at ret, SP, frame pointer and the stack above restored. */
  ghost predicate Home(r: Run2, s: State, sp: int, ret: u64, fp: u64, top: int) {
    r.Done? && r.s.pc == ret && r.s.x[30] == ret && r.s.sp == sp && r.s.x[29] == fp && KeepsStack(s, r.s, sp, top)
  }

  lemma KeptFrom(s: State, t: State, u: State, a: int, b: int, c: int, top: int)
    requires KeepsStack(s, t, a, top) && KeepsStack(t, u, b, top) && a <= c && b <= c
    ensures KeepsStack(s, u, c, top)
  {}

  /** Over all call trees: RET comes back to the word after the BL, with SP, X29 and the caller's stack
      restored, exactly when the tree is balanced; otherwise control is somewhere else. */
  lemma {:induction false} ReturnExact(f: Function, s: State, g: Shadow, top: int)
    requires FunctionOk(f, s, g, top) && s.pc == f.entry && s.sp <= top < TWO64
    ensures var r := RunFunction(f, s, g);
      (r.Done? && r.s.pc == s.x[30] <==> Balanced(f, s.x[30])) &&
      (Balanced(f, s.x[30]) ==> Home(r, s, s.sp, s.x[30], s.x[29], top))
    decreases f
  {
    hide Run, OpenWords, LoadWord, KeepsStack, BodyOk, RunBody, CallsBalanced, Link, OpenShadow, U64, Frame;
    var h := OpenShadow(f.kind, g);
    if f.kind != Bare {
      Opens(f.kind, s, top);
      var o := Run(OpenWords(f.kind), s);
      BodyExact(f.kind, f.body, BodyAt(f), o.s, h, s.sp - 16, s.x[30], s.x[29], top);
      var r := RunBody(f.kind, f.body, BodyAt(f), o.s, h);
      if r.Done? { KeptFrom(s, o.s, r.s, s.sp, s.sp, s.sp, top); }
    } else {
      BareOpening(f, s);
      BareExact(f.body, f.entry, s, h, s.sp, top);
    }
  }

  lemma BareOpening(f: Function, s: State)
    requires f.kind == Bare
    ensures Run(OpenWords(f.kind), s) == Next(s) && BodyAt(f) == f.entry
  {
    hide Step, PushFrame, RdRn, PrologueWords;
    assert OpenWords(f.kind) == [];
  }

  lemma {:induction false} BodyExact(kind: Kind, b: Body, at: u64, s: State, g: Shadow, fp: u64, ret: u64, rbp: u64,
    top: int)
    requires kind != Bare && BodyOk(kind, b, at, s, g, fp, top) && s.pc == at && Frame(kind, s, fp, ret, rbp, top)
    ensures var r := RunBody(kind, b, at, s, g);
      if CallsBalanced(b, at) then Home(r, s, fp + 16, ret, rbp, top) else r.Astray?
    decreases b
  {
    hide Run, CloseWords, CloseShadow, LoadWord, Step, CallWord, KeepsStack, Frame, FunctionOk, RunFunction;
    hide Balanced, PushSlot, U64, AllFall;
    FrameBounds(kind, s, fp, ret, rbp, top);
    match b
    case Return =>
      Closes(kind, s, fp, ret, rbp, top);
    case Work(words, down, rest) =>
      WorkGoesOn(kind, words, down, s, fp, top);
      var t := Run(words, s).s;
      FrameKept(kind, s, t, fp, ret, rbp, top);
      BodyExact(kind, rest, U64(at + 4 * |words|), t, AfterWork(g, down, t), fp, ret, rbp, top);
      var r := RunBody(kind, rest, U64(at + 4 * |words|), t, AfterWork(g, down, t));
      if r.Done? { KeptFrom(s, t, r.s, fp, fp + 16, fp + 16, top); }
    case Call(callee, next, rest) =>
      StepCall(at, callee.entry, s);
      var t, h := Step(CallWord(at, callee.entry), s).s, PushSlot(g, next);
      ReturnExact(callee, t, h, top);
      var r := RunFunction(callee, t, h);
      if Balanced(callee, U64(at + 4)) {
        CallKeeps(s, t, r.s, t.sp, fp, top);
        FrameKept(kind, s, r.s, fp, ret, rbp, top);
        BodyExact(kind, rest, U64(at + 4), r.s, r.g, fp, ret, rbp, top);
        var q := RunBody(kind, rest, U64(at + 4), r.s, r.g);
        if q.Done? { KeptFrom(s, r.s, q.s, fp, fp + 16, fp + 16, top); }
      }
  }

  lemma FrameBounds(kind: Kind, s: State, fp: u64, ret: u64, rbp: u64, top: int)
    requires Frame(kind, s, fp, ret, rbp, top)
    ensures s.sp <= fp && fp + 16 <= top < TWO64
  {}

  lemma CallKeeps(s: State, t: State, u: State, sp: int, base: int, top: int)
    requires t.mem == s.mem && KeepsStack(t, u, sp, top) && sp <= base
    ensures KeepsStack(s, u, base, top)
  {}

  lemma {:induction false} BareExact(b: Body, at: u64, s: State, g: Shadow, base: int, top: int)
    requires BodyOk(Bare, b, at, s, g, base, top) && s.pc == at && s.sp <= base <= top < TWO64
    ensures var r := RunBody(Bare, b, at, s, g);
      if CallsBalanced(b, at) then Home(r, s, base, Link(b, at, s.x[30]), s.x[29], top) else r.Astray?
    decreases b
  {
    hide Run, LoadWord, Step, CallWord, KeepsStack, FunctionOk, RunFunction, Balanced, PushSlot, U64, AllFall;
    match b
    case Return =>
      RunOne(RET, s);
      StepReturn(s);
      SameStack(s, Run([RET], s).s, base, top);
    case Work(words, down, rest) =>
      WorkGoesOn(Bare, words, down, s, base, top);
      var t := Run(words, s).s;
      BareExact(rest, U64(at + 4 * |words|), t, AfterWork(g, down, t), base, top);
      var r := RunBody(Bare, rest, U64(at + 4 * |words|), t, AfterWork(g, down, t));
      if r.Done? { KeptFrom(s, t, r.s, base, base, base, top); }
    case Call(callee, next, rest) =>
      StepCall(at, callee.entry, s);
      var t, h := Step(CallWord(at, callee.entry), s).s, PushSlot(g, next);
      ReturnExact(callee, t, h, top);
      var r := RunFunction(callee, t, h);
      if Balanced(callee, U64(at + 4)) {
        CallKeeps(s, t, r.s, t.sp, base, top);
        BareExact(rest, U64(at + 4), r.s, r.g, base, top);
        var q := RunBody(Bare, rest, U64(at + 4), r.s, r.g);
        if q.Done? { KeptFrom(s, r.s, q.s, base, base, base, top); }
      }
  }

  lemma SameStack(s: State, t: State, a: int, top: int)
    requires t.mem == s.mem
    ensures KeepsStack(s, t, a, top)
  {}

  // ---------------------------------------------------------------- what happens otherwise

  /** Straight-line code that leaves X30 alone when started at w with X30 at w. */
  ghost predicate KeepsLink(tail: seq<nat>, w: u64) {
    AllFall(tail) &&
    forall t: State :: t.pc == w && t.x[30] == w ==> Run(tail, t).Next? && Run(tail, t).s.x[30] == w
  }

  /** n times the words after the last BL, each time up to and with the RET. */
  ghost function Rounds(tail: seq<nat>, s: State, n: nat): Outcome {
    if n == 0 then Next(s)
    else
      var o := Rounds(tail, s, n - 1);
      if o.Fault? then Fault else Run(tail + [RET], o.s)
  }

  lemma {:induction false} RoundsStay(tail: seq<nat>, w: u64, s: State, n: nat)
    requires KeepsLink(tail, w) && s.pc == w && s.x[30] == w
    ensures var o := Rounds(tail, s, n); o.Next? && o.s.pc == w && o.s.x[30] == w
  {
    hide Run, Step;
    if n > 0 {
      RoundsStay(tail, w, s, n - 1);
      var t := Rounds(tail, s, n - 1).s;
      var u := Run(tail, t).s;
      RunConcat(tail, [RET], t);
      RunOne(RET, u);
      StepReturn(u);
    }
  }

  /** Without a frame a caller does not return: once its last callee, whatever tree that is, has come
      back, its RET jumps to the word after the BL, any number of times. */
  lemma FramelessCallerSpins(at: u64, callee: Function, tail: seq<nat>, s: State, g: Shadow, top: int, n: nat)
    requires InReach(at, callee.entry) && s.pc == at && s.sp <= top < TWO64 && KeepsLink(tail, U64(at + 4))
    requires var o := Step(CallWord(at, callee.entry), s); o.Next? ==> FunctionOk(callee, o.s, g, top)
    requires Balanced(callee, U64(at + 4))
    ensures var o := Step(CallWord(at, callee.entry), s);
      o.Next? && var r := RunFunction(callee, o.s, g);
      r.Done? && var p := Rounds(tail, r.s, n);
      p.Next? && p.s.pc == U64(at + 4) && p.s.x[30] == U64(at + 4)
  {
    hide Run, Step, CallWord, KeepsStack;
    StepCall(at, callee.entry, s);
    var t := Step(CallWord(at, callee.entry), s).s;
    ReturnExact(callee, t, g, top);
    RoundsStay(tail, U64(at + 4), RunFunction(callee, t, g).s, n);
  }

  // ---------------------------------------------------------------- in step with the x86 machine

  predicate NoCalls(b: Body) {
    match b
    case Return => true
    case Work(words, down, rest) => NoCalls(rest)
    case Call(callee, back, rest) => false
  }

  /** Every function that makes a call saves X30. */
  predicate CallersFramed(f: Function)
    decreases f
  {
    (f.kind != Bare || NoCalls(f.body)) && AllFramed(f.body)
  }

  predicate AllFramed(b: Body)
    decreases b
  {
    match b
    case Return => true
    case Work(words, down, rest) => AllFramed(rest)
    case Call(callee, back, rest) => CallersFramed(callee) && AllFramed(rest)
  }

  /** This is the part of being balanced that does not depend on where the code lies. */
  lemma {:induction false} FramedIsBalanced(f: Function, link: u64)
    requires CallersFramed(f)
    ensures Balanced(f, link)
    decreases f
  {
    FramedCallsBalanced(f.body, BodyAt(f));
    if f.kind == Bare { NoCallsNoLink(f.body, BodyAt(f), link); }
  }

  lemma {:induction false} FramedCallsBalanced(b: Body, at: u64)
    requires AllFramed(b)
    ensures CallsBalanced(b, at)
    decreases b
  {
    match b
    case Return =>
    case Work(words, down, rest) => FramedCallsBalanced(rest, U64(at + 4 * |words|));
    case Call(callee, back, rest) =>
      FramedIsBalanced(callee, U64(at + 4));
      FramedCallsBalanced(rest, U64(at + 4));
  }

  lemma {:induction false} NoCallsNoLink(b: Body, at: u64, link: u64)
    requires NoCalls(b)
    ensures Link(b, at, link) == link
    decreases b
  {
    match b
    case Return =>
    case Work(words, down, rest) => NoCallsNoLink(rest, U64(at + 4 * |words|), link);
  }

  /** Then every call, at any depth, returns to the word after its BL with SP, X29 and the caller's stack
      restored, in step with the x86 machine. */
  lemma {:induction false} FunctionReturns(f: Function, s: State, g: Shadow, top: int)
    requires CallersFramed(f) && FunctionOk(f, s, g, top) && s.pc == f.entry && s.sp <= top < TWO64
    requires g.rsp == s.sp - 8 && g.rbp == s.x[29]
    ensures Returned(RunFunction(f, s, g), s, g, s.sp, s.x[30], s.x[29], Slot(g, g.rsp), top)
    decreases f
  {
    hide Run, OpenWords, LoadWord, BodyOk, RunBody, NoCalls, AllFramed, OpenShadow, U64, KeepsStack, Frame;
    var h := OpenShadow(f.kind, g);
    if f.kind != Bare {
      PrologueEnters(f.kind, s, g, top);
      var o := Run(OpenWords(f.kind), s);
      BodyReturns(f.kind, f.body, BodyAt(f), o.s, h, s.sp - 16, s.x[30], s.x[29], Slot(g, g.rsp), top);
      var r := RunBody(f.kind, f.body, BodyAt(f), o.s, h);
      KeptFrom(s, o.s, r.s, s.sp, s.sp, s.sp, top);
    } else {
      BareOpening(f, s);
      BareShadow(f.kind, g);
      LeafReturns(f.body, f.entry, s, h, s.sp, top);
    }
  }

  lemma BareShadow(kind: Kind, g: Shadow)
    requires kind == Bare
    ensures OpenShadow(kind, g) == g
  {}

  lemma {:induction false} LeafReturns(b: Body, at: u64, s: State, g: Shadow, base: int, top: int)
    requires NoCalls(b) && BodyOk(Bare, b, at, s, g, base, top) && s.pc == at && s.sp <= base <= top < TWO64
    requires g.rsp == s.sp - 8 && g.rbp == s.x[29]
    ensures Returned(RunBody(Bare, b, at, s, g), s, g, base, s.x[30], s.x[29], Slot(g, base - 8), top)
    decreases b
  {
    hide Run, Step, LoadWord, KeepsStack, FunctionOk, RunFunction, U64, Slot, AllFall, Returned;
    match b
    case Return =>
      LeafReturn(s, g, top);
    case Work(words, down, rest) =>
      WorkGoesOn(Bare, words, down, s, base, top);
      var t := Run(words, s).s;
      var h := AfterWork(g, down, t);
      LeafReturns(rest, U64(at + 4 * |words|), t, h, base, top);
      SameSlots(g, h);
      ReturnedBefore(RunBody(Bare, rest, U64(at + 4 * |words|), t, h), s, t, g, h, base, s.x[30], s.x[29],
        Slot(g, base - 8), top);
  }

  lemma LeafReturn(s: State, g: Shadow, top: int)
    requires g.rsp == s.sp - 8 && g.rbp == s.x[29]
    ensures var o := Run([RET], s);
      o.Next? && Returned(Done(o.s, PopReturn(g), true), s, g, s.sp, s.x[30], s.x[29], Slot(g, s.sp - 8), top)
  {
    hide Run, Step, KeepsStack;
    RunOne(RET, s);
    StepReturn(s);
    SameStack(s, Run([RET], s).s, s.sp, top);
    SameSlots(g, PopReturn(g));
  }

  lemma ReturnedBefore(r: Run2, s: State, t: State, g: Shadow, h: Shadow, sp: int, ret: u64, rbp: u64, back: int,
    top: int)
    requires Returned(r, t, h, sp, ret, rbp, back, top) && KeepsStack(s, t, sp, top) && h.stack == g.stack
    ensures Returned(r, s, g, sp, ret, rbp, back, top)
  {
    hide KeepsStack, Slot;
    SameSlots(g, h);
    KeptFrom(s, t, r.s, sp, sp, sp, top);
  }

  lemma SameSlots(g: Shadow, h: Shadow)
    requires h.stack == g.stack
    ensures forall a: int :: Slot(h, a) == Slot(g, a)
  {}

  lemma {:induction false} BodyReturns(kind: Kind, b: Body, at: u64, s: State, g: Shadow, fp: u64, ret: u64, rbp: u64,
    back: int, top: int)
    requires kind != Bare && AllFramed(b) && BodyOk(kind, b, at, s, g, fp, top) && s.pc == at
    requires InFrame(kind, s, g, fp, ret, rbp, back, top)
    ensures Returned(RunBody(kind, b, at, s, g), s, g, fp + 16, ret, rbp, back, top)
    decreases b
  {
    hide Run, CloseWords, CloseShadow, LoadWord, Step, CallWord, FunctionOk, RunFunction, CallersFramed, U64;
    hide AllFall, KeepsStack, Frame;
    FrameBounds(kind, s, fp, ret, rbp, top);
    match b
    case Return =>
      EpilogueLeaves(kind, s, g, fp, ret, rbp, back, top);
    case Work(words, down, rest) =>
      WorkGoesOn(kind, words, down, s, fp, top);
      var t := Run(words, s).s;
      var h := AfterWork(g, down, t);
      FrameKept(kind, s, t, fp, ret, rbp, top);
      SameSlots(g, h);
      BodyReturns(kind, rest, U64(at + 4 * |words|), t, h, fp, ret, rbp, back, top);
      KeptFrom(s, t, RunBody(kind, rest, U64(at + 4 * |words|), t, h).s, fp, fp + 16, fp + 16, top);
    case Call(callee, next, rest) =>
      StepCall(at, callee.entry, s);
      var t, h := Step(CallWord(at, callee.entry), s).s, PushSlot(g, next);
      FunctionReturns(callee, t, h, top);
      var r := RunFunction(callee, t, h);
      CallKeeps(s, t, r.s, t.sp, fp, top);
      FrameKept(kind, s, r.s, fp, ret, rbp, top);
      BodyReturns(kind, rest, U64(at + 4), r.s, r.g, fp, ret, rbp, back, top);
      KeptFrom(s, r.s, RunBody(kind, rest, U64(at + 4), r.s, r.g).s, fp, fp + 16, fp + 16, top);
  }
}

/** The guest machine: x86-64 registers and memory, and where the host keeps them. */
module X86 {
  import opened Bits
  import opened Memory
  import Arm64
  import opened Emitter

  type GuestRegs = r: seq<u64> | |r| == 16 witness seq(16, _ => 0)

  datatype Guest = Guest(r: GuestRegs, mem: Mem)

  function GuestReg(s: Arm64.State, r: nat): u64
    requires r < 16
  {
    Arm64.XSp(s, X64Reg(r))
  }

  /** The guest state that a host state represents. */
  ghost function View(s: Arm64.State): Guest {
    var r := seq(16, i requires 0 <= i < 16 => GuestReg(s, i));
    Guest(r, s.mem)
  }

  function SetReg(g: Guest, r: nat, v: u64): Guest
    requires r < 16
  {
    g.(r := g.r[r := v])
  }

  /** A scratch register is invisible to the guest. */
  lemma ViewIgnoresScratch(s: Arm64.State, r: nat, v: u64)
    requires r == SC1R || r == SC2R
    ensures View(Arm64.SetX(s, r, v)) == View(s)
  {
    forall i: nat | i < 16 { GuestRegistersApart(i, i); }
  }

  lemma ViewSetsGuest(s: Arm64.State, r: nat, v: u64)
    requires r < 16
    ensures View(Arm64.SetXSp(s, X64Reg(r), v)) == SetReg(View(s), r, v)
  {
    forall i: nat | i < 16 { GuestRegistersApart(i, r); }
    var t := Arm64.SetXSp(s, X64Reg(r), v);
    forall i | 0 <= i < 16 ensures View(t).r[i] == SetReg(View(s), r, v).r[i] {}
  }

  lemma ViewReads(s: Arm64.State, r: nat)
    requires r < 16
    ensures View(s).r[r] == Arm64.XSp(s, X64Reg(r))
    ensures r != RSP ==> View(s).r[r] == Arm64.X(s, X64Reg(r))
  {
    GuestRegistersApart(r, r);
  }

  lemma ViewIgnoresPc(s: Arm64.State, pc: u64)
    ensures View(s.(pc := pc)) == View(s)
  {}

  // ---------------------------------------------------------------- PUSH and POP

  datatype StackOp = Push(r: nat) | PushImm(imm: i64) | Pop(r: nat)

  predicate ValidOp(op: StackOp) {
    op.PushImm? || op.r < 16
  }

  predicate AllValid(ops: seq<StackOp>) {
    forall i :: 0 <= i < |ops| ==> ValidOp(ops[i])
  }

  /** The value pushed, read before RSP moves. */
  function Operand(op: StackOp, g: Guest): u64
    requires ValidOp(op) && !op.Pop?
  {
    if op.Push? then g.r[op.r] else U64(op.imm)
  }

  /** Intel SDM Vol. 2: PUSH stores below RSP and then lowers it; POP raises RSP first. */
  ghost function StackStep(op: StackOp, g: Guest): Guest
    requires ValidOp(op)
  {
    if op.Pop? then
      SetReg(SetReg(g, RSP, Add64(g.r[RSP], 8)), op.r, LoadWord(g.mem, g.r[RSP], 8))
    else
      var top := Add64(g.r[RSP], -8);
      SetReg(g, RSP, top).(mem := StoreWord(g.mem, top, 8, Operand(op, g)))
  }

  ghost function StackRun(ops: seq<StackOp>, g: Guest): Guest
    requires AllValid(ops)
  {
    if ops == [] then g else StackStep(ops[|ops| - 1], StackRun(ops[..|ops| - 1], g))
  }
}

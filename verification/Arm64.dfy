/** Executable meaning of the AArch64 words that the recompiler emits
    (Arm Architecture Reference Manual, DDI 0487, section C6.2; conditions C1.2.4).

    Decode reads the fields of a 32-bit word; Exec gives the effect of the instruction
    on registers, stack pointer, flags, memory and pc.  Anything outside the emitted
    formats, and an LDP naming one register twice, has no defined effect: Fault. */
module Arm64 {
  import opened Bits
  import opened Memory

  datatype Flags = Flags(n: bool, z: bool, c: bool, v: bool)

  type Regs = x: seq<u64> | |x| == 31 witness seq(31, _ => 0)

  datatype State = State(x: Regs, sp: u64, f: Flags, mem: Mem, pc: u64)

  datatype Outcome = Next(s: State) | Fault

  datatype PairMode = Offset | PreIndex | PostIndex

  datatype Instr =
    | AddSubImm(sf: bool, sub: bool, setf: bool, imm: nat, rn: nat, rd: nat)
    | AddSubReg(sf: bool, sub: bool, setf: bool, rm: nat, rn: nat, rd: nat)
    | MovZ(sf: bool, hw: nat, imm: nat, rd: nat)
    | MovN(sf: bool, hw: nat, imm: nat, rd: nat)
    | MovK(sf: bool, hw: nat, imm: nat, rd: nat)
    | Sbfm(immr: nat, imms: nat, rn: nat, rd: nat)
    | Ubfm(immr: nat, imms: nat, rn: nat, rd: nat)
    | Adrp(pages: int, rd: nat)
    | Load(size: nat, off: int, rn: nat, rt: nat)
    | Store(size: nat, off: int, rn: nat, rt: nat)
    | Ldp(mode: PairMode, off: int, rt2: nat, rn: nat, rt: nat)
    | Stp(mode: PairMode, off: int, rt2: nat, rn: nat, rt: nat)
    | Csel(sf: bool, cond: nat, rm: nat, rn: nat, rd: nat)
    | Csinc(sf: bool, cond: nat, rm: nat, rn: nat, rd: nat)
    | B(off: int)
    | BL(off: int)
    | BCond(cond: nat, off: int)
    | Br(rn: nat)
    | Blr(rn: nat)
    | Ret(rn: nat)
    | Brk(imm: nat)
    | Other

  /** Two's complement reading of an n-bit field, half == 2^(n-1). */
  function SignExt(x: nat, half: nat): int {
    if x < half then x else x - 2 * half
  }

  /** The instruction of the word whose bits 31..22, 21..10, 9..5 and 4..0 are given. */
  function DecodeFields(top: nat, mid: nat, rn: nat, rd: nat): Instr {
    var sf, op31_29, op28_24, b23_22 := top / 0x200 == 1, top / 0x80, (top / 4) % 32, top % 4;
    var rm := (mid / 0x40) % 32;
    if op28_24 == 0x11 && b23_22 < 2 then                        // add/subtract immediate
      AddSubImm(sf, (op31_29 / 2) % 2 == 1, op31_29 % 2 == 1, if b23_22 == 1 then 0x1000 * mid else mid, rn, rd)
    else if op28_24 == 0x0B && b23_22 == 0 && mid / 0x800 == 0 && mid % 0x40 == 0 then
      AddSubReg(sf, (op31_29 / 2) % 2 == 1, op31_29 % 2 == 1, rm, rn, rd)
    else if op28_24 == 0x12 && b23_22 >= 2 then                  // move wide
      DecodeMoveWide(op31_29 % 4, sf, 2 * (b23_22 - 2) + mid / 0x800, (mid % 0x800) * 0x20 + rn, rd)
    else if op28_24 == 0x13 && b23_22 == 1 && sf then            // bitfield, 64-bit
      DecodeBitfield(op31_29 % 4, mid / 0x40, mid % 0x40, rn, rd)
    else if op28_24 == 0x10 && sf then
      Adrp(SignExt(((b23_22 * 0x1000 + mid) * 0x20 + rn) * 4 + op31_29 % 4, 0x10_0000), rd)
    else if op28_24 == 0x19 && (op31_29 == 5 || op31_29 == 7) && b23_22 < 2 then
      DecodeAccess(b23_22, op31_29, mid, rn, rd)
    else if op28_24 == 0x18 && (op31_29 == 5 || op31_29 == 7) && b23_22 < 2 && mid / 0x800 == 0 && mid % 4 == 0 then
      DecodeUnscaled(b23_22, op31_29, SignExt(mid / 4, 0x100), rn, rd)
    else if op31_29 == 5 && (op28_24 == 8 || op28_24 == 9) then
      DecodePair(2 * (op28_24 % 2) + b23_22 / 2, b23_22 % 2, 8 * SignExt(mid / 0x20, 0x40), mid % 0x20, rn, rd)
    else if op31_29 % 4 == 0 && op28_24 == 0x1A && b23_22 == 2 && mid / 0x800 == 0 && (mid / 2) % 2 == 0 then
      if mid % 2 == 0 then Csel(sf, (mid / 4) % 16, rm, rn, rd) else Csinc(sf, (mid / 4) % 16, rm, rn, rd)
    else DecodeBranch(top, mid, rn, rd)
  }

  function Decode(w: nat): Instr {
    DecodeFields(w / 0x40_0000, (w / 0x400) % 0x1000, (w / 0x20) % 32, w % 32)
  }

  /** Reading back the four parts of a word. */
  lemma DecodeParts(top: nat, mid: nat, rn: nat, rd: nat)
    requires mid < 0x1000 && rn < 32 && rd < 32
    ensures Decode(top * 0x40_0000 + mid * 0x400 + rn * 0x20 + rd) == DecodeFields(top, mid, rn, rd)
  {
    hide DecodeFields;
    var w := top * 0x40_0000 + mid * 0x400 + rn * 0x20 + rd;
    assert w % 32 == rd && w / 0x20 == top * 0x2_0000 + mid * 0x20 + rn;
    assert (w / 0x20) % 32 == rn && w / 0x400 == top * 0x1000 + mid;
    assert (w / 0x400) % 0x1000 == mid && w / 0x40_0000 == top;
  }

  function DecodeMoveWide(opc: nat, sf: bool, hw: nat, imm: nat, rd: nat): Instr {
    if opc == 0 then MovN(sf, hw, imm, rd)
    else if opc == 2 then MovZ(sf, hw, imm, rd)
    else if opc == 3 then MovK(sf, hw, imm, rd)
    else Other
  }

  function DecodeBitfield(opc: nat, immr: nat, imms: nat, rn: nat, rd: nat): Instr {
    if opc == 0 then Sbfm(immr, imms, rn, rd)
    else if opc == 2 then Ubfm(immr, imms, rn, rd)
    else Other
  }

  function DecodeAccess(opc: nat, size: nat, imm: nat, rn: nat, rt: nat): Instr {
    var bytes := if size == 7 then 8 else 4;
    if opc == 1 then Load(bytes, bytes * imm, rn, rt) else Store(bytes, bytes * imm, rn, rt)
  }

  function DecodeUnscaled(opc: nat, size: nat, off: int, rn: nat, rt: nat): Instr {
    var bytes := if size == 7 then 8 else 4;
    if opc == 1 then Load(bytes, off, rn, rt) else Store(bytes, off, rn, rt)
  }

  function DecodePair(mode: nat, load: nat, off: int, rt2: nat, rn: nat, rt: nat): Instr {
    if mode == 0 then Other
    else
      var m := if mode == 1 then PostIndex else if mode == 2 then Offset else PreIndex;
      if load == 1 then Ldp(m, off, rt2, rn, rt) else Stp(m, off, rt2, rn, rt)
  }

  function DecodeBranch(top: nat, mid: nat, rn: nat, rd: nat): Instr {
    var imm26 := ((top % 0x10) * 0x1000 + mid) * 0x400 + rn * 0x20 + rd;
    if top / 0x10 == 0x05 then B(4 * SignExt(imm26, 0x200_0000))
    else if top / 0x10 == 0x25 then BL(4 * SignExt(imm26, 0x200_0000))
    else if top / 4 == 0x54 && rd < 16 then
      BCond(rd, 4 * SignExt(((top % 4) * 0x1000 + mid) * 0x20 + rn, 0x4_0000))
    else if top == 0x350 && mid / 0x800 == 1 && rd == 0 then Brk((mid % 0x800) * 0x20 + rn)
    else if top == 0x358 && mid == 0x7C0 && rd == 0 then Br(rn)
    else if top == 0x358 && mid == 0xFC0 && rd == 0 then Blr(rn)
    else if top == 0x359 && mid == 0x7C0 && rd == 0 then Ret(rn)
    else Other
  }

  // ---------------------------------------------------------------- register access

  /** Register 31 is the zero register in most positions ... */
  function X(s: State, r: nat): u64 {
    if r < 31 then s.x[r] else 0
  }

  /** ... and the stack pointer as an address base or in add/subtract immediate. */
  function XSp(s: State, r: nat): u64 {
    if r < 31 then s.x[r] else s.sp
  }

  function SetX(s: State, r: nat, v: u64): State {
    if r < 31 then s.(x := s.x[r := v]) else s
  }

  function SetXSp(s: State, r: nat, v: u64): State {
    if r < 31 then s.(x := s.x[r := v]) else s.(sp := v)
  }

  // ---------------------------------------------------------------- data processing

  function Width(sf: bool): nat { if sf then TWO64 else TWO32 }

  function SInt(x: int, m: nat): int {
    if 2 * x < m then x else x - m
  }

  datatype Sum = Sum(result: u64, f: Flags)

  /** AddWithCarry of the shared pseudocode, on operands below m == 2^N. */
  function AddWithCarry(x: nat, y: nat, carry: nat, m: nat): Sum
    requires x < m && y < m && carry < 2 && (m == TWO64 || m == TWO32)
  {
    var unsignedSum := x + y + carry;
    var signedSum := SInt(x, m) + SInt(y, m) + carry;
    var result := if unsignedSum < m then unsignedSum else unsignedSum - m;
    Sum(result, Flags(2 * result >= m, result == 0, result != unsignedSum, SInt(result, m) != signedSum))
  }

  function AddSub(x: u64, y: u64, sf: bool, sub: bool): Sum {
    var m := Width(sf);
    if sub then AddWithCarry(x % m, m - 1 - y % m, 1, m) else AddWithCarry(x % m, y % m, 0, m)
  }

  lemma AddSubResult(x: u64, y: u64, sf: bool, sub: bool)
    ensures AddSub(x, y, sf, sub).result == (if sub then x - y else x + y) % Width(sf)
  {
    var m := Width(sf);
    ModSum(x, y, m, sub);
  }

  lemma ModSum(x: nat, y: nat, m: nat, sub: bool)
    requires m > 0
    ensures (if sub then x - y else x + y) % m
         == (var a, b := x % m, y % m;
             if sub then (if a < b then a - b + m else a - b) else (if a + b < m then a + b else a + b - m))
  {
    var a, b, p, q := x % m, y % m, x / m, y / m;
    if sub {
      assert x - y == m * (p - q) + (a - b) && m * (p - q - 1) == m * (p - q) - m;
      if a < b { DivUnique(x - y, m, p - q - 1, a - b + m); } else { DivUnique(x - y, m, p - q, a - b); }
    } else {
      assert x + y == m * (p + q) + (a + b) && m * (p + q + 1) == m * (p + q) + m;
      if a + b < m { DivUnique(x + y, m, p + q, a + b); } else { DivUnique(x + y, m, p + q + 1, a + b - m); }
    }
  }

  function HalfwordWeight(hw: nat): nat {
    if hw == 0 then 1 else if hw == 1 then 0x1_0000 else if hw == 2 then 0x1_0000_0000 else 0x1_0000_0000_0000
  }

  /** Keep every other halfword of v, put imm in halfword hw. */
  function InsertHalfword(v: u64, hw: nat, imm: nat): int {
    var p := HalfwordWeight(hw);
    v - ((v / p) % 0x1_0000) * p + imm * p
  }

  function CondHolds(cond: nat, f: Flags): bool {
    var base :=
      match cond / 2
      case 0 => f.z
      case 1 => f.c
      case 2 => f.n
      case 3 => f.v
      case 4 => f.c && !f.z
      case 5 => f.n == f.v
      case 6 => f.n == f.v && !f.z
      case _ => true;
    if cond % 2 == 1 && cond != 15 then !base else base
  }

  function Advance(s: State): State {
    s.(pc := U64(s.pc + 4))
  }

  ghost function Exec(i: Instr, s: State): Outcome {
    match i
    case AddSubImm(sf, sub, setf, imm, rn, rd) =>
      var r := AddSub(XSp(s, rn), U64(imm), sf, sub);
      Next(Advance(if setf then SetX(s.(f := r.f), rd, r.result) else SetXSp(s, rd, r.result)))
    case AddSubReg(sf, sub, setf, rm, rn, rd) =>
      var r := AddSub(X(s, rn), X(s, rm), sf, sub);
      Next(Advance(SetX(if setf then s.(f := r.f) else s, rd, r.result)))
    case MovZ(sf, hw, imm, rd) =>
      if sf || hw < 2 then Next(Advance(SetX(s, rd, U64(imm * HalfwordWeight(hw))))) else Fault
    case MovN(sf, hw, imm, rd) =>
      if sf then Next(Advance(SetX(s, rd, U64(-1 - imm * HalfwordWeight(hw))))) else Fault
    case MovK(sf, hw, imm, rd) =>
      if sf then Next(Advance(SetX(s, rd, U64(InsertHalfword(X(s, rd), hw, imm))))) else Fault
    case Sbfm(immr, imms, rn, rd) =>
      if immr == 0 && imms == 31 then Next(Advance(SetX(s, rd, SignExtendWord(X(s, rn))))) else Fault
    case Ubfm(immr, imms, rn, rd) =>
      // LSL #(63 - imms); the only unsigned bitfield move that is emitted
      if imms < 63 && immr == imms + 1 then
        Next(Advance(SetX(s, rd, U64(X(s, rn) * Pow2(63 - imms)))))
      else Fault
    case Adrp(imm, rd) =>
      Next(Advance(SetX(s, rd, U64(s.pc - s.pc % 0x1000 + imm * 0x1000))))
    case Load(size, off, rn, rt) =>
      Next(Advance(SetX(s, rt, LoadWord(s.mem, U64(XSp(s, rn) + off), size))))
    case Store(size, off, rn, rt) =>
      Next(Advance(s.(mem := StoreWord(s.mem, U64(XSp(s, rn) + off), size, X(s, rt)))))
    case Ldp(mode, off, rt2, rn, rt) =>
      if rt == rt2 then Fault
      else
        var a := U64(XSp(s, rn) + (if mode == PostIndex then 0 else off));
        var t := SetX(SetX(s, rt, LoadWord(s.mem, a, 8)), rt2, LoadWord(s.mem, U64(a + 8), 8));
        WriteBack(t, s, mode, off, rn, rt, rt2)
    case Stp(mode, off, rt2, rn, rt) =>
      var a := U64(XSp(s, rn) + (if mode == PostIndex then 0 else off));
      var t := s.(mem := StoreWord(StoreWord(s.mem, a, 8, X(s, rt)), U64(a + 8), 8, X(s, rt2)));
      WriteBack(t, s, mode, off, rn, rt, rt2)
    case Csel(sf, cond, rm, rn, rd) =>
      Next(Advance(SetX(s, rd, (if CondHolds(cond, s.f) then X(s, rn) else X(s, rm)) % Width(sf))))
    case Csinc(sf, cond, rm, rn, rd) =>
      Next(Advance(SetX(s, rd, (if CondHolds(cond, s.f) then X(s, rn) else U64(X(s, rm) + 1)) % Width(sf))))
    case B(off) => Next(s.(pc := U64(s.pc + off)))
    case BL(off) => Next(SetX(s, 30, U64(s.pc + 4)).(pc := U64(s.pc + off)))
    case BCond(cond, off) => Next(s.(pc := U64(s.pc + (if CondHolds(cond, s.f) then off else 4))))
    case Br(rn) => Next(s.(pc := X(s, rn)))
    case Blr(rn) => Next(SetX(s, 30, U64(s.pc + 4)).(pc := X(s, rn)))
    case Ret(rn) => Next(s.(pc := X(s, rn)))
    case Brk(_) => Fault
    case Other => Fault
  }

  /** Sign extension of the low 32 bits (SXTW). */
  function SignExtendWord(v: u64): u64 {
    U64(SInt(v % TWO32, TWO32))
  }

  ghost function WriteBack(t: State, s: State, mode: PairMode, off: int, rn: nat, rt: nat, rt2: nat): Outcome {
    if mode == Offset then Next(Advance(t))
    else if rn < 31 && (rn == rt || rn == rt2) then Fault
    else Next(Advance(SetXSp(t, rn, U64(XSp(s, rn) + off))))
  }

  ghost function Step(w: nat, s: State): Outcome {
    Exec(Decode(w), s)
  }

  /** Executes words in order; only used for words that fall through. */
  ghost function Run(ws: seq<nat>, s: State): Outcome {
    if ws == [] then Next(s)
    else
      var o := Step(ws[0], s);
      if o.Fault? then Fault else Run(ws[1..], o.s)
  }

  lemma {:induction false} RunConcat(a: seq<nat>, b: seq<nat>, s: State)
    ensures Run(a + b, s) == if Run(a, s).Fault? then Fault else Run(b, Run(a, s).s)
  {
    if a == [] {
      assert a + b == b;
    } else {
      assert (a + b)[1..] == a[1..] + b;
      var o := Step(a[0], s);
      if o.Next? { RunConcat(a[1..], b, o.s); }
    }
  }

  lemma RunOne(w: nat, s: State)
    ensures Run([w], s) == Step(w, s)
  {
    var o := Step(w, s);
    if o.Next? {
      assert [w][1..] == [];
      assert Run([], o.s) == o;
    }
  }

  lemma RunCons(w: nat, ws: seq<nat>, s: State)
    ensures Run([w] + ws, s) == if Step(w, s).Fault? then Fault else Run(ws, Step(w, s).s)
  {
    RunOne(w, s);
    RunConcat([w], ws, s);
  }
}

/** ModR/M and SIB decoding (decode_rm and decode_rex of src/decoder.c), against the address
    tables of the Intel SDM Vol. 2A, sections 2.1.5, 2.2.1.2 and 2.2.1.6. */
module Operands {
  import opened Bits
  import opened Emitter
  import opened X86

  /** The operand type bits REG, MEM, IDX and IMM. */
  datatype OpType = OpType(reg: bool, mem: bool, idx: bool, imm: bool)

  const REG_ONLY := OpType(true, false, false, false)
  const MEM_IMM := OpType(false, true, false, true)
  const MEM_REG := OpType(true, true, false, false)
  const MEM_REG_IMM := OpType(true, true, false, true)

  datatype Operand = Operand(t: OpType, reg: nat, idx: nat, scale: nat, imm: int)

  /** Register numbers are below 16 where they count: the instruction buffer is not cleared, so fields that
      the operand's type does not use may hold anything. */
  predicate Numbered(op: Operand) {
    (op.t.reg || (!op.t.idx && op.t != MEM_IMM) ==> op.reg < 16) && (op.t.idx ==> op.idx < 16)
  }

  /** Guest code as an unbounded byte image. */
  type Code = nat -> u8

  /** Four bytes, the first one lowest. */
  function Fetch32(code: Code, gp: nat): u32 {
    code(gp) + 0x100 * code(gp + 1) + 0x1_0000 * code(gp + 2) + 0x100_0000 * code(gp + 3)
  }

  lemma FetchedBytes(code: Code, gp: nat)
    ensures var w := Fetch32(code, gp);
      w % 0x100 == code(gp) && (w / 0x100) % 0x100 == code(gp + 1) &&
      (w / 0x1_0000) % 0x100 == code(gp + 2) && w / 0x100_0000 == code(gp + 3)
  {
    var a: nat, b: nat, c: nat, d: nat := code(gp), code(gp + 1), code(gp + 2), code(gp + 3);
    var w := Fetch32(code, gp);
    DivUnique(w, 0x100, b + 0x100 * c + 0x1_0000 * d, a);
    DivUnique(w, 0x1_0000, c + 0x100 * d, a + 0x100 * b);
    DivUnique(w, 0x100_0000, d, a + 0x100 * b + 0x1_0000 * c);
    DivUnique(b + 0x100 * c + 0x1_0000 * d, 0x100, c + 0x100 * d, b);
    DivUnique(c + 0x100 * d, 0x100, d, c);
  }

  /** The signed number that a byte stands for, and that four bytes stand for. */
  function Int8(b: u8): (v: int)
    ensures -0x80 <= v < 0x80 && v % 0x100 == b
  {
    if b < 0x80 then b else b - 0x100
  }

  function Int32(w: u32): (v: int)
    ensures -0x8000_0000 <= v < 0x8000_0000 && v % 0x1_0000_0000 == w
  {
    if w < 0x8000_0000 then w else w - 0x1_0000_0000
  }

  datatype Decoded = Decoded(op: Operand, gp: nat)

  /** decode_rm: op is the operand as it stood, gp the position after the ModR/M byte. */
  function DecodeRm(code: Code, gp: nat, op: Operand, modrm: u8): Decoded {
    var mod, rm := modrm / 64, modrm % 8;
    if mod < 3 then
      var d :=
        if rm == 4 then
          var sib := code(gp);
          var o := op.(reg := sib % 8, idx := (sib / 8) % 8, scale := sib / 64);
          if o.reg == 5 && mod == 0 then
            Decoded(o.(t := OpType(false, true, o.idx != 4, true), imm := Int32(Fetch32(code, gp + 1))), gp + 5)
          else
            Decoded(o.(t := OpType(true, true, o.idx != 4, false)), gp + 1)
        else if mod == 0 && rm == 5 then
          Decoded(op.(t := MEM_IMM, imm := Int32(Fetch32(code, gp))), gp + 4)
        else
          Decoded(op.(t := MEM_REG, reg := rm), gp);
      if mod == 1 then
        Decoded(d.op.(t := d.op.t.(imm := true), imm := Int8(code(d.gp))), d.gp + 1)
      else if mod == 2 then
        Decoded(d.op.(t := d.op.t.(imm := true), imm := Int32(Fetch32(code, d.gp))), d.gp + 4)
      else d
    else
      Decoded(op.(t := REG_ONLY, reg := rm), gp)
  }

  /** The REX bits that decode_rex adds to the operand coded in ModR/M and SIB. */
  function ExtendRm(op: Operand, rex: nat): Operand {
    op.(idx := if (rex / 2) % 2 == 1 then op.idx + 8 else op.idx,
        reg := if rex % 2 == 1 then op.reg + 8 else op.reg)
  }

  // ---------------------------------------------------------------- the Intel reference

  /** What an encoding's bytes say, field by field. */
  datatype Encoding = Encoding(mod: nat, rm: nat, rexX: nat, rexB: nat, scale: nat, index: nat, base: nat, disp8: int,
    disp32: int)

  /** The fields of the encoding at gp, whatever follows them. */
  function ReadEncoding(code: Code, gp: nat, modrm: u8, rex: nat): Encoding {
    var mod, rm := modrm / 64, modrm % 8;
    var at := if rm == 4 then gp + 1 else gp;
    Encoding(mod, rm, (rex / 2) % 2, rex % 2, code(gp) / 64, (code(gp) / 8) % 8, code(gp) % 8,
             Int8(code(at)), Int32(Fetch32(code, at)))
  }

  predicate HasSib(e: Encoding) { e.mod != 3 && e.rm == 4 }

  /** ModR/M form [RIP + disp32]. */
  predicate RipRelative(e: Encoding) { e.mod == 0 && e.rm == 5 }

  /** SIB form without a base: [scaled index + disp32]. */
  predicate NoBase(e: Encoding) { HasSib(e) && e.mod == 0 && e.base == 5 }

  /** Index number 100b without REX.X means no index; with REX.X it is R12. */
  predicate HasIndex(e: Encoding) { HasSib(e) && 8 * e.rexX + e.index != RSP }

  function Displacement(e: Encoding): int {
    if e.mod == 1 then e.disp8
    else if e.mod == 2 || RipRelative(e) || NoBase(e) then e.disp32
    else 0
  }

  /** Bytes after ModR/M: SIB and displacement. */
  function Tail(e: Encoding): nat {
    (if HasSib(e) then 1 else 0)
    + (if e.mod == 1 then 1 else if e.mod == 2 || RipRelative(e) || NoBase(e) then 4 else 0)
  }

  function BaseNumber(e: Encoding): nat {
    8 * e.rexB + if HasSib(e) then e.base else e.rm
  }

  function BaseTerm(e: Encoding, g: Guest, rip: int): int
    requires e.rexB < 2 && e.rm < 8 && e.base < 8
  {
    if RipRelative(e) then rip else if NoBase(e) then 0 else g.r[BaseNumber(e)]
  }

  function IndexTerm(e: Encoding, g: Guest): int
    requires e.rexX < 2 && e.index < 8
  {
    if HasIndex(e) then g.r[8 * e.rexX + e.index] * Pow2(e.scale) else 0
  }

  /** The effective address, with rip the address of the next instruction. */
  function EffectiveAddress(e: Encoding, g: Guest, rip: int): u64
    requires e.rexX < 2 && e.rexB < 2 && e.rm < 8 && e.base < 8 && e.index < 8
  {
    U64(BaseTerm(e, g, rip) + IndexTerm(e, g) + Displacement(e))
  }

  // ---------------------------------------------------------------- decoding is right

  /** R12 as an index, coded 100b under REX.X, is taken for "no index". */
  predicate DropsIndex(e: Encoding) { HasSib(e) && e.index == 4 && e.rexX == 1 }

  /** The operand that decode_rm and decode_rex leave, in terms of the encoding. */
  lemma DecodeRmMeans(code: Code, gp: nat, op: Operand, modrm: u8, rex: nat)
    ensures var d, e := DecodeRm(code, gp, op, modrm), ReadEncoding(code, gp, modrm, rex);
      var o := ExtendRm(d.op, rex);
      d.gp == gp + Tail(e) &&
      (e.mod == 3 ==> o.t == REG_ONLY && o.reg == BaseNumber(e)) &&
      (e.mod != 3 ==>
        o.t.mem &&
        (o.t.reg <==> !RipRelative(e) && !NoBase(e)) && (o.t.reg ==> o.reg == BaseNumber(e)) &&
        (o.t.idx <==> HasIndex(e) && !DropsIndex(e)) &&
        (o.t.idx ==> o.idx == 8 * e.rexX + e.index && o.scale == e.scale) &&
        (if o.t.imm then o.imm == Displacement(e) else Displacement(e) == 0) &&
        (!o.t.reg ==> o.t.imm))
  {}

  /** The displacement in terms of the bytes it is read from, the last ones of the encoding. */
  lemma DisplacementBytes(code: Code, gp: nat, modrm: u8, rex: nat)
    requires modrm < 0xC0
    ensures var e := ReadEncoding(code, gp, modrm, rex);
      var v, n := Displacement(e), gp + Tail(e);
      if e.mod == 1 then -0x80 <= v < 0x80 && v % 0x100 == code(n - 1)
      else if e.mod == 2 || RipRelative(e) || NoBase(e) then
        -0x8000_0000 <= v < 0x8000_0000 &&
        v % 0x1_0000_0000 ==
          code(n - 4) + 0x100 * code(n - 3) + 0x1_0000 * code(n - 2) + 0x100_0000 * code(n - 1)
      else v == 0
  {
    hide Int8, Int32;
  }

  /** Whatever the buffer held before, the register numbers that count are the encoding's. */
  lemma DecodedIsNumbered(code: Code, gp: nat, op: Operand, modrm: u8, rex: nat)
    requires modrm < 0xC0
    ensures Numbered(ExtendRm(DecodeRm(code, gp, op, modrm).op, rex))
  {
    hide Fetch32, Int8, Int32;
  }
}

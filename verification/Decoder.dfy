/** decode_rm, decode_r_rm, decode_rm_r and decode_rex of src/decoder.c, working on a context. */
module Decoder {
  import opened Bits
  import opened Options
  import opened Operands
  import opened Conditions
  import opened CompileContext

  datatype Instruction = Instruction(t: int, size: nat, reverse: bool, a: Operand, b: Operand)

  method DecodeRmOperand(c: Context, op: Operand, modrm: u8) returns (r: Operand)
    modifies c`gp
    ensures Decoded(r, c.gp) == DecodeRm(c.code, old(c.gp), op, modrm)
  {
    var mod, rm := modrm / 64, modrm % 8;
    r := op;
    if mod < 3 {
      r := r.(t := OpType(false, true, false, false));
      if rm == 4 {
        var sib := c.Fetch8();
        r := r.(reg := sib % 8, idx := (sib / 8) % 8, scale := sib / 64);
        if r.idx != 4 { r := r.(t := r.t.(idx := true)); }
        if r.reg == 5 && mod == 0 {
          var imm := c.FetchInt32();
          r := r.(t := r.t.(imm := true), imm := imm);
        } else {
          r := r.(t := r.t.(reg := true));
        }
      } else if mod == 0 && rm == 5 {
        var imm := c.FetchInt32();
        r := r.(t := r.t.(imm := true), imm := imm);
      } else {
        r := r.(t := r.t.(reg := true), reg := rm);
      }
      if mod == 1 {
        var imm := c.FetchInt8();
        r := r.(t := r.t.(imm := true), imm := imm);
      } else if mod == 2 {
        var imm := c.FetchInt32();
        r := r.(t := r.t.(imm := true), imm := imm);
      }
    } else {
      r := r.(t := REG_ONLY, reg := rm);
    }
  }

  /** The register operand: bits 5 to 3 of the ModR/M byte. */
  function RegOperand(op: Operand, modrm: u8): (r: Operand)
    ensures r.t == REG_ONLY && r.reg < 8 && modrm == 0x40 * (modrm / 0x40) + 8 * r.reg + modrm % 8
  {
    op.(t := REG_ONLY, reg := (modrm / 8) % 8)
  }

  function ExtendReg(op: Operand, rex: u8): Operand {
    op.(reg := if (rex / 4) % 2 == 1 then op.reg + 8 else op.reg)
  }

  /** With REX.R it is one of sixteen: mod, reg and rm are the fields of the ModR/M byte, w, r, x and b the bits of
      the prefix (Intel SDM Vol. 2A, sections 2.1.3 and 2.2.1.2). */
  lemma RegisterNumber(op: Operand, mod: nat, reg: nat, rm: nat, w: nat, r: nat, x: nat, b: nat)
    requires mod < 4 && reg < 8 && rm < 8 && w < 2 && r < 2 && x < 2 && b < 2
    ensures var o := ExtendReg(RegOperand(op, 0x40 * mod + 8 * reg + rm), 0x40 + 8 * w + 4 * r + 2 * x + b);
      o.t == REG_ONLY && o.reg == 8 * r + reg
  {
    hide RegOperand;
    var modrm, rex := 0x40 * mod + 8 * reg + rm, 0x40 + 8 * w + 4 * r + 2 * x + b;
    DivUnique(modrm, 8, 8 * mod + reg, rm);
    DivUnique(modrm, 0x40, mod, 8 * reg + rm);
    DivUnique(rex, 4, 0x10 + 2 * w + r, 2 * x + b);
    DivUnique(0x10 + 2 * w + r, 2, 8 + w, r);
  }

  /** The register operand first, the r/m operand second. */
  method DecodeRRm(c: Context, i: Instruction) returns (r: Instruction)
    modifies c`gp
    ensures var modrm := c.code(old(c.gp));
      var d := DecodeRm(c.code, old(c.gp) + 1, i.b, modrm);
      c.gp == d.gp && r == i.(reverse := false, a := RegOperand(i.a, modrm), b := d.op)
  {
    var byte := c.Fetch8();
    var b := DecodeRmOperand(c, i.b, byte);
    r := i.(reverse := false, a := i.a.(t := REG_ONLY, reg := (byte / 8) % 8), b := b);
  }

  /** The r/m operand first, the register operand second. */
  method DecodeRmR(c: Context, i: Instruction) returns (r: Instruction)
    modifies c`gp
    ensures var modrm := c.code(old(c.gp));
      var d := DecodeRm(c.code, old(c.gp) + 1, i.a, modrm);
      c.gp == d.gp && r == i.(reverse := true, b := RegOperand(i.b, modrm), a := d.op)
  {
    var byte := c.Fetch8();
    var a := DecodeRmOperand(c, i.a, byte);
    r := i.(reverse := true, b := i.b.(t := REG_ONLY, reg := (byte / 8) % 8), a := a);
  }

  /** REX extends the r/m operand wherever it stands, and the register operand. */
  method DecodeRex(i: Instruction, rex: u8) returns (r: Instruction)
    ensures r.t == i.t && r.reverse == i.reverse && r.size == if (rex / 8) % 2 == 1 then 64 else i.size
    ensures var rm, reg := if i.reverse then r.a else r.b, if i.reverse then r.b else r.a;
      var rm0, reg0 := if i.reverse then i.a else i.b, if i.reverse then i.b else i.a;
      rm == ExtendRm(rm0, rex) && reg == ExtendReg(reg0, rex)
  {
    r := i;
    if (rex / 8) % 2 == 1 { r := r.(size := 64); }
    if i.reverse {
      if (rex / 4) % 2 == 1 { r := r.(b := r.b.(reg := r.b.reg + 8)); }
      if (rex / 2) % 2 == 1 { r := r.(a := r.a.(idx := r.a.idx + 8)); }
      if rex % 2 == 1 { r := r.(a := r.a.(reg := r.a.reg + 8)); }
    } else {
      if (rex / 4) % 2 == 1 { r := r.(a := r.a.(reg := r.a.reg + 8)); }
      if (rex / 2) % 2 == 1 { r := r.(b := r.b.(idx := r.b.idx + 8)); }
      if rex % 2 == 1 { r := r.(b := r.b.(reg := r.b.reg + 8)); }
    }
  }

  /** SETcc from its second opcode byte on, with the prefix applied: the byte operand is read into a, and which of
      the prefix bits reaches it depends on what reverse happened to be. */
  method DecodeSet(c: Context, i: Instruction, byte: u8, rex: Option<u8>) returns (r: Instruction)
    requires 0x90 <= byte < 0xA0
    modifies c`gp
    ensures r.t == ConditionalSet(byte) && r.reverse == i.reverse && (rex.None? ==> r.size == 8)
    ensures var modrm := c.code(old(c.gp));
      modrm >= 0xC0 ==> r.a.t == REG_ONLY && r.a.reg == SetGets(modrm % 8, rex, i.reverse) && c.gp == old(c.gp) + 1
  {
    var modrm := c.Fetch8();
    var a := DecodeRmOperand(c, i.a, modrm);
    r := i.(size := 8, t := byte - 0x90 + SETO, a := a, b := i.b.(t := OpType(false, false, false, false)));
    if rex.Some? { r := DecodeRex(r, rex.value); }
  }
}

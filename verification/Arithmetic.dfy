/** Loads, stores and the ADD and SUB cases of src/encoder.c. */
module Arithmetic {
  import opened Bits
  import opened Memory
  import opened Arm64
  import opened Emitter
  import opened Words
  import opened Immediates
  import opened Steps
  import opened X86
  import opened Operands
  import opened Addressing
  import opened StatusFlags

  /** The displacement fits the unscaled form of a load or store. */
  predicate Near(op: Operand) {
    op.t == MEM_REG_IMM && -256 < op.imm < 255
  }

  /** emit_load, together with whether it went through SC1. */
  function LoadWords(op: Operand, rd: nat, wide: bool, at: Place): Emission
    requires Numbered(op)
  {
    if Near(op) then Words([Unscaled(SizeBit(wide) + LDUR, op.imm, X64Reg(op.reg), rd)])
    else if op.t == MEM_REG then Words([RdRn(SizeBit(wide) + LDR32_REG, rd, X64Reg(op.reg))])
    else
      var a := AddressWords(op, SC1R, at);
      if a.Panic? then Panic else Words(a.ws + [RdRn(SizeBit(wide) + LDR32_REG, rd, SC1R)])
  }

  /** emit_store; without address it relies on what SC1 holds. */
  function StoreWords(op: Operand, rd: nat, wide: bool, at: Place, address: bool): Emission
    requires Numbered(op)
  {
    if Near(op) then Words([Unscaled(SizeBit(wide) + STUR, op.imm, X64Reg(op.reg), rd)])
    else if op.t == MEM_REG then Words([RdRn(SizeBit(wide) + STR32_REG, rd, X64Reg(op.reg))])
    else
      var a := if address then AddressWords(op, SC1R, at) else Words([]);
      if a.Panic? then Panic else Words(a.ws + [RdRn(SizeBit(wide) + STR32_REG, rd, SC1R)])
  }

  /** An operand in memory that emit_address_decode can reach from here. */
  predicate Reachable(op: Operand, at: Place) {
    op.t.mem && (op.t.idx || op.t.reg || op.t.imm) && Numbered(op) &&
    (op.t.idx ==> op.idx != RSP && op.scale < 4) && (!op.t.idx && !op.t.reg ==> op.t == MEM_IMM) &&
    if op.t == MEM_IMM then -0x10_0000 <= PageDelta(U64(at.rip + op.imm), at.host) < 0x10_0000
    else op.t.imm ==> -0x1000 < op.imm < 0x1000
  }

  ghost function Address(op: Operand, s: State, at: Place): u64
    requires Numbered(op)
  {
    U64(OperandSum(op, View(s), at.rip))
  }

  /** The forms that need no address in SC1. */
  predicate Direct(op: Operand) {
    Near(op) || op.t == MEM_REG
  }

  lemma StepNear(load: bool, wide: bool, imm: int, rt: nat, rn: nat, s: State)
    requires -256 < imm < 255 && rt < 32 && rn < 32
    ensures var a := Add64(XSp(s, rn), imm);
      Step(Unscaled(SizeBit(wide) + (if load then LDUR else STUR), imm, rn, rt), s)
      == Next(Advance(if load then SetX(s, rt, LoadWord(s.mem, a, Bytes(wide)))
                      else s.(mem := StoreWord(s.mem, a, Bytes(wide), X(s, rt)))))
  {
    hide Bits.Or, Decode, Unscaled, LoadWord, StoreWord, X, SetX;
    UnscaledDecodes(load, wide, imm, rt, rn);
  }

  lemma DirectAddress(op: Operand, s: State, at: Place)
    requires Reachable(op, at) && Direct(op)
    ensures !op.t.idx && op.t.reg && op.reg < 16
    ensures Address(op, s, at) == if Near(op) then Add64(XSp(s, X64Reg(op.reg)), op.imm) else XSp(s, X64Reg(op.reg))
  {
    ViewReads(s, op.reg);
  }

  /** After an address in SC1, one more word that uses it. */
  lemma ThroughScratch(op: Operand, at: Place, s: State)
    requires Reachable(op, at) && !Direct(op) && s.pc == at.host
    ensures var e := AddressWords(op, SC1R, at); e.Words? && OnlySets(Run(e.ws, s), s, SC1R, Address(op, s, at))
  {
    if op.t.reg { GuestRegistersApart(op.reg, op.reg); }
    AddressOfOperand(op, SC1R, at, s);
  }

  /** emit_load reads the operand's address; SC1 is left holding it unless the form is direct. */
  lemma LoadMeans(op: Operand, rd: nat, wide: bool, at: Place, s: State)
    requires Reachable(op, at) && rd < 32 && s.pc == at.host
    ensures var e, a := LoadWords(op, rd, wide, at), Address(op, s, at);
      e.Words? && var o := Run(e.ws, s);
      o.Next? && var t := s.(x := if Direct(op) then s.x else s.x[SC1R := a]);
      o.s == SetX(t, rd, LoadWord(s.mem, a, Bytes(wide))).(pc := o.s.pc)
  {
    hide Bits.Or, Step, Run, RdRn, Unscaled, LoadWord, AddressWords, OperandSum;
    if Direct(op) {
      DirectAddress(op, s, at);
      var w := LoadWords(op, rd, wide, at).ws[0];
      if Near(op) {
        StepNear(true, wide, op.imm, rd, X64Reg(op.reg), s);
      } else {
        StepLoad(wide, rd, X64Reg(op.reg), s);
      }
      RunOne(w, s);
    } else {
      ThroughScratch(op, at, s);
      var ws, w := AddressWords(op, SC1R, at).ws, RdRn(SizeBit(wide) + LDR32_REG, rd, SC1R);
      var o := Run(ws, s);
      StepLoad(wide, rd, SC1R, o.s);
      RunConcat(ws, [w], s);
      RunOne(w, o.s);
    }
  }

  /** emit_store writes there, with or without forming the address, provided SC1 already holds it
      when address formation is skipped and the form is not direct. */
  lemma StoreMeans(op: Operand, rd: nat, wide: bool, at: Place, address: bool, s: State)
    requires Reachable(op, at) && rd < 32 && rd != SC1R
    requires if address then s.pc == at.host else Direct(op) || s.x[SC1R] == Address(op, s, at)
    ensures var e, a := StoreWords(op, rd, wide, at, address), Address(op, s, at);
      e.Words? && var o := Run(e.ws, s);
      o.Next? && o.s == s.(x := if Direct(op) then s.x else s.x[SC1R := a],
                           mem := StoreWord(s.mem, a, Bytes(wide), X(s, rd)), pc := o.s.pc)
  {
    hide Bits.Or, Step, Run, RdRn, Unscaled, StoreWord, AddressWords, OperandSum;
    if Direct(op) {
      DirectAddress(op, s, at);
      var w := StoreWords(op, rd, wide, at, address).ws[0];
      if Near(op) {
        StepNear(false, wide, op.imm, rd, X64Reg(op.reg), s);
      } else {
        StepStore(wide, rd, X64Reg(op.reg), s);
      }
      RunOne(w, s);
    } else {
      if address { ThroughScratch(op, at, s); }
      var ws, w := if address then AddressWords(op, SC1R, at).ws else [], RdRn(SizeBit(wide) + STR32_REG, rd, SC1R);
      if !address { RunNothing(s); assert s.x[SC1R := Address(op, s, at)] == s.x; }
      var o := Run(ws, s);
      StepStore(wide, rd, SC1R, o.s);
      RunConcat(ws, [w], s);
      RunOne(w, o.s);
    }
  }

  lemma RunNothing(s: State)
    ensures Run([], s) == Next(s)
  {}

  // ---------------------------------------------------------------- ADD and SUB

  datatype Source = Register(r: nat) | Constant(imm: int)

  /** The word that adds or subtracts the source into host register rd. */
  function ArithWord(sub: bool, wide: bool, rd: nat, src: Source): nat
    requires src.Register? ==> src.r < 16
  {
    if src.Register? then RdRnRm(SfBit(wide) + (if sub then SUB_REG else ADD_REG) + S, rd, rd, X64Reg(src.r))
    else if sub then SubSigned(rd, rd, src.imm)
    else AddSigned(rd, rd, src.imm)
  }

  /** ADD or SUB with a memory destination: load to SC2, compute, store without a new address. */
  function UpdateWords(sub: bool, wide: bool, op: Operand, src: Source, at: Place): Emission
    requires Numbered(op) && (src.Register? ==> src.r < 16)
  {
    var load, store := LoadWords(op, SC2R, wide, at), StoreWords(op, SC2R, wide, at, false);
    if load.Panic? || store.Panic? then Panic
    else Words(load.ws + [ArithWord(sub, wide, SC2R, src)] + store.ws)
  }

  /** What the instruction adds or subtracts ... */
  function SourceValue(src: Source, g: Guest): int
    requires src.Register? ==> src.r < 16
  {
    if src.Constant? then src.imm else g.r[src.r]
  }

  /** ... and what the emitted word does: register 31 is no data register, so RSP reads as zero. */
  function HostRead(r: nat, g: Guest): u64
    requires r < 16
  {
    if r == RSP then 0 else g.r[r]
  }

  function HostValue(src: Source, g: Guest): int
    requires src.Register? ==> src.r < 16
  {
    if src.Register? then HostRead(src.r, g) else src.imm
  }

  /** The flags that the host has after f was there before: those of the register form, or no new ones. */
  ghost function FlagsAfter(sub: bool, wide: bool, x: u64, src: Source, g: Guest, f: Flags): Flags
    requires src.Register? ==> src.r < 16
  {
    if src.Constant? then f else AddSub(x, HostRead(src.r, g), wide, sub).f
  }

  /** In x86 terms, for a first operand x that the host reads as zero if zeroX is set. */
  ghost predicate ArithFlags(sub: bool, wide: bool, zeroX: bool, x: u64, src: Source, g: Guest, before: Flags, f: Flags)
    requires src.Register? ==> src.r < 16
  {
    var m := Width(wide);
    if src.Constant? then f == before
    else SetsFlags(sub, f, zeroX, src.r == RSP, x % m, g.r[src.r] % m, m)
  }

  lemma FlagsAfterMean(sub: bool, wide: bool, zeroX: bool, x: u64, src: Source, g: Guest, f: Flags)
    requires (src.Register? ==> src.r < 16) && (zeroX && src == Register(RSP) ==> x == g.r[RSP])
    ensures ArithFlags(sub, wide, zeroX, x, src, g, f, FlagsAfter(sub, wide, if zeroX then 0 else x, src, g, f))
  {
    hide AddSub, SetsFlags;
    if src.Register? { ArithmeticFlags(sub, wide, zeroX, src.r == RSP, x, g.r[src.r]); }
  }

  /** The source is read as it should be. */
  predicate SourceRight(src: Source, wide: bool, g: Guest) {
    src != Register(RSP) || g.r[RSP] % Width(wide) == 0
  }

  lemma SourceRightExact(sub: bool, wide: bool, src: Source, x: int, g: Guest)
    requires src.Register? ==> src.r < 16
    ensures Combine(sub, x, HostValue(src, g)) % Width(wide) == Combine(sub, x, SourceValue(src, g)) % Width(wide)
       <==> SourceRight(src, wide, g)
  {
    if src == Register(RSP) { Absorbs(sub, x, g.r[RSP], Width(wide)); }
  }

  /** Adding or subtracting y changes nothing modulo m exactly when m divides y. */
  lemma Absorbs(sub: bool, x: int, y: nat, m: nat)
    requires m > 0
    ensures Combine(sub, x, y) % m == x % m <==> y % m == 0
  {
    var q, r, p, t := x / m, x % m, y / m, y % m;
    if sub {
      assert x - y == m * (q - p) + (r - t) && m * (q - p - 1) == m * (q - p) - m;
      if r < t { DivUnique(x - y, m, q - p - 1, r - t + m); } else { DivUnique(x - y, m, q - p, r - t); }
    } else {
      assert x + y == m * (q + p) + (r + t) && m * (q + p + 1) == m * (q + p) + m;
      if r + t < m { DivUnique(x + y, m, q + p, r + t); } else { DivUnique(x + y, m, q + p + 1, r + t - m); }
    }
  }

  function Combine(sub: bool, x: int, y: int): int { if sub then x - y else x + y }

  /** The result as far as the operand's width goes; flags move only in the register form. */
  lemma StepArith(sub: bool, wide: bool, rd: nat, src: Source, s: State)
    requires rd < 31 && (src.Register? ==> src.r < 16) && (src.Constant? ==> -0x1000 < src.imm < 0x1000)
    ensures var o := Step(ArithWord(sub, wide, rd, src), s);
      var c := Combine(sub, s.x[rd], HostValue(src, View(s)));
      o.Next? && o.s ==
      s.(x := s.x[rd := if src.Constant? then U64(c) else c % Width(wide)], f := o.s.f, pc := o.s.pc) &&
      o.s.f == FlagsAfter(sub, wide, s.x[rd], src, View(s), s.f)
  {
    hide Bits.Or, Step, RdRnRm, AddSigned, SubSigned, AddWithCarry;
    if src.Register? {
      var rm := X64Reg(src.r);
      GuestRegistersApart(src.r, src.r);
      if src.r != RSP { ViewReads(s, src.r); }
      StepAddReg(wide, sub, true, rd, rd, rm, s);
      AddSubResult(s.x[rd], X(s, rm), wide, sub);
    } else {
      StepAdd(rd, rd, src.imm, s);
    }
  }

  lemma {:induction false} BytesModulo(v: nat, w: nat, k: nat)
    requires v % Pow256(k) == w % Pow256(k)
    ensures LittleEndian(v, k) == LittleEndian(w, k)
  {
    if k > 0 {
      Mod256(v, Pow256(k - 1));
      Mod256(w, Pow256(k - 1));
      BytesModulo(v / 256, w / 256, k - 1);
    }
  }

  lemma Mod256(v: nat, p: nat)
    requires p > 0
    ensures v % (256 * p) == 256 * ((v / 256) % p) + v % 256
  {
    var q, r := (v / 256) / p, (v / 256) % p;
    assert v == (256 * p) * q + (256 * r + v % 256) by {
      assert v / 256 == p * q + r;
      assert (256 * p) * q == 256 * (p * q);
    }
    DivUnique(v, 256 * p, q, 256 * r + v % 256);
  }

  lemma StoreModulo(m: Mem, a: int, wide: bool, v: u64, w: u64)
    requires v % Width(wide) == w % Width(wide)
    ensures StoreWord(m, a, Bytes(wide), v) == StoreWord(m, a, Bytes(wide), w)
  {
    assert Pow256(8) == TWO64 && Pow256(4) == TWO32;
    BytesModulo(v, w, Bytes(wide));
  }

  lemma StoreExact(m: Mem, a: int, wide: bool, v: u64, w: u64)
    ensures StoreWord(m, a, Bytes(wide), v) == StoreWord(m, a, Bytes(wide), w) <==> v % Width(wide) == w % Width(wide)
  {
    hide StoreWord, LoadWord;
    if v % Width(wide) == w % Width(wide) {
      StoreModulo(m, a, wide, v, w);
    } else {
      var v', w' := v % Width(wide), w % Width(wide);
      StoreModulo(m, a, wide, v, v');
      StoreModulo(m, a, wide, w, w');
      StoredValue(m, a, Bytes(wide), v');
      StoredValue(m, a, Bytes(wide), w');
    }
  }

  lemma SameModulo(c: int, wide: bool)
    ensures U64(c) % Width(wide) == c % Width(wide)
  {
    if !wide {
      var k, low := c / TWO64, U64(c) % TWO32;
      assert c == TWO64 * k + U64(c);
      DivUnique(c, TWO32, TWO32 * k + U64(c) / TWO32, low);
    }
  }

  /** ADD and SUB with a memory destination: the word at the operand's address, and nothing else the
      guest can see, becomes the sum or difference in the operand's width, with the source as the
      host reads it. */
  lemma UpdateStores(sub: bool, wide: bool, op: Operand, src: Source, at: Place, s: State)
    requires Reachable(op, at) && s.pc == at.host
    requires (src.Register? ==> src.r < 16) && (src.Constant? ==> -0x1000 < src.imm < 0x1000)
    ensures var e, a := UpdateWords(sub, wide, op, src, at), Address(op, s, at);
      e.Words? && var o := Run(e.ws, s);
      o.Next? && View(o.s).r == View(s).r &&
      o.s.mem == StoreWord(s.mem, a, Bytes(wide),
                           Combine(sub, LoadWord(s.mem, a, Bytes(wide)), HostValue(src, View(s))) % Width(wide)) &&
      o.s.f == FlagsAfter(sub, wide, LoadWord(s.mem, a, Bytes(wide)), src, View(s), s.f)
  {
    hide Bits.Or, Step, Run, LoadWord, StoreWord, LoadWords, StoreWords, ArithWord, OperandSum, AddressWords, HostValue;
    hide FlagsAfter;
    var a := Address(op, s, at);
    var l, w, st := LoadWords(op, SC2R, wide, at), ArithWord(sub, wide, SC2R, src),
      StoreWords(op, SC2R, wide, at, false);
    LoadMeans(op, SC2R, wide, at, s);
    var t := Run(l.ws, s).s;
    UpdateViews(op, s, t, LoadWord(s.mem, a, Bytes(wide)), a);
    StepArith(sub, wide, SC2R, src, t);
    var u := Step(w, t).s;
    ScratchViews(t, u, u.x[SC2R]);
    StoreMeans(op, SC2R, wide, at, false, u);
    var v := Run(st.ws, u).s;
    UpdateViews(op, u, v.(mem := u.mem), u.x[SC2R], a);
    var c := Combine(sub, LoadWord(s.mem, a, Bytes(wide)), HostValue(src, View(s)));
    SameModulo(c, wide);
    StoreModulo(s.mem, a, wide, u.x[SC2R], c % Width(wide));
    RunConcat(l.ws, [w], s);
    RunOne(w, t);
    RunConcat(l.ws + [w], st.ws, s);
  }

  /** That is the right memory exactly when the source is not RSP, or RSP is zero in the operand's width. */
  lemma UpdateMeans(sub: bool, wide: bool, op: Operand, src: Source, at: Place, s: State)
    requires Reachable(op, at) && s.pc == at.host
    requires (src.Register? ==> src.r < 16) && (src.Constant? ==> -0x1000 < src.imm < 0x1000)
    ensures var e, a := UpdateWords(sub, wide, op, src, at), Address(op, s, at);
      e.Words? && var o := Run(e.ws, s);
      o.Next? && View(o.s).r == View(s).r &&
      (o.s.mem == StoreWord(s.mem, a, Bytes(wide),
                            Combine(sub, LoadWord(s.mem, a, Bytes(wide)), SourceValue(src, View(s))) % Width(wide))
       <==> SourceRight(src, wide, View(s))) &&
      ArithFlags(sub, wide, false, LoadWord(s.mem, a, Bytes(wide)), src, View(s), s.f, o.s.f)
  {
    hide *;
    ReachableRegisters(op, at);
    UpdateStores(sub, wide, op, src, at, s);
    var a := Address(op, s, at);
    var x := LoadWord(s.mem, a, Bytes(wide));
    FlagsAfterMean(sub, wide, false, x, src, View(s), s.f);
    var m := Width(wide);
    var c, d := Combine(sub, x, HostValue(src, View(s))), Combine(sub, x, SourceValue(src, View(s)));
    SourceRightExact(sub, wide, src, x, View(s));
    StoreReduced(s.mem, a, wide, c, d);
  }

  lemma ReachableRegisters(op: Operand, at: Place)
    requires Reachable(op, at)
    ensures Numbered(op)
  {}

  lemma StoreReduced(m: Mem, a: int, wide: bool, c: int, d: int)
    ensures StoreWord(m, a, Bytes(wide), c % Width(wide)) == StoreWord(m, a, Bytes(wide), d % Width(wide))
       <==> c % Width(wide) == d % Width(wide)
  {
    hide StoreWord, Bytes;
    Reduced(c, Width(wide));
    Reduced(d, Width(wide));
    StoreExact(m, a, wide, c % Width(wide), d % Width(wide));
  }

  lemma Reduced(c: int, m: nat)
    requires m > 0
    ensures c % m % m == c % m
  {}

  lemma ScratchViews(s: State, t: State, v: u64)
    requires t == s.(x := s.x[SC2R := v], f := t.f, pc := t.pc)
    ensures View(t) == View(s)
  {
    ViewIgnoresScratch(s, SC2R, v);
    forall i: nat | i < 16 { GuestRegistersApart(i, i); }
  }

  lemma UpdateViews(op: Operand, s: State, t: State, v: u64, a: u64)
    requires t == s.(x := (if Direct(op) then s.x else s.x[SC1R := a])[SC2R := v], pc := t.pc)
    ensures View(t) == View(s)
  {
    forall i: nat | i < 16 ensures View(t).r[i] == View(s).r[i] { GuestRegistersApart(i, i); }
  }

  /** When ADD or SUB into register r is right: a constant in 64 bits always, in 32 bits when the
      64-bit result has 32 bits; a register source when it is read right; and into RSP, which no
      register form can write, when nothing was to change. */
  predicate ArithRight(sub: bool, wide: bool, r: nat, src: Source, g: Guest)
    requires r < 16 && (src.Register? ==> src.r < 16)
  {
    if src.Constant? then wide || U64(Combine(sub, g.r[r], src.imm)) < TWO32
    else if r == RSP then g.r[src.r] % Width(wide) == 0 && g.r[RSP] < Width(wide)
    else SourceRight(src, wide, g)
  }

  /** The emitted word does what the instruction does in exactly those cases; the flags are as stated. */
  lemma RegisterArithExact(sub: bool, wide: bool, r: nat, src: Source, s: State)
    requires r < 16 && (src.Register? ==> src.r < 16) && (src.Constant? ==> -0x1000 < src.imm < 0x1000)
    ensures var o := Step(ArithWord(sub, wide, X64Reg(r), src), s);
      var c := Combine(sub, View(s).r[r], SourceValue(src, View(s)));
      o.Next? &&
      (View(o.s) == SetReg(View(s), r, c % Width(wide)) <==> ArithRight(sub, wide, r, src, View(s))) &&
      ArithFlags(sub, wide, r == RSP, View(s).r[r], src, View(s), s.f, o.s.f)
  {
    hide *;
    RegisterArithDoes(sub, wide, r, src, s);
    var g := View(s);
    var c := Combine(sub, g.r[r], SourceValue(src, g));
    FlagsAfterMean(sub, wide, r == RSP, g.r[r], src, g, s.f);
    WidthBounds(wide, c);
    if src.Constant? { ConstantIs(src, g); }
    ArithValueExact(sub, wide, r, src, g);
    SetRegSame(g, r, ArithValue(sub, wide, r, src, g), c % Width(wide));
  }

  lemma ConstantIs(src: Source, g: Guest)
    requires src.Constant?
    ensures SourceValue(src, g) == src.imm
  {}

  /** What the word leaves in guest register r. */
  function ArithValue(sub: bool, wide: bool, r: nat, src: Source, g: Guest): u64
    requires r < 16 && (src.Register? ==> src.r < 16)
  {
    if src.Constant? then U64(Combine(sub, g.r[r], src.imm))
    else if r == RSP then g.r[r]
    else Combine(sub, g.r[r], HostRead(src.r, g)) % Width(wide)
  }

  lemma ArithValueExact(sub: bool, wide: bool, r: nat, src: Source, g: Guest)
    requires r < 16 && (src.Register? ==> src.r < 16)
    ensures ArithValue(sub, wide, r, src, g) == Combine(sub, g.r[r], SourceValue(src, g)) % Width(wide)
       <==> ArithRight(sub, wide, r, src, g)
  {
    hide Combine, Width, U64;
    if src.Constant? {
      WideModulo(Combine(sub, g.r[r], src.imm), wide);
    } else if r == RSP {
      WidthBounds(wide, 0);
      KeepsExactly(sub, g.r[r], g.r[src.r], Width(wide));
    } else {
      SourceRightExact(sub, wide, src, g.r[r], g);
    }
  }

  lemma WideModulo(c: int, wide: bool)
    ensures U64(c) == c % Width(wide) <==> wide || U64(c) < TWO32
  {
    if !wide { ModuloSame(c); }
  }

  lemma RegisterArithDoes(sub: bool, wide: bool, r: nat, src: Source, s: State)
    requires r < 16 && (src.Register? ==> src.r < 16) && (src.Constant? ==> -0x1000 < src.imm < 0x1000)
    ensures var o, g := Step(ArithWord(sub, wide, X64Reg(r), src), s), View(s);
      o.Next? && View(o.s) == SetReg(g, r, ArithValue(sub, wide, r, src, g)) &&
      o.s.f == FlagsAfter(sub, wide, if r == RSP then 0 else g.r[r], src, g, s.f)
  {
    hide Step, ArithWord, View, SetReg, X64Reg, AddSub, Combine;
    GuestRegistersApart(r, r);
    ViewReads(s, r);
    var o := Step(ArithWord(sub, wide, X64Reg(r), src), s);
    var v := ArithValue(sub, wide, r, src, View(s));
    if src.Constant? {
      StepArithConstant(sub, wide, X64Reg(r), src.imm, s);
      ViewSetsGuest(s, r, v);
      ViewIgnoresPc(SetXSp(s, X64Reg(r), v), o.s.pc);
    } else if r == RSP {
      StepArithIntoSp(sub, wide, src.r, s);
      ViewIgnoresFlags(s, o.s);
      SetRegKeeps(View(s), r);
    } else {
      StepArith(sub, wide, X64Reg(r), src, s);
      ViewSetsGuest(s, r, v);
      ViewIgnoresFlags(SetXSp(s, X64Reg(r), v), o.s);
    }
  }

  lemma StepArithConstant(sub: bool, wide: bool, rd: nat, imm: int, s: State)
    requires rd < 32 && -0x1000 < imm < 0x1000
    ensures Step(ArithWord(sub, wide, rd, Constant(imm)), s) ==
      Next(Advance(SetXSp(s, rd, U64(Combine(sub, XSp(s, rd), imm)))))
  {
    hide Step, AddSigned, SubSigned, SetXSp;
    StepAdd(rd, rd, imm, s);
  }

  /** As a destination register 31 is no data register either: the result is lost. */
  lemma StepArithIntoSp(sub: bool, wide: bool, r: nat, s: State)
    requires r < 16
    ensures var o := Step(ArithWord(sub, wide, X64Reg(RSP), Register(r)), s);
      o.Next? && o.s == s.(f := o.s.f, pc := o.s.pc) && o.s.f == FlagsAfter(sub, wide, 0, Register(r), View(s), s.f)
  {
    hide Step, RdRnRm, AddSub;
    GuestRegistersApart(r, r);
    ViewReads(s, r);
    StepAddReg(wide, sub, true, 31, 31, X64Reg(r), s);
  }

  lemma SetRegKeeps(g: Guest, r: nat)
    requires r < 16
    ensures SetReg(g, r, g.r[r]) == g
  {}

  lemma SetRegSame(g: Guest, r: nat, v: u64, w: u64)
    requires r < 16
    ensures SetReg(g, r, v) == SetReg(g, r, w) <==> v == w
  {
    assert SetReg(g, r, v).r[r] == v && SetReg(g, r, w).r[r] == w;
  }

  lemma ModuloSame(c: int)
    ensures U64(c) == c % TWO32 <==> U64(c) < TWO32
  {
    SameModulo(c, false);
  }

  lemma ViewIgnoresFlags(s: State, t: State)
    requires t == s.(f := t.f, pc := t.pc)
    ensures View(t) == View(s)
  {}

  /** ADD or SUB with a memory source: load to SC2, then the register form. */
  function LoadArithWords(sub: bool, wide: bool, rd: nat, op: Operand, at: Place): Emission
    requires Numbered(op)
  {
    var load := LoadWords(op, SC2R, wide, at);
    if load.Panic? then Panic
    else Words(load.ws + [RdRnRm(SfBit(wide) + (if sub then SUB_REG else ADD_REG) + S, rd, rd, SC2R)])
  }

  /** Right for every register but RSP, and for RSP when nothing was to change. */
  lemma LoadArithMeans(sub: bool, wide: bool, r: nat, op: Operand, at: Place, s: State)
    requires r < 16 && Reachable(op, at) && s.pc == at.host
    ensures var e, m := LoadArithWords(sub, wide, X64Reg(r), op, at), LoadWord(s.mem, Address(op, s, at), Bytes(wide));
      e.Words? && var o := Run(e.ws, s);
      o.Next? && (View(o.s) == SetReg(View(s), r, Combine(sub, View(s).r[r], m) % Width(wide))
                  <==> r != RSP || (m % Width(wide) == 0 && View(s).r[RSP] < Width(wide))) &&
      SetsFlags(sub, o.s.f, r == RSP, false, View(s).r[r] % Width(wide), m % Width(wide), Width(wide))
  {
    hide *;
    ReachableRegisters(op, at);
    LoadArithDoes(sub, wide, r, op, at, s);
    ArithmeticFlags(sub, wide, r == RSP, false, View(s).r[r], LoadWord(s.mem, Address(op, s, at), Bytes(wide)));
    HostReads(r, View(s));
    if r == RSP {
      var m := LoadWord(s.mem, Address(op, s, at), Bytes(wide));
      var rsp := View(s).r[r];
      WidthBounds(wide, Combine(sub, rsp, m));
      SetRegSame(View(s), r, rsp, Combine(sub, rsp, m) % Width(wide));
      SetRegKeeps(View(s), r);
      KeepsExactly(sub, rsp, m, Width(wide));
    }
  }

  lemma HostReads(r: nat, g: Guest)
    requires r < 16
    ensures HostRead(r, g) == if r == RSP then 0 else g.r[r]
  {}

  lemma WidthBounds(wide: bool, c: int)
    ensures 0 < Width(wide) && 0 <= c % Width(wide) < 0x1_0000_0000_0000_0000
  {}

  lemma KeepsExactly(sub: bool, x: nat, y: nat, m: nat)
    requires m > 0
    ensures Combine(sub, x, y) % m == x <==> y % m == 0 && x < m
  {
    Absorbs(sub, x, y, m);
  }

  lemma LoadArithDoes(sub: bool, wide: bool, r: nat, op: Operand, at: Place, s: State)
    requires r < 16 && Reachable(op, at) && s.pc == at.host
    ensures var e, m := LoadArithWords(sub, wide, X64Reg(r), op, at), LoadWord(s.mem, Address(op, s, at), Bytes(wide));
      e.Words? && var o := Run(e.ws, s);
      o.Next? &&
      View(o.s) == (if r == RSP then View(s) else SetReg(View(s), r, Combine(sub, View(s).r[r], m) % Width(wide))) &&
      o.s.f == AddSub(HostRead(r, View(s)), m, wide, sub).f
  {
    hide Bits.Or, Step, Run, LoadWord, LoadWords, RdRnRm, Address, AddSub, View, SetReg;
    var rd := X64Reg(r);
    GuestRegistersApart(r, r);
    ViewReads(s, r);
    LoadMeans(op, SC2R, wide, at, s);
    var load, w := LoadWords(op, SC2R, wide, at).ws,
      RdRnRm(SfBit(wide) + (if sub then SUB_REG else ADD_REG) + S, rd, rd, SC2R);
    var t := Run(load, s).s;
    var m := LoadWord(s.mem, Address(op, s, at), Bytes(wide));
    UpdateViews(op, s, t, m, Address(op, s, at));
    StepAddReg(wide, sub, true, rd, rd, SC2R, t);
    AddSubResult(X(t, rd), m, wide, sub);
    if r == RSP {
      ViewIgnoresFlags(t, Step(w, t).s);
    } else {
      var v := Combine(sub, View(s).r[r], m) % Width(wide);
      ViewSetsGuest(t, r, v);
      ViewIgnoresFlags(SetXSp(t, rd, v), Step(w, t).s);
    }
    RunConcat(load, [w], s);
    RunOne(w, t);
  }
}

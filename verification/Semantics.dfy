/** What the architecture has a decoded instruction do (Intel SDM Vol. 2), stated on the instruction alone, and
    that the words which encode (src/encoder.c) appends for it do that in exactly the cases stated. */
module Semantics {
  import opened Bits
  import opened Memory
  import opened Arm64
  import opened Emitter
  import opened Immediates
  import opened Steps
  import opened X86
  import opened Operands
  import opened Addressing
  import opened StatusFlags
  import opened Arithmetic
  import opened Conditions
  import opened Moves
  import opened LoadAddress
  import opened PushPop
  import opened CallTree
  import opened Options
  import opened Decoder
  import opened Encoder

  // ---------------------------------------------------------------- the reference

  /** The effective address of an operand in memory. */
  function EffAddress(op: Operand, g: Guest, rip: int): u64
    requires Numbered(op)
  {
    U64((if op.t == MEM_IMM then rip else 0) + (if op.t.reg then g.r[op.reg] else 0)
        + (if op.t.idx then g.r[op.idx] * Pow2(op.scale) else 0) + (if op.t.imm then op.imm else 0))
  }

  /** An operand's value in the operand size. */
  ghost function Read(op: Operand, wide: bool, g: Guest, rip: int): u64
    requires (op.t.mem ==> Numbered(op)) && (op.t == REG_ONLY ==> op.reg < 16)
  {
    if op.t.mem then LoadWord(g.mem, EffAddress(op, g, rip), Bytes(wide))
    else if op.t == REG_ONLY then g.r[op.reg] % Width(wide)
    else U64(op.imm) % Width(wide)
  }

  /** Writing v, below the operand size: to memory, or to a register of which the rest is cleared. */
  ghost function Write(op: Operand, wide: bool, v: u64, g: Guest, rip: int): Guest
    requires Numbered(op) && (op.t.mem || op.t == REG_ONLY)
  {
    if op.t.mem then g.(mem := StoreWord(g.mem, EffAddress(op, g, rip), Bytes(wide), v)) else SetReg(g, op.reg, v)
  }

  datatype Effect = Effect(g: Guest, f: GuestFlags)

  /** The instructions other than SETcc, LEAVE and RET. */
  predicate Ordinary(i: Instruction) {
    Modelled(i) && (i.size == 32 || i.size == 64) && i.t != T_LEAVE && i.t != T_RET
  }

  /** The state and the flags after the instruction. */
  ghost function GuestStep(i: Instruction, g: Guest, f: GuestFlags, rip: int): Effect
    requires Ordinary(i)
  {
    var wide := i.size == 64;
    var m := Width(wide);
    if i.t == T_LEA then Effect(SetReg(g, i.a.reg, EffAddress(i.b, g, rip) % m), f)
    else
      var x, y := Read(i.a, wide, g, rip), Read(i.b, wide, g, rip);
      if i.t == T_ADD then Effect(Write(i.a, wide, (x + y) % m, g, rip), AddFlags(x, y, m))
      else if i.t == T_SUB then Effect(Write(i.a, wide, (x - y) % m, g, rip), CmpFlags(x, y, m))
      else if i.t == T_CMP then Effect(g, CmpFlags(x, y, m))
      else if i.t == T_MOV then Effect(Write(i.a, wide, y, g, rip), f)
      else Effect(SetReg(g, i.a.reg, if Holds(i.t - CMOVO, f) then y else x), f)
  }

  // ---------------------------------------------------------------- when the words are right

  predicate IsReg(op: Operand, r: nat) { op.t == REG_ONLY && op.reg == r }

  predicate IsConstant(op: Operand) { !op.t.mem && op.t != REG_ONLY }

  /** The state is right exactly in these cases; x and y are the operands' values. */
  ghost predicate StateRight(i: Instruction, g: Guest, f: GuestFlags, rip: int)
    requires Ordinary(i)
  {
    var wide := i.size == 64;
    var m := Width(wide);
    if i.t == T_LEA then LeaRight(wide, i.a.reg, i.b, g, rip)
    else
      var x, y := Read(i.a, wide, g, rip), Read(i.b, wide, g, rip);
      if i.t == T_ADD || i.t == T_SUB then
        if i.b.t.mem then i.a.reg != RSP || (y == 0 && g.r[RSP] < m)
        else if i.a.t.mem then !IsReg(i.b, RSP) || y == 0
        else if IsConstant(i.b) then wide || U64(Combine(i.t == T_SUB, g.r[i.a.reg], i.b.imm)) < TWO32
        else if i.a.reg == RSP then y == 0 && g.r[RSP] < m
        else i.b.reg != RSP || y == 0
      else if i.t == T_CMP then true
      else if i.t == T_MOV then
        if i.a.t.mem then !IsReg(i.b, RSP) || y == 0
        else if i.b.t.mem then i.a.reg != RSP || g.r[RSP] == y
        else if IsConstant(i.b) then if i.a.reg == RSP then g.r[RSP] == y else wide || i.b.imm >= 0
        else true
      else CmovRight(wide, Holds(i.t - CMOVO, f), i.a.reg, i.b.reg, g)
  }

  /** What the host's flags are after those that were before: unchanged where the words set none, and otherwise
      right exactly when RSP, read as zero, makes no difference. */
  ghost predicate FlagsRight(i: Instruction, g: Guest, rip: int, before: Flags, after: Flags)
    requires Ordinary(i)
  {
    var wide := i.size == 64;
    var m := Width(wide);
    if i.t == T_CMP || ((i.t == T_ADD || i.t == T_SUB) && !IsConstant(i.b)) then
      SetsFlags(i.t != T_ADD, after, IsReg(i.a, RSP), IsReg(i.b, RSP), Read(i.a, wide, g, rip) % m,
                Read(i.b, wide, g, rip) % m, m)
    else after == before
  }

  /** Where the words stand, the operands can be reached: displacements and constants of ADD and SUB of twelve bits,
      no RSP as the base of an index unless it is zero, constants of 32-bit moves in 32 bits. */
  ghost predicate Formed(i: Instruction, at: Place, g: Guest)
    requires Ordinary(i)
  {
    (i.a.t.mem ==> Reachable(i.a, if i.t == T_MOV then StorePlace(ToArg(i.b), at) else at) && BaseRight(i.a, g)) &&
    (i.b.t.mem ==> Reachable(i.b, at) && (i.t != T_LEA ==> BaseRight(i.b, g))) &&
    ((i.t == T_ADD || i.t == T_SUB) && IsConstant(i.b) ==> -0x1000 < i.b.imm < 0x1000) &&
    (i.t == T_MOV && i.size == 32 && IsConstant(i.b) ==> -0x8000_0000 <= i.b.imm < 0x8000_0000)
  }

  predicate BaseRight(op: Operand, g: Guest) {
    op.t.idx && op.t.reg && op.reg == RSP ==> g.r[RSP] == 0
  }

  // ---------------------------------------------------------------- operands

  lemma AddressIs(op: Operand, g: Guest, at: Place)
    requires Reachable(op, at)
    ensures op.t.mem && Numbered(op) && U64(IntendedSum(op, g, at.rip)) == EffAddress(op, g, at.rip)
    ensures BaseRight(op, g) ==> U64(OperandSum(op, g, at.rip)) == EffAddress(op, g, at.rip)
  {
    hide Pow2;
  }

  lemma LoadFits(m: Mem, a: int, wide: bool)
    ensures LoadWord(m, a, Bytes(wide)) < Width(wide)
  {
    FromBytesBound(ReadBytes(m, a, Bytes(wide)));
    assert Pow256(8) == TWO64 && Pow256(4) == TWO32;
  }

  /** A memory operand, as the words read it. */
  lemma ReadsMemory(op: Operand, wide: bool, at: Place, s: State)
    requires Reachable(op, at) && BaseRight(op, View(s))
    ensures Numbered(op) && var a, y := Address(op, s, at), Read(op, wide, View(s), at.rip);
      a == EffAddress(op, View(s), at.rip) && y == LoadWord(s.mem, a, Bytes(wide)) && y < Width(wide) &&
      y % Width(wide) == y
  {
    hide Width, Bytes, LoadWord, EffAddress, OperandSum, Reachable, View;
    AddressIs(op, View(s), at);
    ViewMemory(s);
    LoadFits(s.mem, EffAddress(op, View(s), at.rip), wide);
    Below(Read(op, wide, View(s), at.rip), Width(wide));
  }

  lemma Below(y: nat, m: nat)
    requires y < m
    ensures y % m == y
  {}

  // ---------------------------------------------------------------- one instruction after another

  /** What is to be shown of the words e. */
  ghost predicate Does(i: Instruction, e: Emission, at: Place, s: State, f: GuestFlags)
    requires Ordinary(i)
  {
    e.Words? && var o := Run(e.ws, s);
    o.Next? && (View(o.s) == GuestStep(i, View(s), f, at.rip).g <==> StateRight(i, View(s), f, at.rip)) &&
    FlagsRight(i, View(s), at.rip, s.f, o.s.f)
  }

  lemma ArithShape(i: Instruction)
    requires Ordinary(i) && (i.t == T_ADD || i.t == T_SUB || i.t == T_CMP || i.t == T_MOV)
    ensures Sound(i.a) && Sound(i.b) && (i.a.t.mem || i.a.t == REG_ONLY) && !(i.a.t.mem && i.b.t.mem)
    ensures Numbered(i.a) && (i.b.t.mem || i.b.t == REG_ONLY ==> Numbered(i.b))
    ensures (i.a.t == REG_ONLY ==> i.a.reg < 16) && (i.b.t == REG_ONLY ==> i.b.reg < 16)
  {}

  /** ADD and SUB with a memory source. */
  lemma ArithLoads(i: Instruction, at: Place, s: State, f: GuestFlags)
    requires Ordinary(i) && (i.t == T_ADD || i.t == T_SUB) && i.b.t.mem && Formed(i, at, View(s)) && s.pc == at.host
    ensures Does(i, EncodeWords(i, at), at, s, f)
  {
    hide Run, View, LoadArithWords, SetsFlags, CmpFlags, AddFlags, Reachable, Address, LoadWord, SetReg, EffAddress,
      Width;
    ArithShape(i);
    var wide, g, r := i.size == 64, View(s), i.a.reg;
    ReadsMemory(i.b, wide, at, s);
    LoadArithMeans(i.t == T_SUB, wide, r, i.b, at, s);
    ReducedOperands(i.t == T_SUB, g.r[r], Read(i.b, wide, g, at.rip), wide);
  }

  /** Only the operands' residues matter. */
  lemma ReducedOperands(sub: bool, x: int, y: int, wide: bool)
    ensures var m := Width(wide);
      m > 0 && Combine(sub, x, y) % m == Combine(sub, x % m, y % m) % m && x % m % m == x % m && y % m % m == y % m
  {
    var m := Width(wide);
    var p, q := x / m, y / m;
    var c := Combine(sub, x % m, y % m);
    var k := if sub then p - q else p + q;
    assert Combine(sub, x, y) == m * k + c by { assert m * (p - q) == m * p - m * q && m * (p + q) == m * p + m * q; }
    DivUnique(Combine(sub, x, y), m, k + c / m, c % m) by { assert m * (k + c / m) == m * k + m * (c / m); }
  }

  /** The source of ADD or SUB that is not in memory. */
  lemma SourceIs(op: Operand, wide: bool, g: Guest, rip: int)
    requires !op.t.mem && (op.t == REG_ONLY ==> op.reg < 16)
    ensures var src, m := ToSource(op), Width(wide);
      (src.Register? <==> !IsConstant(op)) && (src.Constant? ==> src.imm == op.imm) &&
      (src.Register? ==> src.r == op.reg) &&
      m > 0 && Read(op, wide, g, rip) == SourceValue(src, g) % m &&
      (src.Register? ==> SourceValue(src, g) == g.r[op.reg])
  {
    if op.t != REG_ONLY { SameModulo(op.imm, wide); }
  }

  /** ADD and SUB with a memory destination. */
  lemma ArithUpdates(i: Instruction, at: Place, s: State, f: GuestFlags)
    requires Ordinary(i) && (i.t == T_ADD || i.t == T_SUB) && i.a.t.mem && Formed(i, at, View(s)) && s.pc == at.host
    ensures Does(i, EncodeWords(i, at), at, s, f)
  {
    hide Run, View, UpdateWords, SetsFlags, CmpFlags, AddFlags, Reachable, Address, LoadWord, StoreWord, EffAddress,
      Width;
    hide Combine, SourceValue, Read, ToSource;
    ArithShape(i);
    var sub, wide, g, src := i.t == T_SUB, i.size == 64, View(s), ToSource(i.b);
    ReadsMemory(i.a, wide, at, s);
    SourceIs(i.b, wide, g, at.rip);
    UpdateMeans(sub, wide, i.a, src, at, s);
    var x, y := Read(i.a, wide, g, at.rip), Read(i.b, wide, g, at.rip);
    Combined(sub, x, SourceValue(src, g), wide);
    var o := Run(UpdateWords(sub, wide, i.a, src, at).ws, s);
    ViewMemory(s);
    ViewMemory(o.s);
    SameRegisters(View(o.s), g, StoreWord(s.mem, Address(i.a, s, at), Bytes(wide), Combine(sub, x, y) % Width(wide)));
    UpdateReference(i, g, f, at.rip);
  }

  lemma SameRegisters(h: Guest, g: Guest, m: Mem)
    requires h.r == g.r
    ensures h == g.(mem := m) <==> h.mem == m
  {}

  lemma Combined(sub: bool, x: int, y: int, wide: bool)
    ensures var m := Width(wide);
      m > 0 && Combine(sub, x, y) % m == Combine(sub, x % m, y % m) % m && x % m % m == x % m && y % m % m == y % m
    ensures (0 <= x < Width(wide) ==> x % Width(wide) == x) && 0 <= Combine(sub, x, y) % Width(wide) < TWO64
  {
    ReducedOperands(sub, x, y, wide);
  }

  lemma UpdateReference(i: Instruction, g: Guest, f: GuestFlags, rip: int)
    requires Ordinary(i) && (i.t == T_ADD || i.t == T_SUB) && i.a.t.mem
    ensures var wide := i.size == 64;
      Numbered(i.a) && (i.b.t.mem || i.b.t.reg ==> Numbered(i.b)) && Width(wide) > 0 &&
      GuestStep(i, g, f, rip).g == g.(mem := StoreWord(g.mem, EffAddress(i.a, g, rip), Bytes(wide),
        Combine(i.t == T_SUB, Read(i.a, wide, g, rip), Read(i.b, wide, g, rip)) % Width(wide)))
  {
    hide Read, EffAddress, StoreWord, CmpFlags, AddFlags;
  }

  /** ADD and SUB on a register, with a register or a constant. */
  lemma ArithRegisters(i: Instruction, at: Place, s: State, f: GuestFlags)
    requires Ordinary(i) && (i.t == T_ADD || i.t == T_SUB) && !i.a.t.mem && !i.b.t.mem
    requires Formed(i, at, View(s)) && s.pc == at.host
    ensures Does(i, EncodeWords(i, at), at, s, f)
  {
    hide Run, View, ArithWord, SetReg, Width, SourceValue, ToSource, X64Reg, GuestStep, StateRight, FlagsRight,
      ArithFlags;
    hide ArithRight, Combine;
    ArithShape(i);
    var sub, wide, g, src, r := i.t == T_SUB, i.size == 64, View(s), ToSource(i.b), i.a.reg;
    SourceIs(i.b, wide, g, at.rip);
    RegisterArithExact(sub, wide, r, src, s);
    RunOne(ArithWord(sub, wide, X64Reg(r), src), s);
    RegisterReference(i, g, f, at.rip);
    RegisterFlags(i, g, at.rip, s.f, Step(ArithWord(sub, wide, X64Reg(r), src), s).s.f);
  }

  lemma RegisterReference(i: Instruction, g: Guest, f: GuestFlags, rip: int)
    requires Ordinary(i) && (i.t == T_ADD || i.t == T_SUB) && i.a.t == REG_ONLY && !i.b.t.mem
    requires i.a.reg < 16 && (i.b.t == REG_ONLY ==> i.b.reg < 16)
    ensures var sub, wide, src, r := i.t == T_SUB, i.size == 64, ToSource(i.b), i.a.reg;
      var c := Combine(sub, g.r[r], SourceValue(src, g));
      0 <= c % Width(wide) < TWO64 && GuestStep(i, g, f, rip).g == SetReg(g, r, c % Width(wide)) &&
      (StateRight(i, g, f, rip) <==> ArithRight(sub, wide, r, src, g))
  {
    hide CmpFlags, AddFlags, SetReg, Width, SourceValue, ToSource, Combine;
    var sub, wide, src, r := i.t == T_SUB, i.size == 64, ToSource(i.b), i.a.reg;
    SourceIs(i.b, wide, g, rip);
    Combined(sub, g.r[r], SourceValue(src, g), wide);
    CombineIs(sub, Read(i.a, wide, g, rip), Read(i.b, wide, g, rip));
  }

  lemma CombineIs(sub: bool, x: int, y: int)
    ensures Combine(sub, x, y) == if sub then x - y else x + y
  {}

  lemma RegisterFlags(i: Instruction, g: Guest, rip: int, before: Flags, after: Flags)
    requires Ordinary(i) && (i.t == T_ADD || i.t == T_SUB) && i.a.t == REG_ONLY && !i.b.t.mem
    requires i.a.reg < 16 && (i.b.t == REG_ONLY ==> i.b.reg < 16)
    requires ArithFlags(i.t == T_SUB, i.size == 64, i.a.reg == RSP, g.r[i.a.reg], ToSource(i.b), g, before, after)
    ensures FlagsRight(i, g, rip, before, after)
  {
    hide SetsFlags, Width;
    var wide := i.size == 64;
    if i.b.t == REG_ONLY { Combined(true, g.r[i.a.reg], g.r[i.b.reg], wide); }
  }

  /** CMP. */
  lemma ArgIs(op: Operand, wide: bool, at: Place, s: State)
    requires Sound(op) && (op.t.mem ==> Reachable(op, at) && BaseRight(op, View(s)))
    ensures var arg := ToArg(op);
      (arg.RegArg? ==> arg.r < 16) && (arg.MemArg? ==> Numbered(arg.op)) && (arg == RegArg(RSP) <==> IsReg(op, RSP)) &&
      Width(wide) > 0 && Read(op, wide, View(s), at.rip) == ArgValue(arg, wide, s, at) % Width(wide)
  {
    hide View, Reachable, LoadWord;
    if op.t.mem { ReadsMemory(op, wide, at, s); }
  }

  lemma Compares(i: Instruction, at: Place, s: State, f: GuestFlags)
    requires Ordinary(i) && i.t == T_CMP && Formed(i, at, View(s)) && s.pc == at.host
    ensures Does(i, EncodeWords(i, at), at, s, f)
  {
    hide Run, View, CmpWords, CmpFlags, Reachable, ArgValue, Read, Width, FlagsAgree, SubReadsRight;
    ArithShape(i);
    var wide := i.size == 64;
    ArgIs(i.a, wide, at, s);
    ArgIs(i.b, wide, at, s);
    CmpMeans(ToArg(i.a), ToArg(i.b), wide, at, s);
    Combined(true, ArgValue(ToArg(i.a), wide, s, at), ArgValue(ToArg(i.b), wide, s, at), wide);
  }

  /** MOV. */
  lemma MovReference(i: Instruction, g: Guest, f: GuestFlags, rip: int)
    requires Ordinary(i) && i.t == T_MOV
    ensures var wide := i.size == 64;
      Numbered(i.a) && (i.a.t.mem || i.a.t == REG_ONLY) && (i.b.t.mem ==> Numbered(i.b)) &&
      (i.b.t == REG_ONLY ==> i.b.reg < 16) &&
      GuestStep(i, g, f, rip).g == Write(i.a, wide, Read(i.b, wide, g, rip), g, rip)
  {
    hide Read, Write, EffAddress;
    ArithShape(i);
  }

  lemma MovesLoad(i: Instruction, at: Place, s: State, f: GuestFlags)
    requires Ordinary(i) && i.t == T_MOV && i.b.t.mem && Formed(i, at, View(s)) && s.pc == at.host
    ensures Does(i, EncodeWords(i, at), at, s, f)
  {
    hide Run, View, LoadWords, Reachable, Address, LoadWord, SetReg, EffAddress, Width, GuestStep;
    ArithShape(i);
    MovReference(i, View(s), f, at.rip);
    ReadsMemory(i.b, i.size == 64, at, s);
    MovLoads(i.a.reg, i.b, i.size == 64, at, s);
  }

  lemma MovesRegister(i: Instruction, at: Place, s: State, f: GuestFlags)
    requires Ordinary(i) && i.t == T_MOV && !i.a.t.mem && !i.b.t.mem && Formed(i, at, View(s)) && s.pc == at.host
    ensures Does(i, EncodeWords(i, at), at, s, f)
  {
    hide Run, View, ImmWords, SetReg, Width, GuestStep;
    ArithShape(i);
    MovReference(i, View(s), f, at.rip);
    var a, b, wide := ToArg(i.a), ToArg(i.b), i.size == 64;
    if b.RegArg? { MovRegisters(a.r, b.r, wide, at, s); } else { MovConstantExact(a.r, b.imm, wide, at, s); }
  }

  lemma MovesStore(i: Instruction, at: Place, s: State, f: GuestFlags)
    requires Ordinary(i) && i.t == T_MOV && i.a.t.mem && Formed(i, at, View(s)) && s.pc == at.host
    ensures Does(i, EncodeWords(i, at), at, s, f)
  {
    hide Run, View, MovWords, Reachable, Address, StoreWord, EffAddress, Width, GuestStep, Read, StoreSetup;
    ArithShape(i);
    MovReference(i, View(s), f, at.rip);
    var b, wide, g := ToArg(i.b), i.size == 64, View(s);
    AddressAt(i.a, s, StorePlace(b, at), at);
    MovStores(i.a, b, wide, at, s);
    StoredIs(i.b, wide, g, at.rip, s.mem, Address(i.a, s, at));
    var o := Run(MovWords(ToArg(i.a), b, wide, at).ws, s);
    ViewMemory(s);
    ViewMemory(o.s);
    SameRegisters(View(o.s), g, StoreWord(s.mem, Address(i.a, s, at), Bytes(wide), Read(i.b, wide, g, at.rip)));
  }

  /** Storing in the operand size looks only at the value in that size. */
  lemma StoredIs(op: Operand, wide: bool, g: Guest, rip: int, m: Mem, a: u64)
    requires !op.t.mem && Sound(op)
    ensures var b := ToArg(op);
      !b.MemArg? && (b.RegArg? ==> b.r < 16) && (b == RegArg(RSP) <==> IsReg(op, RSP)) &&
      var v: u64 := if b.ImmArg? then U64(b.imm) else g.r[b.r];
      Width(wide) > 0 && (b.RegArg? ==> Read(op, wide, g, rip) == g.r[b.r] % Width(wide)) &&
      StoreWord(m, a, Bytes(wide), v) == StoreWord(m, a, Bytes(wide), Read(op, wide, g, rip))
  {
    hide StoreWord, Width;
    var b := ToArg(op);
    var v: u64 := if b.ImmArg? then U64(b.imm) else g.r[b.r];
    Combined(true, v, v, wide);
    StoreModulo(m, a, wide, v, v % Width(wide));
  }

  lemma AddressAt(op: Operand, s: State, p: Place, at: Place)
    requires Reachable(op, p) && p.rip == at.rip && BaseRight(op, View(s))
    ensures op.t.mem && Numbered(op) && Address(op, s, at) == EffAddress(op, View(s), at.rip)
  {
    hide Reachable, View, OperandSum, EffAddress;
    AddressIs(op, View(s), p);
  }

  /** LEA. */
  lemma Leas(i: Instruction, at: Place, s: State, f: GuestFlags)
    requires Ordinary(i) && i.t == T_LEA && Formed(i, at, View(s)) && s.pc == at.host
    ensures Does(i, EncodeWords(i, at), at, s, f)
  {
    hide Run, View, LeaWords, Reachable, SetReg, EffAddress, IntendedSum, Width, LeaRight, LeaResult;
    AddressIs(i.b, View(s), at);
    LeaMeans(i.size == 64, i.a.reg, i.b, at, s);
  }

  /** CMOVA and CMOVS. */
  lemma Cmovs(i: Instruction, at: Place, s: State, f: GuestFlags)
    requires Ordinary(i) && CMOVO <= i.t < CMOVO + 16 && FlagsAgree(s.f, f)
    requires i.t == CMOVO + CC_A || i.t == CMOVO + CC_S
    ensures Does(i, EncodeWords(i, at), at, s, f)
  {
    hide Run, View, CmovWord, SetReg, Width, CmovRight, Holds, FlagsAgree;
    CmovMeans(i.t - CMOVO, i.size == 64, i.a.reg, i.b.reg, s, f);
    RunOne(CmovWord(i.t, i.size == 64, i.a.reg, i.b.reg).w, s);
  }

  // ---------------------------------------------------------------- the law

  /** Every modelled instruction other than SETcc, LEAVE and RET: the words that encode appends for it, run where they
      stand, do to the guest what the instruction does, exactly in the cases stated, and set the flags as stated. */
  lemma EncodedExact(i: Instruction, at: Place, s: State, f: GuestFlags)
    requires Ordinary(i) && Formed(i, at, View(s)) && s.pc == at.host
    requires CMOVO <= i.t < CMOVO + 16 ==> FlagsAgree(s.f, f) && (i.t == CMOVO + CC_A || i.t == CMOVO + CC_S)
    ensures var e := EncodeWords(i, at);
      e.Words? && var o := Run(e.ws, s);
      o.Next? && (View(o.s) == GuestStep(i, View(s), f, at.rip).g <==> StateRight(i, View(s), f, at.rip)) &&
      FlagsRight(i, View(s), at.rip, s.f, o.s.f)
  {
    hide EncodeWords, Run, View, GuestStep, StateRight, FlagsRight, Formed, FlagsAgree;
    if i.t == T_ADD || i.t == T_SUB {
      ArithShape(i);
      if i.b.t.mem { ArithLoads(i, at, s, f); }
      else if i.a.t.mem { ArithUpdates(i, at, s, f); }
      else { ArithRegisters(i, at, s, f); }
    } else if i.t == T_CMP {
      Compares(i, at, s, f);
    } else if i.t == T_MOV {
      ArithShape(i);
      if i.b.t.mem { MovesLoad(i, at, s, f); }
      else if i.a.t.mem { MovesStore(i, at, s, f); }
      else { MovesRegister(i, at, s, f); }
    } else if i.t == T_LEA {
      Leas(i, at, s, f);
    } else {
      Cmovs(i, at, s, f);
    }
  }

  /** SETcc on a register operand, as it was decoded from the ModR/M field rm, the prefix and a stale reverse. */
  lemma SetEncoded(i: Instruction, at: Place, rm: nat, rex: Option<nat>, s: State, f: GuestFlags)
    requires Modelled(i) && i.size == 8 && rm < 8 && i.a.reg == SetGets(rm, rex, i.reverse) && FlagsAgree(s.f, f)
    requires var cc := i.t - SETO; cc == CC_NE || cc == CC_AE || cc == CC_E || cc == CC_B
    ensures var e, bit := EncodeWords(i, at), if Holds(i.t - SETO, f) then 1 else 0;
      e.Words? && var o := Run(e.ws, s);
      o.Next? && (View(o.s) == SetByte(View(s), rm, rex, bit) <==> SetRight(View(s), rm, rex, i.reverse, bit)) &&
      o.s.f == s.f
  {
    hide Run, View, SetWord, SetByte, SetRight, Holds, FlagsAgree;
    SetccExact(i.t - SETO, rm, rex, i.reverse, s, f);
    RunOne(SetWord(i.t, i.a.reg).w, s);
  }

  /** LEAVE takes the saved pair off the host frame, RET goes to the link; neither touches the flags. */
  lemma LeaveEncoded(i: Instruction, at: Place, s: State)
    requires Modelled(i) && i.size != 8 && i.t == T_LEAVE && s.x[29] + 16 < TWO64
    ensures var e, g, fp := EncodeWords(i, at), View(s), s.x[29];
      e.Words? && var o := Run(e.ws, s);
      o.Next? && fp == g.r[RBP] && o.s.x[30] == LoadWord(g.mem, fp, 8) && o.s.f == s.f &&
      View(o.s) == SetReg(SetReg(g, RSP, fp + 16), RBP, LoadWord(g.mem, fp + 8, 8))
  {
    hide Run, Step, LoadWord, RdRnImm, PopFrame, View, SetReg;
    var a, b, fp := RdRnImm(SF + ADD_IMM, 31, 29, 0), PopFrame(), s.x[29];
    FrameRegisters();
    ViewReads(s, RBP);
    StepFramePointer(s);
    var t := Step(a, s).s;
    StepPopFrame(t);
    RunCons(a, [b], s);
    RunOne(b, t);
    assert [a] + [b] == LeaveWords();
    ViewMemory(s);
    LeaveView(s, Step(b, t).s, LoadWord(s.mem, fp, 8), LoadWord(s.mem, fp + 8, 8), fp + 16);
  }

  lemma FrameRegisters()
    ensures X64Reg(RBP) == 29 && X64Reg(RSP) == 31
  {}

  lemma LeaveView(s: State, t: State, link: u64, rbp: u64, sp: u64)
    requires t.x == s.x[30 := link][29 := rbp] && t.sp == sp && t.mem == s.mem
    ensures View(t) == SetReg(SetReg(View(s), RSP, sp), RBP, rbp)
  {
    var g := SetReg(SetReg(View(s), RSP, sp), RBP, rbp);
    forall i: nat | i < 16 ensures View(t).r[i] == g.r[i] {
      GuestRegistersApart(i, RBP);
      GuestRegistersApart(i, RSP);
    }
  }

  lemma ReturnEncoded(i: Instruction, at: Place, s: State)
    requires Modelled(i) && i.size != 8 && i.t == T_RET
    ensures var e := EncodeWords(i, at); e.Words? && Run(e.ws, s) == Next(s.(pc := s.x[30]))
  {
    hide Step, Run;
    StepReturn(s);
    RunOne(RET, s);
  }

  /** Exactly the conditions that the encoder does not know make it panic. */
  lemma PanicsExactly(i: Instruction, at: Place)
    requires Modelled(i) && (i.size == 8 || CMOVO <= i.t < CMOVO + 16)
    ensures EncodeWords(i, at).Panic? <==>
      if i.size == 8 then i.t - SETO !in {CC_NE, CC_AE, CC_E, CC_B} else i.t - CMOVO !in {CC_A, CC_S}
  {
    hide Bits.Or, RdRnRm, X64Reg;
  }

  // ---------------------------------------------------------------- jumping on the flags

  /** SUB or CMP, then a conditional jump of either encoding, once patched: the jump is taken exactly when the x86
      condition holds of the flags of the instruction. */
  lemma SubtractAndJump(i: Instruction, at: Place, s: State, cc: nat, offset: int)
    requires Ordinary(i) && Formed(i, at, View(s)) && s.pc == at.host
    requires i.t == T_CMP || (i.t == T_SUB && !IsConstant(i.b))
    requires cc < 16 && PatchedJump(ShortJump(0x70 + cc)) && -0x4_0000 <= offset < 0x4_0000
    requires var wide, g := i.size == 64, View(s);
      SubReadsRight(IsReg(i.a, RSP), IsReg(i.b, RSP), Read(i.a, wide, g, at.rip) % Width(wide),
                    Read(i.b, wide, g, at.rip) % Width(wide), Width(wide))
    ensures var e, wide, g := EncodeWords(i, at), i.size == 64, View(s);
      var flags := CmpFlags(Read(i.a, wide, g, at.rip) % Width(wide), Read(i.b, wide, g, at.rip) % Width(wide),
        Width(wide));
      e.Words? && var o := Run(e.ws, s);
      o.Next? && var p := PatchWord(ShortJump(0x70 + cc), offset);
      p.Patch? && var j := Step(p.w, o.s);
      j.Next? && View(j.s) == View(o.s) && j.s.pc == U64(o.s.pc + if Holds(cc, flags) then 4 * offset else 4)
  {
    hide EncodeWords, Run, Step, View, GuestStep, StateRight, Formed, Read, Holds, PatchWord, CmpFlags, FlagsAgree,
      Width;
    hide SubReadsRight;
    EncodedExact(i, at, s, GuestFlags(false, false, false, false));
    var wide, g := i.size == 64, View(s);
    WidthBounds(wide, 0);
    JumpTaken(cc, offset, Run(EncodeWords(i, at).ws, s).s,
      CmpFlags(Read(i.a, wide, g, at.rip) % Width(wide), Read(i.b, wide, g, at.rip) % Width(wide), Width(wide)));
  }
}

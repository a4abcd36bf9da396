/** The compile loop of decode (src/decoder.c) on values: points, instructions and the branch into
    code that is already compiled, over the cache index and the linked host code together. */
module Compilation {
  import opened Bits
  import opened Options
  import Arm64
  import Emitter
  import X86
  import PushPop
  import opened CacheIndex
  import opened PatchSlots
  import opened Linker

  const MAX_LENGTH: nat := 15
  const MAX_WORDS: nat := 64

  /** An emitted word, or a jump of type t to offset bytes past the instruction. */
  datatype Item = Plain(w: nat) | Jump(t: int, offset: int)

  /** What decode_instr and encode do with one instruction: the bytes it has, whether it ends the
      block, the words taken back by the peephole and the words appended. */
  datatype Compiled = Compiled(len: nat, last: bool, drop: nat, items: seq<Item>)

  /** The guest program, as compiled at a guest address behind the words of this compilation, the last
      of which, in the given number, are those of the open block. */
  type Guest = (nat, seq<nat>, nat) -> Compiled

  function Jumps(items: seq<Item>): nat {
    if items == [] then 0 else Jumps(items[..|items| - 1]) + if items[|items| - 1].Jump? then 1 else 0
  }

  ghost predicate Proper(i: Item) {
    match i
    case Plain(w) => !IsBrk(w)
    case Jump(t, _) => Patchable(t)
  }

  /** A rewind may reach in front of the open block, into words of the same compilation, but the block
      must not end up shorter than empty. */
  ghost predicate SaneAt(i: Compiled, gp: nat, ws: seq<nat>, n: nat) {
    1 <= i.len <= MAX_LENGTH && (i.last || gp + i.len < TWO32) && i.drop <= |ws| && |i.items| <= MAX_WORDS &&
    i.drop <= n + |i.items| && Jumps(i.items) <= 1 && (forall k :: |ws| - i.drop <= k < |ws| ==> !IsBrk(ws[k])) &&
    forall k :: 0 <= k < |i.items| ==> Proper(i.items[k])
  }

  /** Instructions are at most 15 bytes and 64 words long and jump at most once; the peephole takes
      back plain words of this compilation only; guest code ends within its 4 GiB window. */
  ghost predicate Sane(o: Guest) {
    forall gp: nat, ws: seq<nat>, n: nat :: gp < TWO32 && n <= |ws| ==> SaneAt(o(gp, ws, n), gp, ws, n)
  }

  function EmitItem(c: Code, gp: nat, i: Item): (d: Code)
    requires Ok(c.slots)
    ensures Ok(d.slots)
  {
    match i
    case Plain(w) => EmitWord(c, w)
    case Jump(t, offset) =>
      IssueKeeps(c.slots, PatchUnit(U32(gp + offset), t));
      EmitJump(c, PatchUnit(U32(gp + offset), t))
  }

  function EmitItems(c: Code, gp: nat, items: seq<Item>): (d: Code)
    requires Ok(c.slots)
    ensures Ok(d.slots)
  {
    if items == [] then c else EmitItem(EmitItems(c, gp, items[..|items| - 1]), gp, items[|items| - 1])
  }

  /** encode: rewind, then append. */
  function EmitInstr(c: Code, gp: nat, i: Compiled): Code
    requires Ok(c.slots) && i.drop <= |c.words|
  {
    EmitItems(Unemit(c, i.drop), gp, i.items)
  }

  lemma EmitItemKeeps(c: Code, gp: nat, i: Item, log: set<Mark>, pending: Option<nat>)
    requires LinkedUp(c, log, pending) && Proper(i) && (i.Jump? ==> |c.slots.jumps| < 0xFFFF)
    ensures var d := EmitItem(c, gp, i);
      LinkedUp(d, log, pending) && d.fixed == c.fixed && |d.words| == |c.words| + 1 &&
      d.words[..|c.words|] == c.words &&
      |d.slots.jumps| <= |c.slots.jumps| + if i.Jump? then 1 else 0
  {
    hide LinkedUp, IsBrk, Ok, BrkWord;
    LinkedSlots(c, log, pending);
    match i
    case Plain(w) => EmitWordKeeps(c, w, log, pending);
    case Jump(t, offset) => EmitJumpKeeps(c, PatchUnit(U32(gp + offset), t), log, pending);
  }

  lemma LinkedSlots(c: Code, log: set<Mark>, pending: Option<nat>)
    requires LinkedUp(c, log, pending)
    ensures Ok(c.slots)
  {}

  lemma {:induction false} EmitItemsKeep(c: Code, gp: nat, items: seq<Item>, log: set<Mark>, pending: Option<nat>)
    requires LinkedUp(c, log, pending) && |c.slots.jumps| + Jumps(items) <= 0xFFFF
    requires forall k :: 0 <= k < |items| ==> Proper(items[k])
    ensures Ok(c.slots) && var d := EmitItems(c, gp, items);
      LinkedUp(d, log, pending) && d.fixed == c.fixed && |d.words| == |c.words| + |items| &&
      d.words[..|c.words|] == c.words &&
      |d.slots.jumps| <= |c.slots.jumps| + Jumps(items)
  {
    hide LinkedUp, Ok, EmitItem, Proper;
    LinkedSlots(c, log, pending);
    if items != [] {
      var n := |items| - 1;
      EmitItemsKeep(c, gp, items[..n], log, pending);
      EmitItemKeeps(EmitItems(c, gp, items[..n]), gp, items[n], log, pending);
    }
  }

  /** The peephole's code for PUSH and POP meets this: all its words are plain, and a rewind stays inside it. */
  lemma StackCodeIsPlain(ops: seq<X86.StackOp>)
    requires PushPop.AllPlain(ops) && PushPop.Admissible(ops)
    ensures var p := PushPop.Translate(ops);
      (forall k :: 0 <= k < |p.words| ==> !IsBrk(p.words[k])) && (!p.previous.NoPrevious? ==> |p.words| >= 3)
  {
    hide IsBrk, PushPop.Translate, Arm64.Run, X86.StackRun, X86.View, PushPop.Single, PushPop.Rewind, PushPop.Fuses;
    var s := PushPop.AnyState(0);
    PushPop.TranslationTracks(ops, s);
    RunningWordsArePlain(PushPop.Translate(ops).words, s);
  }

  // ---------------------------------------------------------------- the loop invariant

  /** One instruction is owed to a block just started. */
  function Credit(x: Index): int
    requires x.block < |x.blocks|
  {
    |x.offs| + |x.blocks| - if x.gp == x.blocks[x.block].gpLo then 1 else 0
  }

  /** Compiling addr from host index h0 on: what holds in the loop whichever way the block was split.
      Slots and words are paid for by points and blocks. */
  ghost predicate Shared(x: Index, code: Code, addr: nat, h0: nat, pending: Option<nat>) {
    Inv(x, true) && LinkedUp(code, x.log, pending) && x.hp == |code.words| && StartsAt(x, addr, h0) &&
    (pending.Some? ==> pending.value < h0) && (forall p :: p in code.fixed ==> p < h0) &&
    h0 <= x.blocks[x.block].hp && addr <= x.blocks[x.block].gpLo && |x.offs| < MAX_OFFSETS && |x.blocks| < MAX_BLOCKS &&
    TablesApart(x)
  }

  /** Before the point of the next instruction ... */
  ghost predicate Building(x: Index, code: Code, addr: nat, h0: nat, pending: Option<nat>) {
    Shared(x, code, addr, h0, pending) && Ready(x) && |code.slots.jumps| <= Credit(x) && x.hp <= MAX_WORDS * Credit(x)
  }

  /** ... and after it, with one instruction paid for. */
  ghost predicate Pointed(x: Index, code: Code, addr: nat, h0: nat, pending: Option<nat>) {
    Shared(x, code, addr, h0, pending) && Near(x) &&
    |code.slots.jumps| < |x.offs| + |x.blocks| && x.hp <= MAX_WORDS * (|x.offs| + |x.blocks| - 1)
  }

  /** Every instruction after a block's first takes exactly one free offset slot. */
  lemma PointConsumes(c: Index)
    requires Inv(c, true) && Ready(c) && BlockPoint(c).Some?
    ensures var d := BlockPoint(c).value;
      |d.offs| == |c.offs| + (if c.gp == c.blocks[c.block].gpLo then 0 else 1) && |d.blocks| >= |c.blocks| &&
      c.log <= d.log && d.blocks[d.block].hp >= c.blocks[c.block].hp &&
      d.blocks[d.block].gpLo >= c.blocks[c.block].gpLo &&
      d.hostC == c.hostC && (|c.offs| < MAX_OFFSETS ==> |d.offs| < MAX_OFFSETS) &&
      (|c.blocks| < MAX_BLOCKS ==> |d.blocks| < MAX_BLOCKS)
  {
    PointCases(c);
    hide Inv, Record, Restart, BlockPoint, Ready;
    if Far(c) {
      RestartKeeps(c);
      RestartOffs(c);
      RecordOffs(Restart(c).value);
    } else if c.gp != c.blocks[c.block].gpLo {
      RecordOffs(c);
    }
  }

  lemma RestartOffs(c: Index)
    requires Inv(c, true) && Restart(c).Some?
    ensures var d := Restart(c).value;
      d.offs == c.offs && |d.blocks| == |c.blocks| + 1 && c.log <= d.log && d.block < |d.blocks| &&
      d.blocks[d.block] == CacheUnit(c.gp, c.hp, 0, 0, 1) &&
      |d.blocks| < MAX_BLOCKS && d.hostC == c.hostC && d.gp == c.gp && d.hp == c.hp && |d.spans| == |d.blocks| &&
      d.loffp == 0
  {
    hide Tiles, BlockOk, Sorted, Increasing, Logged;
    OpenBlock(c);
  }

  lemma RecordOffs(c: Index)
    requires Inv(c, true) && c.loffp < 255 && Record(c).Some?
    ensures var d := Record(c).value;
      |d.offs| == |c.offs| + 1 && |d.blocks| >= |c.blocks| && c.log <= d.log && d.block < |d.blocks| &&
      d.blocks[d.block].hp >= c.blocks[c.block].hp && d.blocks[d.block].gpLo >= c.blocks[c.block].gpLo &&
      d.hostC == c.hostC &&
      |d.offs| < MAX_OFFSETS && (|c.blocks| < MAX_BLOCKS ==> |d.blocks| < MAX_BLOCKS)
  {
    hide Tiles, BlockOk, Sorted, Increasing, Logged, InsertAt;
    OpenBlock(c);
  }

  lemma PointBuilds(x: Index, code: Code, addr: nat, h0: nat, pending: Option<nat>)
    requires Building(x, code, addr, h0, pending) && BlockPoint(x).Some?
    ensures Pointed(BlockPoint(x).value, code, addr, h0, pending)
  {
    hide LinkedUp, StartsAt, Inv, Near, BlockPoint, TablesApart;
    OpenBlock(x);
    var d := BlockPoint(x).value;
    PointKeeps(x);
    PointTablesApart(x);
    OpenBlock(d);
    PointConsumes(x);
    PointStarts(x, addr, h0);
    LogGrows(code, x.log, d.log, pending);
  }

  /** Moving on past an instruction. */
  lemma MoveKeeps(x: Index, len: nat, hp: nat)
    requires Inv(x, true) && Near(x) && x.blocks[x.block].hp <= hp <= x.hp + MAX_WORDS && 1 <= len <= MAX_LENGTH
    ensures var y := x.(gp := x.gp + len, hp := hp); Inv(y, true) && Ready(y)
  {
    hide BlockOk, Sorted;
    var y := x.(gp := x.gp + len, hp := hp);
    SameTiles(x, y);
  }

  /** A rewind that leaves the host position in front of the open block breaks the cache exactly then: the
      position lies in the extent of a closed block, and the difference to the block's start, which the next
      point takes modulo 2^16, looks too long for a byte. */
  lemma MoveExact(x: Index, len: nat, hp: nat)
    requires Inv(x, true) && Near(x) && hp <= x.hp + MAX_WORDS && 1 <= len <= MAX_LENGTH
    ensures var b, y := x.blocks[x.block], x.(gp := x.gp + len, hp := hp);
      (Inv(y, true) <==> b.hp <= hp) && (hp < b.hp ==> Owned(x, hp)) &&
      (b.hp - 0xFF00 <= hp < b.hp ==> (hp - b.hp) % 0x1_0000 > 255)
  {
    hide BlockOk, Sorted, Near;
    OpenBlock(x);
    var b, y := x.blocks[x.block], x.(gp := x.gp + len, hp := hp);
    if b.hp <= hp { MoveKeeps(x, len, hp); } else { WrapsFar(hp - b.hp); }
  }

  lemma WrapsFar(d: int)
    requires d < 0
    ensures d >= -0xFF00 ==> d % 0x1_0000 > 255
  {}

  /** So it is for PUSH RBP in a block just started by a split, behind a push left open in the block before. */
  lemma FrameAfterSplit(x: Index, len: nat, p: PushPop.Peephole)
    requires Inv(x, true) && Near(x) && 1 <= len <= MAX_LENGTH
    requires p.previous.PushPrevious? && x.blocks[x.block].hp == x.hp == |p.words| && |p.words| >= 3
    ensures X86.ValidOp(X86.Push(Emitter.RBP)) && var q := PushPop.EncodeOp(p, X86.Push(Emitter.RBP));
      var y := x.(gp := x.gp + len, hp := |q.words|);
      !Inv(y, true) && Owned(x, y.hp) && (y.hp - x.blocks[x.block].hp) % 0x1_0000 == 0xFFFE
  {
    hide Inv, Owned, Near, PushPop.PushFrame, PushPop.OperandReg, PushPop.SetupWords;
    MoveExact(x, len, |p.words| - 2);
    MinusTwo(x.hp);
  }

  lemma MinusTwo(n: nat)
    ensures (n - 2 - n) % 0x1_0000 == 0xFFFE
  {}

  function AfterInstr(x: Index, code: Code, i: Compiled): (r: (Index, Code))
    requires Ok(code.slots) && i.drop <= |code.words|
  {
    var d := EmitInstr(code, x.gp + i.len, i);
    (x.(gp := x.gp + i.len, hp := |d.words|), d)
  }

  lemma InstrBuilds(x: Index, code: Code, i: Compiled, addr: nat, h0: nat, pending: Option<nat>)
    requires Pointed(x, code, addr, h0, pending) && x.block < |x.blocks| && h0 <= x.blocks[x.block].hp <= |code.words|
    requires SaneAt(i, x.gp, code.words[h0..], |code.words| - x.blocks[x.block].hp)
    ensures Ok(code.slots) && i.drop <= |code.words| && var r := AfterInstr(x, code, i);
      Building(r.0, r.1, addr, h0, pending) && r.1.fixed == code.fixed && |r.1.words| >= h0 &&
      r.1.words[..h0] == code.words[..h0]
  {
    hide LinkedUp, StartsAt, Inv, EmitItems, IsBrk, Ok, Proper, TablesApart;
    OpenBlock(x);
    LinkedSlots(code, x.log, pending);
    var n := |code.words| - i.drop;
    forall p | n <= p < |code.words| ensures !IsBrk(code.words[p]) { assert code.words[p] == code.words[h0..][p - h0]; }
    UnemitKeeps(code, i.drop, x.log, pending);
    var base := Unemit(code, i.drop);
    EmitItemsKeep(base, x.gp + i.len, i.items, x.log, pending);
    var r := AfterInstr(x, code, i);
    assert r.1.words[..h0] == base.words[..h0] == code.words[..h0];
    MoveKeeps(x, i.len, |r.1.words|);
    SameStarts(x, r.0, addr, h0);
    SameTables(x, r.0);
  }

  /** The block can be closed. */
  ghost predicate Ended(x: Index, code: Code, addr: nat, h0: nat, pending: Option<nat>) {
    Inv(x, true) && LinkedUp(code, x.log, pending) && x.hp == |code.words| && StartsAt(x, addr, h0) &&
    |x.offs| < MAX_OFFSETS && |x.blocks| < MAX_BLOCKS &&
    |code.slots.jumps| <= |x.offs| + |x.blocks| && x.hp <= MAX_WORDS * (|x.offs| + |x.blocks|) && TablesApart(x)
  }

  /** Between compilations. */
  ghost predicate Linked(x: Index, code: Code, pending: Option<nat>) {
    Inv(x, false) && LinkedUp(code, x.log, pending) && x.hp == x.hostP == |code.words| &&
    |x.offs| < MAX_OFFSETS && |x.blocks| < MAX_BLOCKS &&
    |code.slots.jumps| <= |x.offs| + |x.blocks| && x.hp <= MAX_WORDS * (|x.offs| + |x.blocks|) && TablesApart(x)
  }

  /** Whatever was compiled, the recorded points that a search misses lie in one block, except one at host index 0. */
  lemma LostInOneBlock(x: Index, code: Code, pending: Option<nat>, k: nat, j: nat, gp: nat, k': nat, j': nat, gp': nat)
    requires Linked(x, code, pending)
    requires PointOf(x, k, j, gp) && x.blocks[k].hp + x.offs[x.blocks[k].offsets + j].hoff != 0 && IsLookup(x, gp, None)
    requires PointOf(x, k', j', gp') && x.blocks[k'].hp + x.offs[x.blocks[k'].offsets + j'].hoff != 0 &&
      IsLookup(x, gp', None)
    ensures k == k' && HasFirstTable(x, k)
  {
    hide LinkedUp, Inv, IsLookup;
    PointFoundExact(x, false, k, j, gp, None);
    PointFoundExact(x, false, k', j', gp', None);
    FirstTableExact(x);
  }

  /** An empty cache is linked up. */
  lemma EmptyLinked(hostC: nat, capacity: nat)
    requires capacity > 0
    ensures Linked(Index([], [], [], 0, 0, hostC, 0, 0, 0, 0, {}), Code([], Slots([], capacity, []), map[]), None)
  {
    var s := Slots([], capacity, []);
    assert Live(s) == map[];
  }

  /** The branch into compiled code. */
  lemma JoinBuilds(x: Index, code: Code, target: nat, addr: nat, h0: nat, pending: Option<nat>)
    requires Pointed(x, code, addr, h0, pending) && Mark(x.gp, target) in x.log && x.gp < TWO32
    ensures Ended(x.(hp := x.hp + 1), EmitDirect(code, x.gp, target), addr, h0, pending)
  {
    hide LinkedUp, StartsAt, BlockOk, Sorted, Bits.Or, TablesApart;
    var y := x.(hp := x.hp + 1);
    EmitDirectKeeps(code, x.gp, target, x.log, pending);
    SameTables(x, y);
    SameTiles(x, y);
    SameStarts(x, y, addr, h0);
  }

  lemma CloseLinks(x: Index, code: Code, addr: nat, h0: nat, pending: Option<nat>)
    requires Ended(x, code, addr, h0, pending)
    ensures x.block < |x.blocks| == |x.spans| && x.blocks[x.block].hp <= x.hp && x.loffp < 256
    ensures var y := Close(x); Linked(y, code, pending) && StartsAt(y, addr, h0)
  {
    hide LinkedUp, StartsAt, Inv, TablesApart;
    OpenBlock(x);
    CloseKeeps(x);
    CloseTablesApart(x);
    CloseStarts(x, addr, h0);
  }

  lemma StartBuilds(x: Index, code: Code, pending: Option<nat>)
    requires Linked(x, code, pending) && IsLookup(x, x.gp, None) && |x.spans| == |x.blocks| && BlockStart(x).Some?
    ensures Building(BlockStart(x).value, code, x.gp, x.hp, pending)
  {
    hide IsLookup, TablesApart;
    var y := BlockStart(x).value;
    StartTablesApart(x);
    StartKeeps(x);
    StartedOnMiss(x);
    LogGrows(code, x.log, y.log, pending);
    FixedInside(code, x.log, pending);
    hide LinkedUp, StartsAt, Tiles, BlockOk, Sorted;
  }

  lemma SaneHere(o: Guest, gp: nat, ws: seq<nat>, n: nat)
    requires Sane(o) && gp < TWO32 && n <= |ws|
    ensures var i := o(gp, ws, n);
      SaneAt(i, gp, ws, n) && i.drop <= |ws| && |i.items| <= MAX_WORDS && i.len >= 1 && (i.last || gp + i.len < TWO32)
  {
    hide IsBrk, Jumps;
  }

  lemma BuildingOpen(x: Index, code: Code, addr: nat, h0: nat, pending: Option<nat>)
    requires Building(x, code, addr, h0, pending)
    ensures |x.offs| < MAX_OFFSETS && Inv(x, true) && Ready(x) && Ok(code.slots) && x.block < |x.blocks| && h0 <= x.hp
  {
    hide LinkedUp, StartsAt, Inv;
    OpenBlock(x);
    LinkedSlots(code, x.log, pending);
  }

  lemma PointedOpen(x: Index, code: Code, addr: nat, h0: nat, pending: Option<nat>)
    requires Pointed(x, code, addr, h0, pending)
    ensures Inv(x, true) && Ok(code.slots) && x.block < |x.blocks| && h0 <= x.blocks[x.block].hp <= x.hp &&
      x.hp == |code.words|
    ensures x.blocks[x.block].gpLo <= x.gp
    ensures x.hp + MAX_WORDS <= MAX_WORDS * (MAX_OFFSETS + MAX_BLOCKS)
  {
    hide LinkedUp, StartsAt, Inv;
    OpenBlock(x);
    LinkedSlots(code, x.log, pending);
  }

  lemma BuildingEnds(x: Index, code: Code, addr: nat, h0: nat, pending: Option<nat>)
    requires Building(x, code, addr, h0, pending)
    ensures Ended(x, code, addr, h0, pending)
  {
    hide LinkedUp, StartsAt, Inv;
    OpenBlock(x);
  }

  // ---------------------------------------------------------------- one turn of the loop

  /** An open block with its point recorded, and one more instruction: last ends the block. */
  ghost predicate InstrTo(h0: nat, x: Index, code: Code, o: Guest, last: bool, y: Index, d: Code) {
    x.block < |x.blocks| && h0 <= x.blocks[x.block].hp <= |code.words| && Ok(code.slots) &&
    var i := o(x.gp, code.words[h0..], |code.words| - x.blocks[x.block].hp);
    i.drop <= |code.words| && last == i.last && (y, d) == AfterInstr(x, code, i)
  }

  ghost predicate PointTo(x: Index, y: Index) {
    Inv(x, true) && x.loffp < 255 && BlockPoint(x) == Some(y)
  }

  /** The branch into code compiled at host index target. */
  ghost predicate JoinTo(x: Index, code: Code, target: nat, y: Index, d: Code) {
    x.gp < TWO32 && d == EmitDirect(code, x.gp, target) && PointTo(x, y.(hp := x.hp)) && y.hp == x.hp + 1
  }

  /** The look behind the instruction. */
  ghost predicate LookTo(x: Index, code: Code, done: bool, y: Index, d: Code) {
    if done then exists target: nat :: IsLookup(x, x.gp, Some(target)) && JoinTo(x, code, target, y, d)
    else IsLookup(x, x.gp, None) && y == x && d == code
  }

  /** The point and the instruction. */
  ghost predicate AdvanceTo(h0: nat, x: Index, code: Code, o: Guest, last: bool, y: Index, d: Code) {
    exists p: Index :: PointTo(x, p) && InstrTo(h0, p, code, o, last, y, d)
  }

  /** A whole turn; done leaves the loop. */
  ghost predicate TurnTo(h0: nat, x: Index, code: Code, o: Guest, done: bool, y: Index, d: Code) {
    (done && AdvanceTo(h0, x, code, o, true, y, d)) ||
    exists z: Index, e: Code :: AdvanceTo(h0, x, code, o, false, z, e) && LookTo(z, e, done, y, d)
  }

  /** Turn after turn of the compilation begun at host index h0, the last of which leaves the loop if done. */
  ghost predicate IsRun(h0: nat, run: seq<(Index, Code)>, o: Guest, done: bool) {
    run != [] && forall k :: 0 <= k < |run| - 1 ==>
      TurnTo(h0, run[k].0, run[k].1, o, done && k == |run| - 2, run[k + 1].0, run[k + 1].1)
  }

  /** Pulling a context for addr and starting its block. */
  ghost predicate StartTo(x: Index, addr: nat, y: Index) {
    |x.spans| == |x.blocks| && BlockStart(x.(gp := addr)) == Some(y)
  }

  /** Closing the block and letting the context go. */
  ghost predicate CloseTo(x: Index, y: Index) {
    x.block < |x.blocks| == |x.spans| && x.blocks[x.block].hp <= x.hp && x.loffp < 256 &&
    BlockEnd(x).Some? && y == BlockEnd(x).value.(gp := 0, block := 0)
  }
}

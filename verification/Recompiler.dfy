/** decode (src/decoder.c) and brk_handler (src/patcher.c) at work on the translation cache. */
module Recompiler {
  import opened Bits
  import opened Options
  import opened Emitter
  import opened Conditions
  import opened CacheIndex
  import opened PatchSlots
  import opened Linker
  import opened Compilation
  import opened Runs
  import opened CompileContext
  import opened TranslationCache

  /** One word, or a slot and its BRK (emit_branch). */
  method EmitOne(a: Anchor, c: Context, i: Item)
    requires a.Serves(c) && Ok(a.Slots()) && c.Room(1)
    modifies a`jumps, a`jumpsP, a`jumpsReuseP, a.jumps, c`hp, c.host
    ensures a.Serves(c) && c.hp == old(c.hp) + 1 && (a.jumps == old(a.jumps) || fresh(a.jumps))
    ensures a.CodeAt(c.hp) == EmitItem(old(a.CodeAt(c.hp)), c.gp, i)
  {
    hide Issue, Ok, BrkWord;
    match i
    case Plain(w) =>
      c.Emit32(w);
    case Jump(t, offset) =>
      var id := a.PatchPoint(c.gp, t, offset);
      c.Emit32(BrkWord(id));
  }

  /** encode for one instruction: rewind, then append. */
  method EncodeInstr(a: Anchor, c: Context, i: Compiled)
    requires a.Serves(c) && Ok(a.Slots()) && i.drop <= c.hp && c.hp - i.drop + |i.items| <= a.host.Length
    modifies a`jumps, a`jumpsP, a`jumpsReuseP, a.jumps, c`hp, c.host
    ensures a.Serves(c) && c.hp == old(c.hp) - i.drop + |i.items| && (a.jumps == old(a.jumps) || fresh(a.jumps))
    ensures a.CodeAt(c.hp) == EmitInstr(old(a.CodeAt(c.hp)), c.gp, i)
  {
    hide Ok, EmitItem;
    ghost var base := Unemit(a.CodeAt(c.hp), i.drop);
    c.Patch(i.drop);
    var k := 0;
    while k < |i.items|
      invariant k <= |i.items| && a.Serves(c) && (a.jumps == old(a.jumps) || fresh(a.jumps))
      invariant c.hp == old(c.hp) - i.drop + k
      invariant a.CodeAt(c.hp) == EmitItems(base, c.gp, i.items[..k])
      decreases |i.items| - k
    {
      assert i.items[..k + 1][..k] == i.items[..k];
      EmitOne(a, c, i.items[k]);
      k := k + 1;
    }
    assert i.items[..k] == i.items;
  }

  /** Room for every word the tables can pay for. */
  predicate Roomy(a: Anchor) { a.host.Length >= MAX_WORDS * (MAX_OFFSETS + MAX_BLOCKS) }

  /** The log only grows, and the first h0 host words and the resolved sites stay. */
  twostate predicate Kept(a: Anchor, h0: nat)
    reads a, a.host, a.jumps
  {
    old(a.log) <= a.log && h0 <= a.host.Length && a.host[..h0] == old(a.host[..h0]) &&
    (a.jumps == old(a.jumps) || fresh(a.jumps)) &&
    forall p :: p in old(a.fixed) ==> p in a.fixed && a.fixed[p] == old(a.fixed)[p]
  }

  /** What the cache and c hold while addr is compiled from h0 on. */
  ghost predicate Compiling(a: Anchor, c: Context, addr: nat, h0: nat, pending: Option<nat>)
    reads a, c, a.host, a.jumps, a.jumpsReuse, a.blocks, a.offsets
  {
    a.Serves(c) && Roomy(a) && Building(a.View(c), a.CodeAt(c.hp), addr, h0, pending)
  }

  /** Free offset slots, and the instruction owed to a new block. */
  ghost function Fuel(x: Index): nat {
    (if |x.offs| < MAX_OFFSETS then 2 * (MAX_OFFSETS - |x.offs|) else 0) +
    (if x.block < |x.blocks| && x.gp == x.blocks[x.block].gpLo then 1 else 0)
  }

  /** cache_block_point in the loop: it panics only when a table is full or the host size is reached. */
  method PointStep(a: Anchor, c: Context, ghost addr: nat, ghost h0: nat, ghost pending: Option<nat>) returns (ok: bool)
    requires Compiling(a, c, addr, h0, pending)
    modifies a`blocksP, a`offsetsP, a`hostP, a`spans, a`log, a.blocks, a.offsets, c`loffp, c`block
    ensures ok || a.Full(c)
    ensures ok ==> a.Serves(c) && old(a.log) <= a.log && Pointed(a.View(c), a.CodeAt(c.hp), addr, h0, pending)
    ensures ok ==>
      |a.View(c).offs| == |old(a.View(c)).offs| + if c.gp == old(a.View(c)).blocks[old(c.block)].gpLo then 0 else 1
    ensures ok ==> PointTo(old(a.View(c)), a.View(c)) && a.CodeAt(c.hp) == old(a.CodeAt(c.hp)) && c.hp == old(c.hp)
  {
    hide Building, Pointed, BlockPoint;
    ghost var x, code := a.View(c), a.CodeAt(c.hp);
    BuildingOpen(x, code, addr, h0, pending);
    ok := a.PointBlock(c);
    if !ok { return; }
    PointBuilds(x, code, addr, h0, pending);
    PointConsumes(x);
  }

  /** Decoding and encoding one instruction. */
  method InstrStep(a: Anchor, c: Context, o: Guest, ghost addr: nat, h0: nat, ghost pending: Option<nat>)
    returns (last: bool)
    requires a.Serves(c) && Roomy(a) && Pointed(a.View(c), a.CodeAt(c.hp), addr, h0, pending) && Sane(o) && c.gp < TWO32
    modifies a`jumps, a`jumpsP, a`jumpsReuseP, a.host, a.jumps, c`gp, c`hp
    ensures Compiling(a, c, addr, h0, pending) && Kept(a, h0) && (last || c.gp < TWO32)
    ensures a.View(c).offs == old(a.View(c)).offs && c.gp > a.blocks[c.block].gpLo
    ensures InstrTo(h0, old(a.View(c)), old(a.CodeAt(c.hp)), o, last, a.View(c), a.CodeAt(c.hp))
  {
    hide Building, Pointed, Sane, SaneAt, EmitInstr;
    ghost var y, code := a.View(c), a.CodeAt(c.hp);
    PointedOpen(y, code, addr, h0, pending);
    var i := o(c.gp, a.host[h0..c.hp], c.hp - a.blocks[c.block].hp);
    assert a.host[h0..c.hp] == code.words[h0..];
    SaneHere(o, c.gp, code.words[h0..], |code.words| - y.blocks[y.block].hp);
    InstrBuilds(y, code, i, addr, h0, pending);
    last := i.last;
    c.gp := c.gp + i.len;
    EncodeInstr(a, c, i);
    ghost var r := AfterInstr(y, code, i);
    assert a.View(c) == r.0 && a.CodeAt(c.hp) == r.1;
    assert a.host[..h0] == r.1.words[..h0] && code.words[..h0] == old(a.host[..h0]);
  }

  /** The direct branch to host index target. */
  method EmitBranch(a: Anchor, c: Context, target: nat, offset: int)
    requires a.Serves(c) && c.Room(1) && c.gp < TWO32 && offset == target - c.hp
    modifies a`fixed, a.host, c`hp
    ensures a.Serves(c) && a.View(c) == old(a.View(c)).(hp := c.hp) && c.hp == old(c.hp) + 1
    ensures a.CodeAt(c.hp) == EmitDirect(old(a.CodeAt(c.hp)), c.gp, target)
  {
    hide Bits.Or;
    a.fixed := a.fixed[c.hp := Fix(PatchUnit(c.gp, JMP), offset)];
    c.Emit32(Or(BR_IMM, offset % 0x400_0000));
  }

  method JoinTail(a: Anchor, c: Context, target: nat, offset: int, ghost addr: nat, ghost h0: nat,
    ghost pending: Option<nat>)
    requires a.Serves(c) && Roomy(a) && Pointed(a.View(c), a.CodeAt(c.hp), addr, h0, pending)
    requires c.gp < TWO32 && Mark(c.gp, target) in a.log && offset == target - c.hp
    modifies a`fixed, a.host, c`hp
    ensures a.Serves(c) && c.hp == old(c.hp) + 1 && Ended(a.View(c), a.CodeAt(c.hp), addr, h0, pending) &&
      Kept(a, h0) && h0 <= c.hp
    ensures a.View(c) == old(a.View(c)).(hp := c.hp) && a.CodeAt(c.hp) == EmitDirect(old(a.CodeAt(c.hp)), c.gp, target)
  {
    hide Pointed, EmitDirect, Ended, Near;
    ghost var y, code := a.View(c), a.CodeAt(c.hp);
    PointedOpen(y, code, addr, h0, pending);
    JoinBuilds(y, code, target, addr, h0, pending);
    FixedBelow(y, code, addr, h0, pending);
    EmitBranch(a, c, target, offset);
    DirectKeeps(code, y.gp, target, h0);
    assert a.CodeAt(c.hp).words[..h0] == a.host[..h0] && code.words[..h0] == old(a.host[..h0]);
  }

  /** The end of decode when it runs into compiled code: a point and a direct branch. */
  method Join(a: Anchor, c: Context, target: nat, ghost addr: nat, ghost h0: nat, ghost pending: Option<nat>)
    returns (ok: bool)
    requires Compiling(a, c, addr, h0, pending) && c.gp < TWO32 && Mark(c.gp, target) in a.log
    modifies a, a.blocks, a.offsets, a.host, c`hp, c`loffp, c`block
    ensures ok || a.Full(c)
    ensures ok ==> a.Serves(c) && Ended(a.View(c), a.CodeAt(c.hp), addr, h0, pending) && Kept(a, h0) && h0 <= c.hp
    ensures ok ==> JoinTo(old(a.View(c)), old(a.CodeAt(c.hp)), target, a.View(c), a.CodeAt(c.hp))
  {
    hide Building, Pointed, EmitDirect, Ended, Near, PointTo;
    var offset := target - c.hp;
    ok := PointStep(a, c, addr, h0, pending);
    if ok { JoinTail(a, c, target, offset, addr, h0, pending); }
  }

  lemma DirectKeeps(code: Code, gp: u32, target: nat, h0: nat)
    requires h0 <= |code.words| && forall p :: p in code.fixed ==> p < h0
    ensures var d := EmitDirect(code, gp, target);
      |d.words| == |code.words| + 1 && d.words[..h0] == code.words[..h0] &&
      forall p :: p in code.fixed ==> p in d.fixed && d.fixed[p] == code.fixed[p]
  {
    hide Bits.Or;
  }

  lemma FixedBelow(x: Index, code: Code, addr: nat, h0: nat, pending: Option<nat>)
    requires Pointed(x, code, addr, h0, pending)
    ensures forall p :: p in code.fixed ==> p < h0
  {}

  /** context_pull: a context at the end of the host code. */
  method Pull(a: Anchor, c: Context, gp: nat)
    requires a.Valid() && c.host == a.host && a.hostP <= a.host.Length
    modifies c
    ensures a.Serves(c) && a.View(c) == a.IndexAt(gp, a.hostP, 0, 0) && c.gp == gp && c.hp == a.hostP && c.loffp == 0
  {
    c.block, c.gp, c.hp, c.loffp := 0, gp, a.hostP, 0;
  }

  /** Between compilations the position of the last context does not matter. */
  lemma LinkedIdle(x: Index, y: Index, code: Code, pending: Option<nat>)
    requires Linked(x, code, pending) && y == x.(gp := y.gp, block := y.block)
    ensures Linked(y, code, pending)
  {
    hide LinkedUp, BlockOk, Sorted, TablesApart;
    SameTables(x, y);
    SameTiles(x, y);
  }

  lemma LookupIdle(x: Index, y: Index, gp: nat, r: Option<nat>)
    requires IsLookup(x, gp, r) && y.blocks == x.blocks && y.offs == x.offs
    ensures IsLookup(y, gp, r)
  {}

  lemma LinkedBounds(x: Index, code: Code, pending: Option<nat>)
    requires Linked(x, code, pending)
    ensures Inv(x, false) && |x.spans| == |x.blocks| && |x.offs| < MAX_OFFSETS && |x.blocks| < MAX_BLOCKS
  {
    hide LinkedUp;
    SameTiles(x, x);
  }

  /** The state between compilations. */
  ghost predicate Settled(a: Anchor, pending: Option<nat>)
    reads a, a.host, a.jumps, a.jumpsReuse, a.blocks, a.offsets
  {
    a.Valid() && Roomy(a) && a.hostP <= a.host.Length && Linked(a.Idle(), a.CodeAt(a.hostP), pending)
  }

  /** Starting the block. */
  method Begin(a: Anchor, c: Context, addr: nat, ghost pending: Option<nat>) returns (ok: bool)
    requires Settled(a, pending) && c.host == a.host && IsLookup(a.Idle(), addr, None)
    modifies a`blocksP, a`spans, a`log, a.blocks, c
    ensures ok || a.Full(c)
    ensures ok ==>
      Compiling(a, c, addr, old(a.hostP), pending) && old(a.log) <= a.log && c.gp == addr &&
      c.hp == old(a.hostP)
    ensures ok ==> StartTo(old(a.Idle()), addr, a.View(c)) && a.CodeAt(c.hp) == old(a.CodeAt(a.hostP))
  {
    hide Linked, IsLookup, Building, Insert, InsertAt;
    ghost var code := a.CodeAt(a.hostP);
    Pull(a, c, addr);
    ghost var x := a.View(c);
    LinkedIdle(a.Idle(), x, code, pending);
    LookupIdle(a.Idle(), x, addr, None);
    LinkedBounds(x, code, pending);
    ok := a.StartBlock(c);
    if ok { StartBuilds(x, code, pending); }
  }

  /** Closing the block. */
  method Finish(a: Anchor, c: Context, ghost addr: nat, ghost h0: nat, ghost pending: Option<nat>) returns (ok: bool)
    requires a.Serves(c) && Roomy(a) && Ended(a.View(c), a.CodeAt(c.hp), addr, h0, pending)
    modifies a`offsetsP, a`hostP, a`spans, a.blocks, c`loffp
    ensures ok || a.Full(c)
    ensures ok ==> Settled(a, pending) && StartsAt(a.Idle(), addr, h0) && a.hostP == c.hp
    ensures ok ==> CloseTo(old(a.View(c)), a.Idle()) && a.CodeAt(a.hostP) == old(a.CodeAt(c.hp))
  {
    hide Ended, Linked, StartsAt;
    ghost var x, code := a.View(c), a.CodeAt(c.hp);
    CloseLinks(x, code, addr, h0, pending);
    ok := a.EndBlock(c);
    if ok {
      LinkedIdle(Close(x), a.Idle(), code, pending);
      SameStarts(Close(x), a.Idle(), addr, h0);
    }
  }

  /** A point and an instruction: this burns fuel. */
  method Advance(a: Anchor, c: Context, o: Guest, ghost addr: nat, h0: nat, ghost pending: Option<nat>)
    returns (ok: bool, last: bool)
    requires Compiling(a, c, addr, h0, pending) && Sane(o) && c.gp < TWO32
    modifies a, a.blocks, a.offsets, a.host, a.jumps, c
    ensures ok || a.Full(c)
    ensures ok ==> Compiling(a, c, addr, h0, pending) && Kept(a, h0) && (last || c.gp < TWO32)
    ensures ok ==> Inv(a.View(c), true) && Fuel(a.View(c)) < old(Fuel(a.View(c)))
    ensures ok ==> AdvanceTo(h0, old(a.View(c)), old(a.CodeAt(c.hp)), o, last, a.View(c), a.CodeAt(c.hp))
  {
    hide Building, Sane, Inv, Linked, Pointed;
    ghost var x := a.View(c);
    last := true;
    BuildingOpen(x, a.CodeAt(c.hp), addr, h0, pending);
    ok := PointStep(a, c, addr, h0, pending);
    if !ok { return; }
    last := InstrStep(a, c, o, addr, h0, pending);
    BuildingOpen(a.View(c), a.CodeAt(c.hp), addr, h0, pending);
  }

  /** The look for compiled code behind the instruction, and the branch into it. */
  method JoinIfKnown(a: Anchor, c: Context, ghost addr: nat, ghost h0: nat, ghost pending: Option<nat>)
    returns (ok: bool, joined: bool)
    requires Compiling(a, c, addr, h0, pending) && c.gp < TWO32
    modifies a, a.blocks, a.offsets, a.host, c`hp, c`loffp, c`block
    ensures ok || a.Full(c)
    ensures ok ==> a.Serves(c) && Roomy(a) && Kept(a, h0) && h0 <= c.hp
    ensures ok ==> if joined then Ended(a.View(c), a.CodeAt(c.hp), addr, h0, pending)
                   else Compiling(a, c, addr, h0, pending) && a.View(c) == old(a.View(c))
    ensures ok ==> LookTo(old(a.View(c)), old(a.CodeAt(c.hp)), joined, a.View(c), a.CodeAt(c.hp))
  {
    hide Building, IsLookup, Ended, Inv;
    BuildingOpen(a.View(c), a.CodeAt(c.hp), addr, h0, pending);
    var found := a.Search(c.gp, a.View(c), true);
    ok, joined := true, found.Some?;
    if joined {
      HitsAreLogged(a.View(c), true, c.gp, found);
      ok := Join(a, c, found.value, addr, h0, pending);
    }
  }

  /** The state of the loop, which either goes on or is about to close the block. */
  ghost predicate Looping(a: Anchor, c: Context, done: bool, addr: nat, h0: nat, pending: Option<nat>)
    reads a, c, a.host, a.jumps, a.jumpsReuse, a.blocks, a.offsets
  {
    a.Serves(c) && Roomy(a) && h0 <= c.hp &&
    if done then Ended(a.View(c), a.CodeAt(c.hp), addr, h0, pending)
    else Building(a.View(c), a.CodeAt(c.hp), addr, h0, pending) && c.gp < TWO32
  }

  /** One turn of the loop: a point, an instruction, and the look for compiled code. */
  method Turn(a: Anchor, c: Context, o: Guest, ghost addr: nat, h0: nat, ghost pending: Option<nat>)
    returns (ok: bool, done: bool)
    requires Looping(a, c, false, addr, h0, pending) && Sane(o)
    modifies a, a.blocks, a.offsets, a.host, a.jumps, c
    ensures ok || a.Full(c)
    ensures ok ==> Looping(a, c, done, addr, h0, pending) && Kept(a, h0)
    ensures ok && !done ==> Fuel(a.View(c)) < old(Fuel(a.View(c)))
    ensures ok ==> TurnTo(h0, old(a.View(c)), old(a.CodeAt(c.hp)), o, done, a.View(c), a.CodeAt(c.hp))
  {
    hide Building, Sane, IsLookup, Ended, Fuel, Inv;
    ok, done := Advance(a, c, o, addr, h0, pending);
    if !ok { return; }
    BuildingOpen(a.View(c), a.CodeAt(c.hp), addr, h0, pending);
    if done {
      BuildingEnds(a.View(c), a.CodeAt(c.hp), addr, h0, pending);
    } else {
        ok, done := JoinIfKnown(a, c, addr, h0, pending);
    }
  }

  method Loop(a: Anchor, c: Context, o: Guest, ghost addr: nat, h0: nat, ghost pending: Option<nat>)
    returns (ok: bool, ghost run: seq<(Index, Code)>)
    requires Looping(a, c, false, addr, h0, pending) && Sane(o)
    modifies a, a.blocks, a.offsets, a.host, a.jumps, c
    ensures ok || a.Full(c)
    ensures ok ==> Looping(a, c, true, addr, h0, pending) && Kept(a, h0)
    ensures ok ==>
      IsRun(h0, run, o, true) && |run| >= 2 && run[0] == old((a.View(c), a.CodeAt(c.hp))) &&
      run[|run| - 1] == (a.View(c), a.CodeAt(c.hp))
  {
    hide Building, Sane, Ended, Fuel, TurnTo;
    var done := false;
    run := [(a.View(c), a.CodeAt(c.hp))];
    while !done
      invariant Looping(a, c, done, addr, h0, pending) && Kept(a, h0)
      invariant IsRun(h0, run, o, done) && run[0] == old((a.View(c), a.CodeAt(c.hp))) &&
        run[|run| - 1] == (a.View(c), a.CodeAt(c.hp)) && (done ==> |run| >= 2)
      decreases !done, Fuel(a.View(c))
    {
      ok, done := Turn(a, c, o, addr, h0, pending);
      if !ok { return; }
      RunGrows(h0, run, o, done, a.View(c), a.CodeAt(c.hp));
      run := run + [(a.View(c), a.CodeAt(c.hp))];
    }
    ok := true;
  }

  lemma RunGrows(h0: nat, run: seq<(Index, Code)>, o: Guest, done: bool, y: Index, d: Code)
    requires IsRun(h0, run, o, false) && TurnTo(h0, run[|run| - 1].0, run[|run| - 1].1, o, done, y, d)
    ensures IsRun(h0, run + [(y, d)], o, done)
  {
    hide TurnTo;
  }

  /** decode: compiling from a guest address that is not in the cache.  It ends for every guest program,
      after a run of the loop, in a cache where addr is found at the host index that was free before. */
  method Decode(a: Anchor, c: Context, addr: nat, o: Guest, ghost pending: Option<nat>)
    returns (ok: bool, ghost run: seq<(Index, Code)>)
    requires Settled(a, pending) && c.host == a.host && addr < TWO32 && Sane(o) && IsLookup(a.Idle(), addr, None)
    modifies a, a.blocks, a.offsets, a.host, a.jumps, c
    ensures ok || a.Full(c)
    ensures ok ==>
      Settled(a, pending) && StartsAt(a.Idle(), addr, old(a.hostP)) && Kept(a, old(a.hostP)) &&
      old(a.hostP) <= a.hostP
    ensures ok ==>
      IsRun(old(a.hostP), run, o, true) && StartTo(old(a.Idle()), addr, run[0].0) &&
      run[0].1 == old(a.CodeAt(a.hostP))
    ensures ok ==> CloseTo(run[|run| - 1].0, a.Idle()) && run[|run| - 1].1 == a.CodeAt(a.hostP)
    ensures ok ==> Achieves(old(a.hostP), addr, run, o, a.Idle(), a.CodeAt(a.hostP))
  {
    hide Building, Sane, IsLookup, Linked, Ended, StartsAt, StartTo, CloseTo, IsRun, Achieves;
    var h0 := a.hostP;
    run := [];
    ok := Begin(a, c, addr, pending);
    if !ok { return; }
    ghost var x, code := a.View(c), a.CodeAt(c.hp);
    ok, run := Loop(a, c, o, addr, h0, pending);
    if !ok { return; }
    ok := Finish(a, c, addr, h0, pending);
    if ok { RunAchieves(h0, addr, run, o, pending, a.Idle()); }
  }
}

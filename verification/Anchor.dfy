/** The translation cache as it runs: the arrays and counters of Anchor (src/cache.c), worked on
    through a compiling context.  Every routine is proved to do what its value model does. */
module TranslationCache {
  import opened Bits
  import opened Options
  import opened CacheIndex
  import opened PatchSlots
  import opened Linker
  import opened Compilation
  import opened CompileContext

  class Anchor {
    const offsets: array<OffsetUnit>
    const blocks: array<CacheUnit>
    const host: array<nat>
    const hostC: nat
    const jumpsReuse: array<nat>
    var jumps: array<PatchUnit>
    var offsetsP: nat
    var blocksP: nat
    var hostP: nat
    var jumpsP: nat
    var jumpsReuseP: nat
    ghost var spans: seq<nat>
    ghost var log: set<Mark>
    ghost var fixed: map<nat, Fix>

    constructor (host: array<nat>, hostC: nat)
      ensures Valid() && fresh(offsets) && fresh(blocks) && fresh(jumpsReuse) && fresh(jumps)
      ensures this.host == host && this.hostC == hostC && hostP == 0 && log == {} && fixed == map[]
      ensures Idle() == Index([], [], [], 0, 0, hostC, 0, 0, 0, 0, {}) && Slots() == EMPTY
      ensures Linked(Idle(), CodeAt(hostP), None)
    {
      offsets := new OffsetUnit[MAX_OFFSETS](_ => OffsetUnit(0, 0));
      blocks := new CacheUnit[MAX_BLOCKS](_ => CacheUnit(0, 0, 0, 0, 0));
      jumps := new PatchUnit[MAX_JUMPS](_ => PatchUnit(0, 0));
      jumpsReuse := new nat[MAX_JUMPS](_ => 0);
      this.host, this.hostC := host, hostC;
      offsetsP, blocksP, hostP, jumpsP, jumpsReuseP := 0, 0, 0, 0, 0;
      spans, log, fixed := [], {}, map[];
      new;
      EmptyLinked(hostC, jumps.Length);
      assert CodeAt(hostP) == Code([], PatchSlots.Slots.Slots([], jumps.Length, []), map[]);
    }

    /** Sizes and counters. */
    ghost predicate Valid()
      reads this
    {
      offsets.Length == MAX_OFFSETS && blocks.Length == MAX_BLOCKS && jumpsReuse.Length == MAX_JUMPS &&
      jumpsReuse != host && offsetsP < MAX_OFFSETS && blocksP < MAX_BLOCKS && |spans| == blocksP &&
      jumpsP < jumps.Length && jumpsReuseP < MAX_JUMPS
    }

    ghost function IndexAt(gp: nat, hp: nat, block: nat, loffp: nat): Index
      requires Valid() && offsetsP + loffp <= MAX_OFFSETS
      reads this, offsets, blocks
    {
      Index(blocks[..blocksP], spans, offsets[..offsetsP + loffp], offsetsP, hostP, hostC, gp, hp, block, loffp, log)
    }

    /** What a panic leaves: a table is full, or the host size is reached. */
    predicate Full(c: Context)
      reads this, c
    {
      blocksP + 1 >= MAX_BLOCKS || offsetsP + c.loffp >= MAX_OFFSETS || c.hp >= hostC
    }

    /** c compiles into this cache. */
    ghost predicate Serves(c: Context)
      reads this, c
    {
      Valid() && c.Valid() && c.host == host && offsetsP + c.loffp < MAX_OFFSETS
    }

    ghost function View(c: Context): Index
      requires Serves(c)
      reads this, c, offsets, blocks
    {
      IndexAt(c.gp, c.hp, c.block, c.loffp)
    }

    /** Between compilations. */
    ghost function Idle(): Index
      requires Valid()
      reads this, offsets, blocks
    {
      IndexAt(0, hostP, 0, 0)
    }

    ghost function Slots(): Slots
      requires Valid()
      reads this, jumps, jumpsReuse
    {
      PatchSlots.Slots.Slots(jumps[..jumpsP], jumps.Length, jumpsReuse[..jumpsReuseP])
    }

    /** The host code up to hp, with its slots. */
    ghost function CodeAt(hp: nat): Code
      requires Valid() && hp <= host.Length
      reads this, host, jumps, jumpsReuse
    {
      Code(host[..hp], Slots(), fixed)
    }

    /** cache_clear. */
    method Clear()
      requires Valid()
      modifies this
      ensures Valid() && Idle() == Index([], [], [], 0, 0, hostC, 0, 0, 0, 0, {}) && fixed == map[]
      ensures Slots().jumps == [] && Slots().free == [] && jumps == old(jumps)
      ensures Linked(Idle(), CodeAt(hostP), None)
    {
      hide Linked;
      offsetsP, blocksP, hostP, jumpsP, jumpsReuseP := 0, 0, 0, 0, 0;
      spans, log, fixed := [], {}, map[];
      EmptyLinked(hostC, jumps.Length);
      assert CodeAt(hostP) == Code([], PatchSlots.Slots.Slots([], jumps.Length, []), map[]);
    }

    // -------------------------------------------------------------- blocks and points

    /** Where a block for gp goes: the first block not below it. */
    method FindInsert(gp: nat) returns (pos: nat)
      requires Valid()
      ensures pos <= blocksP && pos == InsertAt(blocks[..blocksP], gp)
    {
      ghost var bs := blocks[..blocksP];
      pos := 0;
      assert bs[0..] == bs;
      while pos < blocksP && blocks[pos].gpLo < gp
        invariant pos <= blocksP
        invariant InsertAt(bs, gp) == pos + InsertAt(bs[pos..], gp)
      {
        assert bs[pos..][0] == blocks[pos] && bs[pos..][1..] == bs[pos + 1..];
        pos := pos + 1;
      }
      assert pos < blocksP ==> bs[pos..][0] == blocks[pos];
    }

    /** The insertion shift. */
    method InsertBlock(pos: nat, b: CacheUnit)
      requires Valid() && pos <= blocksP && blocksP + 1 < blocks.Length
      modifies blocks
      ensures blocks[..blocksP + 1] == Insert(old(blocks[..blocksP]), pos, b)
    {
      hide Insert;
      ghost var before := blocks[..blocksP];
      var rp := blocksP;
      while rp > pos
        invariant pos <= rp <= blocksP
        invariant forall i :: 0 <= i < rp ==> blocks[i] == before[i]
        invariant forall i :: rp < i <= blocksP ==> blocks[i] == before[i - 1]
      {
        blocks[rp] := blocks[rp - 1];
        rp := rp - 1;
      }
      blocks[pos] := b;
      Inserted(blocks[..blocksP + 1], before, pos, b);
    }

    static lemma Inserted(after: seq<CacheUnit>, before: seq<CacheUnit>, pos: nat, b: CacheUnit)
      requires pos <= |before| && |after| == |before| + 1 && after[pos] == b
      requires forall i :: 0 <= i < pos ==> after[i] == before[i]
      requires forall i :: pos < i < |after| ==> after[i] == before[i - 1]
      ensures after == Insert(before, pos, b)
    {
      forall i | 0 <= i < |after| ensures after[i] == Insert(before, pos, b)[i] { InsertedAt(before, pos, b, i); }
    }

    method StartBlock(c: Context) returns (ok: bool)
      requires Serves(c)
      modifies this`blocksP, this`spans, this`log, blocks, c`block
      ensures Serves(c)
      ensures ok <==> BlockStart(old(View(c))).Some?
      ensures ok || Full(c)
      ensures ok ==> View(c) == BlockStart(old(View(c))).value
    {
      hide Insert, InsertAt;
      if blocksP + 1 >= blocks.Length { return false; }
      var pos := FindInsert(c.gp);
      InsertBlock(pos, CacheUnit(c.gp, c.hp, 0, 0, 1));
      InsertLength(spans, pos, 0);
      blocksP := blocksP + 1;
      spans := Insert(spans, pos, 0);
      log := log + {Mark(c.gp, c.hp)};
      c.block := pos;
      ok := true;
    }

    method EndBlock(c: Context) returns (ok: bool)
      requires Serves(c) && c.block < blocksP && blocks[c.block].hp <= c.hp && c.loffp < 256
      modifies this`offsetsP, this`hostP, this`spans, blocks, c`loffp
      ensures Serves(c)
      ensures ok <==> BlockEnd(old(View(c))).Some?
      ensures ok || Full(c)
      ensures ok ==> View(c) == BlockEnd(old(View(c))).value
    {
      var b := blocks[c.block];
      blocks[c.block] := b.(end := (c.hp - b.hp) % 256, offsets := offsetsP, offsetssz := c.loffp);
      spans := spans[c.block := c.hp - b.hp];
      offsetsP := offsetsP + c.loffp;
      c.loffp := 0;
      hostP := c.hp;
      ok := hostP < hostC;
    }

    method RestartBlock(c: Context) returns (ok: bool)
      requires Serves(c) && c.block < blocksP && blocks[c.block].hp <= c.hp && c.loffp < 256
      modifies this`blocksP, this`offsetsP, this`hostP, this`spans, this`log, blocks, c`loffp, c`block
      ensures Serves(c)
      ensures ok <==> Restart(old(View(c))).Some?
      ensures ok || Full(c)
      ensures ok ==> View(c) == Restart(old(View(c))).value
    {
      ok := EndBlock(c);
      if ok { ok := StartBlock(c); }
    }

    /** Adding a point for the current position to the open block. */
    method RecordPoint(c: Context, goff: nat, hoff: nat) returns (ok: bool)
      requires Serves(c) && c.block < blocksP && c.loffp < 255
      requires blocks[c.block].hp <= c.hp && blocks[c.block].gpLo <= c.gp
      requires goff == (c.gp - blocks[c.block].gpLo) % 0x1_0000 && hoff == (c.hp - blocks[c.block].hp) % 0x1_0000
      modifies this`blocksP, this`offsetsP, this`hostP, this`spans, this`log, blocks, offsets, c`loffp, c`block
      ensures ok <==> Record(old(View(c))).Some?
      ensures ok || Full(c)
      ensures ok ==> Serves(c) && View(c) == Record(old(View(c))).value
    {
      ghost var v := View(c);
      offsets[offsetsP + c.loffp] := OffsetUnit(hoff % 256, goff % 256);
      c.loffp := c.loffp + 1;
      log := log + {Mark(c.gp, c.hp)};
      assert offsets[..offsetsP + c.loffp] == v.offs + [OffsetUnit(hoff % 256, goff % 256)];
      if offsetsP + c.loffp >= offsets.Length { return false; }
      ok := true;
      if c.loffp == 255 { ok := RestartBlock(c); }
    }

    method PointBlock(c: Context) returns (ok: bool)
      requires Serves(c) && Inv(View(c), true) && c.loffp < 255
      modifies this`blocksP, this`offsetsP, this`hostP, this`spans, this`log, blocks, offsets, c`loffp, c`block
      ensures ok <==> BlockPoint(old(View(c))).Some?
      ensures ok || Full(c)
      ensures ok ==> Serves(c) && View(c) == BlockPoint(old(View(c))).value
    {
      hide Inv, Record, Restart, Near;
      OpenBlock(View(c));
      var goff := (c.gp - blocks[c.block].gpLo) % 0x1_0000;
      if goff == 0 { return true; }
      var hoff := (c.hp - blocks[c.block].hp) % 0x1_0000;
      if goff > 255 || hoff > 255 {
        ghost var v := View(c);
        ok := RestartBlock(c);
        if !ok { return; }
        RestartKeeps(v);
        goff := (c.gp - blocks[c.block].gpLo) % 0x1_0000;
        hoff := (c.hp - blocks[c.block].hp) % 0x1_0000;
      }
      ok := RecordPoint(c, goff, hoff);
    }

    // -------------------------------------------------------------- searches

    /** block_cache_search: a binary search that agrees with the linear one. */
    method SearchPoints(gp: nat, b: CacheUnit) returns (r: nat)
      requires Valid() && b.gpLo <= gp && b.offsets + b.offsetssz <= MAX_OFFSETS
      requires Increasing(offsets[b.offsets..b.offsets + b.offsetssz])
      ensures r == match FindPoint(offsets[b.offsets..b.offsets + b.offsetssz], gp - b.gpLo)
                   case None => 0
                   case Some(h) => b.hp + h
    {
      assert offsets.Length == MAX_OFFSETS;
      hide Valid, FindPoint;
      ghost var s := offsets[b.offsets..b.offsets + b.offsetssz];
      FindPointIn(s, gp - b.gpLo);
      var d := gp - b.gpLo;
      var left, right := 0, b.offsetssz - 1;
      while left <= right
        invariant 0 <= left <= right + 1 <= b.offsetssz
        invariant forall j :: 0 <= j < left ==> s[j].goff < d
        invariant forall j :: right < j < b.offsetssz ==> s[j].goff > d
        decreases right - left
      {
        var mid := (left + right) / 2;
        var goff := offsets[b.offsets + mid].goff;
        assert s[mid].goff == goff;
        if goff == d {
          FindPointAt(s, d, mid);
          return b.hp + offsets[b.offsets + mid].hoff;
        }
        if goff < d { left := mid + 1; } else { right := mid - 1; }
      }
      r := 0;
    }

    /** x shows the tables as they are. */
    ghost predicate Shows(x: Index)
      requires Valid()
      reads this, blocks, offsets
    {
      x.blocks == blocks[..blocksP] && offsetsP + x.loffp <= MAX_OFFSETS && x.offs == offsets[..offsetsP + x.loffp]
    }

    /** cache_search: the linear reference, by two binary searches. */
    method Search(gp: nat, ghost x: Index, ghost open: bool) returns (r: Option<nat>)
      requires Valid() && Shows(x) && Inv(x, open)
      ensures IsLookup(x, gp, r)
    {
      hide LookupPoint;
      if blocksP == 0 { return None; }
      var left, right := 0, blocksP - 1;
      while left <= right
        invariant 0 <= left <= right + 1 <= blocksP
        invariant forall j :: 0 <= j < left ==> x.blocks[j].gpLo < gp
        invariant forall j :: right < j < blocksP ==> x.blocks[j].gpLo > gp
        decreases right - left
      {
        var mid := (left + right) / 2;
        var b := blocks[mid];
        assert x.blocks[mid] == b;
        if gp == b.gpLo { return Some(b.hp); }
        if gp > b.gpLo { left := mid + 1; } else { right := mid - 1; }
      }
      if right < 0 { return None; }
      r := SearchIn(gp, right, x, open);
    }

    /** The tail of cache_search: the points of the last block below gp. */
    method SearchIn(gp: nat, k: nat, ghost x: Index, ghost open: bool) returns (r: Option<nat>)
      requires Valid() && Shows(x) && Inv(x, open) && k < blocksP && blocks[k].gpLo < gp
      ensures var b := x.blocks[k]; b.offsets + b.offsetssz <= |x.offs| && r == LookupPoint(b, x.offs, gp)
    {
      hide Inv, Increasing;
      var b := blocks[k];
      SliceOf(x, open, k);
      assert x.blocks[k] == b;
      SliceOfPrefix(offsets[..], offsetsP + x.loffp, b.offsets, b.offsets + b.offsetssz);
      assert offsets[..][..offsetsP + x.loffp] == x.offs;
      assert x.offs[b.offsets..b.offsets + b.offsetssz] == offsets[b.offsets..b.offsets + b.offsetssz];
      if b.offsets == 0 { return None; }
      var loff := SearchPoints(gp, b);
      r := if loff == 0 then None else Some(loff);
    }

    /** cache_search_block. */
    method SearchBlock(w: nat) returns (r: Option<nat>)
      requires Valid()
      ensures r == FirstBlock(blocks[..blocksP], w)
    {
      var i := 0;
      assert blocks[..blocksP][0..] == blocks[..blocksP];
      while i < blocksP
        invariant i <= blocksP
        invariant FirstBlock(blocks[..blocksP], w)
          == match FirstBlock(blocks[..blocksP][i..], w) case None => None case Some(k) => Some(k + i)
      {
        assert blocks[..blocksP][i..][0] == blocks[i] && blocks[..blocksP][i..][1..] == blocks[..blocksP][i + 1..];
        if blocks[i].hp <= w < blocks[i].hp + blocks[i].end { return Some(i); }
        i := i + 1;
      }
      r := None;
    }

    // -------------------------------------------------------------- patch slots

    /** cache_patch_point. */
    method PatchPoint(gp: nat, t: int, offset: int) returns (id: nat)
      requires Valid() && Ok(Slots())
      modifies this`jumps, this`jumpsP, this`jumpsReuseP, jumps
      ensures Valid() && Slots() == Issue(old(Slots()), PatchUnit(U32(gp + offset), t)).slots
      ensures id == Issue(old(Slots()), PatchUnit(U32(gp + offset), t)).id && (jumps == old(jumps) || fresh(jumps))
    {
      var u := PatchUnit(U32(gp + offset), t);
      var slot;
      if jumpsReuseP > 0 {
        jumpsReuseP := jumpsReuseP - 1;
        slot := jumpsReuse[jumpsReuseP];
      } else {
        slot := jumpsP;
        jumpsP := jumpsP + 1;
        if jumpsP >= jumps.Length { GrowJumps(); }
      }
      assert slot < jumps.Length;
      jumps[slot] := u;
      id := slot + 1;
    }

    /** my_realloc: twice the size, the old records in front. */
    method GrowJumps()
      requires 0 < jumps.Length == jumpsP
      modifies this`jumps
      ensures fresh(jumps) && jumps.Length == 2 * old(jumps.Length)
      ensures jumps[..old(jumps.Length)] == old(jumps[..])
    {
      var bigger := new PatchUnit[2 * jumps.Length](i => PatchUnit(0, 0));
      var n := jumps.Length;
      forall i | 0 <= i < n { bigger[i] := jumps[i]; }
      jumps := bigger;
    }

    /** cache_get_patch. */
    method GetPatch(id: nat) returns (ok: bool, u: PatchUnit)
      requires Valid() && 0 < id <= jumpsP
      modifies this`jumpsReuseP, jumpsReuse
      ensures ok <==> Release(old(Slots()), id).Some?
      ensures ok || jumpsReuseP == MAX_JUMPS
      ensures u == jumps[id - 1] && (ok ==> Valid() && Slots() == Release(old(Slots()), id).value)
    {
      jumpsReuse[jumpsReuseP] := id - 1;
      jumpsReuseP := jumpsReuseP + 1;
      u := jumps[id - 1];
      ok := jumpsReuseP != jumpsReuse.Length;
    }
  }

  lemma InsertLength<T>(s: seq<T>, k: nat, x: T)
    requires k <= |s|
    ensures |Insert(s, k, x)| == |s| + 1
  {}

  lemma SliceOf(c: Index, open: bool, k: nat)
    requires Inv(c, open) && k < |c.blocks|
    ensures var b := c.blocks[k];
      b.offsets + b.offsetssz <= |c.offs| && Increasing(c.offs[b.offsets..b.offsets + b.offsetssz])
  {
    var b := c.blocks[k];
    if !(open && k == c.block) {
      assert BlockOk(b, c.offs[..c.offsetsP], c.log);
      assert c.offs[..c.offsetsP][b.offsets..b.offsets + b.offsetssz] == c.offs[b.offsets..b.offsets + b.offsetssz];
    }
  }
}

/** The translation cache of src/cache.c as a value: a block array sorted by guest address, a shared
    table of instruction points, and the position of the one compiling context.  The log of
    (guest address, host index) pairs is the simple thing that the packed tables must agree with. */
module CacheIndex {
  import opened Bits
  import opened Options

  const MAX_BLOCKS: nat := 512
  const MAX_OFFSETS: nat := 24576

  datatype OffsetUnit = OffsetUnit(hoff: u8, goff: u8)

  datatype CacheUnit = CacheUnit(gpLo: nat, hp: nat, offsets: nat, offsetssz: u8, end: u8)

  datatype Mark = Mark(gp: nat, hp: nat)

  /** spans holds the true length of each closed block in words, which CacheUnit keeps only
      modulo 256; offs is the used part of the offset table, including the open block's points. */
  datatype Index = Index(
    blocks: seq<CacheUnit>, spans: seq<nat>, offs: seq<OffsetUnit>, offsetsP: nat, hostP: nat, hostC: nat,
    gp: nat, hp: nat, block: nat, loffp: nat,
    log: set<Mark>)

  // ---------------------------------------------------------------- operations

  /** The first block not below gp. */
  function InsertAt(blocks: seq<CacheUnit>, gp: nat): (k: nat)
    ensures k <= |blocks|
  {
    if blocks == [] || blocks[0].gpLo >= gp then 0 else 1 + InsertAt(blocks[1..], gp)
  }

  function Insert<T>(s: seq<T>, k: nat, x: T): (r: seq<T>)
    requires k <= |s|
    ensures |r| == |s| + 1
  {
    s[..k] + [x] + s[k..]
  }

  /** cache_block_start; None is a panic. */
  function BlockStart(c: Index): Option<Index>
    requires |c.spans| == |c.blocks|
  {
    if |c.blocks| + 1 >= MAX_BLOCKS then None
    else
      var k := InsertAt(c.blocks, c.gp);
      Some(c.(blocks := Insert(c.blocks, k, CacheUnit(c.gp, c.hp, 0, 0, 1)), spans := Insert(c.spans, k, 0),
              block := k, log := c.log + {Mark(c.gp, c.hp)}))
  }

  /** cache_block_end, before its check of the host size. */
  function Close(c: Index): Index
    requires c.block < |c.blocks| == |c.spans| && c.blocks[c.block].hp <= c.hp && c.loffp < 256
  {
    var b := c.blocks[c.block];
    var span := c.hp - b.hp;
    c.(blocks := c.blocks[c.block := b.(end := span % 256, offsets := c.offsetsP, offsetssz := c.loffp)],
       spans := c.spans[c.block := span],
       offsetsP := c.offsetsP + c.loffp, loffp := 0, hostP := c.hp)
  }

  function BlockEnd(c: Index): Option<Index>
    requires c.block < |c.blocks| == |c.spans| && c.blocks[c.block].hp <= c.hp && c.loffp < 256
  {
    if c.hp >= c.hostC then None else Some(Close(c))
  }

  function Restart(c: Index): Option<Index>
    requires c.block < |c.blocks| == |c.spans| && c.blocks[c.block].hp <= c.hp && c.loffp < 256
  {
    var d := BlockEnd(c);
    if d.None? then None else BlockStart(d.value)
  }

  /** Recording the current position in the open block. */
  function Record(c: Index): Option<Index>
    requires c.block < |c.blocks| == |c.spans| && c.blocks[c.block].hp <= c.hp && c.blocks[c.block].gpLo <= c.gp &&
      c.loffp < 255
  {
    var b := c.blocks[c.block];
    var goff, hoff := (c.gp - b.gpLo) % 0x1_0000, (c.hp - b.hp) % 0x1_0000;
    var d := c.(offs := c.offs + [OffsetUnit(hoff % 256, goff % 256)], loffp := c.loffp + 1,
                log := c.log + {Mark(c.gp, c.hp)});
    if c.offsetsP + d.loffp >= MAX_OFFSETS then None
    else if d.loffp == 255 then Restart(d)
    else Some(d)
  }

  // ---------------------------------------------------------------- the invariant

  ghost predicate Sorted(blocks: seq<CacheUnit>) {
    forall i, j :: 0 <= i < j < |blocks| ==> blocks[i].gpLo <= blocks[j].gpLo
  }

  ghost predicate Increasing(s: seq<OffsetUnit>) {
    forall i, j :: 0 <= i < j < |s| ==> s[i].goff < s[j].goff
  }

  /** Every point of a slice is a logged pair of its block. */
  ghost predicate Logged(gpLo: nat, hp: nat, s: seq<OffsetUnit>, log: set<Mark>) {
    forall j :: 0 <= j < |s| ==> Mark(gpLo + s[j].goff, hp + s[j].hoff) in log
  }

  ghost predicate BlockOk(b: CacheUnit, offs: seq<OffsetUnit>, log: set<Mark>) {
    b.offsets + b.offsetssz <= |offs| && Mark(b.gpLo, b.hp) in log &&
    Increasing(offs[b.offsets..b.offsets + b.offsetssz]) &&
    Logged(b.gpLo, b.hp, offs[b.offsets..b.offsets + b.offsetssz], log)
  }

  /** Host word w lies in the true extent of block i. */
  ghost predicate Owns(c: Index, i: nat, w: nat) {
    i < |c.blocks| == |c.spans| && c.blocks[i].hp <= w < c.blocks[i].hp + c.spans[i]
  }

  ghost predicate Owned(c: Index, w: nat) {
    exists i: nat :: Owns(c, i, w)
  }

  /** The true extents tile the closed part of the host buffer. */
  ghost predicate Tiles(c: Index) {
    |c.spans| == |c.blocks| &&
    (forall i :: 0 <= i < |c.blocks| ==> c.blocks[i].hp + c.spans[i] <= c.hostP) &&
    (forall i, j :: 0 <= i < j < |c.blocks| ==>
      c.blocks[i].hp + c.spans[i] <= c.blocks[j].hp || c.blocks[j].hp + c.spans[j] <= c.blocks[i].hp) &&
    (forall w: nat :: w < c.hostP ==> Owned(c, w))
  }

  ghost predicate Inv(c: Index, open: bool) {
    Sorted(c.blocks) && Tiles(c) && |c.offs| == c.offsetsP + c.loffp && c.loffp <= 255 &&
    (forall i :: 0 <= i < |c.blocks| && !(open && i == c.block) ==>
      BlockOk(c.blocks[i], c.offs[..c.offsetsP], c.log) && c.blocks[i].end == c.spans[i] % 256) &&
    (if open then
       c.block < |c.blocks| && c.spans[c.block] == 0 &&
       var b := c.blocks[c.block];
       b.offsets == 0 && b.offsetssz == 0 && Mark(b.gpLo, b.hp) in c.log &&
       b.hp == c.hostP <= c.hp && b.gpLo <= c.gp &&
       Increasing(c.offs[c.offsetsP..]) && Logged(b.gpLo, b.hp, c.offs[c.offsetsP..], c.log) &&
       (forall j :: c.offsetsP <= j < |c.offs| ==> b.gpLo + c.offs[j].goff <= c.gp)
     else c.loffp == 0)
  }

  /** A block just started or a point just recorded leaves both offsets within a byte ... */
  ghost predicate Near(c: Index)
    requires c.block < |c.blocks|
  {
    var b := c.blocks[c.block];
    c.gp - b.gpLo <= 255 && c.hp - b.hp <= 255 && c.loffp < 255
  }

  /** ... and after one more instruction they still fit 16 bits, and gp is past every point. */
  ghost predicate Ready(c: Index)
    requires c.block < |c.blocks|
  {
    var b := c.blocks[c.block];
    c.gp - b.gpLo < 0x1_0000 && c.hp - b.hp < 0x1_0000 && c.loffp < 255 &&
    (c.gp == b.gpLo ==> c.hp == b.hp) &&
    forall j :: c.offsetsP <= j < |c.offs| ==> b.gpLo + c.offs[j].goff < c.gp
  }

  // ---------------------------------------------------------------- what every operation keeps

  lemma {:induction false} InsertAtSorts(blocks: seq<CacheUnit>, gp: nat)
    requires Sorted(blocks)
    ensures var k := InsertAt(blocks, gp);
      (forall i :: 0 <= i < k ==> blocks[i].gpLo < gp) && (forall i :: k <= i < |blocks| ==> blocks[i].gpLo >= gp)
  {
    if blocks != [] && blocks[0].gpLo < gp {
      InsertAtSorts(blocks[1..], gp);
      var k := InsertAt(blocks[1..], gp);
      forall i | 0 <= i < k + 1 ensures blocks[i].gpLo < gp { if i > 0 { assert blocks[i] == blocks[1..][i - 1]; } }
      forall i | k + 1 <= i < |blocks| ensures blocks[i].gpLo >= gp { assert blocks[i] == blocks[1..][i - 1]; }
    }
  }

  lemma InsertedAt<T>(s: seq<T>, k: nat, x: T, i: nat)
    requires k <= |s| && i <= |s|
    ensures Insert(s, k, x)[i] == if i == k then x else s[if i < k then i else i - 1]
  {}

  lemma OwnedShifts(c: Index, k: nat, b: CacheUnit, d: Index, w: nat)
    requires k <= |c.blocks| == |c.spans| && d.blocks == Insert(c.blocks, k, b) && d.spans == Insert(c.spans, k, 0) &&
      Owned(c, w)
    ensures Owned(d, w)
  {
    var i: nat :| Owns(c, i, w);
    assert Owns(d, if i < k then i else i + 1, w);
  }

  lemma StartTiles(c: Index)
    requires Tiles(c) && c.hp == c.hostP && BlockStart(c).Some?
    ensures Tiles(BlockStart(c).value)
  {
    hide InsertAt, Owned;
    var d, k := BlockStart(c).value, InsertAt(c.blocks, c.gp);
    forall i | 0 <= i < |d.blocks|
      ensures d.spans[i] == (if i == k then 0 else c.spans[if i < k then i else i - 1])
      ensures d.blocks[i].hp == (if i == k then c.hp else c.blocks[if i < k then i else i - 1].hp) {}
    forall i, j | 0 <= i < j < |d.blocks|
      ensures d.blocks[i].hp + d.spans[i] <= d.blocks[j].hp || d.blocks[j].hp + d.spans[j] <= d.blocks[i].hp {
      var a, b := if i < k then i else i - 1, if j < k then j else j - 1;
      if i == k { assert c.blocks[b].hp + c.spans[b] <= c.hostP; }
      else if j == k { assert c.blocks[a].hp + c.spans[a] <= c.hostP; }
      else { assert a < b; }
    }
    forall w: nat | w < d.hostP ensures Owned(d, w) { OwnedShifts(c, k, d.blocks[k], d, w); }
  }

  lemma InsertKeepsSorted(blocks: seq<CacheUnit>, b: CacheUnit)
    requires Sorted(blocks)
    ensures Sorted(Insert(blocks, InsertAt(blocks, b.gpLo), b))
  {
    InsertAtSorts(blocks, b.gpLo);
  }

  lemma MoreLogged(b: CacheUnit, offs: seq<OffsetUnit>, log: set<Mark>, more: set<Mark>)
    requires BlockOk(b, offs, log) && log <= more
    ensures BlockOk(b, offs, more)
  {}

  /** Starting a block. */
  lemma StartKeeps(c: Index)
    requires Inv(c, false) && c.hp == c.hostP && BlockStart(c).Some?
    ensures var d := BlockStart(c).value;
      Inv(d, true) && Near(d) && d.loffp == 0 && d.blocks[d.block] == CacheUnit(c.gp, c.hp, 0, 0, 1)
  {
    hide Tiles, BlockOk, Sorted;
    assert |c.spans| == |c.blocks| by { SameTiles(c, c); }
    var d, k := BlockStart(c).value, InsertAt(c.blocks, c.gp);
    InsertKeepsSorted(c.blocks, d.blocks[k]);
    StartTiles(c);
    forall i | 0 <= i < |d.blocks| && i != k
      ensures BlockOk(d.blocks[i], d.offs[..d.offsetsP], d.log) && d.blocks[i].end == d.spans[i] % 256
    {
      var o := if i < k then i else i - 1;
      assert d.blocks[i] == c.blocks[o] && d.spans[i] == c.spans[o];
      MoreLogged(c.blocks[o], c.offs[..c.offsetsP], c.log, d.log);
    }
  }

  lemma CloseTiles(c: Index)
    requires Inv(c, true)
    ensures Tiles(Close(c))
  {
    var d := Close(c);
    forall w: nat | w < d.hostP ensures Owned(d, w) {
      if w < c.hostP {
        assert Owned(c, w);
        var i: nat :| Owns(c, i, w);
        assert Owns(d, i, w);
      } else {
        assert Owns(d, c.block, w);
      }
    }
  }

  lemma SliceOfPrefix<T>(s: seq<T>, n: nat, a: nat, b: nat)
    requires a <= b <= n <= |s|
    ensures s[..n][a..b] == s[a..b]
  {}

  lemma MorePoints(b: CacheUnit, offs: seq<OffsetUnit>, n: nat, m: nat, log: set<Mark>)
    requires n <= m <= |offs| && BlockOk(b, offs[..n], log)
    ensures BlockOk(b, offs[..m], log)
  {
    SliceOfPrefix(offs, n, b.offsets, b.offsets + b.offsetssz);
    SliceOfPrefix(offs, m, b.offsets, b.offsets + b.offsetssz);
  }

  /** Closing a block. */
  lemma CloseKeeps(c: Index)
    requires Inv(c, true)
    ensures Inv(Close(c), false) && Close(c).hp == Close(c).hostP
  {
    var d := Close(c);
    CloseTiles(c);
    hide Tiles, Increasing, Logged;
    OpenBlock(c);
    forall i | 0 <= i < |d.blocks|
      ensures BlockOk(d.blocks[i], d.offs[..d.offsetsP], d.log) && d.blocks[i].end == d.spans[i] % 256
    {
      if i == c.block {
        var b := d.blocks[i];
        SliceOfPrefix(d.offs, d.offsetsP, b.offsets, b.offsets + b.offsetssz);
        assert d.offs[b.offsets..b.offsets + b.offsetssz] == c.offs[c.offsetsP..];
      } else {
        MorePoints(c.blocks[i], c.offs, c.offsetsP, d.offsetsP, c.log);
      }
    }
  }

  lemma RestartKeeps(c: Index)
    requires Inv(c, true) && Restart(c).Some?
    ensures var d := Restart(c).value;
      Inv(d, true) && Near(d) && d.loffp == 0 && d.blocks[d.block] == CacheUnit(c.gp, c.hp, 0, 0, 1) && d.gp == c.gp &&
      d.hp == c.hp
  {
    CloseKeeps(c);
    StartKeeps(Close(c));
  }

  lemma SameTiles(c: Index, d: Index)
    requires Tiles(c) && d.blocks == c.blocks && d.spans == c.spans && d.hostP == c.hostP
    ensures Tiles(d) && |c.spans| == |c.blocks|
  {
    forall w: nat | w < d.hostP ensures Owned(d, w) {
      assert Owned(c, w);
      var i: nat :| Owns(c, i, w);
      assert Owns(d, i, w);
    }
  }

  function Noted(c: Index): Index
    requires c.block < |c.blocks| && c.blocks[c.block].hp <= c.hp && c.blocks[c.block].gpLo <= c.gp && Near(c)
  {
    var b := c.blocks[c.block];
    c.(offs := c.offs + [OffsetUnit(c.hp - b.hp, c.gp - b.gpLo)], loffp := c.loffp + 1,
       log := c.log + {Mark(c.gp, c.hp)})
  }

  /** One more point, past the others. */
  lemma NotedKeeps(c: Index)
    requires Inv(c, true) && Near(c)
    requires forall j :: c.offsetsP <= j < |c.offs| ==> c.blocks[c.block].gpLo + c.offs[j].goff < c.gp
    ensures Inv(Noted(c), true)
  {
    hide BlockOk, Tiles;
    assert |c.spans| == |c.blocks| by { SameTiles(c, c); }
    var b, d := c.blocks[c.block], Noted(c);
    assert d.offs[..d.offsetsP] == c.offs[..c.offsetsP];
    assert d.offs[d.offsetsP..] == c.offs[c.offsetsP..] + [d.offs[|c.offs|]];
    SameTiles(c, d);
    forall i | 0 <= i < |d.blocks| && i != d.block ensures BlockOk(d.blocks[i], d.offs[..d.offsetsP], d.log) {
      MoreLogged(c.blocks[i], c.offs[..c.offsetsP], c.log, d.log);
    }
  }

  /** Within a byte of the block's start the truncations lose nothing. */
  lemma RecordNotes(c: Index)
    requires c.block < |c.blocks| == |c.spans| && c.blocks[c.block].hp <= c.hp && c.blocks[c.block].gpLo <= c.gp &&
      Near(c)
    ensures Record(c) == if c.offsetsP + c.loffp + 1 >= MAX_OFFSETS then None
                         else if c.loffp + 1 == 255 then Restart(Noted(c))
                         else Some(Noted(c))
  {
    hide Restart;
    var b := c.blocks[c.block];
    Small(c.gp - b.gpLo);
    Small(c.hp - b.hp);
  }

  /** Recording a point within a byte of the block's start. */
  lemma RecordKeeps(c: Index)
    requires Inv(c, true) && Near(c) && Record(c).Some?
    requires forall j :: c.offsetsP <= j < |c.offs| ==> c.blocks[c.block].gpLo + c.offs[j].goff < c.gp
    ensures var d := Record(c).value; Inv(d, true) && Near(d) && d.gp == c.gp && d.hp == c.hp
  {
    OpenBlock(c);
    NotedKeeps(c);
    RecordNotes(c);
    hide Inv, Record, Restart;
    if c.loffp + 1 == 255 { RestartKeeps(Noted(c)); }
  }

  lemma OpenBlock(c: Index)
    requires Inv(c, true)
    ensures c.block < |c.blocks| == |c.spans| && c.blocks[c.block].hp <= c.hp && c.blocks[c.block].gpLo <= c.gp &&
      c.loffp <= 255
    ensures c.blocks[c.block].hp == c.hostP && |c.offs| == c.offsetsP + c.loffp
  {}

  /** cache_block_point: offsets are truncated to 16 bits before they are tested. */
  function BlockPoint(c: Index): Option<Index>
    requires Inv(c, true) && c.loffp < 255
  {
    var b := c.blocks[c.block];
    var goff, hoff := (c.gp - b.gpLo) % 0x1_0000, (c.hp - b.hp) % 0x1_0000;
    if goff == 0 then Some(c)
    else if goff > 255 || hoff > 255 then
      var d := Restart(c);
      if d.None? then None else
        RestartKeeps(c);
        Record(d.value)
    else Record(c)
  }

  /** While the offsets fit 16 bits the truncations lose nothing. */
  predicate Far(c: Index)
    requires c.block < |c.blocks|
  {
    c.gp - c.blocks[c.block].gpLo > 255 || c.hp - c.blocks[c.block].hp > 255
  }

  lemma PointCases(c: Index)
    requires Inv(c, true) && Ready(c)
    ensures c.block < |c.blocks| == |c.spans| && c.blocks[c.block].hp <= c.hp && c.blocks[c.block].gpLo <= c.gp
    ensures c.gp == c.blocks[c.block].gpLo ==> BlockPoint(c) == Some(c) && !Far(c)
    ensures c.gp != c.blocks[c.block].gpLo && !Far(c) ==> BlockPoint(c) == Record(c)
    ensures Far(c) && Restart(c).None? ==> BlockPoint(c) == None
    ensures Far(c) && Restart(c).Some? ==>
      var d := Restart(c).value;
      d.block < |d.blocks| == |d.spans| && d.blocks[d.block].hp <= d.hp && d.blocks[d.block].gpLo <= d.gp &&
      d.loffp < 255 &&
      BlockPoint(c) == Record(d)
  {
    OpenBlock(c);
    if Restart(c).Some? { RestartKeeps(c); OpenBlock(Restart(c).value); }
    hide Inv, Record, Restart;
    Small(c.gp - c.blocks[c.block].gpLo);
    Small(c.hp - c.blocks[c.block].hp);
  }

  /** Recording the position at the start of an instruction, across both kinds of split. */
  lemma PointKeeps(c: Index)
    requires Inv(c, true) && Ready(c) && BlockPoint(c).Some?
    ensures var d := BlockPoint(c).value; Inv(d, true) && Near(d) && d.gp == c.gp && d.hp == c.hp
  {
    PointCases(c);
    if Far(c) {
      RestartKeeps(c);
      OpenBlock(Restart(c).value);
      RecordKeeps(Restart(c).value);
    } else if c.gp != c.blocks[c.block].gpLo {
      hide Inv, Record, Restart, BlockPoint;
      RecordKeeps(c);
    }
  }

  // ---------------------------------------------------------------- looking up a guest address

  /** The host offset of the point with guest offset goff, by linear search. */
  function FindPoint(s: seq<OffsetUnit>, goff: int): Option<nat> {
    if s == [] then None else if s[0].goff == goff then Some(s[0].hoff) else FindPoint(s[1..], goff)
  }

  /** What block_cache_search and its caller make of block b: a table at index 0 is never searched,
      and host index 0 is never returned. */
  function LookupPoint(b: CacheUnit, offs: seq<OffsetUnit>, gp: nat): Option<nat>
    requires b.offsets + b.offsetssz <= |offs|
  {
    if b.offsets == 0 then None
    else
      match FindPoint(offs[b.offsets..b.offsets + b.offsetssz], gp - b.gpLo)
      case None => None
      case Some(hoff) => if b.hp + hoff == 0 then None else Some(b.hp + hoff)
  }

  /** cache_search as a linear reference: a block starting at gp if there is one, otherwise the point
      recorded for gp in the last block starting below gp. */
  ghost predicate IsLookup(c: Index, gp: nat, r: Option<nat>) {
    (exists i :: 0 <= i < |c.blocks| && c.blocks[i].gpLo == gp && r == Some(c.blocks[i].hp)) ||
    ((forall i :: 0 <= i < |c.blocks| ==> c.blocks[i].gpLo != gp) &&
     (((forall i :: 0 <= i < |c.blocks| ==> c.blocks[i].gpLo > gp) && r == None) ||
      exists k :: 0 <= k < |c.blocks| && c.blocks[k].gpLo < gp &&
        (forall i :: k < i < |c.blocks| ==> c.blocks[i].gpLo > gp) &&
                  c.blocks[k].offsets + c.blocks[k].offsetssz <= |c.offs| && r == LookupPoint(c.blocks[k], c.offs, gp)))
  }

  lemma {:induction false} FindPointIn(s: seq<OffsetUnit>, goff: int)
    ensures var r := FindPoint(s, goff);
      if r.Some? then exists j :: 0 <= j < |s| && s[j].goff == goff && s[j].hoff == r.value
      else forall j :: 0 <= j < |s| ==> s[j].goff != goff
  {
    if s != [] {
      FindPointIn(s[1..], goff);
      var r := FindPoint(s[1..], goff);
      if s[0].goff == goff {
        assert s[0].hoff == FindPoint(s, goff).value;
      } else if r.Some? {
        var j :| 0 <= j < |s[1..]| && s[1..][j].goff == goff && s[1..][j].hoff == r.value;
        assert s[j + 1].goff == goff;
      } else {
        forall j | 0 <= j < |s| ensures s[j].goff != goff { if j > 0 { assert s[j] == s[1..][j - 1]; } }
      }
    }
  }

  /** With increasing guest offsets a point is found wherever it is. */
  lemma FindPointAt(s: seq<OffsetUnit>, goff: int, j: nat)
    requires Increasing(s) && j < |s| && s[j].goff == goff
    ensures FindPoint(s, goff) == Some(s[j].hoff)
  {
    FindPointIn(s, goff);
  }

  lemma PointIsLogged(b: CacheUnit, offs: seq<OffsetUnit>, n: nat, log: set<Mark>, gp: nat)
    requires n <= |offs| && BlockOk(b, offs[..n], log) && LookupPoint(b, offs, gp).Some?
    ensures Mark(gp, LookupPoint(b, offs, gp).value) in log
  {
    hide Increasing, FindPoint, Logged;
    SliceOfPrefix(offs, n, b.offsets, b.offsets + b.offsetssz);
    SliceIsLogged(b.gpLo, b.hp, offs[b.offsets..b.offsets + b.offsetssz], log, gp);
  }

  lemma SliceIsLogged(gpLo: nat, hp: nat, s: seq<OffsetUnit>, log: set<Mark>, gp: nat)
    requires Logged(gpLo, hp, s, log) && FindPoint(s, gp - gpLo).Some?
    ensures Mark(gp, hp + FindPoint(s, gp - gpLo).value) in log
  {
    hide FindPoint;
    FindPointIn(s, gp - gpLo);
  }

  /** Every hit is a logged pair, while a block is being compiled as well as between blocks. */
  lemma HitsAreLogged(c: Index, open: bool, gp: nat, r: Option<nat>)
    requires Inv(c, open) && IsLookup(c, gp, r) && r.Some?
    ensures Mark(gp, r.value) in c.log
  {
    hide BlockOk, Tiles, LookupPoint;
    if i :| 0 <= i < |c.blocks| && c.blocks[i].gpLo == gp && r == Some(c.blocks[i].hp) {
      StartIsLogged(c, open, i);
    } else {
      var k :| 0 <= k < |c.blocks| && c.blocks[k].gpLo < gp &&
        c.blocks[k].offsets + c.blocks[k].offsetssz <= |c.offs| &&
        r == LookupPoint(c.blocks[k], c.offs, gp);
      if open && k == c.block { NoTable(c.blocks[k], c.offs, gp); }
      PointIsLogged(c.blocks[k], c.offs, c.offsetsP, c.log, gp);
    }
  }

  lemma NoTable(b: CacheUnit, offs: seq<OffsetUnit>, gp: nat)
    requires b.offsets == 0 && b.offsets + b.offsetssz <= |offs|
    ensures LookupPoint(b, offs, gp).None?
  {}

  lemma StartIsLogged(c: Index, open: bool, i: nat)
    requires Inv(c, open) && i < |c.blocks|
    ensures Mark(c.blocks[i].gpLo, c.blocks[i].hp) in c.log
  {
    if !(open && i == c.block) { assert BlockOk(c.blocks[i], c.offs[..c.offsetsP], c.log); }
  }

  /** Guest address gp is point j of closed block k, and k is the block a search for gp ends in. */
  ghost predicate PointOf(c: Index, k: nat, j: nat, gp: nat) {
    k < |c.blocks| && j < c.blocks[k].offsetssz && c.blocks[k].offsets + c.blocks[k].offsetssz <= |c.offs| &&
    gp == c.blocks[k].gpLo + c.offs[c.blocks[k].offsets + j].goff && c.blocks[k].gpLo < gp &&
    forall i :: 0 <= i < |c.blocks| ==> c.blocks[i].gpLo != gp && (i > k ==> c.blocks[i].gpLo > gp)
  }

  /** A recorded point is found exactly when its block's table is not the one at index 0 and its host
      index is not 0; otherwise the search comes back with nothing. */
  lemma PointFoundExact(c: Index, open: bool, k: nat, j: nat, gp: nat, r: Option<nat>)
    requires Inv(c, open) && PointOf(c, k, j, gp) && IsLookup(c, gp, r) && !(open && k == c.block)
    ensures var b := c.blocks[k];
      var h := b.hp + c.offs[b.offsets + j].hoff;
      r == if b.offsets != 0 && h != 0 then Some(h) else None
  {
    hide *;
    SearchEndsIn(c, k, j, gp, r);
    ClosedSlice(c, open, k, j, gp);
    PointLookup(c.blocks[k], c.offs, j, gp);
  }

  lemma SearchEndsIn(c: Index, k: nat, j: nat, gp: nat, r: Option<nat>)
    requires PointOf(c, k, j, gp) && IsLookup(c, gp, r)
    ensures k < |c.blocks| && var b := c.blocks[k];
      j < b.offsetssz && b.offsets + b.offsetssz <= |c.offs| && gp == b.gpLo + c.offs[b.offsets + j].goff &&
      r == LookupPoint(b, c.offs, gp)
  {
    hide LookupPoint;
  }

  lemma ClosedSlice(c: Index, open: bool, k: nat, j: nat, gp: nat)
    requires Inv(c, open) && PointOf(c, k, j, gp) && !(open && k == c.block)
    ensures Increasing(c.offs[c.blocks[k].offsets..c.blocks[k].offsets + c.blocks[k].offsetssz])
  {
    var b := c.blocks[k];
    assert BlockOk(b, c.offs[..c.offsetsP], c.log);
    SliceOfPrefix(c.offs, c.offsetsP, b.offsets, b.offsets + b.offsetssz);
  }

  lemma PointLookup(b: CacheUnit, offs: seq<OffsetUnit>, j: nat, gp: nat)
    requires b.offsets + b.offsetssz <= |offs| && j < b.offsetssz &&
      Increasing(offs[b.offsets..b.offsets + b.offsetssz])
    requires gp == b.gpLo + offs[b.offsets + j].goff
    ensures var h := b.hp + offs[b.offsets + j].hoff;
      LookupPoint(b, offs, gp) == if b.offsets != 0 && h != 0 then Some(h) else None
  {
    FindPointAt(offs[b.offsets..b.offsets + b.offsetssz], gp - b.gpLo, j);
  }

  /** Block i has points, in the table at index 0. */
  predicate HasFirstTable(c: Index, i: nat) {
    i < |c.blocks| && c.blocks[i].offsets == 0 && c.blocks[i].offsetssz > 0
  }

  /** Tables with points in them lie apart, in front of the next free slot, and one of them at index 0. */
  ghost predicate TablesApart(c: Index) {
    (forall i :: 0 <= i < |c.blocks| && c.blocks[i].offsetssz > 0 ==> c.blocks[i].offsets < c.offsetsP) &&
    (forall i, j :: 0 <= i < j < |c.blocks| && c.blocks[i].offsetssz > 0 && c.blocks[j].offsetssz > 0 ==>
      c.blocks[i].offsets != c.blocks[j].offsets) &&
    (c.offsetsP > 0 ==> exists i: nat :: HasFirstTable(c, i))
  }

  /** As soon as any closed block has points, exactly one has them in the table at index 0. */
  lemma FirstTableExact(c: Index)
    requires TablesApart(c)
    ensures (exists i: nat :: HasFirstTable(c, i)) <==> exists i :: 0 <= i < |c.blocks| && c.blocks[i].offsetssz > 0
    ensures forall i: nat, j: nat :: HasFirstTable(c, i) && HasFirstTable(c, j) ==> i == j
  {
    forall i: nat, j: nat | HasFirstTable(c, i) && HasFirstTable(c, j) ensures i == j {
      if i < j { TwoTables(c, i, j); } else if j < i { TwoTables(c, j, i); }
    }
    if i :| 0 <= i < |c.blocks| && c.blocks[i].offsetssz > 0 { assert c.offsetsP > 0; }
  }

  lemma TwoTables(c: Index, i: nat, j: nat)
    requires TablesApart(c) && i < j < |c.blocks| && c.blocks[i].offsetssz > 0 && c.blocks[j].offsetssz > 0
    ensures c.blocks[i].offsets != c.blocks[j].offsets
  {}

  lemma StartTablesApart(c: Index)
    requires TablesApart(c) && |c.spans| == |c.blocks| && BlockStart(c).Some?
    ensures TablesApart(BlockStart(c).value)
  {
    hide InsertAt, Insert;
    var d, k := BlockStart(c).value, InsertAt(c.blocks, c.gp);
    forall i | 0 <= i < |d.blocks|
      ensures d.blocks[i] == if i == k then d.blocks[k] else c.blocks[if i < k then i else i - 1]
    {
      InsertedAt(c.blocks, k, CacheUnit(c.gp, c.hp, 0, 0, 1), i);
    }
    InsertedAt(c.blocks, k, CacheUnit(c.gp, c.hp, 0, 0, 1), k);
    if i: nat :| HasFirstTable(c, i) { assert HasFirstTable(d, if i < k then i else i + 1); }
  }

  lemma CloseTablesApart(c: Index)
    requires TablesApart(c) && Inv(c, true)
    ensures TablesApart(Close(c))
  {
    hide Tiles, BlockOk, Increasing, Logged;
    OpenBlock(c);
    var d := Close(c);
    if i: nat :| HasFirstTable(c, i) {
      assert HasFirstTable(d, i);
    } else {
      assert c.loffp > 0 ==> HasFirstTable(d, c.block);
    }
  }

  lemma SameTables(x: Index, y: Index)
    requires TablesApart(x) && y.blocks == x.blocks && y.offsetsP == x.offsetsP
    ensures TablesApart(y)
  {
    if i: nat :| HasFirstTable(x, i) { assert HasFirstTable(y, i); }
  }

  lemma PointTablesApart(c: Index)
    requires TablesApart(c) && Inv(c, true) && Ready(c) && BlockPoint(c).Some?
    ensures TablesApart(BlockPoint(c).value)
  {
    PointCases(c);
    if Far(c) {
      RestartTablesApart(c);
      RestartKeeps(c);
      RecordTablesApart(Restart(c).value);
    } else if c.gp != c.blocks[c.block].gpLo {
      hide BlockPoint, Ready;
      RecordTablesApart(c);
    }
  }

  lemma RestartTablesApart(c: Index)
    requires TablesApart(c) && Inv(c, true) && Restart(c).Some?
    ensures TablesApart(Restart(c).value)
  {
    CloseTablesApart(c);
    CloseKeeps(c);
    StartTablesApart(Close(c));
  }

  lemma RecordTablesApart(c: Index)
    requires TablesApart(c) && Inv(c, true) && Near(c) && Record(c).Some?
    requires forall j :: c.offsetsP <= j < |c.offs| ==> c.blocks[c.block].gpLo + c.offs[j].goff < c.gp
    ensures TablesApart(Record(c).value)
  {
    OpenBlock(c);
    RecordNotes(c);
    NotedKeeps(c);
    hide Inv, Record, Restart, TablesApart;
    SameTables(c, Noted(c));
    if c.loffp + 1 == 255 { RestartTablesApart(Noted(c)); }
  }

  /** After the close, the points of that block, and of no other but one at host index 0, are lost. */
  lemma FirstPointsAreLost(c: Index, j: nat, gp: nat, r: Option<nat>)
    requires Inv(c, true) && PointOf(Close(c), c.block, j, gp) && IsLookup(Close(c), gp, r)
    ensures var b := c.blocks[c.block];
      r == None <==> c.offsetsP == 0 || b.hp + c.offs[c.offsetsP + j].hoff == 0
  {
    CloseKeeps(c);
    PointFoundExact(Close(c), false, c.block, j, gp, r);
  }

  /** Blocks starting at gp exist and all start at host index h. */
  ghost predicate StartsAt(c: Index, gp: nat, h: nat) {
    (exists i :: 0 <= i < |c.blocks| && c.blocks[i].gpLo == gp) &&
    forall i :: 0 <= i < |c.blocks| && c.blocks[i].gpLo == gp ==> c.blocks[i].hp == h
  }

  lemma StartFound(c: Index, gp: nat, h: nat, r: Option<nat>)
    requires StartsAt(c, gp, h) && IsLookup(c, gp, r)
    ensures r == Some(h)
  {}

  lemma MissIsNoStart(c: Index, gp: nat)
    requires IsLookup(c, gp, None)
    ensures forall i :: 0 <= i < |c.blocks| ==> c.blocks[i].gpLo != gp
  {
    hide LookupPoint;
  }

  /** A miss is no block start, so the block started for it is the only one. */
  lemma StartedOnMiss(c: Index)
    requires IsLookup(c, c.gp, None) && |c.spans| == |c.blocks| && BlockStart(c).Some?
    ensures StartsAt(BlockStart(c).value, c.gp, c.hp)
  {
    hide InsertAt, IsLookup;
    MissIsNoStart(c, c.gp);
    var d, k := BlockStart(c).value, InsertAt(c.blocks, c.gp);
    assert d.blocks[k].gpLo == c.gp;
    forall i | 0 <= i < |d.blocks| && i != k ensures d.blocks[i].gpLo != c.gp {
      assert d.blocks[i] == c.blocks[if i < k then i else i - 1];
    }
  }

  lemma StartElsewhere(c: Index, gp: nat, h: nat)
    requires StartsAt(c, gp, h) && c.gp != gp && |c.spans| == |c.blocks| && BlockStart(c).Some?
    ensures StartsAt(BlockStart(c).value, gp, h)
  {
    hide InsertAt;
    var d, k := BlockStart(c).value, InsertAt(c.blocks, c.gp);
    var i :| 0 <= i < |c.blocks| && c.blocks[i].gpLo == gp;
    assert d.blocks[if i < k then i else i + 1].gpLo == gp;
    forall i | 0 <= i < |d.blocks| && d.blocks[i].gpLo == gp ensures d.blocks[i].hp == h {
      assert i != k && d.blocks[i] == c.blocks[if i < k then i else i - 1];
    }
  }

  lemma CloseStarts(c: Index, gp: nat, h: nat)
    requires StartsAt(c, gp, h) && Inv(c, true)
    ensures StartsAt(Close(c), gp, h)
  {
    var i :| 0 <= i < |c.blocks| && c.blocks[i].gpLo == gp;
    assert Close(c).blocks[i].gpLo == gp;
  }

  /** Recording a point later in the code, with whatever splits, keeps the block found for gp. */
  lemma PointStarts(c: Index, gp: nat, h: nat)
    requires StartsAt(c, gp, h) && Inv(c, true) && Ready(c) && BlockPoint(c).Some?
    requires c.gp > gp || c.gp == c.blocks[c.block].gpLo
    ensures StartsAt(BlockPoint(c).value, gp, h)
  {
    OpenBlock(c);
    hide Inv, StartsAt, Restart, Record;
    var b := c.blocks[c.block];
    Small(c.gp - b.gpLo);
    Small(c.hp - b.hp);
    var goff, hoff := (c.gp - b.gpLo) % 0x1_0000, (c.hp - b.hp) % 0x1_0000;
    if goff != 0 {
      var d := c;
      if goff > 255 || hoff > 255 {
        RestartKeeps(c);
        RestartStarts(c, gp, h);
        d := Restart(c).value;
      }
      RecordStarts(d, gp, h);
    }
  }

  lemma RestartStarts(c: Index, gp: nat, h: nat)
    requires StartsAt(c, gp, h) && Inv(c, true) && Restart(c).Some? && c.gp != gp
    ensures StartsAt(Restart(c).value, gp, h)
  {
    CloseStarts(c, gp, h);
    CloseKeeps(c);
    StartElsewhere(Close(c), gp, h);
  }

  lemma RecordStarts(c: Index, gp: nat, h: nat)
    requires StartsAt(c, gp, h) && Inv(c, true) && Near(c) && Record(c).Some? && c.gp != gp
    requires forall j :: c.offsetsP <= j < |c.offs| ==> c.blocks[c.block].gpLo + c.offs[j].goff < c.gp
    ensures StartsAt(Record(c).value, gp, h)
  {
    OpenBlock(c);
    NotedKeeps(c);
    RecordNotes(c);
    hide Inv, StartsAt, Restart, Record, Near;
    SameStarts(c, Noted(c), gp, h);
    if c.loffp + 1 == 255 { RestartStarts(Noted(c), gp, h); }
  }

  lemma Small(x: nat)
    ensures x < 0x1_0000 ==> x % 0x1_0000 == x
    ensures x < 0x100 ==> x % 0x1_0000 % 0x100 == x
  {}

  lemma SameStarts(x: Index, y: Index, gp: nat, h: nat)
    requires StartsAt(x, gp, h) && y.blocks == x.blocks
    ensures StartsAt(y, gp, h)
  {}

  // ---------------------------------------------------------------- from host word to block

  /** cache_search_block: the first block whose truncated extent holds host word w. */
  function FirstBlock(blocks: seq<CacheUnit>, w: nat): Option<nat> {
    if blocks == [] then None
    else if blocks[0].hp <= w < blocks[0].hp + blocks[0].end then Some(0)
    else match FirstBlock(blocks[1..], w) case None => None case Some(i) => Some(i + 1)
  }

  lemma {:induction false} FirstBlockIn(blocks: seq<CacheUnit>, w: nat)
    ensures match FirstBlock(blocks, w)
      case Some(i) => i < |blocks| && blocks[i].hp <= w < blocks[i].hp + blocks[i].end
      case None => forall i :: 0 <= i < |blocks| ==> !(blocks[i].hp <= w < blocks[i].hp + blocks[i].end)
  {
    if blocks != [] {
      FirstBlockIn(blocks[1..], w);
      match FirstBlock(blocks[1..], w)
      case Some(i) => assert blocks[1..][i] == blocks[i + 1];
      case None =>
        forall i | 1 <= i < |blocks| ensures !(blocks[i].hp <= w < blocks[i].hp + blocks[i].end) {
          assert blocks[i] == blocks[1..][i - 1];
        }
    }
  }

  /** Between blocks, every host word below host_p has exactly one owner, whatever the guest order;
      the scan returns it exactly when the word lies within the block's length modulo 256, and
      finds nothing otherwise. */
  lemma SearchBlockExact(c: Index, w: nat) returns (i: nat)
    requires Inv(c, false) && w < c.hostP
    ensures Owns(c, i, w) && (forall j: nat :: Owns(c, j, w) ==> j == i)
    ensures FirstBlock(c.blocks, w) == if w - c.blocks[i].hp < c.spans[i] % 256 then Some(i) else None
    ensures c.spans[i] < 256 ==> FirstBlock(c.blocks, w) == Some(i)
  {
    hide BlockOk, Sorted, Increasing, Logged, FirstBlock;
    assert Owned(c, w);
    i :| Owns(c, i, w);
    FirstBlockIn(c.blocks, w);
    forall j: nat | Owns(c, j, w) ensures j == i { if j < i {} else if i < j {} }
    match FirstBlock(c.blocks, w)
    case Some(j) => assert Owns(c, j, w);
    case None =>
  }
}

/** What becomes of the points that cache_block_point records (src/cache.c): which later searches find them,
    and at which host index. */
module Points {
  import opened Options
  import opened CacheIndex

  /** The points of block i: its table, or for the open block the slots behind the last table. */
  function FirstPoint(c: Index, open: bool, i: nat): nat
    requires i < |c.blocks|
  {
    if open && i == c.block then c.offsetsP else c.blocks[i].offsets
  }

  function PointCount(c: Index, open: bool, i: nat): nat
    requires i < |c.blocks|
  {
    if open && i == c.block then c.loffp else c.blocks[i].offsetssz
  }

  /** Point j of block i is guest address gp at host index hp. */
  predicate PointAt(c: Index, open: bool, i: nat, j: nat, gp: nat, hp: nat) {
    i < |c.blocks| && c.blocks[i].gpLo < gp && j < PointCount(c, open, i) && FirstPoint(c, open, i) + j < |c.offs| &&
    var b, u := c.blocks[i], c.offs[FirstPoint(c, open, i) + j];
    gp == b.gpLo + u.goff && hp == b.hp + u.hoff
  }

  /** No block starts at gp, and block k is the last one that starts below it. */
  ghost predicate EndsIn(c: Index, k: nat, gp: nat) {
    k < |c.blocks| && c.blocks[k].gpLo < gp &&
    forall i :: 0 <= i < |c.blocks| ==> c.blocks[i].gpLo != gp && (i > k ==> c.blocks[i].gpLo > gp)
  }

  /** A search for gp ends in the point's own block, or in another closed block that does not know gp. */
  ghost predicate Waiting(c: Index, open: bool, gp: nat, hp: nat, i: nat, j: nat, k: nat) {
    PointAt(c, open, i, j, gp, hp) && EndsIn(c, k, gp) &&
    (k != i ==> !(open && k == c.block) && c.blocks[k].offsets + c.blocks[k].offsetssz <= |c.offs| &&
                LookupPoint(c.blocks[k], c.offs, gp) == None)
  }

  /** gp is known at host index hp: blocks start there, or it is a point. */
  ghost predicate Recorded(c: Index, open: bool, gp: nat, hp: nat) {
    StartsAt(c, gp, hp) || exists i: nat, j: nat, k: nat :: Waiting(c, open, gp, hp, i, j, k)
  }

  // ---------------------------------------------------------------- what the search makes of it

  /** What a search for gp returns: the host index hp, unless gp is a point in the table at index 0, or hp is
      0, or another block starts between the point's own block and gp; then nothing. */
  ghost predicate FoundAs(c: Index, gp: nat, hp: nat, r: Option<nat>) {
    (StartsAt(c, gp, hp) && r == Some(hp)) ||
    exists i: nat, j: nat :: PointAt(c, false, i, j, gp, hp) &&
      r == if c.blocks[i].offsets != 0 && hp != 0 && EndsIn(c, i, gp) then Some(hp) else None
  }

  lemma RecordedFound(c: Index, gp: nat, hp: nat, r: Option<nat>)
    requires Inv(c, false) && Recorded(c, false, gp, hp) && IsLookup(c, gp, r)
    ensures FoundAs(c, gp, hp, r)
  {
    hide Inv, IsLookup, StartsAt, LookupPoint, EndsIn;
    if StartsAt(c, gp, hp) {
      StartFound(c, gp, hp, r);
    } else {
      var i: nat, j: nat, k: nat :| Waiting(c, false, gp, hp, i, j, k);
      SearchEnds(c, k, gp, r);
      if k == i {
        PointSlice(c, i);
        PointLookup(c.blocks[i], c.offs, j, gp);
      } else {
        OneEnd(c, i, k, gp);
      }
    }
  }

  lemma SearchEnds(c: Index, k: nat, gp: nat, r: Option<nat>)
    requires EndsIn(c, k, gp) && IsLookup(c, gp, r)
    ensures k < |c.blocks| && c.blocks[k].offsets + c.blocks[k].offsetssz <= |c.offs| &&
      r == LookupPoint(c.blocks[k], c.offs, gp)
  {
    hide LookupPoint;
  }

  lemma OneEnd(c: Index, i: nat, k: nat, gp: nat)
    requires EndsIn(c, k, gp) && i != k
    ensures !EndsIn(c, i, gp)
  {}

  lemma PointSlice(c: Index, i: nat)
    requires Inv(c, false) && i < |c.blocks|
    ensures var b := c.blocks[i];
      b.offsets + b.offsetssz <= |c.offs| && Increasing(c.offs[b.offsets..b.offsets + b.offsetssz])
  {
    var b := c.blocks[i];
    assert BlockOk(b, c.offs[..c.offsetsP], c.log);
    SliceOfPrefix(c.offs, c.offsetsP, b.offsets, b.offsets + b.offsetssz);
  }

  // ---------------------------------------------------------------- what each operation keeps

  lemma RecordedSame(c: Index, d: Index, open: bool, gp: nat, hp: nat)
    requires Recorded(c, open, gp, hp)
    requires d.blocks == c.blocks && d.offs == c.offs &&
      (open ==> d.offsetsP == c.offsetsP && d.block == c.block && d.loffp == c.loffp)
    ensures Recorded(d, open, gp, hp)
  {
    hide LookupPoint;
    if StartsAt(c, gp, hp) {
      SameStarts(c, d, gp, hp);
    } else {
      var i: nat, j: nat, k: nat :| Waiting(c, open, gp, hp, i, j, k);
      assert Waiting(d, open, gp, hp, i, j, k);
    }
  }

  lemma LookupSame(b: CacheUnit, s: seq<OffsetUnit>, u: OffsetUnit, gp: nat)
    requires b.offsets + b.offsetssz <= |s|
    ensures LookupPoint(b, s + [u], gp) == LookupPoint(b, s, gp)
  {
    hide FindPoint;
    assert (s + [u])[b.offsets..b.offsets + b.offsetssz] == s[b.offsets..b.offsets + b.offsetssz];
  }

  /** One more point in the open block. */
  lemma RecordedNoted(c: Index, gp: nat, hp: nat)
    requires Inv(c, true) && Near(c) && Recorded(c, true, gp, hp)
    ensures c.block < |c.blocks| && c.blocks[c.block].hp <= c.hp && c.blocks[c.block].gpLo <= c.gp
    ensures Recorded(Noted(c), true, gp, hp)
  {
    hide LookupPoint, Near, Inv, PointAt, EndsIn;
    OpenBlock(c);
    if StartsAt(c, gp, hp) {
      SameStarts(c, Noted(c), gp, hp);
    } else {
      var i: nat, j: nat, k: nat :| Waiting(c, true, gp, hp, i, j, k);
      WaitingAppended(c, Noted(c), Noted(c).offs[|c.offs|], gp, hp, i, j, k);
    }
  }

  lemma WaitingAppended(c: Index, d: Index, u: OffsetUnit, gp: nat, hp: nat, i: nat, j: nat, k: nat)
    requires Waiting(c, true, gp, hp, i, j, k)
    requires d.blocks == c.blocks && d.offs == c.offs + [u] && d.offsetsP == c.offsetsP && d.block == c.block
    requires d.loffp == c.loffp + 1
    ensures Waiting(d, true, gp, hp, i, j, k)
  {
    hide LookupPoint;
    if k != i { LookupSame(c.blocks[k], c.offs, u, gp); }
  }

  lemma RecordedClose(c: Index, gp: nat, hp: nat)
    requires Inv(c, true) && Recorded(c, true, gp, hp)
    ensures c.block < |c.blocks| == |c.spans| && c.blocks[c.block].hp <= c.hp && c.loffp < 256
    ensures Recorded(Close(c), false, gp, hp)
  {
    OpenBlock(c);
    if StartsAt(c, gp, hp) {
      CloseStarts(c, gp, hp);
    } else {
      hide Inv, Waiting, Close;
      var i: nat, j: nat, k: nat :| Waiting(c, true, gp, hp, i, j, k);
      WaitingClose(c, gp, hp, i, j, k);
    }
  }

  lemma WaitingClose(c: Index, gp: nat, hp: nat, i: nat, j: nat, k: nat)
    requires c.block < |c.blocks| == |c.spans| && c.blocks[c.block].hp <= c.hp && c.loffp < 256
    requires Waiting(c, true, gp, hp, i, j, k)
    ensures Waiting(Close(c), false, gp, hp, i, j, k)
  {
    hide LookupPoint;
  }

  /** Starting a block further on. */
  lemma RecordedStart(c: Index, gp: nat, hp: nat)
    requires |c.spans| == |c.blocks| && BlockStart(c).Some? && Recorded(c, false, gp, hp) && c.gp > gp
    ensures Recorded(BlockStart(c).value, true, gp, hp)
  {
    hide LookupPoint, InsertAt, Insert;
    if StartsAt(c, gp, hp) {
      StartElsewhere(c, gp, hp);
    } else {
      var i: nat, j: nat, k: nat :| Waiting(c, false, gp, hp, i, j, k);
      WaitingStart(c, gp, hp, i, j, k);
    }
  }

  lemma WaitingStart(c: Index, gp: nat, hp: nat, i: nat, j: nat, k: nat)
    requires |c.spans| == |c.blocks| && BlockStart(c).Some? && Waiting(c, false, gp, hp, i, j, k) && c.gp > gp
    ensures exists i': nat, j': nat, k': nat :: Waiting(BlockStart(c).value, true, gp, hp, i', j', k')
  {
    hide LookupPoint, InsertAt, Insert;
    var d, n := BlockStart(c).value, InsertAt(c.blocks, c.gp);
    forall m | 0 <= m < |d.blocks|
      ensures d.blocks[m] == if m == n then d.blocks[n] else c.blocks[if m < n then m else m - 1]
    {
      InsertedAt(c.blocks, n, CacheUnit(c.gp, c.hp, 0, 0, 1), m);
    }
    InsertedAt(c.blocks, n, CacheUnit(c.gp, c.hp, 0, 0, 1), n);
    var i', k' := if i < n then i else i + 1, if k < n then k else k + 1;
    assert d.blocks[i'] == c.blocks[i] && d.blocks[k'] == c.blocks[k];
    assert Waiting(d, true, gp, hp, i', j, k');
  }

  lemma RecordedRestart(c: Index, gp: nat, hp: nat)
    requires Inv(c, true) && Restart(c).Some? && Recorded(c, true, gp, hp) && c.gp > gp
    ensures Recorded(Restart(c).value, true, gp, hp)
  {
    hide Recorded, Inv, Close, BlockStart;
    OpenBlock(c);
    RecordedClose(c, gp, hp);
    ClosedCounts(c);
    RecordedStart(Close(c), gp, hp);
  }

  lemma ClosedCounts(c: Index)
    requires c.block < |c.blocks| == |c.spans| && c.blocks[c.block].hp <= c.hp && c.loffp < 256
    ensures |Close(c).spans| == |Close(c).blocks| == |c.blocks| && Close(c).gp == c.gp && Close(c).hp == c.hp
    ensures forall i :: 0 <= i < |c.blocks| ==> Close(c).blocks[i].gpLo == c.blocks[i].gpLo
  {}

  lemma RecordedRecord(c: Index, gp: nat, hp: nat)
    requires Inv(c, true) && Near(c) && Record(c).Some? && Recorded(c, true, gp, hp) && c.gp > gp
    requires forall j :: c.offsetsP <= j < |c.offs| ==> c.blocks[c.block].gpLo + c.offs[j].goff < c.gp
    ensures Recorded(Record(c).value, true, gp, hp)
  {
    OpenBlock(c);
    RecordNotes(c);
    NotedKeeps(c);
    RecordedNoted(c, gp, hp);
    hide Inv, Record, Restart, Recorded;
    if c.loffp + 1 == 255 { RecordedRestart(Noted(c), gp, hp); }
  }

  /** Recording a point, with whatever splits, keeps what was recorded for lower addresses. */
  lemma PointKeepsRecorded(c: Index, gp: nat, hp: nat)
    requires Inv(c, true) && Ready(c) && BlockPoint(c).Some? && Recorded(c, true, gp, hp) && c.gp > gp
    ensures Recorded(BlockPoint(c).value, true, gp, hp)
  {
    hide Recorded;
    PointCases(c);
    if Far(c) {
      RestartKeeps(c);
      RecordedRestart(c, gp, hp);
      RecordedRecord(Restart(c).value, gp, hp);
    } else if c.gp != c.blocks[c.block].gpLo {
      hide BlockPoint;
      RecordedRecord(c, gp, hp);
    }
  }

  // ---------------------------------------------------------------- a new point

  lemma NotedIsRecorded(c: Index)
    requires Inv(c, true) && Near(c) && c.block < |c.blocks| && c.blocks[c.block].gpLo < c.gp && IsLookup(c, c.gp, None)
    ensures c.blocks[c.block].hp <= c.hp && Recorded(Noted(c), true, c.gp, c.hp)
  {
    hide LookupPoint, StartsAt;
    OpenBlock(c);
    hide Inv;
    MissEnds(c, c.gp, c.block);
    var k: nat :| EndsIn(c, k, c.gp) && c.blocks[k].offsets + c.blocks[k].offsetssz <= |c.offs| &&
      LookupPoint(c.blocks[k], c.offs, c.gp) == None;
    var d := Noted(c);
    LookupSame(c.blocks[k], c.offs, d.offs[|c.offs|], c.gp);
    assert Waiting(d, true, c.gp, c.hp, c.block, c.loffp, k);
  }

  lemma MissEnds(c: Index, gp: nat, i: nat)
    requires IsLookup(c, gp, None) && i < |c.blocks| && c.blocks[i].gpLo < gp
    ensures exists k: nat ::
      EndsIn(c, k, gp) && c.blocks[k].offsets + c.blocks[k].offsetssz <= |c.offs| &&
      LookupPoint(c.blocks[k], c.offs, gp) == None
  {
    hide LookupPoint;
    MissIsNoStart(c, gp);
    var k :| 0 <= k < |c.blocks| && c.blocks[k].gpLo < gp &&
      (forall i :: k < i < |c.blocks| ==> c.blocks[i].gpLo > gp) &&
      c.blocks[k].offsets + c.blocks[k].offsetssz <= |c.offs| && None == LookupPoint(c.blocks[k], c.offs, gp);
    assert EndsIn(c, k, gp);
  }

  lemma RestartIsRecorded(c: Index)
    requires Inv(c, true) && Restart(c).Some? && forall i :: 0 <= i < |c.blocks| ==> c.blocks[i].gpLo != c.gp
    ensures StartsAt(Restart(c).value, c.gp, c.hp)
  {
    hide Inv, InsertAt, Insert;
    OpenBlock(c);
    ClosedCounts(c);
    hide Close;
    NewStart(Close(c));
  }

  lemma NewStart(c: Index)
    requires |c.spans| == |c.blocks| && BlockStart(c).Some? &&
      forall i :: 0 <= i < |c.blocks| ==> c.blocks[i].gpLo != c.gp
    ensures StartsAt(BlockStart(c).value, c.gp, c.hp)
  {
    hide InsertAt, Insert;
    var d, n := BlockStart(c).value, InsertAt(c.blocks, c.gp);
    InsertedAt(c.blocks, n, CacheUnit(c.gp, c.hp, 0, 0, 1), n);
    forall m | 0 <= m < |d.blocks| && m != n ensures d.blocks[m].gpLo != c.gp {
      InsertedAt(c.blocks, n, CacheUnit(c.gp, c.hp, 0, 0, 1), m);
    }
  }

  lemma RecordIsRecorded(c: Index)
    requires Inv(c, true) && Near(c) && Record(c).Some? && c.block < |c.blocks| && c.blocks[c.block].gpLo < c.gp
    requires IsLookup(c, c.gp, None)
    requires forall j :: c.offsetsP <= j < |c.offs| ==> c.blocks[c.block].gpLo + c.offs[j].goff < c.gp
    ensures Recorded(Record(c).value, true, c.gp, c.hp)
  {
    OpenBlock(c);
    RecordNotes(c);
    NotedKeeps(c);
    NotedIsRecorded(c);
    MissIsNoStart(c, c.gp);
    hide Inv, Record, Restart, IsLookup, Near, StartsAt;
    if c.loffp + 1 == 255 { RestartIsRecorded(Noted(c)); }
  }

  /** After a point, the address and the host index where the recompiler stands belong together in the tables,
      provided the address was not known before or the block has just been started for it. */
  lemma PointIsRecorded(c: Index)
    requires Inv(c, true) && Ready(c) && BlockPoint(c).Some? && c.block < |c.blocks|
    requires if c.gp == c.blocks[c.block].gpLo then StartsAt(c, c.gp, c.hp) else IsLookup(c, c.gp, None)
    ensures Recorded(BlockPoint(c).value, true, c.gp, c.hp)
  {
    PointCases(c);
    if Far(c) {
      hide IsLookup, StartsAt;
      MissIsNoStart(c, c.gp);
      RestartKeeps(c);
      RestartIsRecorded(c);
      StartStays(Restart(c).value, c.gp, c.hp);
    } else if c.gp != c.blocks[c.block].gpLo {
      hide BlockPoint, IsLookup, Recorded;
      RecordIsRecorded(c);
    }
  }

  lemma StartStays(c: Index, gp: nat, hp: nat)
    requires Inv(c, true) && Near(c) && c.loffp == 0 && Record(c).Some? && StartsAt(c, gp, hp)
    ensures StartsAt(Record(c).value, gp, hp)
  {
    OpenBlock(c);
    RecordNotes(c);
    SameStarts(c, Noted(c), gp, hp);
  }

  /** ... and in the log. */
  lemma PointIsMarked(c: Index)
    requires Inv(c, true) && Ready(c) && BlockPoint(c).Some?
    ensures Mark(c.gp, c.hp) in BlockPoint(c).value.log
  {
    PointCases(c);
    if Far(c) {
      RestartKeeps(c);
      RecordMarks(Restart(c).value);
    } else if c.gp != c.blocks[c.block].gpLo {
      hide BlockPoint;
      RecordMarks(c);
    } else {
      OpenBlock(c);
    }
  }

  lemma RecordMarks(c: Index)
    requires Inv(c, true) && Near(c) && Record(c).Some?
    ensures Mark(c.gp, c.hp) in Record(c).value.log
  {
    OpenBlock(c);
    RecordNotes(c);
    hide Inv, Record;
  }

  /** Nothing else is logged. */
  lemma PointLogsOnly(c: Index)
    requires Inv(c, true) && Ready(c) && BlockPoint(c).Some?
    ensures c.log <= BlockPoint(c).value.log <= c.log + {Mark(c.gp, c.hp)}
  {
    PointCases(c);
    if Far(c) {
      RestartKeeps(c);
      RestartLogsOnly(c);
      RecordLogsOnly(Restart(c).value);
    } else if c.gp != c.blocks[c.block].gpLo {
      hide BlockPoint;
      RecordLogsOnly(c);
    }
  }

  lemma RestartLogsOnly(c: Index)
    requires Inv(c, true) && Restart(c).Some?
    ensures c.log <= Restart(c).value.log <= c.log + {Mark(c.gp, c.hp)}
  {
    hide Inv;
    OpenBlock(c);
  }

  lemma RecordLogsOnly(c: Index)
    requires Inv(c, true) && Near(c) && Record(c).Some?
    requires forall j :: c.offsetsP <= j < |c.offs| ==> c.blocks[c.block].gpLo + c.offs[j].goff < c.gp
    ensures c.log <= Record(c).value.log <= c.log + {Mark(c.gp, c.hp)}
  {
    OpenBlock(c);
    RecordNotes(c);
    NotedKeeps(c);
    hide Inv, Record, Restart;
    if c.loffp + 1 == 255 { RestartLogsOnly(Noted(c)); }
  }

  // ---------------------------------------------------------------- overlapping code

  /** A cache with one block, from 0x1001 on with a point at 0x1002, about to compile from 0x1000. */
  function Overlapped(): Index {
    Index([CacheUnit(0x1001, 0, 0, 1, 2)], [2], [OffsetUnit(1, 1)], 1, 2, 100, 0x1000, 2, 0, 0,
          {Mark(0x1001, 0), Mark(0x1002, 1)})
  }

  /** The same after a first instruction of three bytes and one word, and after the block with the next one's
      point is closed. */
  function OverlapOpen(): Index {
    Index([CacheUnit(0x1000, 2, 0, 0, 1), CacheUnit(0x1001, 0, 0, 1, 2)], [0, 2], [OffsetUnit(1, 1)], 1, 2, 100,
          0x1003, 3, 0, 0, {Mark(0x1001, 0), Mark(0x1002, 1), Mark(0x1000, 2)})
  }

  function OverlapClosed(): Index {
    Index([CacheUnit(0x1000, 2, 1, 1, 1), CacheUnit(0x1001, 0, 0, 1, 2)], [1, 2], [OffsetUnit(1, 1), OffsetUnit(1, 3)],
          2, 3, 100, 0x1003, 3, 0, 0, {Mark(0x1001, 0), Mark(0x1002, 1), Mark(0x1000, 2), Mark(0x1003, 3)})
  }

  lemma OverlappedIsFine()
    ensures Inv(Overlapped(), false) && IsLookup(Overlapped(), 0x1000, None)
  {
    hide Tiles;
    var c := Overlapped();
    OverlappedTiles();
    assert c.offs[..1] == c.offs && c.offs[0..1] == c.offs;
  }

  lemma OverlappedTiles()
    ensures Tiles(Overlapped())
  {
    var c := Overlapped();
    forall w: nat | w < 2 ensures Owned(c, w) { assert Owns(c, 0, w); }
  }

  lemma OverlapStarts()
    ensures BlockStart(Overlapped()).Some? && BlockStart(Overlapped()).value.(gp := 0x1003, hp := 3) == OverlapOpen()
  {
    hide Inv;
    assert InsertAt(Overlapped().blocks, 0x1000) == 0;
    hide InsertAt;
    var b := BlockStart(Overlapped()).value;
    assert b.blocks == OverlapOpen().blocks && b.spans == OverlapOpen().spans;
  }

  lemma OverlapGoesOn()
    ensures Inv(OverlapOpen(), true)
  {
    OverlappedIsFine();
    StartKeeps(Overlapped());
    OverlapStarts();
    var b := BlockStart(Overlapped()).value;
    hide BlockOk, Sorted, Tiles, BlockStart, Near;
    SameTiles(b, OverlapOpen());
  }

  lemma OverlapPoint()
    requires Inv(OverlapOpen(), true)
    ensures BlockPoint(OverlapOpen()) == Some(Noted(OverlapOpen()))
  {
    hide Inv, BlockPoint, Record;
    var c := OverlapOpen();
    assert Ready(c) && !Far(c) && Near(c);
    PointCases(c);
    RecordNotes(c);
  }

  lemma OverlapCloses()
    ensures Close(Noted(OverlapOpen())) == OverlapClosed()
  {
    hide Inv;
    var y := Close(Noted(OverlapOpen()));
    assert y.blocks == OverlapClosed().blocks && y.spans == OverlapClosed().spans;
  }

  lemma OverlapMisses()
    ensures var y := OverlapClosed();
      PointAt(y, false, 0, 0, 0x1003, 3) && y.blocks[0].offsets != 0 && IsLookup(y, 0x1003, None)
  {
    var y := OverlapClosed();
    assert y.blocks[1].gpLo < 0x1003 && LookupPoint(y.blocks[1], y.offs, 0x1003) == None;
  }

  /** The next instruction is recorded and never found: the block at 0x1001 starts in between. */
  lemma OverlapHides()
    ensures var s := BlockStart(Overlapped()); s.Some? && var c := s.value.(gp := 0x1003, hp := 3);
      c == OverlapOpen() && Inv(c, true) && BlockPoint(c) == Some(Noted(c)) && var y := Close(Noted(c));
      PointAt(y, false, 0, 0, 0x1003, 3) && |y.blocks| > 0 && y.blocks[0].offsets != 0 && IsLookup(y, 0x1003, None)
  {
    hide *;
    OverlapStarts();
    OverlapGoesOn();
    OverlapPoint();
    OverlapCloses();
    OverlapMisses();
  }
}

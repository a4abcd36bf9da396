/** Whole runs of the compile loop of decode (src/decoder.c): what they leave in the tables and in the host code
    is stated on the guest alone. */
module Runs {
  import opened Bits
  import opened Options
  import opened CacheIndex
  import opened Points
  import opened PatchSlots
  import opened Conditions
  import opened Linker
  import opened Compilation

  // ---------------------------------------------------------------- words and slots

  /** The word at p is the BRK of a slot in use that records u. */
  ghost predicate Stands(c: Code, p: nat, u: PatchUnit) {
    p < |c.words| && IsBrk(c.words[p]) && BrkId(c.words[p]) in Live(c.slots) && Live(c.slots)[BrkId(c.words[p])] == u
  }

  /** Item i of an instruction that ends at guest address next is at p: its word, or the BRK of a slot that records
      the jump's target, counted from the end of the instruction, and type. */
  ghost predicate ItemAt(c: Code, p: nat, next: nat, i: Item) {
    p < |c.words| &&
    match i
    case Plain(w) => c.words[p] == w
    case Jump(t, offset) => Stands(c, p, PatchUnit(U32(next + offset), t))
  }

  lemma EmitItemAt(c: Code, next: nat, i: Item, log: set<Mark>, pending: Option<nat>)
    requires LinkedUp(c, log, pending) && Proper(i) && (i.Jump? ==> |c.slots.jumps| < 0xFFFF)
    ensures Ok(c.slots) && ItemAt(EmitItem(c, next, i), |c.words|, next, i)
    ensures forall p: nat, u :: Stands(c, p, u) ==> Stands(EmitItem(c, next, i), p, u)
  {
    hide IsBrk, BrkId, BrkWord, Live, Issue, Ok, LinkedUp;
    LinkedSlots(c, log, pending);
    match i
    case Plain(w) =>
    case Jump(t, offset) =>
      var u := PatchUnit(U32(next + offset), t);
      IdBound(c.slots, u);
      IssueKeeps(c.slots, u);
      BrkWordMeans(Issue(c.slots, u).id);
  }

  lemma {:induction false} EmitItemsAt(c: Code, next: nat, items: seq<Item>, log: set<Mark>, pending: Option<nat>)
    requires LinkedUp(c, log, pending) && |c.slots.jumps| + Jumps(items) <= 0xFFFF
    requires forall k :: 0 <= k < |items| ==> Proper(items[k])
    ensures Ok(c.slots) && var d := EmitItems(c, next, items);
      |d.words| == |c.words| + |items| &&
      (forall k :: 0 <= k < |items| ==> ItemAt(d, |c.words| + k, next, items[k])) &&
      forall p: nat, u :: Stands(c, p, u) ==> Stands(d, p, u)
  {
    hide LinkedUp, Ok, EmitItem, Proper, Stands;
    LinkedSlots(c, log, pending);
    if items != [] {
      var n := |items| - 1;
      EmitItemsAt(c, next, items[..n], log, pending);
      EmitItemsKeep(c, next, items[..n], log, pending);
      var d := EmitItems(c, next, items[..n]);
      EmitItemAt(d, next, items[n], log, pending);
      EmitItemKeeps(d, next, items[n], log, pending);
      var e := EmitItem(d, next, items[n]);
      forall k | 0 <= k < |items| ensures ItemAt(e, |c.words| + k, next, items[k]) {
        if k < n {
          assert items[k] == items[..n][k];
          assert e.words[|c.words| + k] == e.words[..|d.words|][|c.words| + k];
        }
      }
    }
  }

  lemma UnemitStands(c: Code, n: nat, p: nat, u: PatchUnit)
    requires n <= |c.words| && Stands(c, p, u) && forall q :: |c.words| - n <= q < |c.words| ==> !IsBrk(c.words[q])
    ensures Stands(Unemit(c, n), p, u)
  {
    hide IsBrk, BrkId, Live;
  }

  lemma DirectStands(c: Code, gp: u32, target: nat, p: nat, u: PatchUnit)
    requires Stands(c, p, u)
    ensures Stands(EmitDirect(c, gp, target), p, u)
  {
    hide IsBrk, BrkId, Live, Bits.Or;
  }

  // ---------------------------------------------------------------- one turn

  /** Before a turn the recompiler stands at an address that is new, or for which the block has just been started. */
  ghost predicate AtTurn(x: Index, code: Code, addr: nat, h0: nat, pending: Option<nat>) {
    Building(x, code, addr, h0, pending) && x.gp < TWO32 && x.block < |x.blocks| &&
    if x.gp == x.blocks[x.block].gpLo then StartsAt(x, x.gp, x.hp) else IsLookup(x, x.gp, None)
  }

  /** What the guest says about x.gp, with n words in the open block. */
  function Asked(h0: nat, x: Index, code: Code, o: Guest, n: nat): Compiled
    requires h0 <= |code.words|
  {
    o(x.gp, code.words[h0..], n)
  }

  /** The instruction's items stand behind what is left of the code, and gp is past it. */
  ghost predicate Emits(h0: nat, x: Index, code: Code, o: Guest, n: nat, y: Index, d: Code) {
    h0 + n <= |code.words| && var i := Asked(h0, x, code, o, n);
    i.drop <= |code.words| && y.gp == x.gp + i.len && y.hp == |d.words| &&
    forall k :: 0 <= k < |i.items| ==> ItemAt(d, |code.words| - i.drop + k, x.gp + i.len, i.items[k])
  }

  lemma InstrEmits(h0: nat, x: Index, code: Code, o: Guest, last: bool, y: Index, d: Code, addr: nat,
    pending: Option<nat>)
    requires Pointed(x, code, addr, h0, pending) && x.gp < TWO32 && Sane(o) && InstrTo(h0, x, code, o, last, y, d)
    ensures Building(y, d, addr, h0, pending) && (last || y.gp < TWO32) && x.gp < y.gp
    ensures y == x.(gp := y.gp, hp := y.hp) && x.block < |x.blocks| && h0 <= x.blocks[x.block].hp <= |code.words|
    ensures var n := |code.words| - x.blocks[x.block].hp;
      Emits(h0, x, code, o, n, y, d) && Asked(h0, x, code, o, n).last == last
  {
    hide Sane, Pointed, Building, SaneAt, EmitInstr, ItemAt, LinkedUp, Inv, Emits;
    PointedOpen(x, code, addr, h0, pending);
    var n := |code.words| - x.blocks[x.block].hp;
    var i := Asked(h0, x, code, o, n);
    SaneHere(o, x.gp, code.words[h0..], n);
    InstrBuilds(x, code, i, addr, h0, pending);
    InstrItems(x, code, i, addr, h0, pending);
    EmitsByItems(h0, x, code, o, n, y, d);
  }

  /** The block that the point at x leaves open has n words. */
  ghost predicate InBlock(x: Index, code: Code, n: nat) {
    exists p: Index :: PointTo(x, p) && p.block < |p.blocks| && p.blocks[p.block].hp + n == |code.words|
  }

  lemma EmitsByItems(h0: nat, x: Index, code: Code, o: Guest, n: nat, y: Index, d: Code)
    requires h0 + n <= |code.words| && var i := Asked(h0, x, code, o, n);
      i.drop <= |code.words| && y.gp == x.gp + i.len && y.hp == |d.words| &&
      forall k :: 0 <= k < |i.items| ==> ItemAt(d, |code.words| - i.drop + k, x.gp + i.len, i.items[k])
    ensures Emits(h0, x, code, o, n, y, d)
  {
    hide ItemAt;
  }

  lemma InstrItems(x: Index, code: Code, i: Compiled, addr: nat, h0: nat, pending: Option<nat>)
    requires Pointed(x, code, addr, h0, pending) && x.block < |x.blocks| && h0 <= x.blocks[x.block].hp <= |code.words|
    requires SaneAt(i, x.gp, code.words[h0..], |code.words| - x.blocks[x.block].hp)
    ensures Ok(code.slots) && i.drop <= |code.words| && var d := EmitInstr(code, x.gp + i.len, i);
      forall k :: 0 <= k < |i.items| ==> ItemAt(d, |code.words| - i.drop + k, x.gp + i.len, i.items[k])
  {
    hide Pointed, SaneAt, EmitItems, ItemAt, LinkedUp, Ok, Jumps, Proper, IsBrk, Stands;
    InstrLinked(x, code, i, addr, h0, pending);
    EmitItemsAt(Unemit(code, i.drop), x.gp + i.len, i.items, x.log, pending);
  }

  /** What the rewind leaves is linked up, and there are slots for the jumps. */
  lemma InstrLinked(x: Index, code: Code, i: Compiled, addr: nat, h0: nat, pending: Option<nat>)
    requires Pointed(x, code, addr, h0, pending) && x.block < |x.blocks| && h0 <= x.blocks[x.block].hp <= |code.words|
    requires SaneAt(i, x.gp, code.words[h0..], |code.words| - x.blocks[x.block].hp)
    ensures i.drop <= |code.words| - h0 && LinkedUp(Unemit(code, i.drop), x.log, pending)
    ensures |code.slots.jumps| + Jumps(i.items) <= 0xFFFF && forall k :: 0 <= k < |i.items| ==> Proper(i.items[k])
    ensures forall p :: |code.words| - i.drop <= p < |code.words| ==> !IsBrk(code.words[p])
  {
    hide LinkedUp, StartsAt, Inv, IsBrk, Proper, TablesApart;
    var n := |code.words| - i.drop;
    forall p | n <= p < |code.words| ensures !IsBrk(code.words[p]) { assert code.words[p] == code.words[h0..][p - h0]; }
    UnemitKeeps(code, i.drop, x.log, pending);
  }

  lemma TurnPoint(x: Index, p: Index, code: Code, addr: nat, h0: nat, pending: Option<nat>)
    requires AtTurn(x, code, addr, h0, pending) && PointTo(x, p)
    ensures Pointed(p, code, addr, h0, pending) && p.gp == x.gp && p.hp == x.hp && Recorded(p, true, x.gp, x.hp)
    ensures p.log <= x.log + {Mark(x.gp, x.hp)} && p.block < |p.blocks| && p.blocks[p.block].gpLo <= x.gp
  {
    hide Building, Pointed, BlockPoint, Inv, Ready, IsLookup, StartsAt, Recorded;
    BuildingOpen(x, code, addr, h0, pending);
    PointBuilds(x, code, addr, h0, pending);
    PointKeeps(x);
    PointIsRecorded(x);
    PointLogsOnly(x);
    PointedOpen(p, code, addr, h0, pending);
  }

  /** Advancing: the items are there, the address of the turn is recorded, and gp has moved on. */
  lemma AdvanceMeans(h0: nat, x: Index, code: Code, o: Guest, last: bool, y: Index, d: Code, addr: nat,
    pending: Option<nat>)
    requires AtTurn(x, code, addr, h0, pending) && Sane(o) && AdvanceTo(h0, x, code, o, last, y, d)
    ensures Building(y, d, addr, h0, pending) && (last || y.gp < TWO32) && x.gp < y.gp && Recorded(y, true, x.gp, x.hp)
    ensures y.block < |y.blocks| && y.blocks[y.block].gpLo < y.gp && y.log <= x.log + {Mark(x.gp, x.hp)}
    ensures h0 <= |code.words|
    ensures exists n: nat ::
      Emits(h0, x, code, o, n, y, d) && InBlock(x, code, n) && Asked(h0, x, code, o, n).last == last
  {
    hide AtTurn, Sane, Pointed, Building, PointTo, InstrTo, Recorded, ItemAt;
    var p: Index :| PointTo(x, p) && InstrTo(h0, p, code, o, last, y, d);
    TurnPoint(x, p, code, addr, h0, pending);
    AtTurnBound(x, code, addr, h0, pending);
    InstrEmits(h0, p, code, o, last, y, d, addr, pending);
    RecordedSame(p, y, true, x.gp, x.hp);
    var n := |code.words| - p.blocks[p.block].hp;
    assert Emits(h0, x, code, o, n, y, d) && InBlock(x, code, n);
  }

  lemma AtTurnBound(x: Index, code: Code, addr: nat, h0: nat, pending: Option<nat>)
    requires AtTurn(x, code, addr, h0, pending)
    ensures Building(x, code, addr, h0, pending) && x.gp < TWO32
  {}

  lemma AdvanceKeepsRecorded(h0: nat, x: Index, code: Code, o: Guest, last: bool, y: Index, d: Code, addr: nat,
    pending: Option<nat>, gp: nat, hp: nat)
    requires Building(x, code, addr, h0, pending) && AdvanceTo(h0, x, code, o, last, y, d)
    requires Recorded(x, true, gp, hp) && gp < x.gp
    ensures Recorded(y, true, gp, hp)
  {
    hide Building, BlockPoint, Inv, Ready, Recorded, EmitInstr;
    var p: Index :| PointTo(x, p) && InstrTo(h0, p, code, o, last, y, d);
    BuildingOpen(x, code, addr, h0, pending);
    PointKeepsRecorded(x, gp, hp);
    RecordedSame(p, y, true, gp, hp);
  }

  lemma InstrKeepsStands(x: Index, code: Code, i: Compiled, addr: nat, h0: nat, pending: Option<nat>, q: nat,
    u: PatchUnit)
    requires Pointed(x, code, addr, h0, pending) && x.block < |x.blocks| && h0 <= x.blocks[x.block].hp <= |code.words|
    requires SaneAt(i, x.gp, code.words[h0..], |code.words| - x.blocks[x.block].hp) && Stands(code, q, u)
    ensures Ok(code.slots) && i.drop <= |code.words| && Stands(EmitInstr(code, x.gp + i.len, i), q, u)
  {
    hide Pointed, SaneAt, EmitItems, ItemAt, LinkedUp, Ok, Jumps, Proper, IsBrk, Stands;
    InstrLinked(x, code, i, addr, h0, pending);
    UnemitStands(code, i.drop, q, u);
    EmitItemsAt(Unemit(code, i.drop), x.gp + i.len, i.items, x.log, pending);
  }

  lemma AdvanceKeepsStands(h0: nat, x: Index, code: Code, o: Guest, last: bool, y: Index, d: Code, addr: nat,
    pending: Option<nat>, q: nat, u: PatchUnit)
    requires Building(x, code, addr, h0, pending) && x.gp < TWO32 && Sane(o) && AdvanceTo(h0, x, code, o, last, y, d)
    requires Stands(code, q, u)
    ensures Stands(d, q, u)
  {
    hide Building, Pointed, Sane, SaneAt, BlockPoint, Inv, Ready, Stands, EmitInstr;
    var p: Index :| PointTo(x, p) && InstrTo(h0, p, code, o, last, y, d);
    BuildingOpen(x, code, addr, h0, pending);
    PointBuilds(x, code, addr, h0, pending);
    PointKeeps(x);
    PointedOpen(p, code, addr, h0, pending);
    var n := |code.words| - p.blocks[p.block].hp;
    SaneHere(o, p.gp, code.words[h0..], n);
    InstrKeepsStands(p, code, Asked(h0, p, code, o, n), addr, h0, pending, q, u);
  }

  // ---------------------------------------------------------------- joining compiled code

  /** The last word branches to code that was known for y.gp before the turn at x began. */
  ghost predicate Joins(x: Index, y: Index, d: Code) {
    exists target: nat :: Mark(y.gp, target) in x.log && d.words != [] &&
      PatchWord(JMP, target - (|d.words| - 1)) == Patch(d.words[|d.words| - 1])
  }

  /** Joining from z: the point before the branch changes nothing that is recorded for lower addresses. */
  lemma JoinMeans(z: Index, code: Code, target: nat, y: Index, d: Code, addr: nat, h0: nat, pending: Option<nat>)
    requires Building(z, code, addr, h0, pending) && z.gp < TWO32
    requires IsLookup(z, z.gp, Some(target)) && JoinTo(z, code, target, y, d)
    ensures Ended(y, d, addr, h0, pending) && y.gp == z.gp && Mark(y.gp, target) in z.log && y.hp == |d.words|
    ensures d.words != [] && PatchWord(JMP, target - (|d.words| - 1)) == Patch(d.words[|d.words| - 1])
  {
    hide Building, Pointed, BlockPoint, Inv, Ready, IsLookup, Ended, Bits.Or;
    var p := y.(hp := z.hp);
    BuildingOpen(z, code, addr, h0, pending);
    BuildingWords(z, code, addr, h0, pending);
    PointBuilds(z, code, addr, h0, pending);
    PointKeeps(z);
    PointLogsOnly(z);
    HitsAreLogged(z, true, z.gp, Some(target));
    JoinBuilds(p, code, target, addr, h0, pending);
    assert y == p.(hp := p.hp + 1);
  }

  lemma BuildingWords(x: Index, code: Code, addr: nat, h0: nat, pending: Option<nat>)
    requires Building(x, code, addr, h0, pending)
    ensures x.hp == |code.words|
  {}

  lemma JoinKeepsRecorded(z: Index, code: Code, target: nat, y: Index, d: Code, addr: nat, h0: nat,
    pending: Option<nat>,
    gp: nat, hp: nat)
    requires Building(z, code, addr, h0, pending) && JoinTo(z, code, target, y, d) && Recorded(z, true, gp, hp) &&
      gp < z.gp
    ensures Recorded(y, true, gp, hp)
  {
    hide Building, BlockPoint, Inv, Ready, Recorded, EmitDirect;
    BuildingOpen(z, code, addr, h0, pending);
    PointKeepsRecorded(z, gp, hp);
    RecordedSame(y.(hp := z.hp), y, true, gp, hp);
  }

  // ---------------------------------------------------------------- whole turns and whole runs

  /** How a turn may end: with an instruction that ends the block, with a branch to code known for the next
      address, or in front of a new address. */
  ghost predicate Ends(h0: nat, x: Index, code: Code, o: Guest, n: nat, done: bool, y: Index, d: Code)
    requires h0 <= |code.words|
  {
    if Asked(h0, x, code, o, n).last then done else if done then Joins(x, y, d) else IsLookup(y, y.gp, None)
  }

  /** What a turn has done: the instruction's items are in the code, and it ended as it may. */
  ghost predicate TurnMeans(h0: nat, x: Index, code: Code, o: Guest, done: bool, y: Index, d: Code) {
    exists n: nat ::
      Emits(h0, x, code, o, n, y, d) && InBlock(x, code, n) && Ends(h0, x, code, o, n, done, y, d)
  }

  lemma JoinedEmits(h0: nat, x: Index, code: Code, o: Guest, n: nat, z: Index, e: Code, target: nat, y: Index, d: Code)
    requires Emits(h0, x, code, o, n, z, e) && z.gp < TWO32 && d == EmitDirect(e, z.gp, target)
    requires y.gp == z.gp && y.hp == |d.words|
    ensures Emits(h0, x, code, o, n, y, d)
  {
    hide Stands, Bits.Or;
    var i := Asked(h0, x, code, o, n);
    forall k | 0 <= k < |i.items| ensures ItemAt(d, |code.words| - i.drop + k, x.gp + i.len, i.items[k]) {
      var p := |code.words| - i.drop + k;
      assert ItemAt(e, p, x.gp + i.len, i.items[k]);
      if i.items[k].Jump? {
        DirectStands(e, z.gp, target, p, PatchUnit(U32(x.gp + i.len + i.items[k].offset), i.items[k].t));
      }
    }
  }

  lemma TurnKeeps(h0: nat, x: Index, code: Code, o: Guest, done: bool, y: Index, d: Code, addr: nat,
    pending: Option<nat>)
    requires AtTurn(x, code, addr, h0, pending) && Sane(o) && TurnTo(h0, x, code, o, done, y, d)
    ensures if done then Ended(y, d, addr, h0, pending) else AtTurn(y, d, addr, h0, pending)
    ensures x.gp < y.gp && Recorded(y, true, x.gp, x.hp) && TurnMeans(h0, x, code, o, done, y, d)
  {
    hide AtTurn, Sane, Building, AdvanceTo, Recorded, Emits, InBlock, Asked, IsLookup, JoinTo, Ended, EmitDirect;
    AtTurnBound(x, code, addr, h0, pending);
    if done && AdvanceTo(h0, x, code, o, true, y, d) {
      AdvanceMeans(h0, x, code, o, true, y, d, addr, pending);
      BuildingEnds(y, d, addr, h0, pending);
    } else {
      var z: Index, e: Code :| AdvanceTo(h0, x, code, o, false, z, e) && LookTo(z, e, done, y, d);
      AdvanceMeans(h0, x, code, o, false, z, e, addr, pending);
      var n: nat :| Emits(h0, x, code, o, n, z, e) && InBlock(x, code, n) && !Asked(h0, x, code, o, n).last;
      if done {
        JoinTurn(h0, x, code, o, n, z, e, y, d, addr, pending);
      } else {
        NextTurn(z, e, addr, h0, pending);
      }
    }
  }

  /** The turn that ends in compiled code, from the look behind the instruction on. */
  lemma JoinTurn(h0: nat, x: Index, code: Code, o: Guest, n: nat, z: Index, e: Code, y: Index, d: Code, addr: nat,
    pending: Option<nat>)
    requires Building(z, e, addr, h0, pending) && z.gp < TWO32 && x.gp < z.gp && LookTo(z, e, true, y, d)
    requires Emits(h0, x, code, o, n, z, e) && Recorded(z, true, x.gp, x.hp) && z.log <= x.log + {Mark(x.gp, x.hp)}
    ensures Ended(y, d, addr, h0, pending) && x.gp < y.gp && Recorded(y, true, x.gp, x.hp)
    ensures Emits(h0, x, code, o, n, y, d) && Joins(x, y, d)
  {
    hide Building, Recorded, Emits, IsLookup, JoinTo, Ended, EmitDirect;
    var target: nat :| IsLookup(z, z.gp, Some(target)) && JoinTo(z, e, target, y, d);
    JoinMeans(z, e, target, y, d, addr, h0, pending);
    JoinKeepsRecorded(z, e, target, y, d, addr, h0, pending, x.gp, x.hp);
    JoinDirect(z, e, target, y, d);
    JoinedEmits(h0, x, code, o, n, z, e, target, y, d);
    assert Mark(y.gp, target) in x.log;
  }

  lemma JoinDirect(z: Index, code: Code, target: nat, y: Index, d: Code)
    requires JoinTo(z, code, target, y, d)
    ensures z.gp < TWO32 && d == EmitDirect(code, z.gp, target)
  {}

  lemma NextTurn(z: Index, e: Code, addr: nat, h0: nat, pending: Option<nat>)
    requires Building(z, e, addr, h0, pending) && z.gp < TWO32 && IsLookup(z, z.gp, None)
    requires z.block < |z.blocks| && z.blocks[z.block].gpLo < z.gp
    ensures AtTurn(z, e, addr, h0, pending)
  {}

  lemma TurnKeepsRecorded(h0: nat, x: Index, code: Code, o: Guest, done: bool, y: Index, d: Code, addr: nat,
    pending: Option<nat>, gp: nat, hp: nat)
    requires AtTurn(x, code, addr, h0, pending) && Sane(o) && TurnTo(h0, x, code, o, done, y, d)
    requires Recorded(x, true, gp, hp) && gp < x.gp
    ensures Recorded(y, true, gp, hp)
  {
    hide AtTurn, Sane, Building, AdvanceTo, Recorded, Emits, IsLookup, JoinTo;
    AtTurnBound(x, code, addr, h0, pending);
    if done && AdvanceTo(h0, x, code, o, true, y, d) {
      AdvanceKeepsRecorded(h0, x, code, o, true, y, d, addr, pending, gp, hp);
    } else {
      var z: Index, e: Code :| AdvanceTo(h0, x, code, o, false, z, e) && LookTo(z, e, done, y, d);
      AdvanceMeans(h0, x, code, o, false, z, e, addr, pending);
      AdvanceKeepsRecorded(h0, x, code, o, false, z, e, addr, pending, gp, hp);
      if done {
        var target: nat :| IsLookup(z, z.gp, Some(target)) && JoinTo(z, e, target, y, d);
        JoinKeepsRecorded(z, e, target, y, d, addr, h0, pending, gp, hp);
      }
    }
  }

  lemma TurnKeepsStands(h0: nat, x: Index, code: Code, o: Guest, done: bool, y: Index, d: Code, addr: nat,
    pending: Option<nat>, q: nat, u: PatchUnit)
    requires AtTurn(x, code, addr, h0, pending) && Sane(o) && TurnTo(h0, x, code, o, done, y, d) && Stands(code, q, u)
    ensures Stands(d, q, u)
  {
    hide AtTurn, Sane, Building, AdvanceTo, IsLookup, JoinTo, Stands;
    AtTurnBound(x, code, addr, h0, pending);
    if done && AdvanceTo(h0, x, code, o, true, y, d) {
      AdvanceKeepsStands(h0, x, code, o, true, y, d, addr, pending, q, u);
    } else {
      var z: Index, e: Code :| AdvanceTo(h0, x, code, o, false, z, e) && LookTo(z, e, done, y, d);
      AdvanceKeepsStands(h0, x, code, o, false, z, e, addr, pending, q, u);
      if done {
        var target: nat :| IsLookup(z, z.gp, Some(target)) && JoinTo(z, e, target, y, d);
        JoinDirect(z, e, target, y, d);
        DirectStands(e, z.gp, target, q, u);
      }
    }
  }

  /** What holds after n turns of a run: every turn did what the guest says, every address so far is recorded at
      the host index where its turn began, and every jump so far still stands. */
  ghost predicate RunHolds(h0: nat, run: seq<(Index, Code)>, o: Guest, done: bool, n: nat)
    requires n < |run|
  {
    forall k :: 0 <= k < n ==> TurnHolds(h0, run, o, done, n, k)
  }

  ghost predicate TurnHolds(h0: nat, run: seq<(Index, Code)>, o: Guest, done: bool, n: nat, k: nat)
    requires k < n < |run|
  {
    var x, c, y, d := run[k].0, run[k].1, run[n].0, run[n].1;
    TurnMeans(h0, x, c, o, done && k == |run| - 2, run[k + 1].0, run[k + 1].1) &&
    x.gp < y.gp && Recorded(y, true, x.gp, x.hp) && forall p: nat, u :: Stands(run[k + 1].1, p, u) ==> Stands(d, p, u)
  }

  lemma {:induction false} RunMeans(h0: nat, run: seq<(Index, Code)>, o: Guest, done: bool, addr: nat,
    pending: Option<nat>,
    n: nat)
    requires IsRun(h0, run, o, done) && AtTurn(run[0].0, run[0].1, addr, h0, pending) && Sane(o) && n < |run|
    ensures RunHolds(h0, run, o, done, n)
    ensures if done && 0 < n == |run| - 1 then Ended(run[n].0, run[n].1, addr, h0, pending)
            else AtTurn(run[n].0, run[n].1, addr, h0, pending)
  {
    hide AtTurn, Sane, TurnTo, Ended, TurnMeans, Recorded, Stands;
    if n > 0 {
      RunMeans(h0, run, o, done, addr, pending, n - 1);
      var x, c, y, d := run[n - 1].0, run[n - 1].1, run[n].0, run[n].1;
      var last := done && n == |run| - 1;
      TurnKeeps(h0, x, c, o, last, y, d, addr, pending);
      forall k | 0 <= k < n ensures TurnHolds(h0, run, o, done, n, k) {
        if k < n - 1 {
          assert TurnHolds(h0, run, o, done, n - 1, k);
          TurnKeepsRecorded(h0, x, c, o, last, y, d, addr, pending, run[k].0.gp, run[k].0.hp);
          forall p: nat, u | Stands(run[k + 1].1, p, u) ensures Stands(d, p, u) {
            TurnKeepsStands(h0, x, c, o, last, y, d, addr, pending, p, u);
          }
        }
      }
    }
  }

  // ---------------------------------------------------------------- what a compilation achieves

  /** Turn k of a whole compilation, seen from the cache y and the code d that it leaves behind. */
  ghost predicate Achieved(h0: nat, run: seq<(Index, Code)>, o: Guest, k: nat, y: Index, d: Code)
    requires k + 1 < |run|
  {
    TurnMeans(h0, run[k].0, run[k].1, o, k == |run| - 2, run[k + 1].0, run[k + 1].1) && run[k].0.gp < run[k + 1].0.gp &&
    Recorded(y, false, run[k].0.gp, run[k].0.hp) && forall p: nat, u :: Stands(run[k + 1].1, p, u) ==> Stands(d, p, u)
  }

  /** The compilation began at addr and host index h0, and every turn achieved what it should. */
  ghost predicate Achieves(h0: nat, addr: nat, run: seq<(Index, Code)>, o: Guest, y: Index, d: Code) {
    |run| >= 2 && run[0].0.gp == addr && run[0].0.hp == h0 &&
    forall k: nat :: k + 1 < |run| ==> Achieved(h0, run, o, k, y, d)
  }

  lemma FirstTurn(x: Index, code: Code, addr: nat, h0: nat, pending: Option<nat>)
    requires Building(x, code, addr, h0, pending) && x.gp == addr < TWO32 && x.hp == h0
    ensures AtTurn(x, code, addr, h0, pending)
  {
    hide LinkedUp, StartsAt, Inv;
    OpenBlock(x);
  }

  /** Over every run from the start of a block to its end: all addresses of the run stay known at their host
      index, every jump stands with its target and type until it is taken, and the block ends as it may. */
  lemma RunAchieves(h0: nat, addr: nat, run: seq<(Index, Code)>, o: Guest, pending: Option<nat>, y: Index)
    requires IsRun(h0, run, o, true) && |run| >= 2 && Sane(o) && Building(run[0].0, run[0].1, addr, h0, pending)
    requires run[0].0.gp == addr < TWO32 && run[0].0.hp == h0 && CloseTo(run[|run| - 1].0, y)
    ensures Achieves(h0, addr, run, o, y, run[|run| - 1].1)
  {
    hide Sane, Building, TurnTo, TurnMeans, Recorded, Stands, Ended, AtTurn, IsRun;
    FirstTurn(run[0].0, run[0].1, addr, h0, pending);
    var n := |run| - 1;
    RunMeans(h0, run, o, true, addr, pending, n);
    EndedOpen(run[n].0, run[n].1, addr, h0, pending);
    forall k: nat | k + 1 < |run| ensures Achieved(h0, run, o, k, y, run[n].1) {
      assert TurnHolds(h0, run, o, true, n, k);
      ClosedRecords(run[n].0, y, run[k].0.gp, run[k].0.hp);
      TurnAdvances(h0, run, o, k, addr, pending);
    }
  }

  lemma TurnAdvances(h0: nat, run: seq<(Index, Code)>, o: Guest, k: nat, addr: nat, pending: Option<nat>)
    requires IsRun(h0, run, o, true) && AtTurn(run[0].0, run[0].1, addr, h0, pending) && Sane(o) && k + 1 < |run|
    ensures run[k].0.gp < run[k + 1].0.gp
  {
    hide Sane, AtTurn, TurnTo, TurnMeans, Recorded, Stands, Ended;
    RunMeans(h0, run, o, true, addr, pending, k + 1);
    assert TurnHolds(h0, run, o, true, k + 1, k);
  }

  lemma EndedOpen(x: Index, code: Code, addr: nat, h0: nat, pending: Option<nat>)
    requires Ended(x, code, addr, h0, pending)
    ensures Inv(x, true)
  {}

  lemma ClosedRecords(x: Index, y: Index, gp: nat, hp: nat)
    requires Inv(x, true) && CloseTo(x, y) && Recorded(x, true, gp, hp)
    ensures Recorded(y, false, gp, hp)
  {
    hide Inv, Recorded, Close;
    RecordedClose(x, gp, hp);
    RecordedSame(Close(x), y, false, gp, hp);
  }
}

/** The trap at an unresolved jump: brk_handler of src/patcher.c. */
module Patcher {
  import opened Bits
  import opened Options
  import opened Arm64
  import opened Words
  import opened Addressing
  import opened Conditions
  import opened CacheIndex
  import opened PatchSlots
  import opened Linker
  import opened Compilation
  import opened CompileContext
  import opened TranslationCache
  import opened Recompiler

  datatype Handled = Resolved | DebugTrap | Panicked

  function TrapId(w: nat): nat { (w / 0x20) % 0x1_0000 }

  /** The id that the handler reads is the immediate of the BRK. */
  lemma IdRead(w: nat)
    requires IsBrk(w)
    ensures BrkId(w) == TrapId(w)
  {
    BrkFields(w);
    hide IsBrk, BrkId;
    var mid := (w / 0x400) % 0x1000;
    assert w / 0x20 == (w / 0x400) * 0x20 + (w / 0x20) % 0x20;
    assert w / 0x400 == (w / 0x40_0000) * 0x1000 + mid;
  }

  lemma BrkFields(w: nat)
    requires IsBrk(w)
    ensures w / 0x40_0000 == 0x350 && ((w / 0x400) % 0x1000) / 0x800 == 1
    ensures BrkId(w) == ((w / 0x400) % 0x1000 % 0x800) * 0x20 + (w / 0x20) % 0x20
  {}

  /** A BRK in linked code has a slot in use, so it is never the debugger's BRK #0. */
  lemma TrapOpens(x: Index, code: Code, p: nat)
    requires Linked(x, code, None) && p < |code.words| && IsBrk(code.words[p])
    ensures Ok(code.slots) && p !in code.fixed
    ensures var id := TrapId(code.words[p]);
      id == BrkId(code.words[p]) && 0 < id <= |code.slots.jumps| && InUse(code.slots, id) &&
      Patchable(code.slots.jumps[id - 1].t)
  {
    hide Arm64.Decode, IsBrk, BrkId, Inv, PatchWord;
    assert Site(code, p, None);
    IdRead(code.words[p]);
    assert BrkId(code.words[p]) in Live(code.slots);
    if p in code.fixed { FixedIsNoBrk(code, x.log, p); }
  }

  lemma FixedIsNoBrk(code: Code, log: set<Mark>, p: nat)
    requires p in code.fixed && FixedRight(code, log, p)
    ensures !IsBrk(code.words[p])
  {
    hide Arm64.Decode, IsBrk;
    var f := code.fixed[p];
    assert Patchable(f.u.t);
    PatchedWordsAreNotBrk(f.u.t, f.offset);
  }

  /** Releasing the slot. */
  lemma TrapBegins(x: Index, code: Code, p: nat, s: Slots)
    requires Linked(x, code, None) && p < |code.words| && IsBrk(code.words[p])
    requires TrapId(code.words[p]) > 0 && Release(code.slots, TrapId(code.words[p])) == Some(s)
    ensures Linked(x, code.(slots := s), Some(p))
  {
    hide Arm64.Decode, IsBrk, BrkId, Inv, PatchWord, LinkedUp, Live;
    TrapOpens(x, code, p);
    BeginTrapKeeps(code, p, x.log);
  }

  lemma TrapEnds(x: Index, code: Code, p: nat, u: PatchUnit, target: nat)
    requires Linked(x, code, Some(p)) && Patchable(u.t) && Mark(u.guestOff, target) in x.log
    ensures p < |code.words| && Linked(x, FinishTrap(code, p, u, target), None) && PatchWord(u.t, target - p).Patch?
  {
    hide Arm64.Decode, IsBrk, BrkId, Inv, PatchWord;
    FinishTrapKeeps(code, p, u, target, x.log);
    PatchedWordsAreNotBrk(u.t, target - p);
  }

  /** cache_search and, on a miss, decode at the free host index: what brk_handler and segv_handler
      do for guest address gp. */
  method Resolve(a: Anchor, c: Context, gp: nat, o: Guest, ghost pending: Option<nat>) returns (ok: bool, target: nat)
    requires Settled(a, pending) && c.host == a.host && Sane(o) && gp < TWO32
    modifies a, a.blocks, a.offsets, a.host, a.jumps, c
    ensures ok || a.Full(c)
    ensures ok ==> Settled(a, pending) && Kept(a, old(a.hostP)) && old(a.hostP) <= a.hostP
    ensures ok ==> IsLookup(a.Idle(), gp, Some(target)) && Mark(gp, target) in a.log
  {
    hide Linked, IsLookup, StartsAt, Sane;
    LinkedBounds(a.Idle(), a.CodeAt(a.hostP), pending);
    ok := true;
    var block := a.Search(gp, a.Idle(), false);
    if block.Some? {
      target := block.value;
    } else {
      target := a.hostP;
      ghost var run;
      ok, run := Recompiler.Decode(a, c, gp, o, pending);
      if !ok { return; }
      StartLooksUp(a.Idle(), gp, target);
    }
    LinkedBounds(a.Idle(), a.CodeAt(a.hostP), pending);
    HitsAreLogged(a.Idle(), false, gp, Some(target));
  }

  lemma StartLooksUp(x: Index, gp: nat, h: nat)
    requires StartsAt(x, gp, h)
    ensures IsLookup(x, gp, Some(h))
  {}

  /** The record of the slot that the BRK at p names. */
  ghost function RecordAt(a: Anchor, p: nat): PatchUnit
    requires a.Valid() && p < a.host.Length && 0 < TrapId(a.host[p]) <= a.jumpsP
    reads a, a.host, a.jumps
  {
    a.jumps[TrapId(a.host[p]) - 1]
  }

  /** The site at p is resolved, for the record u, to the host index now found for u's target; every other
      word of the code before and every other resolved site stays. */
  twostate predicate Redirects(a: Anchor, p: nat, u: PatchUnit)
    reads a, a.host, a.jumps, a.blocks, a.offsets
  {
    a.Valid() && p < old(a.hostP) <= a.hostP <= a.host.Length && old(a.log) <= a.log &&
    a.host[..old(a.hostP)] == old(a.host[..a.hostP])[p := a.host[p]] &&
    p in a.fixed && a.fixed[p].u == u && PatchWord(u.t, a.fixed[p].offset) == Patch(a.host[p]) &&
    (forall q :: q in old(a.fixed) && q != p ==> q in a.fixed && a.fixed[q] == old(a.fixed)[q]) &&
    p + a.fixed[p].offset >= 0 && IsLookup(a.Idle(), u.guestOff, Some(p + a.fixed[p].offset))
  }

  /** The last step: the branch over the BRK. */
  method WriteBranch(a: Anchor, p: nat, u: PatchUnit, target: nat)
    requires Settled(a, Some(p)) && Patchable(u.t) && Mark(u.guestOff, target) in a.log
    modifies a`fixed, a.host
    ensures Settled(a, None) && p < a.hostP && a.host[..a.hostP] == old(a.host[..a.hostP])[p := a.host[p]]
    ensures a.fixed == old(a.fixed)[p := Fix(u, target - p)] && PatchWord(u.t, target - p) == Patch(a.host[p])
  {
    hide Linked, PatchWord;
    TrapEnds(a.Idle(), a.CodeAt(a.hostP), p, u, target);
    ghost var x, code := a.Idle(), a.CodeAt(a.hostP);
    var w := PatchWord(u.t, target - p).w;
    a.host[p] := w;
    a.fixed := a.fixed[p := Fix(u, target - p)];
    assert a.Idle() == x && a.CodeAt(a.hostP) == FinishTrap(code, p, u, target);
  }

  /** The first step: taking the record, which frees the slot. */
  method TakeRecord(a: Anchor, p: nat, id: nat) returns (ok: bool, u: PatchUnit)
    requires Settled(a, None) && p < a.hostP && IsBrk(a.host[p]) && id == TrapId(a.host[p])
    modifies a`jumpsReuseP, a.jumpsReuse
    ensures 0 < id <= a.jumpsP && u == a.jumps[id - 1] && Patchable(u.t)
    ensures if ok then Settled(a, Some(p)) && a.Idle() == old(a.Idle()) else a.jumpsReuseP == MAX_JUMPS
  {
    hide IsBrk, Linked, TrapId, Release, InUse;
    ghost var code, x := a.CodeAt(a.hostP), a.Idle();
    TrapOpens(x, code, p);
    ok, u := a.GetPatch(id);
    if ok {
      TrapBegins(x, code, p, a.Slots());
      assert a.Idle() == x && a.CodeAt(a.hostP) == code.(slots := a.Slots());
    }
  }

  /** The steps after it: finding or compiling the target, and the branch. */
  method Redirect(a: Anchor, c: Context, p: nat, u: PatchUnit, o: Guest) returns (ok: bool)
    requires Settled(a, Some(p)) && p < a.hostP && c.host == a.host && Sane(o) && Patchable(u.t)
    modifies a, a.blocks, a.offsets, a.host, a.jumps, c
    ensures ok || a.Full(c)
    ensures ok ==> Settled(a, None) && Redirects(a, p, u) && (a.jumps == old(a.jumps) || fresh(a.jumps))
  {
    hide Linked, IsLookup, Sane, PatchWord;
    var target;
    ok, target := Resolve(a, c, u.guestOff, o, Some(p));
    if !ok { return; }
    ghost var x := a.Idle();
    WriteBranch(a, p, u, target);
    assert a.Idle() == x;
  }

  /** brk_handler for the trap at host index p. */
  method BrkHandler(a: Anchor, c: Context, p: nat, o: Guest) returns (r: Handled)
    requires Settled(a, None) && c.host == a.host && p < a.hostP && IsBrk(a.host[p]) && Sane(o)
    modifies a, a.blocks, a.offsets, a.host, a.jumps, a.jumpsReuse, c
    ensures r != DebugTrap && (r == Panicked ==> a.Full(c) || a.jumpsReuseP == MAX_JUMPS)
    ensures r == Resolved ==>
      Settled(a, None) && 0 < TrapId(old(a.host[p])) <= old(a.jumpsP) &&
      Redirects(a, p, old(RecordAt(a, p)))
    ensures r == Resolved ==> a.jumps == old(a.jumps) || fresh(a.jumps)
  {
    hide IsBrk, Linked, Sane, TrapId, IsLookup, PatchWord;
    TrapOpens(a.Idle(), a.CodeAt(a.hostP), p);
    var id := TrapId(a.host[p]);
    if id == 0 { return DebugTrap; }
    var ok, u := TakeRecord(a, p, id);
    if !ok { return Panicked; }
    ok := Redirect(a, c, p, u, o);
    r := if ok then Resolved else Panicked;
  }

  /** What can happen between two instructions of the host program. */
  datatype Event = ClearCache | EnterGuest(gp: u32) | Trap(p: nat)

  /** Over any run of clears, entries and traps, the cache stays linked up, or a table is full. */
  method Session(a: Anchor, c: Context, events: seq<Event>, o: Guest) returns (ok: bool)
    requires Settled(a, None) && c.host == a.host && Sane(o)
    modifies a, a.blocks, a.offsets, a.host, a.jumps, a.jumpsReuse, c
    ensures if ok then Settled(a, None) else a.Full(c) || a.jumpsReuseP == MAX_JUMPS
  {
    hide Linked, Sane, IsLookup, IsBrk, Redirects;
    var k := 0;
    while k < |events|
      invariant k <= |events| && Settled(a, None) && (a.jumps == old(a.jumps) || fresh(a.jumps))
    {
      match events[k] {
        case ClearCache =>
          a.Clear();
        case EnterGuest(gp) =>
          var target;
          ok, target := Resolve(a, c, gp, o, None);
          if !ok { return; }
        case Trap(p) =>
          if p < a.hostP && IsBrk(a.host[p]) {
            var r := BrkHandler(a, c, p, o);
            if r != Resolved { return false; }
          }
      }
      k := k + 1;
    }
    ok := true;
  }

  // ---------------------------------------------------------------- taking a resolved branch

  /** Offsets in words that the branch for type t can hold. */
  predicate InReach(t: int, offset: int) {
    if PatchedJump(t) then -0x4_0000 <= offset < 0x4_0000 else -0x200_0000 <= offset < 0x200_0000
  }

  predicate Taken(t: int, f: Flags) { PatchedJump(t) ==> CondHolds(HostCondition(t), f) }

  lemma JumpReach(offset: int, pc: u64)
    requires -0x1000_0000 <= offset < 0x1000_0000
    ensures U64(pc + 4 * SignExt(offset % 0x400_0000, 0x200_0000)) == U64(pc + 4 * offset)
      <==> -0x200_0000 <= offset < 0x200_0000
  {
    var field := SignExt(offset % 0x400_0000, 0x200_0000);
    assert (field - offset) % 0x400_0000 == 0;
    SameResidue(pc + 4 * offset, 4 * (field - offset));
  }

  lemma BranchStep(t: int, offset: int, s: State)
    requires Patchable(t) && -0x1000_0000 <= offset < 0x1000_0000
    ensures var p := PatchWord(t, offset);
      p.Patch? && var r := Step(p.w, s);
      r.Next? && r.s == (if t == CALL then SetX(s, 30, U64(s.pc + 4)) else s).(pc := r.s.pc) &&
      if Taken(t, s.f) then r.s.pc == U64(s.pc + 4 * offset) <==> InReach(t, offset) else r.s.pc == U64(s.pc + 4)
  {
    hide Bits.Or, Arm64.Decode, SignExt, HostCondition, CondHolds;
    BranchReach(offset, s.pc);
    JumpReach(offset, s.pc);
    if PatchedJump(t) { PatchedJumpDecodes(t, offset); } else { JumpDecodes(t == CALL, offset); }
  }

  /** A resolved site, executed where it stands, goes to the host code logged for the guest target that
      its slot recorded: always when the offset fits its field, and never when it does not. */
  lemma ResolvedSiteLands(code: Code, log: set<Mark>, p: nat, base: u64, s: State)
    requires LinkedUp(code, log, None) && p in code.fixed && s.pc == U64(base + 4 * p)
    requires -0x1000_0000 <= code.fixed[p].offset < 0x1000_0000 && Taken(code.fixed[p].u.t, s.f)
    ensures p < |code.words| && var f, r := code.fixed[p], Step(code.words[p], s);
      Mark(f.u.guestOff, p + f.offset) in log && p + f.offset >= 0 && r.Next? &&
      (r.s.pc == U64(base + 4 * (p + f.offset)) <==> InReach(f.u.t, f.offset))
  {
    hide *;
    FixedHere(code, log, p);
    var f := code.fixed[p];
    PatchedTypes(f.u.t, f.offset);
    BranchLands(f.u.t, f.offset, code.words[p], s);
    SiteAddress(base, p, f.offset);
  }

  lemma BranchLands(t: int, offset: int, w: nat, s: State)
    requires Patchable(t) && -0x1000_0000 <= offset < 0x1000_0000 && Taken(t, s.f) && PatchWord(t, offset) == Patch(w)
    ensures Step(w, s).Next? && (Step(w, s).s.pc == U64(s.pc + 4 * offset) <==> InReach(t, offset))
  {
    hide *;
    BranchStep(t, offset, s);
  }

  lemma SiteAddress(base: u64, p: nat, offset: int)
    ensures U64(U64(base + 4 * p) + 4 * offset) == U64(base + 4 * (p + offset))
  {
    Wraps(base + 4 * p, 4 * offset);
  }

  lemma FixedHere(code: Code, log: set<Mark>, p: nat)
    requires LinkedUp(code, log, None) && p in code.fixed
    ensures var f := code.fixed[p];
      p < |code.words| && PatchWord(f.u.t, f.offset) == Patch(code.words[p]) && p + f.offset >= 0 &&
      Mark(f.u.guestOff, p + f.offset) in log
  {
    hide PatchWord, Ok, Live, IsBrk, BrkId;
    assert FixedRight(code, log, p);
  }

  lemma PatchedTypes(t: int, offset: int)
    requires PatchWord(t, offset).Patch?
    ensures Patchable(t)
  {}
}

/** Patch slots: cache_patch_point, cache_get_patch and my_realloc of src/cache.c.  A slot is issued
    for every unresolved jump and released when the jump traps. */
module PatchSlots {
  import opened Bits
  import opened Options

  const MAX_JUMPS: nat := 256

  datatype PatchUnit = PatchUnit(guestOff: u32, t: int)

  /** jumps is the used part of the slot array, capacity its size, free the stack of released slots. */
  datatype Slots = Slots(jumps: seq<PatchUnit>, capacity: nat, free: seq<nat>)

  const EMPTY := Slots([], MAX_JUMPS, [])

  datatype Issued = Issued(slots: Slots, id: nat)

  /** cache_patch_point: the last released slot, or a new one; ids are one above slots. */
  function Issue(s: Slots, u: PatchUnit): Issued
    requires forall k :: 0 <= k < |s.free| ==> s.free[k] < |s.jumps|
  {
    if s.free != [] then
      var slot := s.free[|s.free| - 1];
      Issued(s.(free := s.free[..|s.free| - 1], jumps := s.jumps[slot := u]), slot + 1)
    else
      var n := |s.jumps| + 1;
      Issued(s.(jumps := s.jumps + [u], capacity := if n >= s.capacity then 2 * s.capacity else s.capacity), n)
  }

  /** cache_get_patch: the slot goes back on the stack; a full stack is a panic. */
  function Release(s: Slots, id: nat): Option<Slots>
    requires id > 0
  {
    if |s.free| + 1 == MAX_JUMPS then None else Some(s.(free := s.free + [id - 1]))
  }

  ghost predicate Ok(s: Slots) {
    |s.jumps| < s.capacity && |s.free| < MAX_JUMPS &&
    (forall k :: 0 <= k < |s.free| ==> s.free[k] < |s.jumps|) &&
    forall j, k :: 0 <= j < k < |s.free| ==> s.free[j] != s.free[k]
  }

  predicate InUse(s: Slots, id: nat) {
    1 <= id <= |s.jumps| && id - 1 !in s.free
  }

  /** The records of the slots in use, by id. */
  ghost function Live(s: Slots): map<nat, PatchUnit> {
    map id: nat | id <= |s.jumps| && InUse(s, id) :: s.jumps[id - 1]
  }

  lemma IssueUses(s: Slots, u: PatchUnit, i: nat)
    requires Ok(s)
    ensures var r := Issue(s, u);
      !InUse(s, r.id) && (InUse(r.slots, i) <==> InUse(s, i) || i == r.id) &&
      (InUse(r.slots, i) ==> r.slots.jumps[i - 1] == if i == r.id then u else s.jumps[i - 1])
  {
    var r, n := Issue(s, u), |s.free|;
    if s.free != [] {
      assert s.free == r.slots.free + [s.free[n - 1]];
      assert s.free[n - 1] !in r.slots.free;
    }
  }

  /** An issued id is new, and is the only change to the live records, across growth too. */
  lemma IssueKeeps(s: Slots, u: PatchUnit)
    requires Ok(s)
    ensures var r := Issue(s, u);
      Ok(r.slots) && r.id > 0 && r.id !in Live(s) && Live(r.slots) == Live(s)[r.id := u]
  {
    hide InUse;
    var r := Issue(s, u);
    forall i: nat
      ensures !InUse(s, r.id) && (InUse(r.slots, i) <==> InUse(s, i) || i == r.id) &&
        (InUse(r.slots, i) ==>
          1 <= i <= |r.slots.jumps| && r.slots.jumps[i - 1] == if i == r.id then u else s.jumps[i - 1])
    {
      IssueUses(s, u, i);
      UseBounds(r.slots, i);
      UseBounds(s, i);
    }
  }

  lemma UseBounds(s: Slots, i: nat)
    ensures InUse(s, i) ==> 1 <= i <= |s.jumps|
  {}

  /** Releasing a live id is exactly its removal; it can be issued again from then on. */
  lemma ReleaseKeeps(s: Slots, id: nat)
    requires Ok(s) && id in Live(s) && Release(s, id).Some?
    ensures var r := Release(s, id).value; Ok(r) && Live(r) == Live(s) - {id}
  {
    var r := Release(s, id).value;
    forall i: nat ensures i in Live(r) <==> i in Live(s) && i != id {}
  }

  datatype SlotOp = IssueOp(u: PatchUnit) | ReleaseOp(id: nat)

  /** The slots after a run of operations, or None after a panic; releases of dead ids are skipped. */
  ghost function After(ops: seq<SlotOp>): Option<Slots>
    ensures After(ops).Some? ==> Ok(After(ops).value)
  {
    if ops == [] then Some(EMPTY)
    else
      var before, op := After(ops[..|ops| - 1]), ops[|ops| - 1];
      if before.None? then None
      else
        match op
        case IssueOp(u) =>
          IssueKeeps(before.value, u);
          Some(Issue(before.value, u).slots)
        case ReleaseOp(id) =>
          if id in Live(before.value) then
            if Release(before.value, id).Some? then ReleaseKeeps(before.value, id); Release(before.value, id) else None
          else before
  }

  /** A dictionary that hands out some unused key: what the slots implement. */
  ghost predicate Implements(live: map<nat, PatchUnit>, ops: seq<SlotOp>)
    decreases |ops|
  {
    if ops == [] then live == map[]
    else
      var n := |ops| - 1;
      match ops[n]
      case IssueOp(u) => exists id: nat, before: map<nat, PatchUnit> {:trigger before[id := u]} ::
        id > 0 && id !in before && live == before[id := u] && Implements(before, ops[..n])
      case ReleaseOp(id) => exists before: map<nat, PatchUnit> :: live == before - {id} && Implements(before, ops[..n])
  }

  /** Over any interleaving of issues and releases the slots behave as that dictionary. */
  lemma {:induction false} RunsImplement(ops: seq<SlotOp>)
    requires After(ops).Some?
    ensures Implements(Live(After(ops).value), ops)
    decreases |ops|
  {
    if ops == [] {
      assert Live(EMPTY) == map[];
    } else {
      var n := |ops| - 1;
      RunsImplement(ops[..n]);
      var s := After(ops[..n]).value;
      var before := Live(s);
      match ops[n]
      case IssueOp(u) =>
        IssueKeeps(s, u);
        var id := Issue(s, u).id;
        assert Live(After(ops).value) == before[id := u];
      case ReleaseOp(id) =>
        if id in before { ReleaseKeeps(s, id); }
        assert Live(After(ops).value) == before - {id};
    }
  }
}

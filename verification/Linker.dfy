/** Lazy linking: the host code, the BRK words standing for unresolved jumps, and the patch slots
    (emit_branch and the Jcc case of src/encoder.c, brk_handler of src/patcher.c). */
module Linker {
  import opened Bits
  import opened Options
  import opened Arm64
  import opened Emitter
  import opened Words
  import opened Conditions
  import opened CacheIndex
  import opened PatchSlots

  /** The word for an unresolved jump: BRK #id. */
  function BrkWord(id: nat): nat { Or(BRK, id * 0x20) }

  predicate IsBrk(w: nat) { Decode(w).Brk? }

  function BrkId(w: nat): nat
    requires IsBrk(w)
  {
    Decode(w).imm
  }

  /** The jump types that get a slot. */
  predicate Patchable(t: int) { PatchedJump(t) || t == JMP || t == CALL }

  /** A resolved site: what its slot recorded, and how many words away its target is. */
  datatype Fix = Fix(u: PatchUnit, offset: int)

  /** Host words 0..hp-1, the slots, and the sites resolved so far. */
  datatype Code = Code(words: seq<nat>, slots: Slots, fixed: map<nat, Fix>)

  /** p is the site of an unresolved jump other than the one being handled. */
  ghost predicate Site(c: Code, p: nat, pending: Option<nat>) {
    p < |c.words| && IsBrk(c.words[p]) && pending != Some(p)
  }

  ghost predicate Sited(c: Code, id: nat, pending: Option<nat>) {
    exists p: nat :: Site(c, p, pending) && BrkId(c.words[p]) == id
  }

  /** Unresolved sites and live slots correspond one to one, and every resolved site holds the branch
      for its recorded type to a host index logged for its recorded guest target. */
  ghost predicate LinkedUp(c: Code, log: set<Mark>, pending: Option<nat>) {
    Ok(c.slots) && (pending.Some? ==> pending.value < |c.words| && pending.value !in c.fixed) &&
    (forall id :: id in Live(c.slots) ==> Patchable(Live(c.slots)[id].t)) &&
    (forall p: nat :: Site(c, p, pending) ==> BrkId(c.words[p]) in Live(c.slots)) &&
    (forall p: nat, q: nat :: Site(c, p, pending) && Site(c, q, pending) && p != q ==>
      BrkId(c.words[p]) != BrkId(c.words[q])) &&
    (forall id :: id in Live(c.slots) ==> Sited(c, id, pending)) &&
    (forall p :: p in c.fixed ==> FixedRight(c, log, p))
  }

  ghost predicate FixedRight(c: Code, log: set<Mark>, p: nat)
    requires p in c.fixed
  {
    var f := c.fixed[p];
    p < |c.words| && PatchWord(f.u.t, f.offset) == Patch(c.words[p]) &&
    p + f.offset >= 0 && Mark(f.u.guestOff, p + f.offset) in log
  }

  // ---------------------------------------------------------------- steps

  function EmitWord(c: Code, w: nat): Code {
    c.(words := c.words + [w])
  }

  function EmitJump(c: Code, u: PatchUnit): Code
    requires forall k :: 0 <= k < |c.slots.free| ==> c.slots.free[k] < |c.slots.jumps|
  {
    var r := Issue(c.slots, u);
    c.(words := c.words + [BrkWord(r.id)], slots := r.slots)
  }

  /** patch(context, n): forget the last n words. */
  function Unemit(c: Code, n: nat): Code
    requires n <= |c.words|
  {
    c.(words := c.words[..|c.words| - n])
  }

  /** The direct branch that decode emits when it runs into compiled code at host index target. */
  function EmitDirect(c: Code, gp: u32, target: nat): Code {
    var offset := target - |c.words|;
    c.(words := c.words + [Or(BR_IMM, offset % 0x400_0000)],
       fixed := c.fixed[|c.words| := Fix(PatchUnit(gp, JMP), offset)])
  }

  /** The handler's first step: the slot of the trapping word is released. */
  function BeginTrap(c: Code, p: nat): Option<Code>
    requires p < |c.words| && IsBrk(c.words[p]) && BrkId(c.words[p]) > 0
  {
    match Release(c.slots, BrkId(c.words[p]))
    case None => None
    case Some(s) => Some(c.(slots := s))
  }

  /** The handler's last step: the branch is written over the trapping word. */
  function FinishTrap(c: Code, p: nat, u: PatchUnit, target: nat): Code
    requires p < |c.words|
  {
    match PatchWord(u.t, target - p)
    case UnknownPatch => c
    case Patch(w) => c.(words := c.words[p := w], fixed := c.fixed[p := Fix(u, target - p)])
  }

  // ---------------------------------------------------------------- words

  /** BRK #id carries its id exactly up to 16 bits. */
  lemma BrkWordMeans(id: nat)
    ensures IsBrk(BrkWord(id)) && BrkId(BrkWord(id)) == id <==> id < 0x1_0000
  {
    hide Bits.Or, Decode;
    if id < 0x1_0000 { BrkDecodes(id); } else if IsBrk(BrkWord(id)) { BrkIdBound(BrkWord(id)); }
  }

  lemma BrkIdBound(w: nat)
    requires IsBrk(w)
    ensures BrkId(w) < 0x1_0000
  {}

  /** Whatever the id, the handler's (word >> 5) & 0xFFFF reads it modulo 2^16: the id itself exactly up
      to 16 bits, and the debugger's 0 for every multiple of 2^16. */
  lemma HandlerReads(id: nat)
    ensures (BrkWord(id) / 0x20) % 0x1_0000 == id % 0x1_0000
  {
    hide Bits.Or;
    Powers();
    OrShiftRight(BRK, id * 0x20, 5);
    ShiftRightDivides(BrkWord(id), 5);
    ShiftRightDivides(BRK, 5);
    ShiftRightDivides(id * 0x20, 5);
    OrLowBits(BRK / 0x20, id, 16);
    OrZeroLeft(id % 0x1_0000);
  }

  /** Bit 21 of the BRK opcode is set. */
  lemma BitAlreadySet()
    ensures Or(BRK, 0x20_0000) == BRK
  {
    Powers();
    OrShiftRight(BRK, 0x20_0000, 21);
    OrLowBits(BRK, 0x20_0000, 21);
    ShiftRightDivides(BRK, 21);
    ShiftRightDivides(0x20_0000, 21);
    ShiftRightDivides(Or(BRK, 0x20_0000), 21);
    OddAndOne(0x350);
    OrZero(0);
  }

  lemma OddAndOne(n: nat)
    ensures Or(2 * n + 1, 1) == 2 * n + 1
  {
    hide Bits.Or;
    OrZero(n);
    OrStep(2 * n + 1, 1);
  }

  /** The first id past 16 bits gives the very word of the debugger's BRK #0. */
  lemma BrkWordOverflow()
    ensures BrkWord(0x1_0000) == BrkWord(0) && IsBrk(BrkWord(0x1_0000)) && BrkId(BrkWord(0x1_0000)) == 0
  {
    hide Decode;
    OrZero(BRK);
    BitAlreadySet();
    BrkWordMeans(0);
  }

  lemma PatchedWordsAreNotBrk(t: int, offset: int)
    requires Patchable(t)
    ensures PatchWord(t, offset).Patch? && !IsBrk(PatchWord(t, offset).w)
  {
    hide Bits.Or, Decode;
    if PatchedJump(t) { PatchedJumpDecodes(t, offset); } else { JumpDecodes(t == CALL, offset); }
  }

  /** Words that run are no BRK, so whatever the translator's theorems speak of counts as plain words. */
  lemma {:induction false} RunningWordsArePlain(ws: seq<nat>, s: State)
    requires Run(ws, s).Next?
    ensures forall k :: 0 <= k < |ws| ==> !IsBrk(ws[k])
  {
    hide Decode;
    if ws != [] {
      RunningWordsArePlain(ws[1..], Step(ws[0], s).s);
      assert !IsBrk(ws[0]);
      forall k | 0 <= k < |ws| ensures !IsBrk(ws[k]) { if k > 0 { assert ws[k] == ws[1..][k - 1]; } }
    }
  }

  // ---------------------------------------------------------------- what each step keeps

  lemma SiteAppended(c: Code, w: nat, d: Code, p: nat, pending: Option<nat>)
    requires d.words == c.words + [w]
    ensures p < |c.words| ==> (Site(d, p, pending) <==> Site(c, p, pending)) && d.words[p] == c.words[p]
    ensures Site(d, p, pending) ==> p <= |c.words|
  {}

  lemma SitedAppended(c: Code, w: nat, d: Code, id: nat, pending: Option<nat>)
    requires d.words == c.words + [w] && Sited(c, id, pending)
    ensures Sited(d, id, pending)
  {
    var p: nat :| Site(c, p, pending) && BrkId(c.words[p]) == id;
    SiteAppended(c, w, d, p, pending);
  }

  lemma EmitWordKeeps(c: Code, w: nat, log: set<Mark>, pending: Option<nat>)
    requires LinkedUp(c, log, pending) && !IsBrk(w)
    ensures LinkedUp(EmitWord(c, w), log, pending)
  {
    hide Decode, Live, PatchWord;
    var d := EmitWord(c, w);
    forall p: nat { SiteAppended(c, w, d, p, pending); }
    forall id | id in Live(d.slots) ensures Sited(d, id, pending) { SitedAppended(c, w, d, id, pending); }
    forall p | p in d.fixed ensures FixedRight(d, log, p) { assert FixedRight(c, log, p); }
  }

  /** The correspondence only looks at the sites and their words. */
  lemma SameSites(c: Code, d: Code, before: Option<nat>, after: Option<nat>, log: set<Mark>, more: set<Mark>)
    requires LinkedUp(c, log, before) && d.slots == c.slots
    requires after.Some? ==> after.value < |d.words| && after.value !in d.fixed
    requires forall p: nat :: Site(d, p, after) <==> Site(c, p, before)
    requires forall p: nat :: Site(d, p, after) ==> d.words[p] == c.words[p]
    requires forall p :: p in d.fixed ==> FixedRight(d, more, p)
    ensures LinkedUp(d, more, after)
  {
    hide Decode, Live, FixedRight, Ok, IsBrk, BrkId;
    forall id | id in Live(d.slots) ensures Sited(d, id, after) {
      assert Sited(c, id, before);
      var p: nat :| Site(c, p, before) && BrkId(c.words[p]) == id;
      assert Site(d, p, after);
    }
  }

  lemma EmitDirectKeeps(c: Code, gp: u32, target: nat, log: set<Mark>, pending: Option<nat>)
    requires LinkedUp(c, log, pending) && Mark(gp, target) in log
    ensures LinkedUp(EmitDirect(c, gp, target), log, pending)
  {
    hide Decode, Live, Bits.Or, Ok, IsBrk, BrkId, Sited;
    var d, offset := EmitDirect(c, gp, target), target - |c.words|;
    var w := Or(BR_IMM, offset % 0x400_0000);
    PatchedWordsAreNotBrk(JMP, offset);
    forall p: nat ensures Site(d, p, pending) <==> Site(c, p, pending) {}
    forall p | p in d.fixed ensures FixedRight(d, log, p) { if p != |c.words| { assert FixedRight(c, log, p); } }
    SameSites(c, d, pending, pending, log, log);
  }

  lemma IdBound(s: Slots, u: PatchUnit)
    requires Ok(s)
    ensures (forall k :: 0 <= k < |s.free| ==> s.free[k] < |s.jumps|) && Issue(s, u).id <= |s.jumps| + 1
  {}

  lemma FixedStays(c: Code, d: Code, log: set<Mark>, pending: Option<nat>)
    requires LinkedUp(c, log, pending) && d.fixed == c.fixed && |c.words| <= |d.words| &&
      d.words[..|c.words|] == c.words
    ensures forall p :: p in d.fixed ==> FixedRight(d, log, p)
  {
    hide Decode, PatchWord, Live, Ok, IsBrk, BrkId;
    forall p | p in d.fixed ensures FixedRight(d, log, p) {
      assert FixedRight(c, log, p);
      assert d.words[p] == d.words[..|c.words|][p];
    }
  }

  lemma EmitJumpKeeps(c: Code, u: PatchUnit, log: set<Mark>, pending: Option<nat>)
    requires LinkedUp(c, log, pending) && Patchable(u.t) && |c.slots.jumps| < 0xFFFF
    ensures LinkedUp(EmitJump(c, u), log, pending)
  {
    hide Decode, Live, PatchWord, BrkWord, Ok, IsBrk, BrkId;
    IdBound(c.slots, u);
    var d, r := EmitJump(c, u), Issue(c.slots, u);
    IssueKeeps(c.slots, u);
    BrkWordMeans(r.id);
    forall p: nat { SiteAppended(c, BrkWord(r.id), d, p, pending); }
    forall id | id in Live(d.slots) ensures Sited(d, id, pending) {
      if id == r.id { assert Site(d, |c.words|, pending); } else { SitedAppended(c, BrkWord(r.id), d, id, pending); }
    }
    FixedStays(c, d, log, pending);
  }

  /** The peephole's rewind only drops ordinary words that no resolved site occupies. */
  lemma UnemitKeeps(c: Code, n: nat, log: set<Mark>, pending: Option<nat>)
    requires LinkedUp(c, log, pending) && n <= |c.words|
    requires pending.Some? ==> pending.value < |c.words| - n
    requires forall p :: |c.words| - n <= p < |c.words| ==> !IsBrk(c.words[p]) && p !in c.fixed
    ensures LinkedUp(Unemit(c, n), log, pending)
  {
    hide Decode, Live, PatchWord, Ok, IsBrk, BrkId, Sited;
    var d := Unemit(c, n);
    forall p: nat ensures Site(d, p, pending) <==> Site(c, p, pending) { }
    forall p | p in d.fixed ensures FixedRight(d, log, p) { assert FixedRight(c, log, p); }
    SameSites(c, d, pending, pending, log, log);
  }

  lemma FixedInside(c: Code, log: set<Mark>, pending: Option<nat>)
    requires LinkedUp(c, log, pending)
    ensures (forall p :: p in c.fixed ==> p < |c.words|) && (pending.Some? ==> pending.value < |c.words|)
  {
    forall p | p in c.fixed ensures p < |c.words| { assert FixedRight(c, log, p); }
  }

  /** The site that has a slot's id after a rewind stands in front of the rewound words. */
  lemma SiteOf(c: Code, n: nat, log: set<Mark>, pending: Option<nat>, id: nat) returns (q: nat)
    requires n <= |c.words| && LinkedUp(Unemit(c, n), log, pending) && id in Live(c.slots)
    ensures q < |c.words| - n && Site(c, q, pending) && BrkId(c.words[q]) == id
  {
    hide Live, Ok, IsBrk, BrkId, FixedRight;
    var d := Unemit(c, n);
    assert Sited(d, id, pending);
    q :| Site(d, q, pending) && BrkId(d.words[q]) == id;
  }

  /** A rewind keeps the correspondence exactly when the words it drops are no BRK, no resolved site and not
      the trapping word: anything else would be overwritten with its slot or its record still standing. */
  lemma UnemitExact(c: Code, n: nat, log: set<Mark>, pending: Option<nat>)
    requires LinkedUp(c, log, pending) && n <= |c.words|
    ensures LinkedUp(Unemit(c, n), log, pending) <==>
      forall p :: |c.words| - n <= p < |c.words| ==> !IsBrk(c.words[p]) && p !in c.fixed && pending != Some(p)
  {
    hide Live, Ok, IsBrk, BrkId, FixedRight, Sited;
    var d := Unemit(c, n);
    if LinkedUp(d, log, pending) {
      FixedInside(d, log, pending);
      forall p | |c.words| - n <= p < |c.words| ensures !IsBrk(c.words[p]) && p !in c.fixed && pending != Some(p) {
        if Site(c, p, pending) { var q := SiteOf(c, n, log, pending, BrkId(c.words[p])); }
      }
    } else if forall p :: |c.words| - n <= p < |c.words| ==> !IsBrk(c.words[p]) && p !in c.fixed && pending != Some(p) {
      UnemitKeeps(c, n, log, pending);
    }
  }

  /** So no rewind may follow the direct branch that ends a block: a pair whose first half came before it
      loses the branch. */
  lemma DirectIsLost(c: Code, gp: u32, target: nat, n: nat, log: set<Mark>, pending: Option<nat>)
    requires LinkedUp(EmitDirect(c, gp, target), log, pending) && 1 <= n <= |c.words| + 1
    ensures !LinkedUp(Unemit(EmitDirect(c, gp, target), n), log, pending)
  {
    hide LinkedUp, Bits.Or, IsBrk;
    var d := EmitDirect(c, gp, target);
    UnemitExact(d, n, log, pending);
    assert |c.words| in d.fixed && |d.words| - n <= |c.words| < |d.words|;
  }

  /** Logging more marks changes nothing. */
  lemma LogGrows(c: Code, log: set<Mark>, more: set<Mark>, pending: Option<nat>)
    requires LinkedUp(c, log, pending) && log <= more
    ensures LinkedUp(c, more, pending)
  {
    hide Decode, Live, PatchWord, Ok, IsBrk, BrkId;
    forall p | p in c.fixed ensures FixedRight(c, more, p) { assert FixedRight(c, log, p); }
  }

  /** Releasing the trapping word's slot takes that one word out of the correspondence: from here
      on its id may be issued again while the word still stands in the code. */
  lemma BeginTrapKeeps(c: Code, p: nat, log: set<Mark>)
    requires LinkedUp(c, log, None) && p < |c.words| && IsBrk(c.words[p]) && BrkId(c.words[p]) > 0
    requires BeginTrap(c, p).Some? && p !in c.fixed
    ensures BrkId(c.words[p]) in Live(c.slots) && Patchable(Live(c.slots)[BrkId(c.words[p])].t)
    ensures LinkedUp(BeginTrap(c, p).value, log, Some(p))
  {
    hide Decode, Live, PatchWord, Ok, IsBrk, BrkId;
    var d, id := BeginTrap(c, p).value, BrkId(c.words[p]);
    assert Site(c, p, None);
    ReleaseKeeps(c.slots, id);
    forall q: nat ensures Site(d, q, Some(p)) <==> Site(c, q, None) && q != p {}
    forall i | i in Live(d.slots) ensures Sited(d, i, Some(p)) {
      assert Sited(c, i, None);
      var q: nat :| Site(c, q, None) && BrkId(c.words[q]) == i;
      assert Site(d, q, Some(p));
    }
    forall q | q in d.fixed ensures FixedRight(d, log, q) { assert FixedRight(c, log, q); }
  }

  /** Writing the branch puts everything back, wherever the freed id went meanwhile. */
  lemma FinishTrapKeeps(c: Code, p: nat, u: PatchUnit, target: nat, log: set<Mark>)
    requires LinkedUp(c, log, Some(p)) && Patchable(u.t) && Mark(u.guestOff, target) in log
    ensures LinkedUp(FinishTrap(c, p, u, target), log, None)
  {
    hide Decode, Live, PatchWord, Ok, IsBrk, BrkId, Sited;
    var d := FinishTrap(c, p, u, target);
    PatchedWordsAreNotBrk(u.t, target - p);
    forall q: nat ensures Site(d, q, None) <==> Site(c, q, Some(p)) {}
    forall q | q in d.fixed ensures FixedRight(d, log, q) { if q != p { assert FixedRight(c, log, q); } }
    SameSites(c, d, Some(p), None, log, log);
  }
}

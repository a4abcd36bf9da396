/** The pool of compiling contexts (context_search and context_free of src/memory.c), with every
    compare-exchange a step of its own and the threads interleaved in any order. */
module ContextPool {

  /** Where a thread is: outside, about to test slot i, or holding slot i.  A scan that has come to
      the end of the slots has failed. */
  datatype Place = Outside | Scanning(i: nat) | Holding(i: nat)

  datatype Pool = Pool(busy: seq<bool>, threads: seq<Place>)

  /** All slots free, nobody inside. */
  function Fresh(slots: nat, threads: nat): Pool {
    Pool(seq(slots, _ => false), seq(threads, _ => Outside))
  }

  /** The next step of thread t: it starts a scan, tests a slot, or gives its slot back. */
  function Step(p: Pool, t: nat): Pool
    requires t < |p.threads|
  {
    match p.threads[t]
    case Outside => p.(threads := p.threads[t := Scanning(0)])
    case Scanning(i) =>
      if i >= |p.busy| then p
      else if p.busy[i] then p.(threads := p.threads[t := Scanning(i + 1)])
      else Pool(p.busy[i := true], p.threads[t := Holding(i)])
    case Holding(i) =>
      if i >= |p.busy| then p else Pool(p.busy[i := false], p.threads[t := Outside])
  }

  /** The states of a run, one step of some thread after another. */
  ghost predicate IsRun(run: seq<Pool>, schedule: seq<nat>) {
    |run| == |schedule| + 1 && run[0] == Fresh(|run[0].busy|, |run[0].threads|) &&
    forall k :: 0 <= k < |schedule| ==> schedule[k] < |run[k].threads| && run[k + 1] == Step(run[k], schedule[k])
  }

  ghost predicate HeldBy(p: Pool, i: nat, t: nat) {
    t < |p.threads| && p.threads[t] == Holding(i)
  }

  ghost predicate Held(p: Pool, i: nat) {
    exists t: nat :: HeldBy(p, i, t)
  }

  /** Slots are busy exactly while held, and held once. */
  ghost predicate Exclusive(p: Pool) {
    (forall i :: 0 <= i < |p.busy| ==> (p.busy[i] <==> Held(p, i))) &&
    (forall i: nat, t: nat, u: nat :: HeldBy(p, i, t) && HeldBy(p, i, u) ==> t == u) &&
    (forall i: nat, t: nat :: HeldBy(p, i, t) ==> i < |p.busy|)
  }

  predicate AtOrPast(l: Place, h: nat) {
    match l
    case Outside => false
    case Scanning(i) => i >= h
    case Holding(i) => i >= h
  }

  /** The threads that test or hold slot h or a later one. */
  ghost function Past(p: Pool, h: nat): set<nat> {
    set t | 0 <= t < |p.threads| && AtOrPast(p.threads[t], h)
  }

  /** Of k threads at most k - h get as far as slot h. */
  ghost predicate Thinning(p: Pool) {
    forall h: nat :: Past(p, h) != {} ==> |Past(p, h)| + h <= |p.threads|
  }

  lemma FreshKeeps(slots: nat, threads: nat)
    ensures Exclusive(Fresh(slots, threads)) && Thinning(Fresh(slots, threads))
  {
    forall h: nat ensures Past(Fresh(slots, threads), h) == {} {}
  }

  lemma Moves(p: Pool, t: nat, l: Place, q: Pool, i: nat)
    requires t < |p.threads| && q.threads == p.threads[t := l]
    ensures forall u: nat :: HeldBy(q, i, u) <==> if u == t then l == Holding(i) else HeldBy(p, i, u)
  {}

  lemma ExclusiveKeeps(p: Pool, t: nat)
    requires Exclusive(p) && t < |p.threads|
    ensures Exclusive(Step(p, t))
  {
    var q := Step(p, t);
    var l := q.threads[t];
    assert q.threads == p.threads[t := l];
    forall i: nat
      ensures forall u: nat :: HeldBy(q, i, u) <==> if u == t then l == Holding(i) else HeldBy(p, i, u)
    {
      Moves(p, t, l, q, i);
    }
    if p.threads[t].Holding? { assert HeldBy(p, p.threads[t].i, t); }
    forall i | 0 <= i < |q.busy| ensures q.busy[i] <==> Held(q, i) {
      if q.busy[i] {
        if l == Holding(i) { assert HeldBy(q, i, t); } else { var u: nat :| HeldBy(p, i, u); assert HeldBy(q, i, u); }
      }
    }
  }

  /** A set of the first n naturals. */
  lemma {:induction false} Bounded(s: set<nat>, n: nat)
    requires forall t :: t in s ==> t < n
    ensures |s| <= n
  {
    if n == 0 {
      assert s == {};
    } else {
      Bounded(s - {n - 1}, n - 1);
      if n - 1 in s { assert |s - {n - 1}| == |s| - 1; } else { assert s - {n - 1} == s; }
    }
  }

  /** The step past slot i needs a holder of slot i, who stays behind. */
  lemma OneBehind(p: Pool, t: nat, i: nat)
    requires Exclusive(p) && Thinning(p) && t < |p.threads| && p.threads[t] == Scanning(i) && i < |p.busy| && p.busy[i]
    ensures |Past(p, i + 1)| + i + 2 <= |p.threads| && t !in Past(p, i + 1)
  {
    var u: nat :| HeldBy(p, i, u);
    var near, far := Past(p, i), Past(p, i + 1);
    assert t in near && u in near && t != u;
    assert far <= near - {t} - {u};
    Smaller(far, near - {t} - {u});
    assert |near - {t}| == |near| - 1 && |near - {t} - {u}| == |near| - 2;
  }

  lemma Smaller(a: set<nat>, b: set<nat>)
    requires a <= b
    ensures |a| <= |b|
  {
    assert b == a + (b - a);
  }

  lemma ThinningKeeps(p: Pool, t: nat)
    requires Exclusive(p) && Thinning(p) && t < |p.threads|
    ensures Thinning(Step(p, t))
  {
    var q := Step(p, t);
    forall h: nat | Past(q, h) != {} ensures |Past(q, h)| + h <= |q.threads| {
      PastSteps(p, t, h);
    }
  }

  lemma PastSteps(p: Pool, t: nat, h: nat)
    requires Exclusive(p) && Thinning(p) && t < |p.threads| && Past(Step(p, t), h) != {}
    ensures |Past(Step(p, t), h)| + h <= |p.threads|
  {
    var q := Step(p, t);
    if AtOrPast(q.threads[t], h) && !AtOrPast(p.threads[t], h) {
      if h == 0 {
        Bounded(Past(q, 0), |p.threads|);
      } else {
        OneBehind(p, t, h - 1);
        assert Past(q, h) == Past(p, h) + {t};
      }
    } else {
      assert Past(q, h) <= Past(p, h);
      Smaller(Past(q, h), Past(p, h));
    }
  }

  lemma {:induction false} RunKeeps(run: seq<Pool>, schedule: seq<nat>, k: nat)
    requires IsRun(run, schedule) && k < |run|
    ensures Exclusive(run[k]) && Thinning(run[k]) && |run[k].busy| == |run[0].busy| &&
      |run[k].threads| == |run[0].threads|
  {
    if k == 0 {
      FreshKeeps(|run[0].busy|, |run[0].threads|);
    } else {
      RunKeeps(run, schedule, k - 1);
      ExclusiveKeeps(run[k - 1], schedule[k - 1]);
      ThinningKeeps(run[k - 1], schedule[k - 1]);
    }
  }

  /** In every interleaving, no two threads ever hold the same context. */
  lemma NeverShared(run: seq<Pool>, schedule: seq<nat>, k: nat, t: nat, u: nat, i: nat)
    requires IsRun(run, schedule) && k < |run| && HeldBy(run[k], i, t) && HeldBy(run[k], i, u)
    ensures t == u && i < |run[k].busy| && run[k].busy[i]
  {
    RunKeeps(run, schedule, k);
    assert Held(run[k], i);
  }

  /** In every interleaving of no more threads than there are contexts, no scan ever fails, although
      slots come free and are taken while it runs. */
  lemma NeverExhausted(run: seq<Pool>, schedule: seq<nat>, k: nat, t: nat)
    requires IsRun(run, schedule) && k < |run| && t < |run[k].threads| && |run[0].threads| <= |run[0].busy|
    ensures run[k].threads[t].Scanning? ==> run[k].threads[t].i < |run[k].busy|
  {
    RunKeeps(run, schedule, k);
    var l := run[k].threads[t];
    if l.Scanning? {
      assert t in Past(run[k], l.i);
      assert |Past(run[k], l.i)| > 0;
    }
  }

  /** A slot tested in vain was held by another thread at that moment. */
  ghost predicate SeenBusy(run: seq<Pool>, m: nat, t: nat, i: nat) {
    m < |run| && t < |run[m].threads| && run[m].threads[t] == Scanning(i) && i < |run[m].busy| && run[m].busy[i] &&
    exists u: nat :: HeldBy(run[m], i, u) && u != t
  }

  /** A scan that has come to slot j, or failed at the end, saw every slot before j held by another thread
      at the moment it tested it, in the same scan. */
  lemma {:induction false} ScanSawBusy(run: seq<Pool>, schedule: seq<nat>, k: nat, t: nat, i: nat) returns (m: nat)
    requires IsRun(run, schedule) && k < |run| && t < |run[k].threads| && run[k].threads[t].Scanning? &&
      i < run[k].threads[t].i
    ensures m < k && SeenBusy(run, m, t, i)
    ensures forall n :: m <= n <= k ==> t < |run[n].threads| && run[n].threads[t].Scanning?
  {
    RunKeeps(run, schedule, k - 1);
    RunKeeps(run, schedule, k);
    var before := run[k - 1].threads[t];
    if before == Scanning(i) && run[k].threads[t] != before {
      m := k - 1;
      assert Held(run[m], i);
    } else {
      m := ScanSawBusy(run, schedule, k - 1, t, i);
    }
  }

  // ---------------------------------------------------------------- with more threads than contexts

  lemma RunGrows(run: seq<Pool>, schedule: seq<nat>, t: nat)
    requires IsRun(run, schedule) && t < |run[|run| - 1].threads|
    ensures IsRun(run + [Step(run[|run| - 1], t)], schedule + [t])
  {}

  /** Slots 0..i-1 are held by the threads of the same numbers. */
  function Filled(slots: nat, threads: nat, i: nat): Pool {
    Pool(seq(slots, j => j < i), seq(threads, j requires j >= 0 => if j < i then Holding(j) else Outside))
  }

  /** Thread i scans up to slot j. */
  lemma {:induction false} ScanUp(run: seq<Pool>, schedule: seq<nat>, slots: nat, threads: nat, i: nat, j: nat)
    returns (run': seq<Pool>, schedule': seq<nat>)
    requires IsRun(run, schedule) && run[|run| - 1] == Filled(slots, threads, i) && j <= i <= slots && i < threads
    ensures IsRun(run', schedule') && var p := Filled(slots, threads, i);
      run'[|run'| - 1] == p.(threads := p.threads[i := Scanning(j)])
  {
    if j == 0 {
      run', schedule' := run, schedule;
    } else {
      run', schedule' := ScanUp(run, schedule, slots, threads, i, j - 1);
    }
    RunGrows(run', schedule', i);
    run', schedule' := run' + [Step(run'[|run'| - 1], i)], schedule' + [i];
  }

  lemma {:induction false} FillUp(slots: nat, threads: nat, i: nat) returns (run: seq<Pool>, schedule: seq<nat>)
    requires i <= slots && i <= threads
    ensures IsRun(run, schedule) && run[|run| - 1] == Filled(slots, threads, i)
  {
    if i == 0 {
      run, schedule := [Fresh(slots, threads)], [];
      assert run[0] == Filled(slots, threads, 0);
    } else {
      run, schedule := FillUp(slots, threads, i - 1);
      run, schedule := ScanUp(run, schedule, slots, threads, i - 1, i - 1);
      RunGrows(run, schedule, i - 1);
      run, schedule := run + [Step(run[|run| - 1], i - 1)], schedule + [i - 1];
      assert run[|run| - 1] == Filled(slots, threads, i);
    }
  }

  ghost predicate CanFail(slots: nat, threads: nat) {
    exists run: seq<Pool>, schedule: seq<nat>, t: nat :: IsRun(run, schedule) && FailsIn(run, slots, threads, t)
  }

  /** Thread t comes to the end of the slots. */
  ghost predicate FailsIn(run: seq<Pool>, slots: nat, threads: nat, t: nat) {
    run != [] && |run[0].busy| == slots && |run[0].threads| == threads &&
    t < |run[|run| - 1].threads| && run[|run| - 1].threads[t] == Scanning(slots)
  }

  /** A scan can fail exactly when there are more threads than contexts. */
  lemma FailureExact(slots: nat, threads: nat)
    ensures CanFail(slots, threads) <==> threads > slots
  {
    if threads > slots {
      var run, schedule := FillUp(slots, threads, slots);
      run, schedule := ScanUp(run, schedule, slots, threads, slots, slots);
      RunKeeps(run, schedule, |run| - 1);
      assert FailsIn(run, slots, threads, slots);
    }
    if CanFail(slots, threads) {
      var run, schedule, t: nat :| IsRun(run, schedule) && FailsIn(run, slots, threads, t);
      RunKeeps(run, schedule, |run| - 1);
      if threads <= slots { NeverExhausted(run, schedule, |run| - 1, t); }
    }
  }

  // ---------------------------------------------------------------- the code

  /** A scan of thread t with no other thread in between. */
  function Alone(p: Pool, t: nat): (q: Pool)
    requires t < |p.threads| && (p.threads[t].Scanning? ==> p.threads[t].i <= |p.busy|)
    ensures |q.busy| == |p.busy| && t < |q.threads|
    decreases if p.threads[t].Scanning? then |p.busy| - p.threads[t].i else 0
  {
    match p.threads[t]
    case Scanning(i) => if i < |p.busy| then Alone(Step(p, t), t) else p
    case _ => p
  }

  /** The first free slot is taken, if there is one. */
  lemma {:induction false} AloneTakesFirst(p: Pool, t: nat)
    requires t < |p.threads| && p.threads[t].Scanning? && p.threads[t].i <= |p.busy|
    ensures var l := Alone(p, t).threads[t];
      match l
      case Holding(j) => p.threads[t].i <= j < |p.busy| && !p.busy[j] &&
        (forall k :: p.threads[t].i <= k < j ==> p.busy[k]) && Alone(p, t).busy == p.busy[j := true]
      case Scanning(j) => j == |p.busy| && (forall k :: p.threads[t].i <= k < j ==> p.busy[k]) &&
        Alone(p, t).busy == p.busy
      case Outside => false
    decreases |p.busy| - p.threads[t].i
  {
    var i := p.threads[t].i;
    if i < |p.busy| && p.busy[i] { AloneTakesFirst(Step(p, t), t); }
  }

  /** A context given back is free, its holder is outside again and nothing else has changed; the next thread that
      tests the slot takes it. */
  lemma FreedIsTaken(p: Pool, i: nat, t: nat, u: nat)
    requires Exclusive(p) && HeldBy(p, i, t) && u < |p.threads| && p.threads[u] == Scanning(i)
    ensures var q := Step(p, t);
      |q.busy| == |p.busy| && i < |q.busy| && !q.busy[i] && !Held(q, i) && q.threads == p.threads[t := Outside] &&
      (forall j :: 0 <= j < |p.busy| && j != i ==> q.busy[j] == p.busy[j]) && HeldBy(Step(q, u), i, u)
  {
    var q := Step(p, t);
    if Held(q, i) {
      var v: nat :| HeldBy(q, i, v);
      assert HeldBy(p, i, v);
    }
  }

  class Contexts {
    const inUse: array<bool>

    constructor (slots: nat)
      ensures fresh(inUse) && inUse[..] == Fresh(slots, 0).busy
    {
      inUse := new bool[slots](_ => false);
    }

    method CompareExchange(i: nat) returns (won: bool)
      requires i < inUse.Length
      modifies inUse
      ensures won == !old(inUse[i]) && inUse[..] == old(inUse[..])[i := true]
    {
      won := !inUse[i];
      if won { inUse[i] := true; }
    }

    /** context_search, by thread t of p. */
    method Search(ghost p: Pool, ghost t: nat) returns (found: bool, slot: nat)
      requires p.busy == inUse[..] && t < |p.threads| && p.threads[t] == Scanning(0)
      modifies inUse
      ensures inUse[..] == Alone(p, t).busy
      ensures Alone(p, t).threads[t] == if found then Holding(slot) else Scanning(inUse.Length)
    {
      var i: nat := 0;
      ghost var q := p;
      while i < inUse.Length
        invariant i <= inUse.Length && q.busy == inUse[..] && t < |q.threads| && q.threads[t] == Scanning(i) &&
          Alone(q, t) == Alone(p, t)
      {
        var won := CompareExchange(i);
        q := Step(q, t);
        if won { return true, i; }
        i := i + 1;
      }
      return false, 0;
    }

    /** context_free, by thread t of p. */
    method Free(i: nat, ghost p: Pool, ghost t: nat)
      requires i < inUse.Length && p.busy == inUse[..] && t < |p.threads| && p.threads[t] == Holding(i)
      modifies inUse
      ensures inUse[..] == Step(p, t).busy && inUse[..] == old(inUse[..])[i := false]
    {
      inUse[i] := false;
    }
  }
}

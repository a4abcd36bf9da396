/** Relative relocation tables: reloc_relr of src/elf_loader.c. */
module Relr {
  import opened Bits

  /** Word j behind the cursor is relocated when bit j + 1 of the entry is set; the first n words. */
  function Bitmap(entry: u64, cursor: nat, n: nat): seq<nat> {
    if n == 0 then []
    else Bitmap(entry, cursor, n - 1) + if (entry / Pow2(n)) % 2 == 1 then [cursor + n - 1] else []
  }

  /** The words that a table names, in order, as word numbers from the base: an even entry is an address
      and an odd one a bitmap of the 63 words that follow. */
  function Expand(table: seq<u64>, cursor: nat): seq<nat> {
    if table == [] then []
    else if table[0] % 2 == 0 then [table[0] / 8] + Expand(table[1..], table[0] / 8 + 1)
    else Bitmap(table[0], cursor, 63) + Expand(table[1..], cursor + 63)
  }

  /** The cursor in front of entry n: one word past the last address, and 63 more for every bitmap since. */
  function CursorAt(table: seq<u64>, cursor: nat, n: nat): nat
    requires n <= |table|
  {
    if n == 0 then cursor
    else if table[n - 1] % 2 == 0 then table[n - 1] / 8 + 1
    else CursorAt(table, cursor, n - 1) + 63
  }

  /** An address names its word, and bit j + 1 of a bitmap the word j behind the cursor. */
  predicate Names(entry: u64, cursor: nat, k: nat) {
    if entry % 2 == 0 then entry / 8 == k else cursor <= k < cursor + 63 && (entry / Pow2(k - cursor + 1)) % 2 == 1
  }

  lemma {:induction false} BitmapNames(entry: u64, cursor: nat, n: nat, k: nat)
    ensures k in Bitmap(entry, cursor, n) <==> cursor <= k < cursor + n && (entry / Pow2(k - cursor + 1)) % 2 == 1
  {
    if n > 0 { BitmapNames(entry, cursor, n - 1, k); }
  }

  lemma {:induction false} CursorShifts(table: seq<u64>, cursor: nat, n: nat)
    requires 0 < n <= |table|
    ensures CursorAt(table, cursor, n) == CursorAt(table[1..], CursorAt(table, cursor, 1), n - 1)
  {
    if n > 1 { CursorShifts(table, cursor, n - 1); }
  }

  /** A word is in the expansion exactly when some entry names it. */
  lemma {:induction false} NamedExact(table: seq<u64>, cursor: nat, k: nat)
    ensures k in Expand(table, cursor)
       <==> exists n :: 0 <= n < |table| && Names(table[n], CursorAt(table, cursor, n), k)
  {
    hide Bitmap, Pow2;
    if table != [] {
      var rest, next := table[1..], CursorAt(table, cursor, 1);
      NamedExact(rest, next, k);
      FirstNames(table, cursor, k);
      if n :| 0 <= n < |table| && Names(table[n], CursorAt(table, cursor, n), k) {
        if n > 0 {
          CursorShifts(table, cursor, n);
          assert Names(rest[n - 1], CursorAt(rest, next, n - 1), k);
        }
      }
      if n :| 0 <= n < |rest| && Names(rest[n], CursorAt(rest, next, n), k) {
        CursorShifts(table, cursor, n + 1);
        assert Names(table[n + 1], CursorAt(table, cursor, n + 1), k);
      }
      if Names(table[0], cursor, k) { assert Names(table[0], CursorAt(table, cursor, 0), k); }
    }
  }

  lemma FirstNames(table: seq<u64>, cursor: nat, k: nat)
    requires table != []
    ensures k in Expand(table, cursor)
       <==> Names(table[0], cursor, k) || k in Expand(table[1..], CursorAt(table, cursor, 1))
  {
    hide Bitmap, Pow2;
    if table[0] % 2 == 1 { BitmapNames(table[0], cursor, 63, k); }
  }

  /** Addresses are multiples of 8, and the first entry is one. */
  predicate Aligned(table: seq<u64>) {
    (table != [] ==> table[0] % 2 == 0) && forall i :: 0 <= i < |table| && table[i] % 2 == 0 ==> table[i] % 8 == 0
  }

  /** The image with base added to word k once for every time k is named. */
  ghost function Relocated(image: seq<u64>, named: seq<nat>, base: u64): seq<u64> {
    seq(|image|, k requires 0 <= k < |image| => U64(image[k] + Times(named, k) * base))
  }

  function Times(named: seq<nat>, k: nat): nat { multiset(named)[k] }

  ghost predicate Increasing(named: seq<nat>) {
    forall i, j :: 0 <= i < j < |named| ==> named[i] < named[j]
  }

  lemma NoneNamed(image: seq<u64>, base: u64)
    ensures Relocated(image, [], base) == image
  {}

  /** One more addition. */
  lemma OneMore(image: seq<u64>, named: seq<nat>, k: nat, base: u64)
    requires k < |image|
    ensures Relocated(image, named + [k], base) ==
      Relocated(image, named, base)[k := U64(Relocated(image, named, base)[k] + base)]
  {
    var more, less := Relocated(image, named + [k], base), Relocated(image, named, base);
    forall i | 0 <= i < |image| ensures more[i] == less[k := U64(less[k] + base)][i] {
      OnceMore(named, k, i);
      OneMoreAt(image[i], Times(named, i), base);
    }
  }

  lemma OneMoreAt(x: u64, t: nat, base: u64)
    ensures U64(U64(x + t * base) + base) == U64(x + (t + 1) * base)
  {
    assert (t + 1) * base == t * base + base;
    AddWraps(x + t * base, base);
  }

  lemma OnceMore(named: seq<nat>, k: nat, i: nat)
    ensures Times(named + [k], i) == Times(named, i) + if i == k then 1 else 0
  {}

  lemma AddWraps(x: nat, y: nat)
    ensures U64(U64(x) + y) == U64(x + y)
  {}

  /** A bitmap with no bits left names nothing more. */
  lemma {:induction false} BitsLeft(entry: u64, cursor: nat, j: nat, n: nat)
    requires j <= n && entry / Pow2(j + 1) == 0
    ensures Bitmap(entry, cursor, n) == Bitmap(entry, cursor, j) && entry / Pow2(n + 1) == 0
  {
    if j < n {
      BitsLeft(entry, cursor, j, n - 1);
      Halves(entry, n);
    }
  }

  /** The words of a bitmap are among those of a longer one. */
  lemma {:induction false} BitmapGrows(entry: u64, cursor: nat, j: nat, n: nat)
    requires j <= n
    ensures Bitmap(entry, cursor, j) <= Bitmap(entry, cursor, n)
  {
    if j < n { BitmapGrows(entry, cursor, j, n - 1); }
  }

  lemma Halves(x: nat, k: nat)
    ensures x / Pow2(k + 1) == x / Pow2(k) / 2
  {
    var p, q := Pow2(k), x / Pow2(k);
    assert x == p * q + x % p;
    assert q == 2 * (q / 2) + q % 2;
    assert p * q == 2 * p * (q / 2) + p * (q % 2) by { assert p * q == p * (2 * (q / 2) + q % 2); }
    assert p * (q % 2) <= p;
    DivUnique(x, 2 * p, q / 2, p * (q % 2) + x % p);
  }

  lemma {:induction false} BitmapRange(entry: u64, cursor: nat, n: nat)
    ensures Increasing(Bitmap(entry, cursor, n))
    ensures forall i :: 0 <= i < |Bitmap(entry, cursor, n)| ==> cursor <= Bitmap(entry, cursor, n)[i] < cursor + n
  {
    if n > 0 { BitmapRange(entry, cursor, n - 1); }
  }

  /** Every address is at or past the cursor left by the entries before it. */
  predicate Ordered(table: seq<u64>, cursor: nat) {
    table == [] ||
    (if table[0] % 2 == 0 then table[0] / 8 >= cursor && Ordered(table[1..], table[0] / 8 + 1)
     else Ordered(table[1..], cursor + 63))
  }

  lemma {:induction false} OrderedIncreases(table: seq<u64>, cursor: nat)
    requires Ordered(table, cursor)
    ensures Increasing(Expand(table, cursor)) &&
      forall i :: 0 <= i < |Expand(table, cursor)| ==> Expand(table, cursor)[i] >= cursor
  {
    hide Bitmap, Increasing;
    if table == [] {
      NothingIncreases();
    } else if table[0] % 2 == 0 {
      var k := table[0] / 8;
      OrderedIncreases(table[1..], k + 1);
      OneIncreases(k);
      JoinIncreases([k], Expand(table[1..], k + 1), k + 1);
    } else {
      BitmapRange(table[0], cursor, 63);
      OrderedIncreases(table[1..], cursor + 63);
      JoinIncreases(Bitmap(table[0], cursor, 63), Expand(table[1..], cursor + 63), cursor + 63);
    }
  }

  lemma NothingIncreases()
    ensures Increasing([])
  {}

  lemma OneIncreases(k: nat)
    ensures Increasing([k])
  {}

  lemma JoinIncreases(a: seq<nat>, b: seq<nat>, m: nat)
    requires Increasing(a) && Increasing(b)
    requires (forall i :: 0 <= i < |a| ==> a[i] < m) && forall i :: 0 <= i < |b| ==> b[i] >= m
    ensures Increasing(a + b)
  {}

  /** In an increasing expansion every named word is named once ... */
  lemma {:induction false} NamedOnce(named: seq<nat>, k: nat)
    requires Increasing(named)
    ensures Times(named, k) == if k in named then 1 else 0
  {
    if named != [] {
      var n := |named| - 1;
      NamedOnce(named[..n], k);
      assert named == named[..n] + [named[n]];
    }
  }

  /** ... so base is added once to each word of the expansion, and no other word changes. */
  lemma RelocatedOnce(image: seq<u64>, table: seq<u64>, base: u64, k: nat)
    requires Ordered(table, 0) && k < |image|
    ensures Relocated(image, Expand(table, 0), base)[k]
         == if k in Expand(table, 0) then U64(image[k] + base) else image[k]
  {
    hide Expand, Ordered, Increasing, Times, Bitmap;
    OrderedIncreases(table, 0);
    NamedOnce(Expand(table, 0), k);
  }

  /** One addition in place. */
  method AddBase(image: array<u64>, base: u64, k: nat, ghost before: seq<u64>, ghost done: seq<nat>)
    requires k < image.Length == |before| && image[..] == Relocated(before, done, base)
    modifies image
    ensures image[..] == Relocated(before, done + [k], base)
  {
    hide Relocated;
    OneMore(before, done, k, base);
    ghost var was := image[..];
    image[k] := U64(image[k] + base);
    assert image[..] == was[k := U64(was[k] + base)];
  }

  function Shifted(entry: nat, n: nat): int { entry / Pow2(n) }

  /** Shifting the entry once more. */
  lemma ShiftStep(entry: u64, cursor: nat, j: nat, e: int)
    requires j <= 63 && e == Shifted(entry, j + 1) && e != 0
    ensures j < 63 && e / 2 == Shifted(entry, j + 2)
    ensures Bitmap(entry, cursor, j + 1) == Bitmap(entry, cursor, j) + if e % 2 == 1 then [cursor + j] else []
    ensures e % 2 == 1 ==> cursor + j in Bitmap(entry, cursor, 63)
  {
    hide Pow2;
    if j == 63 { TopBit(entry); }
    Halves(entry, j + 1);
    BitmapGrows(entry, cursor, j + 1, 63);
    if e % 2 == 1 { assert Bitmap(entry, cursor, j + 1)[|Bitmap(entry, cursor, j)|] == cursor + j; }
  }

  /** The inner loop: one bitmap entry. */
  method RelocBitmap(image: array<u64>, base: u64, entry: u64, cursor: nat, ghost before: seq<u64>,
    ghost done: seq<nat>)
    requires forall k :: k in Bitmap(entry, cursor, 63) ==> k < image.Length
    requires |before| == image.Length && image[..] == Relocated(before, done, base)
    modifies image
    ensures image[..] == Relocated(before, done + Bitmap(entry, cursor, 63), base)
  {
    var e: int, j: nat := entry / 2, 0;
    assert Pow2(1) == 2 && Bitmap(entry, cursor, 0) == [] && done + [] == done;
    assert e == Shifted(entry, 1);
    hide Relocated, Shifted, Bitmap;
    while e != 0
      invariant j <= 63 && e == Shifted(entry, j + 1)
      invariant image[..] == Relocated(before, done + Bitmap(entry, cursor, j), base)
      invariant e >= 0
      decreases e
    {
      ShiftStep(entry, cursor, j, e);
      ghost var named := done + Bitmap(entry, cursor, j);
      if e % 2 == 1 { AddBase(image, base, cursor + j, before, named); }
      assert done + Bitmap(entry, cursor, j + 1) == if e % 2 == 1 then named + [cursor + j] else named;
      e := e / 2;
      j := j + 1;
    }
    NoBitsLeft(entry, cursor, j);
  }

  lemma NoBitsLeft(entry: u64, cursor: nat, j: nat)
    requires j <= 63 && Shifted(entry, j + 1) == 0
    ensures Bitmap(entry, cursor, 63) == Bitmap(entry, cursor, j)
  {
    BitsLeft(entry, cursor, j, 63);
  }

  lemma TopBit(entry: u64)
    ensures entry / Pow2(64) == 0
  {
    assert Pow2(64) == TWO64 by { Pow64(); }
  }

  lemma Pow64()
    ensures Pow2(64) == TWO64
  {
    assert Pow2(8) == 0x100 && Pow2(16) == 0x1_0000 && Pow2(24) == 0x100_0000 && Pow2(32) == 0x1_0000_0000;
    assert Pow2(40) == 0x100_0000_0000 && Pow2(48) == 0x1_0000_0000_0000 && Pow2(56) == 0x100_0000_0000_0000;
  }

  /** reloc_relr: image[k] is the 64-bit word k * 8 bytes past the load base. */
  method RelocRelr(image: array<u64>, base: u64, table: seq<u64>)
    requires Aligned(table) && forall k :: k in Expand(table, 0) ==> k < image.Length
    modifies image
    ensures image[..] == Relocated(old(image[..]), Expand(table, 0), base)
  {
    hide Bitmap, Relocated;
    ghost var before: seq<u64>, done: seq<nat> := image[..], [];
    NoneNamed(before, base);
    var i: nat, cursor: nat := 0, 0;
    assert table[0..] == table;
    while i < |table|
      invariant i <= |table| && |before| == image.Length
      invariant Expand(table, 0) == done + Expand(table[i..], cursor)
      invariant image[..] == Relocated(before, done, base)
    {
      var entry := table[i];
      assert table[i..][0] == entry && table[i..][1..] == table[i + 1..];
      if entry % 2 == 0 {
        assert entry / 8 in Expand(table, 0);
        AddBase(image, base, entry / 8, before, done);
        done := done + [entry / 8];
        cursor := entry / 8 + 1;
      } else {
        assert forall k :: k in Bitmap(entry, cursor, 63) ==> k in Expand(table[i..], cursor) && k in Expand(table, 0);
        RelocBitmap(image, base, entry, cursor, before, done);
        done := done + Bitmap(entry, cursor, 63);
        cursor := cursor + 63;
      }
      i := i + 1;
    }
    assert done + [] == done;
  }
}

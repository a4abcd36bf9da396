/** The status flags of x86 arithmetic, and how the host's stand for them. */
module StatusFlags {
  import opened Bits
  import opened Arm64

  // Intel condition codes, the low nibble of the opcode
  const CC_B := 2
  const CC_AE := 3
  const CC_E := 4
  const CC_NE := 5
  const CC_BE := 6
  const CC_A := 7
  const CC_S := 8
  const CC_L := 12
  const CC_GE := 13
  const CC_LE := 14
  const CC_G := 15

  datatype GuestFlags = GuestFlags(cf: bool, zf: bool, sf: bool, of: bool)

  /** The flags of CMP a, b on operands below m (Intel SDM Vol. 1, 3.4.3.1). */
  function CmpFlags(a: nat, b: nat, m: nat): GuestFlags
    requires m > 0
  {
    var r := (a - b) % m;
    var d := SInt(a, m) - SInt(b, m);
    GuestFlags(a < b, r == 0, 2 * r >= m, !(0 <= 2 * d + m < 2 * m))
  }

  /** Intel SDM Vol. 1, appendix B; the parity conditions 10 and 11 are not used by the translator. */
  predicate Holds(cc: nat, f: GuestFlags) {
    match cc
    case 0 => f.of
    case 1 => !f.of
    case 2 => f.cf
    case 3 => !f.cf
    case 4 => f.zf
    case 5 => !f.zf
    case 6 => f.cf || f.zf
    case 7 => !f.cf && !f.zf
    case 8 => f.sf
    case 9 => !f.sf
    case 12 => f.sf != f.of
    case 13 => f.sf == f.of
    case 14 => f.zf || f.sf != f.of
    case 15 => !f.zf && f.sf == f.of
    case _ => false
  }

  /** The host keeps the carry inverted: after a subtraction C means "no borrow". */
  predicate FlagsAgree(f: Flags, g: GuestFlags) {
    f.n == g.sf && f.z == g.zf && f.c == !g.cf && f.v == g.of
  }

  /** SUBS, defined by adding the complement, sets the flags that CMP sets by subtracting. */
  lemma SubtractionFlags(a: nat, b: nat, m: nat)
    requires (m == TWO64 || m == TWO32) && a < m && b < m
    ensures FlagsAgree(AddWithCarry(a, m - 1 - b, 1, m).f, CmpFlags(a, b, m))
  {
    if a < b { DivUnique(a - b, m, -1, a - b + m); } else { DivUnique(a - b, m, 0, a - b); }
  }

  /** What the conditions say about the compared numbers. */
  lemma ConditionMeaning(a: nat, b: nat, m: nat)
    requires (m == TWO64 || m == TWO32) && a < m && b < m
    ensures var f := CmpFlags(a, b, m);
      (Holds(CC_E, f) <==> a == b) && (Holds(CC_NE, f) <==> a != b) &&
      (Holds(CC_B, f) <==> a < b) && (Holds(CC_AE, f) <==> a >= b) &&
      (Holds(CC_BE, f) <==> a <= b) && (Holds(CC_A, f) <==> a > b) &&
      (Holds(CC_L, f) <==> SInt(a, m) < SInt(b, m)) && (Holds(CC_GE, f) <==> SInt(a, m) >= SInt(b, m)) &&
      (Holds(CC_LE, f) <==> SInt(a, m) <= SInt(b, m)) && (Holds(CC_G, f) <==> SInt(a, m) > SInt(b, m))
  {
    if a < b { DivUnique(a - b, m, -1, a - b + m); } else { DivUnique(a - b, m, 0, a - b); }
  }

  // ---------------------------------------------------------------- addition

  /** The flags of ADD a, b on operands below m. */
  function AddFlags(a: nat, b: nat, m: nat): GuestFlags
    requires m > 0
  {
    var r := (a + b) % m;
    var d: int := SInt(a, m) + SInt(b, m);
    GuestFlags(a + b >= m, r == 0, 2 * r >= m, !(0 <= 2 * d + m < 2 * m))
  }

  /** All flags but the carry. */
  predicate ResultAgrees(f: Flags, g: GuestFlags) {
    f.n == g.sf && f.z == g.zf && f.v == g.of
  }

  /** ADDS sets the flags of ADD, but the carry is not inverted as after a subtraction. */
  lemma AdditionFlags(a: nat, b: nat, m: nat)
    requires (m == TWO64 || m == TWO32) && a < m && b < m
    ensures var f := AddWithCarry(a, b, 0, m).f; ResultAgrees(f, AddFlags(a, b, m)) && f.c == AddFlags(a, b, m).cf
  {
    if a + b < m { DivUnique(a + b, m, 0, a + b); } else { DivUnique(a + b, m, 1, a + b - m); }
  }

  // ---------------------------------------------------------------- operands that read as zero

  /** CmpFlags without the remainder. */
  function PlainFlags(x: nat, y: nat, m: nat): GuestFlags {
    var d := if x < y then x - y + m else x - y;
    GuestFlags(x < y, x == y, 2 * d >= m, SInt(d, m) != SInt(x, m) - SInt(y, m))
  }

  lemma PlainlyFlags(x: nat, y: nat, m: nat)
    requires (m == TWO64 || m == TWO32) && x < m && y < m
    ensures CmpFlags(x, y, m) == PlainFlags(x, y, m)
  {
    if x < y { DivUnique(x - y, m, -1, x - y + m); } else { DivUnique(x - y, m, 0, x - y); }
  }

  lemma SameFlags(x: nat, m: nat)
    requires (m == TWO64 || m == TWO32) && x < m
    ensures CmpFlags(0, 0, m) == CmpFlags(x, x, m)
  {
    hide CmpFlags;
    PlainlyFlags(x, x, m);
    PlainlyFlags(0, 0, m);
  }

  lemma FirstReadsZero(x: nat, y: nat, m: nat)
    requires (m == TWO64 || m == TWO32) && x < m && y < m
    ensures CmpFlags(0, y, m) == CmpFlags(x, y, m) <==> x == 0 || (x < y && (2 * y <= m || 2 * (y - x) > m))
  {
    hide CmpFlags;
    PlainlyFlags(x, y, m);
    PlainlyFlags(0, y, m);
  }

  lemma SecondReadsZero(x: nat, y: nat, m: nat)
    requires (m == TWO64 || m == TWO32) && x < m && y < m
    ensures CmpFlags(x, 0, m) == CmpFlags(x, y, m) <==> y == 0 || (y < x && (2 * x < m || 2 * (x - y) >= m))
  {
    hide CmpFlags;
    PlainlyFlags(x, y, m);
    PlainlyFlags(x, 0, m);
  }

  /** Subtracting y from x, where the operands marked read as zero, sets the flags of the subtraction: either
      nothing is marked, or the marked one is zero, or the values lie as stated, or both are marked and equal. */
  predicate SubReadsRight(zeroX: bool, zeroY: bool, x: nat, y: nat, m: nat) {
    if zeroX && zeroY then x == y
    else if zeroX then x == 0 || (x < y && (2 * y <= m || 2 * (y - x) > m))
    else if zeroY then y == 0 || (y < x && (2 * x < m || 2 * (x - y) >= m))
    else true
  }

  lemma SubReadsExact(zeroX: bool, zeroY: bool, x: nat, y: nat, m: nat)
    requires (m == TWO64 || m == TWO32) && x < m && y < m && (zeroX && zeroY ==> x == y)
    ensures CmpFlags(if zeroX then 0 else x, if zeroY then 0 else y, m) == CmpFlags(x, y, m)
       <==> SubReadsRight(zeroX, zeroY, x, y, m)
  {
    hide CmpFlags;
    if zeroX && zeroY {
      SameFlags(x, m);
    } else if zeroX {
      FirstReadsZero(x, y, m);
    } else if zeroY {
      SecondReadsZero(x, y, m);
    }
  }

  /** The same for the sum and its flags other than the carry. */
  predicate AddReadsRight(zeroX: bool, zeroY: bool, x: nat, y: nat, m: nat) {
    if zeroX && zeroY then x == 0
    else if zeroX then AddsNothing(y, x, m)
    else if zeroY then AddsNothing(x, y, m)
    else true
  }

  /** x + y has the sign of x, is not zero unless y is, and does not overflow. */
  predicate AddsNothing(x: nat, y: nat, m: nat) {
    var d: int := SInt(x, m) + SInt(y, m);
    y == 0 || (x != 0 && d != 0 && 0 <= 2 * d + m < 2 * m && (d < 0 <==> SInt(x, m) < 0))
  }

  predicate SameResult(f: GuestFlags, g: GuestFlags) {
    f.zf == g.zf && f.sf == g.sf && f.of == g.of
  }

  lemma AddReadsExact(zeroX: bool, zeroY: bool, x: nat, y: nat, m: nat)
    requires (m == TWO64 || m == TWO32) && x < m && y < m && (zeroX && zeroY ==> x == y)
    ensures SameResult(AddFlags(if zeroX then 0 else x, if zeroY then 0 else y, m), AddFlags(x, y, m))
       <==> AddReadsRight(zeroX, zeroY, x, y, m)
  {
    hide AddFlags, AddsNothing;
    if zeroX && zeroY {
      BothAddNothing(x, m);
    } else if zeroX {
      Commutes(0, y, m);
      Commutes(x, y, m);
      SecondAddsNothing(y, x, m);
    } else if zeroY {
      SecondAddsNothing(x, y, m);
    }
  }

  lemma Commutes(x: nat, y: nat, m: nat)
    requires m > 0
    ensures AddFlags(x, y, m) == AddFlags(y, x, m)
  {}

  /** AddFlags without the remainder. */
  function PlainSum(x: nat, y: nat, m: nat): GuestFlags {
    var r := if x + y < m then x + y else x + y - m;
    var d: int := SInt(x, m) + SInt(y, m);
    GuestFlags(x + y >= m, r == 0, 2 * r >= m, !(0 <= 2 * d + m < 2 * m))
  }

  lemma PlainlySums(x: nat, y: nat, m: nat)
    requires (m == TWO64 || m == TWO32) && x < m && y < m
    ensures AddFlags(x, y, m) == PlainSum(x, y, m)
  {
    if x + y < m { DivUnique(x + y, m, 0, x + y); } else { DivUnique(x + y, m, 1, x + y - m); }
  }

  lemma SecondAddsNothing(x: nat, y: nat, m: nat)
    requires (m == TWO64 || m == TWO32) && x < m && y < m
    ensures SameResult(AddFlags(x, 0, m), AddFlags(x, y, m)) <==> AddsNothing(x, y, m)
  {
    hide AddFlags;
    PlainlySums(x, 0, m);
    PlainlySums(x, y, m);
  }

  lemma BothAddNothing(x: nat, m: nat)
    requires (m == TWO64 || m == TWO32) && x < m
    ensures SameResult(AddFlags(0, 0, m), AddFlags(x, x, m)) <==> x == 0
  {
    hide AddFlags;
    PlainlySums(0, 0, m);
    PlainlySums(x, x, m);
  }

  // ---------------------------------------------------------------- what ADD and SUB set

  /** The flags f that the host sets for x + y or x - y when it reads the marked operands as zero: after SUB they
      stand for the x86 flags exactly when that makes no difference; after ADD so do all but the carry, which is
      the x86 carry itself. */
  predicate SetsFlags(sub: bool, f: Flags, zeroX: bool, zeroY: bool, x: nat, y: nat, m: nat)
    requires m > 0
  {
    if sub then FlagsAgree(f, CmpFlags(x, y, m)) <==> SubReadsRight(zeroX, zeroY, x, y, m)
    else
      (ResultAgrees(f, AddFlags(x, y, m)) <==> AddReadsRight(zeroX, zeroY, x, y, m)) &&
      (!zeroX && !zeroY ==> f.c == AddFlags(x, y, m).cf)
  }

  lemma ArithmeticFlags(sub: bool, wide: bool, zeroX: bool, zeroY: bool, x: u64, y: u64)
    requires zeroX && zeroY ==> x == y
    ensures var m := Width(wide);
      SetsFlags(sub, AddSub(if zeroX then 0 else x, if zeroY then 0 else y, wide, sub).f, zeroX, zeroY, x % m, y % m, m)
  {
    hide AddWithCarry, CmpFlags, AddFlags, SubReadsRight, AddReadsRight;
    var m := Width(wide);
    var a, b := if zeroX then 0 else x % m, if zeroY then 0 else y % m;
    if sub {
      SubtractionFlags(a, b, m);
      SubReadsExact(zeroX, zeroY, x % m, y % m, m);
    } else {
      AdditionFlags(a, b, m);
      AddReadsExact(zeroX, zeroY, x % m, y % m, m);
    }
  }
}

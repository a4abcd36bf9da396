/** Byte-addressed memory with little-endian multi-byte access.

    Addresses are those of a flat address space; an access does not wrap around
    the top of the address space. */
module Memory {
  import opened Bits

  ghost predicate Total(m: imap<int, u8>) {
    forall a: int :: a in m
  }

  type Mem = m: imap<int, u8> | Total(m) ghost witness imap a: int | Zero(a) == 0 :: Zero(a)

  function Zero(a: int): u8 { 0 }

  ghost const BLANK: Mem := imap a: int | Zero(a) == 0 :: Zero(a)

  /** The k low bytes of v, least significant first, and back. */
  function LittleEndian(v: nat, k: nat): (s: seq<u8>)
    ensures |s| == k
  {
    if k == 0 then [] else [v % 256] + LittleEndian(v / 256, k - 1)
  }

  function FromBytes(s: seq<u8>): nat {
    if s == [] then 0 else s[0] + 256 * FromBytes(s[1..])
  }

  function Pow256(k: nat): (p: nat)
    ensures p > 0
  {
    if k == 0 then 1 else 256 * Pow256(k - 1)
  }

  lemma {:induction false} BytesRoundTrip(v: nat, k: nat)
    requires v < Pow256(k)
    ensures FromBytes(LittleEndian(v, k)) == v
  {
    if k > 0 { BytesRoundTrip(v / 256, k - 1); }
  }

  lemma {:induction false} FromBytesBound(s: seq<u8>)
    ensures FromBytes(s) < Pow256(|s|)
  {
    if s != [] { FromBytesBound(s[1..]); }
  }

  ghost function WriteBytes(m: Mem, a: int, s: seq<u8>): Mem {
    imap x: int | true :: if a <= x < a + |s| then s[x - a] else m[x]
  }

  ghost function ReadBytes(m: Mem, a: int, k: nat): seq<u8> {
    seq(k, i requires 0 <= i < k => m[a + i])
  }

  lemma ReadWritten(m: Mem, a: int, s: seq<u8>)
    ensures ReadBytes(WriteBytes(m, a, s), a, |s|) == s
  {}

  lemma WritesCommute(m: Mem, a: int, v: seq<u8>, b: int, w: seq<u8>)
    requires a + |v| <= b || b + |w| <= a
    ensures WriteBytes(WriteBytes(m, a, v), b, w) == WriteBytes(WriteBytes(m, b, w), a, v)
  {}

  lemma ReadElsewhere(m: Mem, a: int, v: seq<u8>, b: int, k: nat)
    requires a + |v| <= b || b + k <= a
    ensures ReadBytes(WriteBytes(m, a, v), b, k) == ReadBytes(m, b, k)
  {}

  /** Loads zero-extend; stores truncate.  size is 4 or 8 bytes. */
  ghost function LoadWord(m: Mem, a: int, size: nat): u64 {
    if size == 8 then
      FromBytesBound(ReadBytes(m, a, 8));
      assert Pow256(8) == TWO64;
      FromBytes(ReadBytes(m, a, 8))
    else
      FromBytesBound(ReadBytes(m, a, 4));
      assert Pow256(4) == TWO32;
      FromBytes(ReadBytes(m, a, 4))
  }

  ghost function StoreWord(m: Mem, a: int, size: nat, v: u64): Mem {
    WriteBytes(m, a, LittleEndian(v, if size == 8 then 8 else 4))
  }

  lemma LoadStored(m: Mem, a: int, v: u64)
    ensures LoadWord(StoreWord(m, a, 8, v), a, 8) == v
  {
    assert Pow256(8) == TWO64;
    BytesRoundTrip(v, 8);
    ReadWritten(m, a, LittleEndian(v, 8));
  }

  /** In either size: what is stored is the value modulo the size. */
  lemma StoredValue(m: Mem, a: int, size: nat, v: u64)
    requires size == 8 || (size == 4 && v < TWO32)
    ensures LoadWord(StoreWord(m, a, size, v), a, size) == v
  {
    assert Pow256(8) == TWO64 && Pow256(4) == TWO32;
    BytesRoundTrip(v, size);
    ReadWritten(m, a, LittleEndian(v, size));
  }

  lemma LoadElsewhere(m: Mem, a: int, v: u64, b: int)
    requires a + 8 <= b || b + 8 <= a
    ensures LoadWord(StoreWord(m, a, 8, v), b, 8) == LoadWord(m, b, 8)
  {
    ReadElsewhere(m, a, LittleEndian(v, 8), b, 8);
  }
}

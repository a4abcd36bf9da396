/** The compiling context of src/memory.h: positions in guest and host code, emit32, patch and fetch. */
module CompileContext {
  import opened Bits
  import opened Operands
  import opened Addressing

  lemma SignedBytes(w: u32, v: int)
    requires v == w || v == w - 0x1_0000_0000
    ensures v % 0x100 == w % 0x100 && (v / 0x100) % 0x100 == (w / 0x100) % 0x100
    ensures (v / 0x1_0000) % 0x100 == (w / 0x1_0000) % 0x100 && (v / 0x100_0000) % 0x100 == w / 0x100_0000
  {
    if v != w {
      SignedByte(w, 1, 0x1_0000_0000);
      SignedByte(w, 0x100, 0x100_0000);
      SignedByte(w, 0x1_0000, 0x1_0000);
      SignedByte(w, 0x100_0000, 0x100);
    }
    assert w / 0x100_0000 < 0x100;
  }

  lemma SignedByte(w: int, p: nat, q: nat)
    requires p > 0 && q % 0x100 == 0
    ensures ((w - p * q) / p) % 0x100 == (w / p) % 0x100
  {
    assert w - p * q == p * (w / p - q) + w % p;
    DivUnique(w - p * q, p, w / p - q, w % p);
    assert q == 0x100 * (q / 0x100);
    var x := w / p;
    DivUnique(x - q, 0x100, x / 0x100 - q / 0x100, x % 0x100);
  }

  class Context {
    const code: Code
    const guestBase: u64
    const hostBase: u64
    const host: array<nat>
    var gp: nat
    var hp: nat
    var loffp: nat
    var block: nat

    constructor (code: Code, guestBase: u64, hostBase: u64, host: array<nat>, gp: nat, hp: nat)
      requires hp <= host.Length
      ensures this.code == code && this.guestBase == guestBase && this.hostBase == hostBase && this.host == host
      ensures this.gp == gp && this.hp == hp && loffp == 0 && Valid()
    {
      this.code, this.guestBase, this.hostBase, this.host := code, guestBase, hostBase, host;
      this.gp, this.hp, loffp, block := gp, hp, 0, 0;
    }

    ghost predicate Valid()
      reads this
    {
      hp <= host.Length
    }

    predicate Room(n: nat)
      reads this
    {
      hp + n <= host.Length
    }

    /** The host words in front of the current position. */
    ghost function Emitted(): seq<nat>
      requires Valid()
      reads this, host
    {
      host[..hp]
    }

    function At(): Place
      reads this
    {
      Place(U64(guestBase + gp), U64(hostBase + 4 * hp))
    }

    method Emit32(w: nat)
      requires Valid() && Room(1)
      modifies this`hp, host
      ensures Valid() && hp == old(hp) + 1 && Emitted() == old(Emitted()) + [w]
    {
      host[hp] := w;
      hp := hp + 1;
    }

    /** Rewinding: the last n words are forgotten. */
    method Patch(n: nat)
      requires Valid() && n <= hp
      modifies this`hp
      ensures Valid() && hp == old(hp) - n && Emitted() == old(Emitted())[..old(hp) - n]
    {
      hp := hp - n;
    }

    method Fetch8() returns (b: u8)
      modifies this`gp
      ensures gp == old(gp) + 1 && b == code(old(gp))
    {
      b := code(gp);
      gp := gp + 1;
    }

    method FetchInt8() returns (v: int)
      modifies this`gp
      ensures gp == old(gp) + 1 && v == Int8(code(old(gp)))
      ensures -0x80 <= v < 0x80 && v % 0x100 == code(old(gp))
    {
      var b := Fetch8();
      v := Int8(b);
    }

    /** fetch32, sign-extended as every caller does. */
    method FetchInt32() returns (v: int)
      modifies this`gp
      ensures gp == old(gp) + 4 && v == Int32(Fetch32(code, old(gp)))
      ensures -0x8000_0000 <= v < 0x8000_0000 && v % 0x100 == code(old(gp))
      ensures (v / 0x100) % 0x100 == code(old(gp) + 1) && (v / 0x1_0000) % 0x100 == code(old(gp) + 2)
      ensures (v / 0x100_0000) % 0x100 == code(old(gp) + 3)
    {
      FetchedBytes(code, gp);
      SignedBytes(Fetch32(code, gp), Int32(Fetch32(code, gp)));
      v := Int32(Fetch32(code, gp));
      gp := gp + 4;
    }
  }
}

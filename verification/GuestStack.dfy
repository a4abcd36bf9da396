/** The initial stack of the guest program: src/stack.c as src/main.c uses it. */
module GuestStack {
  import opened Bits
  import opened Options

  /** The bytes of a C string in front of its NUL. */
  type Text = seq<u8>

  datatype Aux = Aux(kind: u64, value: u64)

  /** Bytes that the strings and their pointers take. */
  function Need(strings: seq<Text>): nat {
    if strings == [] then 0 else |strings[0]| + 9 + Need(strings[1..])
  }

  function Flat(auxv: seq<Aux>): (r: seq<u64>)
    ensures |r| == 2 * |auxv|
  {
    if auxv == [] then [] else [auxv[0].kind, auxv[0].value] + Flat(auxv[1..])
  }

  /** Entry after entry, the kind in front of the value. */
  lemma {:induction false} FlatEntries(auxv: seq<Aux>, i: nat)
    requires i < |auxv|
    ensures Flat(auxv)[2 * i] == auxv[i].kind && Flat(auxv)[2 * i + 1] == auxv[i].value
  {
    if i > 0 { FlatEntries(auxv[1..], i - 1); }
  }

  function Backwards<T>(s: seq<T>): (r: seq<T>)
    ensures |r| == |s| && forall i :: 0 <= i < |s| ==> r[i] == s[|s| - 1 - i]
  {
    if s == [] then [] else Backwards(s[1..]) + [s[0]]
  }

  lemma Regroup<T>(a: seq<T>, b: seq<T>, c: seq<T>)
    ensures a + (b + c) == (a + b) + c
  {}

  /** A NUL-terminated copy of s is at address p in the bytes from origin on. */
  ghost predicate Holds(bytes: seq<u8>, origin: nat, p: u64, s: Text) {
    origin <= p && p - origin + |s| < |bytes| && bytes[p - origin..p - origin + |s|] == s &&
    bytes[p - origin + |s|] == 0
  }

  /** Every pointer leads to its string, each to a copy of its own, the last one pushed lying highest. */
  ghost predicate AllHold(bytes: seq<u8>, origin: nat, ps: seq<u64>, strings: seq<Text>) {
    |ps| == |strings| && (forall i :: 0 <= i < |ps| ==> Holds(bytes, origin, ps[i], strings[i])) && Apart(ps, strings)
  }

  /** The copies, each with its NUL, do not overlap. */
  ghost predicate Apart(ps: seq<u64>, strings: seq<Text>)
    requires |ps| == |strings|
  {
    forall i, j :: 0 <= i < j < |ps| ==> ps[j] + |strings[j]| < ps[i]
  }

  ghost predicate Descending(ps: seq<u64>) {
    forall i, j :: 0 <= i < j < |ps| ==> ps[i] > ps[j]
  }

  lemma StillHeld(bytes: seq<u8>, more: seq<u8>, origin: nat, ps: seq<u64>, strings: seq<Text>)
    requires AllHold(bytes, origin, ps, strings) && bytes <= more
    ensures AllHold(more, origin, ps, strings)
  {
    forall i | 0 <= i < |ps| ensures Holds(more, origin, ps[i], strings[i]) {
      assert Holds(bytes, origin, ps[i], strings[i]);
      var o, n := ps[i] - origin, |strings[i]|;
      assert more[o..o + n] == bytes[o..o + n];
    }
  }

  /** One more string behind the others. */
  lemma OneMore(bytes: seq<u8>, s: Text, origin: nat, ps: seq<u64>, strings: seq<Text>)
    requires AllHold(bytes, origin, ps, strings) && origin + |bytes| < TWO64
    ensures AllHold(bytes + (s + [0]), origin, [origin + |bytes|] + ps, [s] + strings)
  {
    forall i | 0 <= i < |ps| ensures ps[i] + |strings[i]| < origin + |bytes| {
      assert Holds(bytes, origin, ps[i], strings[i]);
    }
    hide Holds;
    StillHeld(bytes, bytes + (s + [0]), origin, ps, strings);
    NewHeld(bytes, s, origin);
  }

  lemma NewHeld(bytes: seq<u8>, s: Text, origin: nat)
    requires origin + |bytes| < TWO64
    ensures Holds(bytes + (s + [0]), origin, origin + |bytes|, s)
  {}

  /** No pointer lies below a. */
  ghost predicate From(ps: seq<u64>, a: int) {
    forall i :: 0 <= i < |ps| ==> ps[i] >= a
  }

  /** Two lists of strings, one behind the other. */
  lemma JoinHeld(bytes: seq<u8>, more: seq<u8>, origin: nat, ps: seq<u64>, args: seq<Text>, qs: seq<u64>,
    env: seq<Text>)
    requires AllHold(bytes, origin, qs, env) && bytes <= more && AllHold(more, origin, ps, args) &&
      From(ps, origin + |bytes|)
    ensures |ps| == |args| && |qs| == |env| && AllHold(more, origin, ps + qs, args + env)
  {
    forall j | 0 <= j < |qs| ensures qs[j] + |env[j]| < origin + |bytes| { assert Holds(bytes, origin, qs[j], env[j]); }
    StillHeld(bytes, more, origin, qs, env);
    hide Holds;
    var all, strings := ps + qs, args + env;
    forall i | 0 <= i < |all| ensures Holds(more, origin, all[i], strings[i]) {
      if i < |ps| {
        assert Holds(more, origin, ps[i], args[i]);
      } else {
        assert Holds(more, origin, qs[i - |ps|], env[i - |ps|]);
      }
    }
    forall i, j | 0 <= i < j < |all| ensures all[j] + |strings[j]| < all[i] {
      if i >= |ps| { assert all[i] == qs[i - |ps|] && all[j] == qs[j - |ps|] && strings[j] == env[j - |ps|]; }
      else if j < |ps| { assert strings[j] == args[j]; }
      else { assert all[j] == qs[j - |ps|] && strings[j] == env[j - |ps|]; }
    }
  }

  /** ps stand in front of base. */
  ghost predicate Behind(all: seq<u64>, ps: seq<u64>, base: seq<u64>) {
    all == ps + base
  }

  lemma NothingBehind(base: seq<u64>)
    ensures Behind(base, [], base)
  {}

  lemma MoreBehind(p: u64, all: seq<u64>, ps: seq<u64>, base: seq<u64>)
    requires Behind(all, ps, base)
    ensures Behind([p] + all, [p] + ps, base)
  {}

  lemma BehindMeans(all: seq<u64>, ps: seq<u64>, base: seq<u64>)
    requires Behind(all, ps, base)
    ensures all == ps + base
  {}

  lemma FlatFrom(auxv: seq<Aux>, i: nat)
    requires i <= |auxv|
    ensures Flat(auxv[i..]) == if i == |auxv| then [] else [auxv[i].kind, auxv[i].value] + Flat(auxv[i + 1..])
  {
    if i < |auxv| { assert auxv[i..][0] == auxv[i] && auxv[i..][1..] == auxv[i + 1..]; }
  }

  /** One area: strings are copied upwards from its start (dp), words pushed down from its end (sp).
      Text holds its bytes below dp and words its 64-bit words from sp on; the two never meet. */
  class Stack {
    const origin: nat
    const text: array<u8>
    const words: array<u64>
    var dp: nat
    var sp: nat
    var argc: nat

    constructor (origin: nat, size: nat)
      requires origin % 16 == 0 && size % 16 == 0 && origin + size <= TWO64 && size > 0
      ensures Valid() && fresh(text) && fresh(words) && argc == 0 && Pushed() == [] && dp == 0 &&
        words.Length * 8 == size
    {
      this.origin := origin;
      text := new u8[size](_ => 0);
      words := new u64[size / 8](_ => 0);
      dp, sp, argc := 0, size / 8, 0;
    }

    ghost predicate Valid()
      reads this
    {
      origin % 16 == 0 && words.Length % 2 == 0 && text.Length == 8 * words.Length && origin + text.Length <= TWO64 &&
      0 < sp <= words.Length && dp <= 8 * sp && argc <= words.Length - sp
    }

    predicate Room(n: nat)
      reads this
    {
      dp + n < 8 * sp
    }

    /** The words from sp to the end of the area. */
    ghost function Pushed(): seq<u64>
      requires Valid()
      reads this, words
    {
      words[sp..]
    }

    /** The copied strings. */
    ghost function Bytes(): seq<u8>
      requires Valid()
      reads this, text
    {
      text[..dp]
    }

    method PushWord(w: u64)
      requires Valid() && Room(8)
      modifies this`sp, words
      ensures Valid() && sp == old(sp) - 1 && Pushed() == [w] + old(Pushed())
    {
      sp := sp - 1;
      words[sp] := w;
    }

    /** push_envp. */
    method PushEnvp(env: Option<Text>)
      requires Valid() && Room(if env.Some? then |env.value| + 9 else 8)
      modifies this`sp, this`dp, words, text
      ensures Valid() && sp == old(sp) - 1
      ensures Bytes() == old(Bytes()) + if env.Some? then env.value + [0] else []
      ensures Pushed() == [if env.Some? then origin + old(dp) else 0] + old(Pushed())
    {
      if env.Some? {
        var s := env.value;
        PushWord(origin + dp);
        forall i | 0 <= i < |s| { text[dp + i] := s[i]; }
        text[dp + |s|] := 0;
        dp := dp + |s| + 1;
      } else {
        PushWord(0);
      }
    }

    /** push_arg: the same, and counted. */
    method PushArg(arg: Option<Text>)
      requires Valid() && Room(if arg.Some? then |arg.value| + 9 else 8)
      modifies this`sp, this`dp, this`argc, words, text
      ensures Valid() && sp == old(sp) - 1 && argc == old(argc) + if arg.Some? then 1 else 0
      ensures Bytes() == old(Bytes()) + if arg.Some? then arg.value + [0] else []
      ensures Pushed() == [if arg.Some? then origin + old(dp) else 0] + old(Pushed())
    {
      PushEnvp(arg);
      if arg.Some? { argc := argc + 1; }
    }

    method PushAux(x: Aux)
      requires Valid() && Room(16)
      modifies this`sp, words
      ensures Valid() && sp == old(sp) - 2 && Pushed() == [x.kind, x.value] + old(Pushed())
    {
      PushWord(x.value);
      PushWord(x.kind);
    }

    /** set_auxv. */
    method SetAuxv(auxv: seq<Aux>)
      requires Valid() && Room(16 * |auxv|)
      modifies this`sp, words
      ensures Valid() && sp == old(sp) - 2 * |auxv| && Pushed() == Flat(auxv) + old(Pushed())
    {
      hide Flat;
      ghost var base := Pushed();
      var i: nat := |auxv|;
      FlatFrom(auxv, i);
      while i > 0
        invariant i <= |auxv| && Valid() && sp == old(sp) - 2 * (|auxv| - i) && Pushed() == Flat(auxv[i..]) + base
      {
        i := i - 1;
        FlatFrom(auxv, i);
        PushAux(auxv[i]);
        Regroup([auxv[i].kind, auxv[i].value], Flat(auxv[i + 1..]), base);
      }
      assert auxv[0..] == auxv;
    }

    /** push_argc: if the count would leave sp unaligned, everything moves down by one word first, which
        leaves the last word standing twice. */
    method PushArgc()
      requires Valid() && Room(16)
      modifies this`sp, words
      ensures Valid() && Aligned16(origin + 8 * sp)
      ensures Pushed() == [argc] + (old(Pushed()) + if old(sp) % 2 == 0 then [old(words[words.Length - 1])] else [])
    {
      hide Aligned16;
      Parity(origin, sp);
      Parity(origin, sp - 1);
      if Aligned16(origin + 8 * sp) {
        MoveDown();
      }
      Parity(origin, sp - 1);
      PushWord(argc);
    }

    /** memmove of the pushed words to the word below. */
    method MoveDown()
      requires Valid() && Room(16)
      modifies this`sp, words
      ensures Valid() && sp == old(sp) - 1 && Room(8) && Pushed() == old(Pushed()) + [old(words[words.Length - 1])]
    {
      var k := sp;
      while k < words.Length
        invariant sp == old(sp) && sp <= k <= words.Length
        invariant forall i :: sp - 1 <= i < k - 1 ==> words[i] == old(words[i + 1])
        invariant forall i :: k <= i < words.Length ==> words[i] == old(words[i])
        invariant words[words.Length - 1] == old(words[words.Length - 1])
      {
        words[k - 1] := words[k];
        k := k + 1;
      }
      sp := sp - 1;
    }

    /** The loop of main over the arguments, last one first. */
    method PushArgs(args: seq<Text>) returns (ghost ps: seq<u64>)
      requires Valid() && Room(Need(args))
      modifies this`sp, this`dp, this`argc, words, text
      ensures Valid() && old(Bytes()) <= Bytes() && 8 * sp - dp == old(8 * sp - dp) - Need(args)
      ensures argc == old(argc) + |args| && Pushed() == ps + old(Pushed()) && AllHold(Bytes(), origin, ps, args)
      ensures From(ps, origin + old(dp))
    {
      hide Need, AllHold, Behind;
      ghost var base := Pushed();
      NothingBehind(base);
      var n: nat := |args|;
      ps := [];
      Nothing(Bytes(), origin, args);
      while n > 0
        invariant n <= |args| && Valid() && old(Bytes()) <= Bytes() && argc == old(argc) + |args| - n
        invariant 8 * sp - dp == old(8 * sp - dp) - Need(args[n..])
        invariant Behind(Pushed(), ps, base) && AllHold(Bytes(), origin, ps, args[n..])
        invariant From(ps, origin + old(dp)) && old(dp) <= dp
      {
        n := n - 1;
        NeedFrom(args, n);
        OneMore(Bytes(), args[n], origin, ps, args[n + 1..]);
        assert [args[n]] + args[n + 1..] == args[n..];
        ghost var p: u64, all := origin + dp, Pushed();
        PushArg(Some(args[n]));
        MoreBehind(p, all, ps, base);
        ps := [p] + ps;
      }
      assert args[0..] == args;
      BehindMeans(Pushed(), ps, base);
    }

    /** The loop of set_envp, first string first, so that they end up last to first. */
    method PushEnv(env: seq<Text>) returns (ghost qs: seq<u64>)
      requires Valid() && Room(Need(env))
      modifies this`sp, this`dp, words, text
      ensures Valid() && 8 * sp - dp == old(8 * sp - dp) - Need(env)
      ensures Pushed() == qs + old(Pushed()) && AllHold(Bytes(), origin, qs, Backwards(env))
    {
      hide Need, AllHold, Backwards, Behind;
      ghost var base := Pushed();
      NothingBehind(base);
      var e: nat := 0;
      qs := [];
      NothingBackwards(Bytes(), origin, env);
      assert env[0..] == env;
      while e < |env|
        invariant e <= |env| && Valid() && Behind(Pushed(), qs, base) &&
          AllHold(Bytes(), origin, qs, Backwards(env[..e]))
        invariant 8 * sp - dp == old(8 * sp - dp) - Need(env) + Need(env[e..])
      {
        NeedFrom(env, e);
        NextBackwards(env, e);
        OneMore(Bytes(), env[e], origin, qs, Backwards(env[..e]));
        ghost var q: u64, all := origin + dp, Pushed();
        PushEnvp(Some(env[e]));
        MoreBehind(q, all, qs, base);
        qs := [q] + qs;
        e := e + 1;
      }
      assert env[..e] == env;
      BehindMeans(Pushed(), qs, base);
    }

    /** set_envp: the terminator, then the strings. */
    method SetEnvp(env: seq<Text>) returns (ghost qs: seq<u64>)
      requires Valid() && Room(8 + Need(env))
      modifies this`sp, this`dp, words, text
      ensures Valid() && 8 * sp - dp == old(8 * sp - dp) - 8 - Need(env)
      ensures Pushed() == qs + ([0] + old(Pushed())) && AllHold(Bytes(), origin, qs, Backwards(env))
    {
      hide Need, AllHold, Backwards;
      PushEnvp(None);
      qs := PushEnv(env);
    }

    /** What main pushes in front of the arguments. */
    method BuildTail(env: seq<Text>, auxv: seq<Aux>) returns (ghost qs: seq<u64>)
      requires Valid() && Pushed() == [] && Room(Need(env) + 16 * |auxv| + 16)
      modifies this`sp, this`dp, this`argc, words, text
      ensures Valid() && argc == old(argc) && 8 * sp - dp == old(8 * sp - dp) - Need(env) - 16 * |auxv| - 16
      ensures Pushed() != [] && TailIs(Pushed(), Flat(auxv), qs) && AllHold(Bytes(), origin, qs, Backwards(env))
    {
      hide Need, AllHold, Backwards, Flat;
      qs := SetEnvp(env);
      assert qs + ([0] + []) == qs + [0];
      ghost var bytes := Bytes();
      SetAuxv(auxv);
      PushArg(None);
      StillHeld(bytes, Bytes(), origin, qs, Backwards(env));
    }

    /** main: the environment, the auxiliary vector, the arguments with their terminator, the count.
        At the aligned sp the program finds the count, the pointers to its arguments in order and 0;
        behind them come the auxiliary vector, the environment backwards and a terminator. */
    method Build(env: seq<Text>, auxv: seq<Aux>, args: seq<Text>) returns (ghost ps: seq<u64>, ghost qs: seq<u64>)
      requires Valid() && Pushed() == [] && argc == 0
      requires Room(Need(env) + Need(args) + 16 * |auxv| + 32)
      modifies this`sp, this`dp, this`argc, words, text
      ensures Valid() && Aligned16(origin + 8 * sp)
      ensures argc == |args| && LaidOut(Pushed(), argc, ps, Flat(auxv), qs)
      ensures |ps| == |args| && |qs| == |env| && AllHold(Bytes(), origin, ps + qs, args + Backwards(env))
    {
      hide Need, AllHold, Backwards, Flat, LaidOut, TailIs, From;
      qs := BuildTail(env, auxv);
      ghost var bytes, tail := Bytes(), Pushed();
      ps := PushArgs(args);
      JoinHeld(bytes, Bytes(), origin, ps, args, qs, Backwards(env));
      BuildCount(ps, tail, Flat(auxv), qs);
    }

    /** The count on top of the rest. */
    method BuildCount(ghost ps: seq<u64>, ghost tail: seq<u64>, ghost aux: seq<u64>, ghost qs: seq<u64>)
      requires Valid() && Room(16) && Pushed() == ps + tail && tail != [] && TailIs(tail, aux, qs)
      modifies this`sp, words
      ensures Valid() && Aligned16(origin + 8 * sp) && LaidOut(Pushed(), argc, ps, aux, qs)
    {
      hide LaidOut, TailIs, Aligned16;
      ghost var all := ps + tail;
      ghost var pad := if sp % 2 == 0 then [all[|all| - 1]] else [];
      assert words[words.Length - 1] == Pushed()[|Pushed()| - 1];
      Image(argc, ps, aux, qs, tail, pad);
      PushArgc();
    }
  }

  predicate Aligned16(address: int) { address % 16 == 0 }

  lemma Parity(origin: nat, sp: int)
    requires origin % 16 == 0
    ensures Aligned16(origin + 8 * sp) <==> sp % 2 == 0
  {
    assert (origin + 8 * sp) % 16 == (8 * sp) % 16;
    assert 8 * sp == 16 * (sp / 2) + 8 * (sp % 2);
  }

  /** The count, the argument pointers and 0, the auxiliary vector, the environment and 0, and at most
      one word of padding. */
  ghost predicate LaidOut(pushed: seq<u64>, count: u64, ps: seq<u64>, aux: seq<u64>, qs: seq<u64>) {
    var image := [count] + ps + [0] + aux + qs + [0];
    pushed == image || pushed == image + [0]
  }

  // ---------------------------------------------------------------- against the ABI

  /** AMD64 System V ABI, section 3.4.1: the environment pointers stand behind the arguments, and the
      auxiliary vector behind their terminator. */
  ghost predicate AbiImage(pushed: seq<u64>, count: u64, ps: seq<u64>, env: seq<u64>, aux: seq<u64>) {
    [count] + ps + [0] + env + [0] + aux <= pushed
  }

  /** The last entry is AT_NULL. */
  predicate Terminated(aux: seq<u64>) {
    aux == [] || (|aux| >= 2 && aux[|aux| - 2] == 0)
  }

  ghost predicate AllZero(aux: seq<u64>) {
    forall i :: 0 <= i < |aux| ==> aux[i] == 0
  }

  /** The layout is the ABI's exactly when there is no auxiliary vector and at most one environment string,
      or no environment and nothing but zeros in the vector. */
  lemma AbiExact(pushed: seq<u64>, count: u64, ps: seq<u64>, aux: seq<u64>, qs: seq<u64>)
    requires LaidOut(pushed, count, ps, aux, qs) && Descending(qs) && 0 !in qs && Terminated(aux)
    ensures AbiImage(pushed, count, ps, Backwards(qs), aux) <==> (aux == [] && |qs| <= 1) || (qs == [] && AllZero(aux))
  {
    hide *;
    var front, left, right := [count] + ps + [0], aux + qs + [0], Backwards(qs) + [0] + aux;
    SamePrefix(pushed, front, left, right, count, ps, aux, qs);
    SidesExact(aux, qs);
  }

  lemma SamePrefix(pushed: seq<u64>, front: seq<u64>, left: seq<u64>, right: seq<u64>, count: u64, ps: seq<u64>,
    aux: seq<u64>, qs: seq<u64>)
    requires LaidOut(pushed, count, ps, aux, qs)
    requires front == [count] + ps + [0] && left == aux + qs + [0] && right == Backwards(qs) + [0] + aux
    ensures AbiImage(pushed, count, ps, Backwards(qs), aux) <==> left == right
  {
    hide Backwards;
    assert [count] + ps + [0] + aux + qs + [0] == front + left;
    assert [count] + ps + [0] + Backwards(qs) + [0] + aux == front + right;
    assert front + left <= pushed;
    assert left == (front + left)[|front|..] && right == (front + right)[|front|..];
  }

  lemma SidesExact(aux: seq<u64>, qs: seq<u64>)
    requires Descending(qs) && 0 !in qs && Terminated(aux)
    ensures aux + qs + [0] == Backwards(qs) + [0] + aux <==> (aux == [] && |qs| <= 1) || (qs == [] && AllZero(aux))
  {
    hide Backwards, AllZero, Descending, Terminated;
    var rev := Backwards(qs);
    if qs == [] {
      NoPointers(aux, qs, rev);
      ShiftedZeros(aux);
    } else if aux == [] {
      NoVector(aux, qs, rev);
      SelfReverse(qs, rev);
    } else {
      TerminatorInside(aux);
      LastButOne(aux, qs, rev);
    }
  }

  lemma NoPointers(aux: seq<u64>, qs: seq<u64>, rev: seq<u64>)
    requires qs == rev == []
    ensures aux + qs + [0] == aux + [0] && rev + [0] + aux == [0] + aux
  {}

  lemma NoVector(aux: seq<u64>, qs: seq<u64>, rev: seq<u64>)
    requires aux == []
    ensures aux + qs + [0] == qs + [0] && rev + [0] + aux == rev + [0]
  {}

  lemma TerminatorInside(aux: seq<u64>)
    requires Terminated(aux) && aux != []
    ensures |aux| >= 2 && aux[|aux| - 2] == 0
  {}

  lemma SelfReverse(qs: seq<u64>, rev: seq<u64>)
    requires qs != [] && Descending(qs) && |rev| == |qs| && forall i :: 0 <= i < |qs| ==> rev[i] == qs[|qs| - 1 - i]
    ensures qs + [0] == rev + [0] <==> |qs| <= 1
  {
    if |qs| == 1 { assert qs == rev; } else { assert (qs + [0])[0] == qs[0] && (rev + [0])[0] == qs[|qs| - 1]; }
  }

  lemma LastButOne(aux: seq<u64>, qs: seq<u64>, rev: seq<u64>)
    requires qs != [] && 0 !in qs && |aux| >= 2 && aux[|aux| - 2] == 0 && |rev| == |qs|
    ensures aux + qs + [0] != rev + [0] + aux
  {
    var k := |aux| + |qs| - 1;
    assert (aux + qs + [0])[k] == qs[|qs| - 1] && (rev + [0] + aux)[k] == aux[|aux| - 2];
  }

  lemma ShiftedZeros(aux: seq<u64>)
    ensures aux + [0] == [0] + aux <==> AllZero(aux)
  {
    if aux + [0] == [0] + aux {
      forall i | 0 <= i < |aux| ensures aux[i] == 0 { ZeroAt(aux, i); }
    }
  }

  lemma {:induction false} ZeroAt(aux: seq<u64>, i: nat)
    requires aux + [0] == [0] + aux && i < |aux|
    ensures aux[i] == 0
  {
    assert (aux + [0])[i] == aux[i];
    if i > 0 { ZeroAt(aux, i - 1); }
  }

  /** In terms of what Build has laid out, in an area that does not begin at address 0. */
  lemma BuildAbiExact(bytes: seq<u8>, origin: nat, pushed: seq<u64>, count: u64, ps: seq<u64>, aux: seq<u64>,
                      qs: seq<u64>, args: seq<Text>, env: seq<Text>)
    requires LaidOut(pushed, count, ps, aux, qs) && origin > 0 && Terminated(aux)
    requires |ps| == |args| && |qs| == |env| && AllHold(bytes, origin, ps + qs, args + Backwards(env))
    ensures AbiImage(pushed, count, ps, Backwards(qs), aux)
       <==> (aux == [] && |env| <= 1) || (env == [] && AllZero(aux))
  {
    hide *;
    EnvironmentPointers(bytes, origin, ps, qs, args, Backwards(env));
    AbiExact(pushed, count, ps, aux, qs);
  }

  lemma EnvironmentPointers(bytes: seq<u8>, origin: nat, ps: seq<u64>, qs: seq<u64>, args: seq<Text>, env: seq<Text>)
    requires |ps| == |args| && AllHold(bytes, origin, ps + qs, args + env) && origin > 0
    ensures Descending(qs) && 0 !in qs
  {
    var all, strings, n := ps + qs, args + env, |ps|;
    forall i | 0 <= i < |qs| ensures qs[i] != 0 { assert Holds(bytes, origin, all[n + i], strings[n + i]); }
    forall i, j | 0 <= i < j < |qs| ensures qs[i] > qs[j] {
      assert all[n + i] == qs[i] && all[n + j] == qs[j] && all[n + j] + |strings[n + j]| < all[n + i];
    }
  }

  /** With any environment and a vector, what the program takes for its first environment pointer is the
      vector's first entry. */
  lemma VectorForEnvironment(pushed: seq<u64>, count: u64, ps: seq<u64>, aux: seq<u64>, qs: seq<u64>)
    requires LaidOut(pushed, count, ps, aux, qs) && Descending(qs) && 0 !in qs && Terminated(aux) && aux != [] &&
      qs != []
    ensures !AbiImage(pushed, count, ps, Backwards(qs), aux) && |ps| + 2 < |pushed| && pushed[|ps| + 2] == aux[0]
  {
    AbiExact(pushed, count, ps, aux, qs);
    assert ([count] + ps + [0] + aux + qs + [0])[|ps| + 2] == aux[0];
  }

  /** The words behind the argument pointers. */
  ghost predicate TailIs(tail: seq<u64>, aux: seq<u64>, qs: seq<u64>) {
    tail == [0] + (aux + (qs + [0]))
  }

  lemma Image(count: u64, ps: seq<u64>, aux: seq<u64>, qs: seq<u64>, tail: seq<u64>, pad: seq<u64>)
    requires TailIs(tail, aux, qs) && (pad == [] || pad == [(ps + tail)[|ps + tail| - 1]])
    ensures LaidOut([count] + ((ps + tail) + pad), count, ps, aux, qs)
  {
    assert [count] + ((ps + tail) + pad) == [count] + ps + [0] + aux + qs + [0] + pad;
  }

  lemma Nothing(bytes: seq<u8>, origin: nat, args: seq<Text>)
    ensures AllHold(bytes, origin, [], args[|args|..]) && Need(args[|args|..]) == 0
  {}

  lemma NothingBackwards(bytes: seq<u8>, origin: nat, env: seq<Text>)
    ensures AllHold(bytes, origin, [], Backwards(env[..0])) && Need(env[|env|..]) == 0
  {}

  lemma NextBackwards(s: seq<Text>, e: nat)
    requires e < |s|
    ensures Backwards(s[..e + 1]) == [s[e]] + Backwards(s[..e])
  {}

  lemma NeedFrom(args: seq<Text>, n: nat)
    requires n < |args|
    ensures Need(args[n..]) == |args[n]| + 9 + Need(args[n + 1..])
    ensures Need(args[n..]) <= Need(args)
  {
    assert args[n..][0] == args[n] && args[n..][1..] == args[n + 1..];
    NeedSuffix(args, n);
  }

  lemma {:induction false} NeedSuffix(args: seq<Text>, n: nat)
    requires n <= |args|
    ensures Need(args[n..]) <= Need(args)
  {
    if n > 0 {
      NeedSuffix(args[1..], n - 1);
      assert args[1..][n - 1..] == args[n..];
    } else {
      assert args[0..] == args;
    }
  }
}

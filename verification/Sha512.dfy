/** The streaming interface of SHA-512 over its compression function. */
module Sha512 {
  import opened Arith
  import opened Bytes
  import Binary

  const TWO64: nat := 0x1_0000_0000_0000_0000

  type uint64 = x: int | 0 <= x < TWO64

  type State = s: seq<uint64> | |s| == 8 witness [0, 0, 0, 0, 0, 0, 0, 0]

  /** Compresses one block of 128 bytes into the state. */
  type Compression = (State, seq<byte>) -> State

  const IV: State := [
    0x6a09e667f3bcc908, 0xbb67ae8584caa73b, 0x3c6ef372fe94f82b, 0xa54ff53a5f1d36f1,
    0x510e527fade682d1, 0x9b05688c2b3e6c1f, 0x1f83d9abfb41bd6b, 0x5be0cd19137e2179
  ]

  /** The first eight primes. */
  const PRIMES: seq<nat> := [2, 3, 5, 7, 11, 13, 17, 19]

  ghost predicate IsPrime(n: nat) {
    n >= 2 && forall d :: 2 <= d < n ==> n % d != 0
  }

  lemma FirstPrimes(n: nat)
    requires n < 23
    ensures IsPrime(n) <==> n in PRIMES
  {
    if n in {4, 6, 8, 10, 12, 14, 16, 18, 20, 22} {
      assert n % 2 == 0;
    } else if n in {9, 15, 21} {
      assert n % 3 == 0;
    }
  }

  /** Word i of the initial state is the fractional part of the square root of the i-th prime: x is the root, times 2^64. */
  lemma InitialWord(i: nat) returns (x: nat)
    requires i < 8
    ensures x * x <= PRIMES[i] * TWO64 * TWO64 < (x + 1) * (x + 1) && IV[i] == x % TWO64
  {
    x := [1, 1, 2, 2, 3, 3, 4, 4][i] * TWO64 + IV[i];
  }

  // ---------- the digest of a whole message ----------

  /** Most significant byte first. */
  function PutBe64(x: nat): (r: seq<byte>)
    ensures |r| == 8
  {
    PutBe32(x / 0x1_0000_0000) + PutBe32(x)
  }

  /** What is stored as 64 bits writes down the value modulo 2^64. */
  lemma StoredNumeral64(x: nat)
    ensures BeVal(PutBe64(x)) == x % TWO64
  {
    hide BeVal, PutBe32;
    var h, l := PutBe32(x / 0x1_0000_0000), PutBe32(x);
    StoredNumeral(x / 0x1_0000_0000);
    StoredNumeral(x);
    EmptyNumeral();
    BeValTwo(h, l[0], l[1]);
    BeValTwo(h + [l[0], l[1]], l[2], l[3]);
    assert h + [l[0], l[1]] + [l[2], l[3]] == h + l;
    BeValTwo([], l[0], l[1]);
    BeValTwo([l[0], l[1]], l[2], l[3]);
    assert [] + [l[0], l[1]] == [l[0], l[1]] && [l[0], l[1]] + [l[2], l[3]] == l;
    TwoHalves(x);
  }

  lemma TwoHalves(x: nat)
    ensures x % TWO64 == 0x1_0000_0000 * (x / 0x1_0000_0000 % 0x1_0000_0000) + x % 0x1_0000_0000
  {
    var h := x / 0x1_0000_0000;
    assert x == TWO64 * (h / 0x1_0000_0000) + 0x1_0000_0000 * (h % 0x1_0000_0000) + x % 0x1_0000_0000;
    DivUnique(x, TWO64, h / 0x1_0000_0000, 0x1_0000_0000 * (h % 0x1_0000_0000) + x % 0x1_0000_0000);
  }

  /** Folds the compression function over whole blocks. */
  function Chain(f: Compression, st: State, data: seq<byte>): State
    decreases |data|
  {
    if |data| < 128 then st else Chain(f, f(st, data[..128]), data[128..])
  }

  function Zeros(n: nat): (r: seq<byte>)
    ensures |r| == n
  {
    seq(n, _ => 0)
  }

  /**
   * The padding of section 5.1.2 of FIPS 180-4 for a message of size bytes: a one bit, the least number of zero
   * bits that leaves 128 bits of a block, and the length in bits, most significant byte first.
   */
  function Padding(size: nat, bits: nat): (r: seq<byte>)
    ensures (size + |r|) % 128 == 0
  {
    PaddedSize(size);
    [0x80] + Zeros((239 - size % 128) % 128) + PutBe64(bits / TWO64) + PutBe64(bits)
  }

  /** As a binary numeral: a one, zeros, and the length; and not a block longer than that takes. */
  lemma PaddingNumeral(size: nat, bits: nat)
    requires bits < TWO64 * TWO64
    ensures var p := Padding(size, bits);
            && 17 <= |p| < 17 + 128 && (size + |p|) % 128 == 0
            && BeVal(p) == Binary.P2(8 * |p| - 1) + bits
  {
    hide BeVal, Binary.P2, PutBe64, Zeros;
    var h, l := PutBe64(bits / TWO64), PutBe64(bits);
    var z := Zeros((239 - size % 128) % 128);
    var p := Padding(size, bits);
    assert p == [0x80] + (z + (h + l));
    FirstByte(z + (h + l));
    ZeroNumeral(|z|);
    Binary.BeValSplit(z + (h + l), |z|);
    assert (z + (h + l))[..|z|] == z && (z + (h + l))[|z|..] == h + l;
    TwoWords(bits);
  }

  lemma FirstByte(rest: seq<byte>)
    ensures BeVal([0x80] + rest) == Binary.P2(8 * |rest| + 7) + BeVal(rest)
  {
    hide BeVal, Binary.P2;
    var a := [0x80] + rest;
    Binary.BeValSplit(a, 1);
    assert a[..1] == [] + [0x80] && a[1..] == rest;
    BeValMore([], 0x80);
    EmptyNumeral();
    Binary.P2Add(8 * |rest|, 7);
    Binary.P2Steps();
  }

  lemma {:induction false} ZeroNumeral(n: nat)
    ensures BeVal(Zeros(n)) == 0
  {
    if n > 0 {
      ZeroNumeral(n - 1);
      BeValMore(Zeros(n - 1), 0);
      assert Zeros(n) == Zeros(n - 1) + [0];
    }
  }

  lemma TwoWords(bits: nat)
    requires bits < TWO64 * TWO64
    ensures BeVal(PutBe64(bits / TWO64) + PutBe64(bits)) == bits
  {
    hide BeVal, Binary.P2, PutBe64;
    var h, l := PutBe64(bits / TWO64), PutBe64(bits);
    Binary.BeValSplit(h + l, 8);
    assert (h + l)[..8] == h && (h + l)[8..] == l;
    StoredNumeral64(bits / TWO64);
    StoredNumeral64(bits);
    Binary.P2Table();
    Binary.P2Add(32, 32);
    assert bits / TWO64 < TWO64;
  }

  lemma PaddedSize(size: nat)
    ensures (size + (239 - size % 128) % 128 + 17) % 128 == 0
  {
    var q, r := size / 128, size % 128;
    assert size == 128 * q + r;
    if r <= 111 {
      DivUnique(239 - r, 128, 1, 111 - r);
      DivUnique(size + (111 - r) + 17, 128, q + 1, 0);
    } else {
      DivUnique(239 - r, 128, 0, 239 - r);
      DivUnique(size + (239 - r) + 17, 128, q + 2, 0);
    }
  }

  function StateBytes(st: seq<uint64>): (r: seq<byte>)
    ensures |r| == 8 * |st|
  {
    if st == [] then [] else PutBe64(st[0]) + StateBytes(st[1..])
  }

  /** SHA-512 as in section 6.4 of FIPS 180-4, over a given compression function. */
  function Digest(f: Compression, message: seq<byte>): (r: seq<byte>)
    ensures |r| == 64
  {
    StateBytes(Chain(f, IV, message + Padding(|message|, 8 * |message|)))
  }

  /** What the code computes for a message of any size: its length field holds the bit length modulo 2^64. */
  function Hash(f: Compression, message: seq<byte>): (r: seq<byte>)
    ensures |r| == 64
  {
    StateBytes(Chain(f, IV, message + Padding(|message|, 8 * |message| % TWO64)))
  }

  /** Below 2^64 bits it is the standard's digest. */
  lemma HashIsDigest(f: Compression, message: seq<byte>)
    requires 8 * |message| < TWO64
    ensures Hash(f, message) == Digest(f, message)
  {
    hide Chain, Padding, StateBytes;
    assert 8 * |message| % TWO64 == 8 * |message|;
  }

  lemma {:induction false} ChainAppend(f: Compression, st: State, p: seq<byte>, q: seq<byte>)
    requires |p| % 128 == 0
    ensures Chain(f, st, p + q) == Chain(f, Chain(f, st, p), q)
    decreases |p|
  {
    if p == [] {
      assert p + q == q;
    } else {
      assert (p + q)[..128] == p[..128] && (p + q)[128..] == p[128..] + q;
      ChainAppend(f, f(st, p[..128]), p[128..], q);
    }
  }

  lemma ChainOne(f: Compression, st: State, p: seq<byte>, block: seq<byte>)
    requires |p| % 128 == 0 && |block| == 128
    ensures Chain(f, st, p + block) == f(Chain(f, st, p), block)
  {
    ChainAppend(f, st, p, block);
    assert block[..128] == block && block[128..] == [];
  }

  // ---------- streaming ----------

  class Context {
    const f: Compression
    var length: uint64
    var curlen: nat
    var state: State
    const buf: array<byte>
    ghost var message: seq<byte>

    /** The whole blocks of the message are in the state, the rest is in the buffer. */
    ghost predicate Valid()
      reads this, buf
    {
      && buf.Length == 128
      && Holds(f, message, length, curlen, state, buf[..])
    }

    /** sha512_init. */
    constructor (f: Compression)
      ensures Valid() && fresh(buf) && message == [] && this.f == f
    {
      this.f := f;
      curlen := 0;
      length := 0;
      state := IV;
      buf := new byte[128](_ => 0);
      message := [];
    }

    /** sha512_update. */
    method Update(input: seq<byte>)
      requires Valid()
      modifies this, buf
      ensures Valid() && message == old(message) + input
    {
      hide Holds, Chain;
      var pos := 0;
      assert message == old(message) + input[..0];
      while pos < |input|
        invariant 0 <= pos <= |input| && Valid() && message == old(message) + input[..pos]
        decreases |input| - pos
      {
        Bounds(f, message, length, curlen, state, buf[..]);
        if curlen == 0 && |input| - pos >= 128 {
          var block := input[pos..pos + 128];
          WholeBlock(f, message, length, state, buf[..], block);
          state := f(state, block);
          length := (length + 1024) % TWO64;
          message := message + block;
          Appended(old(message), input, pos, 128);
          pos := pos + 128;
        } else {
          var n := if |input| - pos < 128 - curlen then |input| - pos else 128 - curlen;
          ghost var before := buf[..];
          CopyIn(input, pos, n);
          var part := input[pos..pos + n];
          Appended(old(message), input, pos, n);
          if curlen + n == 128 {
            FilledBlock(f, message, length, curlen, state, before, part);
            state := f(state, buf[..]);
            length := (length + 1024) % TWO64;
            curlen := 0;
          } else {
            PartBlock(f, message, length, curlen, state, before, part, buf[..]);
            curlen := curlen + n;
          }
          message := message + part;
          pos := pos + n;
        }
      }
      assert input[..pos] == input;
    }

    /** The copying loop of sha512_update. */
    method CopyIn(input: seq<byte>, pos: nat, n: nat)
      requires buf.Length == 128 && curlen + n <= 128 && pos + n <= |input|
      modifies buf
      ensures buf[..] == old(buf[..])[..curlen] + input[pos..pos + n] + old(buf[..])[curlen + n..]
    {
      var i := 0;
      while i < n
        invariant 0 <= i <= n
        invariant forall j :: 0 <= j < curlen || curlen + i <= j < 128 ==> buf[j] == old(buf[j])
        invariant forall j :: curlen <= j < curlen + i ==> buf[j] == input[pos + j - curlen]
      {
        buf[i + curlen] := input[pos + i];
        i := i + 1;
      }
    }

    /** sha512_final: the digest of all that was put in. */
    method Final(out: array<byte>)
      requires Valid() && out.Length >= 64 && out != buf
      modifies this, buf, out
      ensures out[..64] == Hash(f, old(message))
      ensures forall i :: 64 <= i < out.Length ==> out[i] == old(out[i])
    {
      hide Holds, Chain, PutBe64, StateBytes, Hash, Zeros;
      Bounds(f, message, length, curlen, state, buf[..]);
      ghost var m, st0, b0, c := message, state, buf[..], curlen;
      length := (length + curlen * 8) % TWO64;
      buf[curlen] := 0x80;
      curlen := curlen + 1;
      Marked(b0, c, buf[..]);
      if curlen > 112 {
        ghost var marked := buf[..];
        ZeroTo(128);
        ghost var first := buf[..];
        FullBlock(b0[..c] + [0x80], marked, first);
        state := f(state, buf[..]);
        curlen := 0;
        PutLength([]);
        TwoBlocks(f, m, c, st0, b0, first, buf[..], length);
      } else {
        PutLength(b0[..c] + [0x80]);
        OneBlock(f, m, c, st0, b0, buf[..], length);
      }
      state := f(state, buf[..]);
      StoreState(out);
    }

    /** The padding loops of sha512_final. */
    method ZeroTo(end: nat)
      requires buf.Length == 128 && curlen <= end <= 128
      modifies this`curlen, buf
      ensures curlen == end
      ensures buf[..] == old(buf[..])[..old(curlen)] + Zeros(end - old(curlen)) + old(buf[..])[end..]
    {
      while curlen < end
        invariant old(curlen) <= curlen <= end
        invariant forall j :: 0 <= j < old(curlen) || curlen <= j < 128 ==> buf[j] == old(buf[j])
        invariant forall j :: old(curlen) <= j < curlen ==> buf[j] == 0
      {
        buf[curlen] := 0;
        curlen := curlen + 1;
      }
    }

    /** Zeros behind the start of the last block, and the length. */
    method PutLength(ghost start: seq<byte>)
      requires buf.Length == 128 && |start| == curlen <= 120 && start <= buf[..]
      modifies this`curlen, buf
      ensures buf[..] == start + Zeros(120 - |start|) + PutBe64(length)
    {
      hide PutBe64, Zeros;
      ZeroTo(120);
      ghost var before := buf[..];
      Store64(buf, 120, length);
      LastBlock(start, before, buf[..], PutBe64(length));
    }

    /** The output loop of sha512_final. */
    method StoreState(out: array<byte>)
      requires out.Length >= 64
      modifies out
      ensures out[..64] == StateBytes(state)
      ensures forall i :: 64 <= i < out.Length ==> out[i] == old(out[i])
    {
      hide PutBe64;
      var i := 0;
      assert state[..0] == [];
      while i < 8
        invariant 0 <= i <= 8 && out[..8 * i] == StateBytes(state[..i])
        invariant out[64..] == old(out[64..])
      {
        Store64(out, 8 * i, state[i]);
        StateBytesNext(state, i);
        assert out[..8 * (i + 1)] == out[..8 * i] + out[8 * i..8 * i + 8];
        assert out[64..] == out[8 * i + 8..][56 - 8 * i..];
        i := i + 1;
      }
      assert state[..8] == state;
      assert forall i :: 64 <= i < out.Length ==> out[i] == out[64..][i - 64];
    }
  }

  /** STORE64H. */
  method Store64(y: array<byte>, at: nat, x: uint64)
    requires at + 8 <= y.Length
    modifies y
    ensures y[..] == old(y[..])[..at] + PutBe64(x) + old(y[..])[at + 8..]
    ensures y[..at] == old(y[..at]) && y[at..at + 8] == PutBe64(x) && y[at + 8..] == old(y[at + 8..])
  {
    hide PutBe64;
    var b := PutBe64(x);
    y[at], y[at + 1], y[at + 2], y[at + 3] := b[0], b[1], b[2], b[3];
    y[at + 4], y[at + 5], y[at + 6], y[at + 7] := b[4], b[5], b[6], b[7];
  }

  lemma {:induction false} StateBytesNext(st: seq<uint64>, i: nat)
    requires i < |st|
    ensures StateBytes(st[..i + 1]) == StateBytes(st[..i]) + PutBe64(st[i])
    decreases i
  {
    hide PutBe64;
    if i == 0 {
      assert st[..1][1..] == [] && st[..0] == [];
    } else {
      assert st[..i + 1][1..] == st[1..][..i] && st[..i][1..] == st[1..][..i - 1];
      StateBytesNext(st[1..], i - 1);
    }
  }

  ghost predicate Holds(f: Compression, message: seq<byte>, length: uint64, curlen: nat, state: State, buf: seq<byte>) {
    var n := |message| - |message| % 128;
    && |buf| == 128
    && curlen == |message| % 128
    && state == Chain(f, IV, message[..n])
    && buf[..curlen] == message[n..]
    && length == 8 * n % TWO64
  }

  lemma Bounds(f: Compression, message: seq<byte>, length: uint64, curlen: nat, state: State, buf: seq<byte>)
    requires Holds(f, message, length, curlen, state, buf)
    ensures curlen < 128 && |buf| == 128 && curlen == |message| % 128 && length == 8 * (|message| - curlen) % TWO64
  {
  }

  lemma NextLength(n: nat)
    ensures (8 * n % TWO64 + 1024) % TWO64 == 8 * (n + 128) % TWO64
  {
    ModAdd(8 * n, 1024, TWO64);
    assert 8 * (n + 128) == 8 * n + 1024;
  }

  lemma OneMoreBlock(x: nat)
    requires x % 128 == 0
    ensures (x + 128) % 128 == 0
  {
    DivUnique(x + 128, 128, x / 128 + 1, 0);
  }

  lemma Remainder(x: nat)
    ensures (x - x % 128) % 128 == 0 && (x - x % 128 + 128) % 128 == 0
  {
    DivUnique(x - x % 128, 128, x / 128, 0);
    OneMoreBlock(x - x % 128);
  }

  lemma WholeBlock(f: Compression, message: seq<byte>, length: uint64, state: State, buf: seq<byte>, block: seq<byte>)
    requires Holds(f, message, length, 0, state, buf) && |block| == 128
    ensures Holds(f, message + block, (length + 1024) % TWO64, 0, f(state, block), buf)
  {
    hide Chain;
    var m := message + block;
    assert message[..|message|] == message && m[..|m|] == m;
    OneMoreBlock(|message|);
    ChainOne(f, IV, message, block);
    NextLength(|message|);
  }

  lemma FilledBlock(f: Compression, message: seq<byte>, length: uint64, curlen: nat, state: State, buf: seq<byte>, part: seq<byte>)
    requires Holds(f, message, length, curlen, state, buf) && curlen + |part| == 128
    ensures var block := buf[..curlen] + part + buf[128..];
            Holds(f, message + part, (length + 1024) % TWO64, 0, f(state, block), block)
  {
    hide Chain;
    var n := |message| - curlen;
    var block := buf[..curlen] + part + buf[128..];
    var m := message + part;
    Remainder(|message|);
    assert |m| == n + 128 && message == message[..n] + message[n..];
    assert m[..|m|] == m && m == message[..n] + block;
    ChainOne(f, IV, message[..n], block);
    NextLength(n);
  }

  lemma PartBlock(f: Compression, message: seq<byte>, length: uint64, curlen: nat, state: State, buf: seq<byte>, part: seq<byte>, buf': seq<byte>)
    requires Holds(f, message, length, curlen, state, buf) && curlen + |part| < 128
    requires buf' == buf[..curlen] + part + buf[curlen + |part|..]
    ensures Holds(f, message + part, length, curlen + |part|, state, buf')
  {
    hide Chain;
    var n := |message| - curlen;
    var m := message + part;
    assert |m| % 128 == curlen + |part|;
    assert m[..n] == message[..n] && m[n..] == message[n..] + part;
  }

  /** The blocks that a message ends in: what is left of it, and the padding. */
  lemma TailHash(f: Compression, m: seq<byte>, n: nat, st: State, tail: seq<byte>)
    requires n <= |m| && n % 128 == 0
    requires st == Chain(f, IV, m[..n]) && tail == m[n..] + Padding(|m|, 8 * |m| % TWO64)
    ensures StateBytes(Chain(f, st, tail)) == Hash(f, m)
  {
    hide Chain, Padding, StateBytes;
    var pad := Padding(|m|, 8 * |m| % TWO64);
    ChainAppend(f, IV, m[..n], tail);
    assert m[..n] + tail == m + pad;
  }

  lemma Appended(m: seq<byte>, input: seq<byte>, pos: nat, n: nat)
    requires pos + n <= |input|
    ensures m + input[..pos + n] == m + input[..pos] + input[pos..pos + n]
  {
  }

  lemma Marked(b0: seq<byte>, c: nat, b: seq<byte>)
    requires c < |b0| && b == b0[c := 0x80]
    ensures b0[..c] + [0x80] <= b && b[..c + 1] == b0[..c] + [0x80]
  {
  }

  lemma FullBlock(start: seq<byte>, before: seq<byte>, b: seq<byte>)
    requires |before| == 128 && |start| <= 128 && before[..|start|] == start
    requires b == before[..|start|] + Zeros(128 - |start|) + before[128..]
    ensures b == start + Zeros(128 - |start|)
  {
    hide Zeros;
  }

  lemma LastBlock(start: seq<byte>, before: seq<byte>, after: seq<byte>, length: seq<byte>)
    requires |start| <= 120 && |length| == 8 && |before| == |after| == 128 && before[..120] == start + Zeros(120 - |start|)
    requires after[..120] == before[..120] && after[120..128] == length
    ensures after == start + Zeros(120 - |start|) + length
  {
    hide Zeros;
    assert after == after[..120] + after[120..128];
  }

  lemma LengthField(size: nat, length: uint64)
    requires length == (8 * (size - size % 128) % TWO64 + size % 128 * 8) % TWO64
    ensures length == 8 * size % TWO64 && PutBe64(8 * size % TWO64 / TWO64) == Zeros(8)
  {
    var whole, rest := 8 * (size - size % 128), size % 128 * 8;
    assert 8 * size == whole + rest;
    ModAdd(whole, rest, TWO64);
    NoHighBits(8 * size % TWO64);
  }

  lemma NoHighBits(n: nat)
    requires n < TWO64
    ensures PutBe64(n / TWO64) == Zeros(8)
  {
    assert n / TWO64 == 0;
    assert PutBe32(0) == [0, 0, 0, 0];
  }

  lemma OneBlock(f: Compression, m: seq<byte>, c: nat, st: State, b0: seq<byte>, block: seq<byte>, length: uint64)
    requires c <= 111 && length == (8 * (|m| - |m| % 128) % TWO64 + c * 8) % TWO64
    requires Holds(f, m, 8 * (|m| - |m| % 128) % TWO64, c, st, b0)
    requires block == b0[..c] + [0x80] + Zeros(119 - c) + PutBe64(length)
    ensures StateBytes(f(st, block)) == Hash(f, m)
  {
    hide PutBe64, StateBytes;
    LengthField(|m|, length);
    var n := |m| - |m| % 128;
    assert Zeros(119 - c) == Zeros(111 - c) + Zeros(8);
    assert block == m[n..] + Padding(|m|, 8 * |m| % TWO64);
    Remainder(|m|);
    TailHash(f, m, n, st, block);
    ChainOne(f, st, [], block);
    assert [] + block == block;
  }

  lemma TwoBlocks(f: Compression, m: seq<byte>, c: nat, st: State, b0: seq<byte>, first: seq<byte>, second: seq<byte>, length: uint64)
    requires 112 <= c < 128 && length == (8 * (|m| - |m| % 128) % TWO64 + c * 8) % TWO64
    requires Holds(f, m, 8 * (|m| - |m| % 128) % TWO64, c, st, b0)
    requires first == b0[..c] + [0x80] + Zeros(127 - c) && second == Zeros(120) + PutBe64(length)
    ensures StateBytes(f(f(st, first), second)) == Hash(f, m)
  {
    hide PutBe64, StateBytes;
    LengthField(|m|, length);
    var n := |m| - |m| % 128;
    assert Zeros(127 - c) + Zeros(120) == Zeros(239 - c) + Zeros(8);
    assert first + second == m[n..] + Padding(|m|, 8 * |m| % TWO64);
    Remainder(|m|);
    TailHash(f, m, n, st, first + second);
    ChainOne(f, st, first, second);
    ChainOne(f, st, [], first);
    assert [] + first == first;
  }

  /** sha512: the digest of one message. */
  method OneShot(f: Compression, message: seq<byte>, out: array<byte>)
    requires out.Length >= 64
    modifies out
    ensures out[..64] == Hash(f, message)
    ensures forall i :: 64 <= i < out.Length ==> out[i] == old(out[i])
  {
    hide Hash, Holds;
    var md := new Context(f);
    md.Update(message);
    assert [] + message == message;
    md.Final(out);
  }
}

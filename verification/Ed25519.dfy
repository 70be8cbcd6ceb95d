/** Key pairs, signing and verifying, over a group in which the base point has order l. */
module Ed25519 {
  import Arith
  import Binary
  import opened Bytes
  import opened Groups
  import opened Options
  import Sha512
  import Scalar
  import ScalarLimbs
  import ScalarMult

  const L: nat := ScalarLimbs.L

  /** The curve, its tables and its 32-byte encoding, and the compression function of SHA-512. */
  datatype Suite<!T(!new)> = Suite(
    group: Group<T>,
    B: T,
    base: seq<seq<T>>,
    odd: seq<T>,
    encode: T -> seq<byte>,
    decodeNegated: seq<byte> -> Option<T>,
    f: Sha512.Compression)
  {
    ghost predicate Lawful() {
      && group.Lawful()
      && group.Multiple(L, B) == group.zero
      && ScalarMult.IsBaseTable(group, B, base)
      && ScalarMult.IsOddTable(group, B, odd)
      && (forall p :: |encode(p)| == 32)
      && (forall p :: decodeNegated(encode(p)) == Some(group.neg(p)))
    }

    lemma EncodingLaws(p: T)
      requires Lawful()
      ensures |encode(p)| == 32 && decodeNegated(encode(p)) == Some(group.neg(p))
    {
    }

    /** n times the base point. */
    ghost function Point(n: int): T {
      group.Multiple(n, B)
    }

    /** The scalar that a hash stands for. */
    ghost function HashScalar(message: seq<byte>): nat {
      Binary.LeVal(Sha512.Hash(f, message)) % L
    }

    /** A private key is the hash of the seed, its first half clamped; the public key encodes that multiple of B. */
    ghost predicate IsKeyPair(publicKey: seq<byte>, privateKey: seq<byte>, seed: seq<byte>) {
      && |privateKey| == 64 && privateKey == Clamped(Sha512.Hash(f, seed))
      && publicKey == encode(Point(Binary.LeVal(privateKey[..32])))
    }

    /** What ed25519_sign leaves in the signature. */
    ghost predicate IsSignature(sig: seq<byte>, message: seq<byte>, publicKey: seq<byte>, privateKey: seq<byte>)
      requires |privateKey| == 64
    {
      var r := HashScalar(privateKey[32..] + message);
      && |sig| == 64
      && sig[..32] == encode(Point(r))
      && Binary.LeVal(sig[32..]) == (HashScalar(sig[..32] + publicKey + message) * Binary.LeVal(privateKey[..32]) + r) % L
    }

    /** The equation that ed25519_verify checks, on a scalar with its top three bits clear. */
    ghost predicate Accepts(sig: seq<byte>, message: seq<byte>, publicKey: seq<byte>)
      requires |sig| == 64
    {
      && sig[63] < 32
      && decodeNegated(publicKey).Some?
      && sig[..32] == encode(group.add(
           group.Multiple(HashScalar(sig[..32] + publicKey + message), decodeNegated(publicKey).value),
           Point(Binary.LeVal(sig[32..]))))
    }
  }

  /** The top two bits of the first half become 01 and the low three bits 000. */
  function Clamped(h: seq<byte>): (r: seq<byte>)
    requires |h| == 64
    ensures |r| == 64 && r[31] < 128 && r[0] % 8 == 0
  {
    var x: int, y: int := h[0], h[31];
    h[0 := x - x % 8][31 := y % 64 + 64]
  }

  /** Of the lower half h of a hash, as a number: bit 254 is set, bit 255 and the low three bits are clear, the rest stays. */
  ghost predicate IsClamping(h: seq<byte>, k: seq<byte>)
    requires |h| == 64
  {
    && |k| == 64 && k[32..] == h[32..]
    && var a, n := Binary.LeVal(k[..32]), Binary.LeVal(h[..32]);
       && Binary.P2(254) <= a < Binary.P2(255) && a % 8 == 0
       && (a - Binary.P2(254)) / 8 == n % Binary.P2(254) / 8
  }

  /** The number of 32 bytes, with the first and the last byte taken apart. */
  lemma Ends(a: seq<byte>)
    requires |a| == 32
    ensures Binary.LeVal(a) == a[0] + 256 * Binary.LeVal(a[1..31]) + Binary.P2(248) * a[31]
    ensures Binary.LeVal(a[1..31]) < Binary.P2(240)
  {
    hide Binary.P2;
    Binary.LeValSplit(a, 31);
    Binary.LastByte(a);
    assert a[..31][0] == a[0] && a[..31][1..] == a[1..31];
    Binary.LeValBound(a[1..31]);
  }

  lemma Powers()
    ensures Binary.P2(248) == 8 * Binary.P2(245) && Binary.P2(254) == 512 * Binary.P2(245) && Binary.P2(255) == 1024 * Binary.P2(245)
    ensures Binary.P2(245) == 32 * Binary.P2(240)
  {
    hide Binary.P2;
    Binary.P2Steps();
    Binary.P2Add(5, 240);
    Binary.P2Add(3, 245);
    Binary.P2Add(6, 248);
    Binary.P2Next(254);
  }

  lemma Distributed(p: int, z: int, j: int)
    ensures p * (z + 64 * j) == p * z + 64 * (p * j) && 512 * p * j == 512 * (p * j) && 8 * p * (z + 64 * j) == 8 * (p * z) + 512 * (p * j)
  {
  }

  /** The upper part modulo 2^254, and the number after clamping, with p for 2^245. */
  lemma UpperKept(low: nat, p: nat, z: nat, j: nat)
    requires p > 0 && low < 8 * p && z < 64
    ensures 8 * p * (z + 64 * j) >= 0 && 0 <= low + 8 * (p * z) < 512 * p
    ensures (low + 8 * p * (z + 64 * j)) % (512 * p) == low + 8 * (p * z)
  {
    hide *;
    Distributed(p, z, j);
    Arith.MulMonotone(p, z, 63);
    Arith.MulNat(p, z);
    Arith.MulNat(p, j);
    Arith.DivUnique(low + 8 * p * (z + 64 * j), 512 * p, j, low + 8 * (p * z));
  }

  lemma Eighths(x: nat, t: nat)
    ensures (x + 8 * t) / 8 == x / 8 + t && (x - x % 8 + 8 * t) / 8 == x / 8 + t && (x - x % 8 + 8 * t) % 8 == 0
  {
  }

  lemma ClampedNumber(x: nat, m: nat, y: nat)
    requires x < 256 && m < Binary.P2(240) && y < 256
    ensures var p, a, n := Binary.P2(254), x - x % 8 + 256 * m + Binary.P2(248) * (y % 64 + 64), x + 256 * m + Binary.P2(248) * y;
            p <= a < Binary.P2(255) && a % 8 == 0 && (a - p) / 8 == n % p / 8
  {
    hide Binary.P2;
    Powers();
    var p, z, j := Binary.P2(245), y % 64, y / 64;
    assert y == z + 64 * j;
    UpperKept(x + 256 * m, p, z, j);
    Distributed(p, z, 1);
    Arith.MulNat(p, z);
    Eighths(x, 32 * m + p * z);
    Eighths(x, 32 * m + p * z + 64 * p);
  }

  lemma ClampedIsClamping(h: seq<byte>)
    requires |h| == 64
    ensures IsClamping(h, Clamped(h))
  {
    hide Binary.P2, Binary.LeVal;
    var k := Clamped(h);
    Ends(h[..32]);
    Ends(k[..32]);
    assert k[..32][1..31] == h[..32][1..31];
    ClampedNumber(h[0], Binary.LeVal(h[..32][1..31]), h[31]);
  }

  // ---------- the operations ----------

  /** ed25519_create_keypair. */
  method CreateKeypair<T(!new)>(s: Suite<T>, publicKey: array<byte>, privateKey: array<byte>, seed: seq<byte>)
    requires s.Lawful() && publicKey.Length == 32 && privateKey.Length == 64 && publicKey != privateKey && |seed| == 32
    modifies publicKey, privateKey
    ensures s.IsKeyPair(publicKey[..], privateKey[..], seed)
    ensures IsClamping(Sha512.Hash(s.f, seed), privateKey[..])
  {
    hide IsClamping, Sha512.Hash, ScalarMult.IsBaseTable, Groups.Group.Multiple;
    Sha512.OneShot(s.f, seed, privateKey);
    ghost var h := privateKey[..64];
    var x: int := privateKey[0];
    privateKey[0] := x - x % 8;
    x := privateKey[31];
    privateKey[31] := x % 64;
    x := privateKey[31];
    privateKey[31] := x + 64;
    assert privateKey[..] == Clamped(h);
    ClampedIsClamping(h);
    var A := ScalarMult.ScalarMultBase(s.group, s.base, s.B, privateKey[..32]);
    s.EncodingLaws(A);
    var bytes := s.encode(A);
    CopyTo(bytes, publicKey);
    assert publicKey[..] == bytes;
  }

  method CopyTo(bytes: seq<byte>, out: array<byte>)
    requires |bytes| <= out.Length
    modifies out
    ensures out[..] == bytes + old(out[..])[|bytes|..]
  {
    var i := 0;
    while i < |bytes|
      invariant 0 <= i <= |bytes| && out[..i] == bytes[..i]
      invariant forall j :: i <= j < out.Length ==> out[j] == old(out[j])
    {
      out[i] := bytes[i];
      i := i + 1;
    }
  }

  /** A reduced scalar has its top three bits clear. */
  lemma TopBitsClear(b: seq<byte>)
    requires |b| == 32 && Binary.LeVal(b) < L
    ensures b[31] < 32
  {
    hide Binary.P2, Binary.LeVal;
    var top: int := b[31];
    Binary.LeValSplit(b, 31);
    Binary.LastByte(b);
    if top >= 32 {
      Arith.MulMonotone(Binary.P2(248), 32, top);
      TwoTo253();
    }
  }

  lemma TwoTo253()
    ensures 32 * Binary.P2(248) > L
  {
    Binary.P2Table();
    Binary.P2Steps();
    Binary.P2Add(32, 32);
    Binary.P2Add(64, 64);
    Binary.P2Add(128, 64);
    Binary.P2Add(192, 32);
    Binary.P2Add(224, 24);
  }

  /** Hashes up to three parts with one context, as the code does, and reduces the result modulo l. */
  method HashReduced<T(!new)>(s: Suite<T>, first: seq<byte>, second: seq<byte>, third: seq<byte>) returns (h: array<byte>)
    ensures fresh(h) && h.Length == 64 && Binary.LeVal(h[..32]) == s.HashScalar(first + second + third)
    ensures h[31] < 32
  {
    hide Sha512.Hash, Sha512.Holds, Binary.LeVal;
    h := new byte[64](_ => 0);
    var hash := new Sha512.Context(s.f);
    hash.Update(first);
    hash.Update(second);
    hash.Update(third);
    assert [] + first + second + third == first + second + third;
    hash.Final(h);
    assert h[..64] == Sha512.Hash(s.f, first + second + third);
    Scalar.ScReduce(h);
    TopBitsClear(h[..32]);
  }

  /** ed25519_sign. */
  method Sign<T(!new)>(s: Suite<T>, signature: array<byte>, message: seq<byte>, publicKey: seq<byte>, privateKey: seq<byte>)
    requires s.Lawful() && signature.Length == 64 && |publicKey| == 32 && |privateKey| == 64
    modifies signature
    ensures s.IsSignature(signature[..], message, publicKey, privateKey)
  {
    hide Sha512.Hash, ScalarMult.IsBaseTable, Groups.Group.Multiple, Binary.LeVal;
    var r := HashReduced(s, privateKey[32..], message, []);
    assert privateKey[32..] + message + [] == privateKey[32..] + message;
    var R := ScalarMult.ScalarMultBase(s.group, s.base, s.B, r[..32]);
    s.EncodingLaws(R);
    var bytes := s.encode(R);
    CopyTo(bytes, signature);
    assert signature[..32] == bytes;
    var hram := HashReduced(s, signature[..32], publicKey, message);
    Scalar.ScMulAdd(signature, 32, hram[..32], privateKey[..32], r[..32]);
    assert signature[..][..32] == bytes && signature[..][32..] == signature[32..64];
  }

  /** consttime_equal: collects the differences of all 32 bytes. */
  method ConstTimeEqual(x: seq<byte>, y: seq<byte>) returns (same: bool)
    requires |x| == |y| == 32
    ensures same <==> x == y
  {
    hide Binary.Xor, Binary.Or;
    var r := Binary.Xor(x[0], y[0]);
    var i := 1;
    while i < 32
      invariant 1 <= i <= 32 && (r == 0 <==> x[..i] == y[..i])
    {
      r := Binary.Or(r, Binary.Xor(x[i], y[i]));
      assert x[..i + 1] == x[..i] + [x[i]] && y[..i + 1] == y[..i] + [y[i]];
      i := i + 1;
    }
    assert x[..32] == x && y[..32] == y;
    return r == 0;
  }

  /** ed25519_verify. */
  method Verify<T(!new)>(s: Suite<T>, signature: seq<byte>, message: seq<byte>, publicKey: seq<byte>) returns (ok: bool)
    requires s.Lawful() && |signature| == 64 && |publicKey| == 32
    ensures ok <==> s.Accepts(signature, message, publicKey)
  {
    hide Sha512.Hash, ScalarMult.IsBaseTable, Groups.Group.Multiple, Binary.LeVal;
    var last: int := signature[63];
    if last / 32 != 0 { return false; }
    var A := s.decodeNegated(publicKey);
    if A == None { return false; }
    var h := HashReduced(s, signature[..32], publicKey, message);
    assert signature[32..][31] == signature[63];
    var R := ScalarMult.DoubleScalarMult(s.group, h[..32], A.value, signature[32..], s.B, s.odd);
    s.EncodingLaws(R);
    var checker := s.encode(R);
    ok := ConstTimeEqual(checker, signature[..32]);
  }

  // ---------- every signature verifies ----------

  /** Multiples of the base point depend on the scalar modulo l only. */
  lemma PointMod<T(!new)>(s: Suite<T>, n: nat)
    requires s.Lawful()
    ensures s.Point(n % L) == s.Point(n)
  {
    hide Groups.Group.Multiple, Groups.Group.Lawful;
    var g, q := s.group, n / L;
    assert n == q * L + n % L;
    g.MultipleAdd(q * L, n % L, s.B);
    g.MultipleMultiple(q, L, s.B);
    MultipleOfZero(g, q);
    g.Laws(s.Point(n % L), g.zero, g.zero);
  }

  lemma {:induction false} MultipleOfZero<T(!new)>(g: Group<T>, n: nat)
    requires g.Lawful()
    ensures g.Multiple(n, g.zero) == g.zero
  {
    g.Laws(g.zero, g.zero, g.zero);
    if n > 0 {
      MultipleOfZero(g, n - 1);
    }
  }

  /** Under the public key of a, the verifier compares R with (S - h * a) * B: exactly these signatures pass. */
  lemma AcceptedIff<T(!new)>(s: Suite<T>, a: int, sig: seq<byte>, message: seq<byte>, publicKey: seq<byte>)
    requires s.Lawful() && |sig| == 64 && publicKey == s.encode(s.Point(a))
    ensures var h := s.HashScalar(sig[..32] + publicKey + message);
            s.Accepts(sig, message, publicKey) <==> sig[63] < 32 && sig[..32] == s.encode(s.Point(Binary.LeVal(sig[32..]) - h * a))
  {
    hide Groups.Group.Multiple, Groups.Group.Lawful, Sha512.Hash, Binary.LeVal;
    var g, h, S := s.group, s.HashScalar(sig[..32] + publicKey + message), Binary.LeVal(sig[32..]);
    s.EncodingLaws(s.Point(a));
    g.MultipleNeg(a, s.B);
    g.MultipleMultiple(h, 0 - a, s.B);
    g.MultipleAdd(h * (0 - a), S, s.B);
    assert h * (0 - a) + S == S - h * a;
  }

  /** RFC 8032, sections 5.1.5 to 5.1.7: a signature made with a key pair is accepted for its message. */
  lemma SignedVerifies<T(!new)>(s: Suite<T>, seed: seq<byte>, message: seq<byte>, publicKey: seq<byte>, privateKey: seq<byte>, sig: seq<byte>)
    requires s.Lawful() && s.IsKeyPair(publicKey, privateKey, seed) && s.IsSignature(sig, message, publicKey, privateKey)
    ensures s.Accepts(sig, message, publicKey)
  {
    hide Groups.Group.Multiple, Groups.Group.Lawful, Sha512.Hash, Binary.LeVal;
    var a: int, r: int := Binary.LeVal(privateKey[..32]), s.HashScalar(privateKey[32..] + message);
    var h: int, S: int := s.HashScalar(sig[..32] + publicKey + message), Binary.LeVal(sig[32..]);
    AcceptedIff(s, a, sig, message, publicKey);
    TopBitsClear(sig[32..]);
    assert sig[32..][31] == sig[63];
    PointMod(s, h * a + r);
    Shifted(s, h * a + r, S, 0 - h * a);
  }

  /** Equal points stay equal when the same multiple is added. */
  lemma Shifted<T(!new)>(s: Suite<T>, m: int, n: int, d: int)
    requires s.Lawful() && s.Point(m) == s.Point(n)
    ensures s.Point(m + d) == s.Point(n + d)
  {
    hide Groups.Group.Multiple, Groups.Group.Lawful;
    s.group.MultipleAdd(m, d, s.B);
    s.group.MultipleAdd(n, d, s.B);
  }
}

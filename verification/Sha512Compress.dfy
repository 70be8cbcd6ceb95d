/** The compression function of SHA-512, with its registers in place. */
module Sha512Compress {
  import opened Bytes
  import Binary
  import Sha512
  import opened Words

  /** The constants of the rounds, eight to a row. */
  const K: seq<seq<Sha512.uint64>> := [
    [0x428a2f98d728ae22, 0x7137449123ef65cd, 0xb5c0fbcfec4d3b2f, 0xe9b5dba58189dbbc,
     0x3956c25bf348b538, 0x59f111f1b605d019, 0x923f82a4af194f9b, 0xab1c5ed5da6d8118],
    [0xd807aa98a3030242, 0x12835b0145706fbe, 0x243185be4ee4b28c, 0x550c7dc3d5ffb4e2,
     0x72be5d74f27b896f, 0x80deb1fe3b1696b1, 0x9bdc06a725c71235, 0xc19bf174cf692694],
    [0xe49b69c19ef14ad2, 0xefbe4786384f25e3, 0x0fc19dc68b8cd5b5, 0x240ca1cc77ac9c65,
     0x2de92c6f592b0275, 0x4a7484aa6ea6e483, 0x5cb0a9dcbd41fbd4, 0x76f988da831153b5],
    [0x983e5152ee66dfab, 0xa831c66d2db43210, 0xb00327c898fb213f, 0xbf597fc7beef0ee4,
     0xc6e00bf33da88fc2, 0xd5a79147930aa725, 0x06ca6351e003826f, 0x142929670a0e6e70],
    [0x27b70a8546d22ffc, 0x2e1b21385c26c926, 0x4d2c6dfc5ac42aed, 0x53380d139d95b3df,
     0x650a73548baf63de, 0x766a0abb3c77b2a8, 0x81c2c92e47edaee6, 0x92722c851482353b],
    [0xa2bfe8a14cf10364, 0xa81a664bbc423001, 0xc24b8b70d0f89791, 0xc76c51a30654be30,
     0xd192e819d6ef5218, 0xd69906245565a910, 0xf40e35855771202a, 0x106aa07032bbd1b8],
    [0x19a4c116b8d2d0c8, 0x1e376c085141ab53, 0x2748774cdf8eeb99, 0x34b0bcb5e19b48a8,
     0x391c0cb3c5c95a63, 0x4ed8aa4ae3418acb, 0x5b9cca4f7763e373, 0x682e6ff3d6b2b8a3],
    [0x748f82ee5defb2fc, 0x78a5636f43172f60, 0x84c87814a1f0ab72, 0x8cc702081a6439ec,
     0x90befffa23631e28, 0xa4506cebde82bde9, 0xbef9a3f7b2c67915, 0xc67178f2e372532b],
    [0xca273eceea26619c, 0xd186b8c721c0c207, 0xeada7dd6cde0eb1e, 0xf57d4f7fee6ed178,
     0x06f067aa72176fba, 0x0a637dc5a2c898a6, 0x113f9804bef90dae, 0x1b710b35131c471b],
    [0x28db77f523047d84, 0x32caab7b40c72493, 0x3c9ebe0a15c9bebc, 0x431d67c49c100d4c,
     0x4cc5d4becb3e42b6, 0x597f299cfc657e2a, 0x5fcb6fab3ad6faec, 0x6c44198c4a475817]
  ]

  lemma Table()
    ensures |K| == |PRIMES| == 10 && forall j :: 0 <= j < 10 ==> |K[j]| == |PRIMES[j]| == 8
  {
  }

  function Constant(i: nat): Sha512.uint64
    requires i < 80
  {
    Table();
    K[i / 8][i % 8]
  }

  // ---------- the constants ----------

  /** The first eighty primes. */
  const PRIMES: seq<seq<nat>> := [
    [2, 3, 5, 7, 11, 13, 17, 19],
    [23, 29, 31, 37, 41, 43, 47, 53],
    [59, 61, 67, 71, 73, 79, 83, 89],
    [97, 101, 103, 107, 109, 113, 127, 131],
    [137, 139, 149, 151, 157, 163, 167, 173],
    [179, 181, 191, 193, 197, 199, 211, 223],
    [227, 229, 233, 239, 241, 251, 257, 263],
    [269, 271, 277, 281, 283, 293, 307, 311],
    [313, 317, 331, 337, 347, 349, 353, 359],
    [367, 373, 379, 383, 389, 397, 401, 409]
  ]

  function Prime(i: nat): nat
    requires i < 80
  {
    Table();
    PRIMES[i / 8][i % 8]
  }

  /** The integer part of the cube root of the i-th prime. */
  function CubeRoot(i: nat): nat {
    if i < 4 then 1 else if i < 9 then 2 else if i < 18 then 3 else if i < 30 then 4 else if i < 47 then 5 else if i < 68 then 6 else 7
  }

  /** x is the cube root of p, times 2^64 and without its fraction. */
  predicate IsCubeRoot(x: nat, p: nat) {
    x * x * x <= p * Sha512.TWO64 * Sha512.TWO64 * Sha512.TWO64 < (x + 1) * (x + 1) * (x + 1)
  }

  predicate IsRoot(i: nat)
    requires i < 80
  {
    IsCubeRoot(CubeRoot(i) * Sha512.TWO64 + Constant(i), Prime(i))
  }

  lemma RoundConstants0()
    ensures IsRoot(0) && IsRoot(1) && IsRoot(2) && IsRoot(3) && IsRoot(4) && IsRoot(5) && IsRoot(6) && IsRoot(7)
  {
    assert IsCubeRoot(0x1_428a2f98d728ae22, 2);
    assert IsCubeRoot(0x1_7137449123ef65cd, 3);
    assert IsCubeRoot(0x1_b5c0fbcfec4d3b2f, 5);
    assert IsCubeRoot(0x1_e9b5dba58189dbbc, 7);
    assert IsCubeRoot(0x2_3956c25bf348b538, 11);
    assert IsCubeRoot(0x2_59f111f1b605d019, 13);
    assert IsCubeRoot(0x2_923f82a4af194f9b, 17);
    assert IsCubeRoot(0x2_ab1c5ed5da6d8118, 19);
    hide IsCubeRoot;
  }

  lemma RoundConstants1()
    ensures IsRoot(8) && IsRoot(9) && IsRoot(10) && IsRoot(11) && IsRoot(12) && IsRoot(13) && IsRoot(14) && IsRoot(15)
  {
    assert IsCubeRoot(0x2_d807aa98a3030242, 23);
    assert IsCubeRoot(0x3_12835b0145706fbe, 29);
    assert IsCubeRoot(0x3_243185be4ee4b28c, 31);
    assert IsCubeRoot(0x3_550c7dc3d5ffb4e2, 37);
    assert IsCubeRoot(0x3_72be5d74f27b896f, 41);
    assert IsCubeRoot(0x3_80deb1fe3b1696b1, 43);
    assert IsCubeRoot(0x3_9bdc06a725c71235, 47);
    assert IsCubeRoot(0x3_c19bf174cf692694, 53);
    hide IsCubeRoot;
  }

  lemma RoundConstants2()
    ensures IsRoot(16) && IsRoot(17) && IsRoot(18) && IsRoot(19) && IsRoot(20) && IsRoot(21) && IsRoot(22) && IsRoot(23)
  {
    assert IsCubeRoot(0x3_e49b69c19ef14ad2, 59);
    assert IsCubeRoot(0x3_efbe4786384f25e3, 61);
    assert IsCubeRoot(0x4_0fc19dc68b8cd5b5, 67);
    assert IsCubeRoot(0x4_240ca1cc77ac9c65, 71);
    assert IsCubeRoot(0x4_2de92c6f592b0275, 73);
    assert IsCubeRoot(0x4_4a7484aa6ea6e483, 79);
    assert IsCubeRoot(0x4_5cb0a9dcbd41fbd4, 83);
    assert IsCubeRoot(0x4_76f988da831153b5, 89);
    hide IsCubeRoot;
  }

  lemma RoundConstants3()
    ensures IsRoot(24) && IsRoot(25) && IsRoot(26) && IsRoot(27) && IsRoot(28) && IsRoot(29) && IsRoot(30) && IsRoot(31)
  {
    assert IsCubeRoot(0x4_983e5152ee66dfab, 97);
    assert IsCubeRoot(0x4_a831c66d2db43210, 101);
    assert IsCubeRoot(0x4_b00327c898fb213f, 103);
    assert IsCubeRoot(0x4_bf597fc7beef0ee4, 107);
    assert IsCubeRoot(0x4_c6e00bf33da88fc2, 109);
    assert IsCubeRoot(0x4_d5a79147930aa725, 113);
    assert IsCubeRoot(0x5_06ca6351e003826f, 127);
    assert IsCubeRoot(0x5_142929670a0e6e70, 131);
    hide IsCubeRoot;
  }

  lemma RoundConstants4()
    ensures IsRoot(32) && IsRoot(33) && IsRoot(34) && IsRoot(35) && IsRoot(36) && IsRoot(37) && IsRoot(38) && IsRoot(39)
  {
    assert IsCubeRoot(0x5_27b70a8546d22ffc, 137);
    assert IsCubeRoot(0x5_2e1b21385c26c926, 139);
    assert IsCubeRoot(0x5_4d2c6dfc5ac42aed, 149);
    assert IsCubeRoot(0x5_53380d139d95b3df, 151);
    assert IsCubeRoot(0x5_650a73548baf63de, 157);
    assert IsCubeRoot(0x5_766a0abb3c77b2a8, 163);
    assert IsCubeRoot(0x5_81c2c92e47edaee6, 167);
    assert IsCubeRoot(0x5_92722c851482353b, 173);
    hide IsCubeRoot;
  }

  lemma RoundConstants5()
    ensures IsRoot(40) && IsRoot(41) && IsRoot(42) && IsRoot(43) && IsRoot(44) && IsRoot(45) && IsRoot(46) && IsRoot(47)
  {
    assert IsCubeRoot(0x5_a2bfe8a14cf10364, 179);
    assert IsCubeRoot(0x5_a81a664bbc423001, 181);
    assert IsCubeRoot(0x5_c24b8b70d0f89791, 191);
    assert IsCubeRoot(0x5_c76c51a30654be30, 193);
    assert IsCubeRoot(0x5_d192e819d6ef5218, 197);
    assert IsCubeRoot(0x5_d69906245565a910, 199);
    assert IsCubeRoot(0x5_f40e35855771202a, 211);
    assert IsCubeRoot(0x6_106aa07032bbd1b8, 223);
    hide IsCubeRoot;
  }

  lemma RoundConstants6()
    ensures IsRoot(48) && IsRoot(49) && IsRoot(50) && IsRoot(51) && IsRoot(52) && IsRoot(53) && IsRoot(54) && IsRoot(55)
  {
    assert IsCubeRoot(0x6_19a4c116b8d2d0c8, 227);
    assert IsCubeRoot(0x6_1e376c085141ab53, 229);
    assert IsCubeRoot(0x6_2748774cdf8eeb99, 233);
    assert IsCubeRoot(0x6_34b0bcb5e19b48a8, 239);
    assert IsCubeRoot(0x6_391c0cb3c5c95a63, 241);
    assert IsCubeRoot(0x6_4ed8aa4ae3418acb, 251);
    assert IsCubeRoot(0x6_5b9cca4f7763e373, 257);
    assert IsCubeRoot(0x6_682e6ff3d6b2b8a3, 263);
    hide IsCubeRoot;
  }

  lemma RoundConstants7()
    ensures IsRoot(56) && IsRoot(57) && IsRoot(58) && IsRoot(59) && IsRoot(60) && IsRoot(61) && IsRoot(62) && IsRoot(63)
  {
    assert IsCubeRoot(0x6_748f82ee5defb2fc, 269);
    assert IsCubeRoot(0x6_78a5636f43172f60, 271);
    assert IsCubeRoot(0x6_84c87814a1f0ab72, 277);
    assert IsCubeRoot(0x6_8cc702081a6439ec, 281);
    assert IsCubeRoot(0x6_90befffa23631e28, 283);
    assert IsCubeRoot(0x6_a4506cebde82bde9, 293);
    assert IsCubeRoot(0x6_bef9a3f7b2c67915, 307);
    assert IsCubeRoot(0x6_c67178f2e372532b, 311);
    hide IsCubeRoot;
  }

  lemma RoundConstants8()
    ensures IsRoot(64) && IsRoot(65) && IsRoot(66) && IsRoot(67) && IsRoot(68) && IsRoot(69) && IsRoot(70) && IsRoot(71)
  {
    assert IsCubeRoot(0x6_ca273eceea26619c, 313);
    assert IsCubeRoot(0x6_d186b8c721c0c207, 317);
    assert IsCubeRoot(0x6_eada7dd6cde0eb1e, 331);
    assert IsCubeRoot(0x6_f57d4f7fee6ed178, 337);
    assert IsCubeRoot(0x7_06f067aa72176fba, 347);
    assert IsCubeRoot(0x7_0a637dc5a2c898a6, 349);
    assert IsCubeRoot(0x7_113f9804bef90dae, 353);
    assert IsCubeRoot(0x7_1b710b35131c471b, 359);
    hide IsCubeRoot;
  }

  lemma RoundConstants9()
    ensures IsRoot(72) && IsRoot(73) && IsRoot(74) && IsRoot(75) && IsRoot(76) && IsRoot(77) && IsRoot(78) && IsRoot(79)
  {
    assert IsCubeRoot(0x7_28db77f523047d84, 367);
    assert IsCubeRoot(0x7_32caab7b40c72493, 373);
    assert IsCubeRoot(0x7_3c9ebe0a15c9bebc, 379);
    assert IsCubeRoot(0x7_431d67c49c100d4c, 383);
    assert IsCubeRoot(0x7_4cc5d4becb3e42b6, 389);
    assert IsCubeRoot(0x7_597f299cfc657e2a, 397);
    assert IsCubeRoot(0x7_5fcb6fab3ad6faec, 401);
    assert IsCubeRoot(0x7_6c44198c4a475817, 409);
    hide IsCubeRoot;
  }

  /** Constant i is the fractional part of the cube root of the i-th prime. */
  lemma RoundConstant(i: nat)
    requires i < 80
    ensures IsCubeRoot(CubeRoot(i) * Sha512.TWO64 + Constant(i), Prime(i))
  {
    hide IsCubeRoot, Constant, Prime, CubeRoot;
    assert IsRoot(i) by {
      hide IsRoot;
      if i / 8 == 0 { RoundConstants0(); }
      if i / 8 == 1 { RoundConstants1(); }
      if i / 8 == 2 { RoundConstants2(); }
      if i / 8 == 3 { RoundConstants3(); }
      if i / 8 == 4 { RoundConstants4(); }
      if i / 8 == 5 { RoundConstants5(); }
      if i / 8 == 6 { RoundConstants6(); }
      if i / 8 == 7 { RoundConstants7(); }
      if i / 8 == 8 { RoundConstants8(); }
      if i / 8 == 9 { RoundConstants9(); }
    }
  }

  // ---------- section 6.4.2 of FIPS 180-4 ----------

  /** The eight working variables. */
  datatype Eight = Eight(a: word, b: word, c: word, d: word, e: word, f: word, g: word, h: word)

  function AsWord(x: Sha512.uint64): word { x as word }

  /** Word i of a block, most significant byte first. */
  function BlockWord(block: seq<byte>, i: nat): word
    requires |block| == 128 && i < 16
  {
    WordFits(block[8 * i..8 * i + 8]);
    AsWord(BeVal(block[8 * i..8 * i + 8]))
  }

  lemma WordFits(a: seq<byte>)
    requires |a| == 8
    ensures BeVal(a) < Sha512.TWO64
  {
    hide Binary.P2, BeVal;
    Binary.BeValBound(a);
    Binary.P2Table();
    Binary.P2Add(32, 32);
  }

  /** Word i of the message schedule. */
  function Scheduled(block: seq<byte>, i: nat): word
    requires |block| == 128 && i < 80
  {
    if i < 16 then BlockWord(block, i)
    else Plus(Plus(Plus(LowerSigma1(Scheduled(block, i - 2)), Scheduled(block, i - 7)), LowerSigma0(Scheduled(block, i - 15))), Scheduled(block, i - 16))
  }

  /** One round: every variable moves on by one, and two of them take up the sums. */
  function Round(v: Eight, k: word, w: word): Eight {
    var t1 := Plus(Plus(Plus(Plus(v.h, UpperSigma1(v.e)), Choose(v.e, v.f, v.g)), k), w);
    var t2 := Plus(UpperSigma0(v.a), Majority(v.a, v.b, v.c));
    Eight(Plus(t1, t2), v.a, v.b, v.c, Plus(v.d, t1), v.e, v.f, v.g)
  }

  function Rounds(v: Eight, block: seq<byte>, n: nat): Eight
    requires |block| == 128 && n <= 80
  {
    if n == 0 then v else Round(Rounds(v, block, n - 1), AsWord(Constant(n - 1)), Scheduled(block, n - 1))
  }

  /** The registers from p on, around their end. */
  function From(s: seq<word>, p: nat): Eight
    requires |s| == 8
  {
    Eight(s[p % 8], s[(p + 1) % 8], s[(p + 2) % 8], s[(p + 3) % 8], s[(p + 4) % 8], s[(p + 5) % 8], s[(p + 6) % 8], s[(p + 7) % 8])
  }

  function Compressed(st: seq<word>, block: seq<byte>): (r: seq<word>)
    requires |st| == 8 && |block| == 128
    ensures |r| == 8
  {
    var v := Rounds(From(st, 0), block, 80);
    [Plus(st[0], v.a), Plus(st[1], v.b), Plus(st[2], v.c), Plus(st[3], v.d), Plus(st[4], v.e), Plus(st[5], v.f), Plus(st[6], v.g), Plus(st[7], v.h)]
  }

  // ---------- the code ----------

  ghost predicate IsSchedule(w: seq<word>, block: seq<byte>)
    requires |block| == 128
  {
    |w| == 80 && forall j :: 0 <= j < 80 ==> w[j] == Scheduled(block, j)
  }

  /** LOAD64H. */
  method Load64(y: seq<byte>, at: nat) returns (x: word)
    requires at + 8 <= |y|
    ensures BeVal(y[at..at + 8]) < Sha512.TWO64 && x == AsWord(BeVal(y[at..at + 8]))
  {
    hide BeVal;
    var a := y[at..at + 8];
    var n: nat := 0x100_0000_0000_0000 * a[0] as int + 0x1_0000_0000_0000 * a[1] as int + 0x100_0000_0000 * a[2] as int + 0x1_0000_0000 * a[3] as int
      + 0x100_0000 * a[4] as int + 0x1_0000 * a[5] as int + 0x100 * a[6] as int + a[7] as int;
    WordFits(a);
    EightBytes(a);
    x := AsWord(n);
  }

  lemma EightBytes(a: seq<byte>)
    requires |a| == 8
    ensures BeVal(a) == 0x100_0000_0000_0000 * a[0] as int + 0x1_0000_0000_0000 * a[1] as int + 0x100_0000_0000 * a[2] as int + 0x1_0000_0000 * a[3] as int
              + 0x100_0000 * a[4] as int + 0x1_0000 * a[5] as int + 0x100 * a[6] as int + a[7] as int
  {
    hide BeVal;
    EmptyNumeral();
    BeValTwo(a[..0], a[0], a[1]);
    BeValTwo(a[..2], a[2], a[3]);
    BeValTwo(a[..4], a[4], a[5]);
    BeValTwo(a[..6], a[6], a[7]);
    assert a[..0] == [] && a[..0] + [a[0], a[1]] == a[..2] && a[..2] + [a[2], a[3]] == a[..4];
    assert a[..4] + [a[4], a[5]] == a[..6] && a[..6] + [a[6], a[7]] == a;
  }

  /** The first sum of a round, as the code has it. */
  function First(e: word, f: word, g: word, h: word, k: word, w: word): word {
    Plus(Plus(Plus(Plus(h, Sigma1(e)), Ch(e, f, g)), k), w)
  }

  function Second(a: word, b: word, c: word): word { Plus(Sigma0(a), Maj(a, b, c)) }

  lemma RoundIs(v: Eight, k: word, w: word)
    ensures var t0, t1 := First(v.e, v.f, v.g, v.h, k, w), Second(v.a, v.b, v.c);
            Round(v, k, w) == Eight(Plus(t0, t1), v.a, v.b, v.c, Plus(v.d, t0), v.e, v.f, v.g)
  {
    hide UpperSigma0, UpperSigma1, Choose, Majority, Sigma0, Sigma1, Ch, Maj, LowerSigma0, LowerSigma1, Gamma0, Gamma1, Plus;
    SameSigmas(v.e);
    SameSigmas(v.a);
    SameChoice(v.e, v.f, v.g);
    SameMajority(v.a, v.b, v.c);
  }

  lemma TurnedOnce(s: seq<word>, p: nat, t0: word, t1: word)
    requires |s| == 8 && p < 8
    ensures var v, d, h := From(s, p), (p + 3) % 8, (p + 7) % 8;
            && v.a == s[p] && v.b == s[(p + 1) % 8] && v.c == s[(p + 2) % 8] && v.d == s[d]
            && v.e == s[(p + 4) % 8] && v.f == s[(p + 5) % 8] && v.g == s[(p + 6) % 8] && v.h == s[h]
            && From(s[d := Plus(s[d], t0)][h := Plus(t0, t1)], h) == Eight(Plus(t0, t1), v.a, v.b, v.c, Plus(v.d, t0), v.e, v.f, v.g)
  {
    hide Plus;
    Around(p);
  }

  /** Counting on from the last of the eight registers. */
  lemma Around(p: nat)
    requires p < 8
    ensures var h := (p + 7) % 8;
            && h % 8 == h < 8 && p % 8 == p && (h + 1) % 8 == p && (h + 2) % 8 == (p + 1) % 8 && (h + 3) % 8 == (p + 2) % 8
            && (h + 4) % 8 == (p + 3) % 8 && (h + 5) % 8 == (p + 4) % 8 && (h + 6) % 8 == (p + 5) % 8 && (h + 7) % 8 == (p + 6) % 8
    ensures (p + 3) % 8 !in {p, (p + 1) % 8, (p + 2) % 8, (p + 4) % 8, (p + 5) % 8, (p + 6) % 8, (p + 7) % 8}
    ensures (p + 7) % 8 !in {p, (p + 1) % 8, (p + 2) % 8, (p + 3) % 8, (p + 4) % 8, (p + 5) % 8, (p + 6) % 8}
  {
  }

  /** RND: one round on the registers a to h, which are the eight from a on around their end. */
  method Rnd(S: array<word>, a: nat, b: nat, c: nat, d: nat, e: nat, f: nat, g: nat, h: nat, k: word, w: word)
    requires S.Length == 8 && a < 8 && b == (a + 1) % 8 && c == (a + 2) % 8 && d == (a + 3) % 8
    requires e == (a + 4) % 8 && f == (a + 5) % 8 && g == (a + 6) % 8 && h == (a + 7) % 8
    modifies S
    ensures From(S[..], h) == Round(old(From(S[..], a)), k, w)
  {
    hide First, Second, Plus, Round, From;
    ghost var s := S[..];
    RoundIs(From(s, a), k, w);
    TurnedOnce(s, a, First(S[e], S[f], S[g], S[h], k, w), Second(S[a], S[b], S[c]));
    var t0 := First(S[e], S[f], S[g], S[h], k, w);
    var t1 := Second(S[a], S[b], S[c]);
    S[d] := Plus(S[d], t0);
    S[h] := Plus(t0, t1);
    assert S[..] == s[d := Plus(s[d], t0)][h := Plus(t0, t1)];
  }

  /** The message schedule. */
  method Schedule(buf: seq<byte>, W: array<word>)
    requires |buf| == 128 && W.Length == 80
    modifies W
    ensures IsSchedule(W[..], buf)
  {
    hide UpperSigma0, UpperSigma1, Sigma0, Sigma1, LowerSigma0, LowerSigma1, Gamma0, Gamma1, Plus, AsWord, Scheduled, BeVal;
    var i := 0;
    while i < 16
      invariant 0 <= i <= 16 && forall j :: 0 <= j < i ==> W[j] == Scheduled(buf, j)
    {
      FirstWords(buf, i);
      W[i] := Load64(buf, 8 * i);
      i := i + 1;
    }
    while i < 80
      invariant 16 <= i <= 80 && forall j :: 0 <= j < i ==> W[j] == Scheduled(buf, j)
    {
      LaterWords(buf, i);
      SameSigmas(W[i - 2]);
      SameSigmas(W[i - 15]);
      W[i] := Plus(Plus(Plus(Gamma1(W[i - 2]), W[i - 7]), Gamma0(W[i - 15])), W[i - 16]);
      i := i + 1;
    }
  }

  lemma FirstWords(block: seq<byte>, i: nat)
    requires |block| == 128 && i < 16
    ensures BeVal(block[8 * i..8 * i + 8]) < Sha512.TWO64 && Scheduled(block, i) == AsWord(BeVal(block[8 * i..8 * i + 8]))
  {
    hide AsWord, BeVal;
    WordFits(block[8 * i..8 * i + 8]);
  }

  lemma LaterWords(block: seq<byte>, i: nat)
    requires |block| == 128 && 16 <= i < 80
    ensures Scheduled(block, i)
            == Plus(Plus(Plus(LowerSigma1(Scheduled(block, i - 2)), Scheduled(block, i - 7)), LowerSigma0(Scheduled(block, i - 15))), Scheduled(block, i - 16))
  {
    hide Plus, LowerSigma0, LowerSigma1;
  }

  /** sha512_compress: eight rounds at a time, so that no register has to be moved. */
  method Compress(state: array<word>, buf: seq<byte>)
    requires state.Length == 8 && |buf| == 128
    modifies state
    ensures state[..] == Compressed(old(state[..]), buf)
  {
    hide Rounds, Scheduled, From, Plus, Compressed, IsSchedule;
    var S := new word[8];
    var i := 0;
    while i < 8
      invariant 0 <= i <= 8 && S[..i] == state[..i] && state[..] == old(state[..])
    {
      S[i] := state[i];
      i := i + 1;
    }
    var W := new word[80](_ => 0);
    Schedule(buf, W);
    ghost var v := From(state[..], 0);
    assert Rounds(v, buf, 0) == v by { NoRounds(v, buf); }
    assert S[..] == S[..8] == state[..8] == state[..];
    i := 0;
    while i < 80
      invariant 0 <= i <= 80 && i % 8 == 0 && From(S[..], 0) == Rounds(v, buf, i) && state[..] == old(state[..])
      invariant IsSchedule(W[..], buf)
    {
      EightRounds(S, W[..], i, buf, v);
      i := i + 8;
    }
    Add(state, S);
    Feedback(old(state[..]), S[..], state[..], buf);
  }

  /** The last loop of sha512_compress. */
  method Add(state: array<word>, S: array<word>)
    requires state.Length == 8 && S.Length == 8 && state != S
    modifies state
    ensures forall j :: 0 <= j < 8 ==> state[j] == Plus(old(state[j]), S[j])
  {
    hide Plus;
    var i := 0;
    while i < 8
      invariant 0 <= i <= 8
      invariant forall j :: 0 <= j < 8 ==> state[j] == if j < i then Plus(old(state[j]), S[j]) else old(state[j])
    {
      state[i] := Plus(state[i], S[i]);
      i := i + 1;
    }
  }

  lemma Feedback(st: seq<word>, s: seq<word>, r: seq<word>, block: seq<byte>)
    requires |st| == |s| == |r| == 8 && |block| == 128 && From(s, 0) == Rounds(From(st, 0), block, 80)
    requires forall j :: 0 <= j < 8 ==> r[j] == Plus(st[j], s[j])
    ensures r == Compressed(st, block)
  {
    hide Plus, Rounds;
  }

  lemma NoRounds(v: Eight, block: seq<byte>)
    requires |block| == 128
    ensures Rounds(v, block, 0) == v
  {
  }

  /** The rounds from n on, with the words of the schedule. */
  lemma {:induction false} NextRounds(v: Eight, block: seq<byte>, w: seq<word>, n: nat)
    requires |block| == 128 && n + 8 <= 80 && IsSchedule(w, block)
    ensures Rounds(v, block, n + 1) == Round(Rounds(v, block, n), AsWord(Constant(n)), w[n])
    ensures Rounds(v, block, n + 2) == Round(Rounds(v, block, n + 1), AsWord(Constant(n + 1)), w[n + 1])
    ensures Rounds(v, block, n + 3) == Round(Rounds(v, block, n + 2), AsWord(Constant(n + 2)), w[n + 2])
    ensures Rounds(v, block, n + 4) == Round(Rounds(v, block, n + 3), AsWord(Constant(n + 3)), w[n + 3])
    ensures Rounds(v, block, n + 5) == Round(Rounds(v, block, n + 4), AsWord(Constant(n + 4)), w[n + 4])
    ensures Rounds(v, block, n + 6) == Round(Rounds(v, block, n + 5), AsWord(Constant(n + 5)), w[n + 5])
    ensures Rounds(v, block, n + 7) == Round(Rounds(v, block, n + 6), AsWord(Constant(n + 6)), w[n + 6])
    ensures Rounds(v, block, n + 8) == Round(Rounds(v, block, n + 7), AsWord(Constant(n + 7)), w[n + 7])
  {
    hide Round, Scheduled, Constant, AsWord;
  }

  /** The eight rounds of the loop body; the registers are back in their places behind them. */
  method EightRounds(S: array<word>, W: seq<word>, i: nat, ghost buf: seq<byte>, ghost v: Eight)
    requires S.Length == 8 && |W| == 80 && i + 8 <= 80 && |buf| == 128
    requires From(S[..], 0) == Rounds(v, buf, i) && IsSchedule(W, buf)
    modifies S
    ensures From(S[..], 0) == Rounds(v, buf, i + 8)
  {
    hide Round, Scheduled, Constant, From, Rounds, AsWord, IsSchedule;
    NextRounds(v, buf, W, i);
    FourRounds(S, W, i);
    Rnd(S, 4, 5, 6, 7, 0, 1, 2, 3, AsWord(Constant(i + 4)), W[i + 4]);
    Rnd(S, 3, 4, 5, 6, 7, 0, 1, 2, AsWord(Constant(i + 5)), W[i + 5]);
    Rnd(S, 2, 3, 4, 5, 6, 7, 0, 1, AsWord(Constant(i + 6)), W[i + 6]);
    Rnd(S, 1, 2, 3, 4, 5, 6, 7, 0, AsWord(Constant(i + 7)), W[i + 7]);
  }

  /** The first four of them. */
  method FourRounds(S: array<word>, W: seq<word>, i: nat)
    requires S.Length == 8 && |W| == 80 && i + 8 <= 80
    modifies S
    ensures From(S[..], 4)
            == Round(Round(Round(Round(old(From(S[..], 0)), AsWord(Constant(i)), W[i]), AsWord(Constant(i + 1)), W[i + 1]),
                           AsWord(Constant(i + 2)), W[i + 2]), AsWord(Constant(i + 3)), W[i + 3])
  {
    hide Round, Constant, From, AsWord;
    Rnd(S, 0, 1, 2, 3, 4, 5, 6, 7, AsWord(Constant(i)), W[i]);
    Rnd(S, 7, 0, 1, 2, 3, 4, 5, 6, AsWord(Constant(i + 1)), W[i + 1]);
    Rnd(S, 6, 7, 0, 1, 2, 3, 4, 5, AsWord(Constant(i + 2)), W[i + 2]);
    Rnd(S, 5, 6, 7, 0, 1, 2, 3, 4, AsWord(Constant(i + 3)), W[i + 3]);
  }

  // ---------- over numbers ----------

  function AsNumber(w: word): Sha512.uint64 { w as int }

  function AsWords(st: Sha512.State): (w: seq<word>)
    ensures |w| == 8
  {
    [AsWord(st[0]), AsWord(st[1]), AsWord(st[2]), AsWord(st[3]), AsWord(st[4]), AsWord(st[5]), AsWord(st[6]), AsWord(st[7])]
  }

  function AsNumbers(w: seq<word>): (r: seq<Sha512.uint64>)
    ensures |r| == |w|
  {
    if w == [] then [] else [AsNumber(w[0])] + AsNumbers(w[1..])
  }

  /** The compression function that the digest of a message is built from. */
  function Standard(st: Sha512.State, block: seq<byte>): Sha512.State {
    if |block| != 128 then st else AsNumbers(Compressed(AsWords(st), block))
  }
}

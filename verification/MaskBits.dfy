/** The mask stream of the Yay0 format: bits packed into bytes, most significant first. */
module MaskBits {
  import opened Arith
  import Binary
  import opened Bytes
  import opened Options

  /** 2 to the k. */
  function Weight(k: nat): (w: nat)
    requires k < 8
    ensures w in {1, 2, 4, 8, 16, 32, 64, 128}
  {
    if k == 0 then 1 else if k == 1 then 2 else if k == 2 then 4 else if k == 3 then 8
    else if k == 4 then 16 else if k == 5 then 32 else if k == 6 then 64 else 128
  }

  /** Bit k of a byte. */
  predicate BitOf(b: byte, k: nat)
    requires k < 8
  {
    b / Weight(k) % 2 == 1
  }

  /** The i-th bit of a packed stream. */
  predicate StreamBit(data: seq<byte>, i: nat)
    requires i / 8 < |data|
  {
    BitOf(data[i / 8], 7 - i % 8)
  }

  /** The stream is the binary numeral that its bytes write down, the first bit in front. */
  lemma StreamIsNumeral(data: seq<byte>, i: nat)
    requires i / 8 < |data|
    ensures 8 * |data| > i
    ensures StreamBit(data, i) <==> BeVal(data) / Binary.P2(8 * |data| - 1 - i) % 2 == 1
  {
    hide Binary.P2, BeVal, BitOf;
    var k, m := i / 8, 7 - i % 8;
    var rest := 8 * (|data| - k - 1);
    var head := data[..k + 1];
    Binary.BeValSplit(data, k + 1);
    Binary.BeValBound(data[k + 1..]);
    assert 8 * |data| - 1 - i == rest + m;
    Binary.ShiftTwice(BeVal(data), rest, m);
    DivUnique(BeVal(data), Binary.P2(rest), BeVal(head), BeVal(data[k + 1..])) by { Swap(BeVal(head), Binary.P2(rest)); }
    assert head == data[..k] + [data[k]];
    BeValMore(data[..k], data[k]);
    LastBits(BeVal(data[..k]), data[k], m);
  }

  lemma Swap(a: int, b: int)
    ensures a * b == b * a
  {
  }

  lemma WeightIsPower(m: nat)
    requires m < 8
    ensures Weight(m) == Binary.P2(m)
  {
    Binary.P2Steps();
  }

  lemma LastBits(v: nat, b: byte, m: nat)
    requires m < 8
    ensures (256 * v + b) / Binary.P2(m) % 2 == 1 <==> BitOf(b, m)
  {
    hide Binary.P2, Weight;
    var w := Weight(m);
    WeightIsPower(m);
    var e := WeightRatio(m, 7);
    WeightRatioTop(m, e);
    Regroup2(w, e, v);
    DivNat(b, w);
    MulNat(e, v);
    Join(w, e * v, b / w);
    DivUnique(256 * v + b, w, 2 * (e * v) + b / w, b % w);
    Even(e * v, b / w);
  }

  lemma WeightRatioTop(m: nat, e: nat)
    requires m < 8 && Weight(7) == Weight(m) * e
    ensures Weight(m) * e == 128
  {
  }

  lemma Join(w: int, x: int, y: int)
    ensures w * (2 * x + y) == w * (2 * x) + w * y
  {
  }

  lemma Regroup2(w: int, e: int, v: int)
    requires w * e == 128
    ensures w * (2 * (e * v)) == 256 * v
  {
    assert w * (2 * (e * v)) == 2 * (w * e) * v;
  }

  lemma Even(a: nat, b: nat)
    ensures (2 * a + b) % 2 == b % 2
  {
  }

  /** data packs the bits, with zeros behind them. */
  ghost predicate Packs(data: seq<byte>, bits: seq<bool>) {
    && |data| == (|bits| + 7) / 8
    && (forall i :: 0 <= i < |bits| ==> StreamBit(data, i) == bits[i])
    && (|bits| % 8 != 0 ==> data[|data| - 1] % (2 * Weight(7 - |bits| % 8)) == 0)
  }

  /** b | (bit << k) for a byte whose bits k..0 are clear. */
  function WithBit(b: byte, bit: bool, k: nat): byte
    requires k < 8 && b % (2 * Weight(k)) == 0
  {
    if bit then b + Weight(k) else b
  }

  lemma WithBitBits(b: byte, bit: bool, k: nat)
    requires k < 8 && b % (2 * Weight(k)) == 0
    ensures BitOf(WithBit(b, bit, k), k) == bit
    ensures forall j :: k < j < 8 ==> BitOf(WithBit(b, bit, k), j) == BitOf(b, j)
    ensures WithBit(b, bit, k) % Weight(k) == 0
  {
    OwnBit(b, k);
    forall j | k < j < 8 ensures BitOf(WithBit(b, bit, k), j) == BitOf(b, j) {
      HigherBit(b, k, j);
    }
  }

  lemma OwnBit(b: byte, k: nat)
    requires k < 8 && b % (2 * Weight(k)) == 0
    ensures b / Weight(k) % 2 == 0 && b % Weight(k) == 0
    ensures b + Weight(k) < 256 && (b + Weight(k)) / Weight(k) % 2 == 1 && (b + Weight(k)) % Weight(k) == 0
  {
    hide Weight;
    var w := Weight(k);
    var m := b / (2 * w);
    assert b == w * (2 * m);
    assert b + w == w * (2 * m + 1);
    DivUnique(b, w, 2 * m, 0);
    DivUnique(b + w, w, 2 * m + 1, 0);
    RoomAbove(b, k, m);
  }

  lemma RoomAbove(b: byte, k: nat, m: nat)
    requires k < 8 && b == 2 * Weight(k) * m
    ensures b + Weight(k) < 256
  {
    var e := WeightRatio(k, 7);
    var w := Weight(k);
    assert 256 == 2 * w * e;
    if m >= e {
      MulMonotone(2 * w, e, m);
    } else {
      MulMonotone(2 * w, m, e - 1);
      assert 2 * w * (e - 1) == 2 * w * e - 2 * w;
    }
  }

  /** Weight(j) is Weight(k) times a power of two. */
  lemma WeightRatio(k: nat, j: nat) returns (e: nat)
    requires k <= j < 8
    ensures Weight(j) == Weight(k) * e && 0 < e && (k < j ==> e % 2 == 0)
    decreases j
  {
    if k == j {
      e := 1;
    } else {
      var d := WeightRatio(k, j - 1);
      assert Weight(j) == 2 * Weight(j - 1);
      e := 2 * d;
      assert Weight(k) * e == 2 * (Weight(k) * d);
    }
  }

  lemma HigherBit(b: byte, k: nat, j: nat)
    requires k < j < 8 && b % (2 * Weight(k)) == 0
    ensures b + Weight(k) < 256 && (b + Weight(k)) / Weight(j) == b / Weight(j)
  {
    OwnBit(b, k);
    var ratio := WeightRatio(k, j);
    Carryless(b, Weight(k), Weight(j), ratio / 2);
  }

  lemma Carryless(b: nat, w: nat, big: nat, e: nat)
    requires 0 < w && big == 2 * w * e && 0 < e && b % (2 * w) == 0
    ensures (b + w) / big == b / big
  {
    var m := b / (2 * w);
    var q, s := m / e, m % e;
    assert b == 2 * w * m;
    assert m == e * q + s;
    assert 2 * w * (e * q + s) == big * q + 2 * w * s;
    MulMonotone(2 * w, s, e - 1);
    assert 2 * w * (e - 1) == big - 2 * w;
    MulMonotone(2 * w, 0, s);
    DivUnique(b, big, q, 2 * w * s);
    DivUnique(b + w, big, q, 2 * w * s + w);
  }

  class MaskWriter {
    var data: seq<byte>
    var nextOffset: int
    ghost var bits: seq<bool>

    ghost predicate Valid()
      reads this
    {
      && Packs(data, bits)
      && nextOffset == if |bits| % 8 == 0 then -1 else 7 - |bits| % 8
    }

    constructor ()
      ensures Valid() && bits == []
    {
      data := [];
      nextOffset := -1;
      bits := [];
    }

    method PushBack(bit: bool)
      requires Valid()
      modifies this
      ensures Valid() && bits == old(bits) + [bit]
    {
      hide Weight, StreamBit, WithBit, BitOf, Packs;
      ghost var d0, b0 := data, bits;
      LastByte(d0, b0);
      Pushed(d0, b0, bit);
      if nextOffset < 0 {
        data := data + [0];
        nextOffset := 7;
      }
      var last := data[|data| - 1];
      data := data[|data| - 1 := WithBit(last, bit, nextOffset)];
      nextOffset := nextOffset - 1;
      bits := bits + [bit];
      assert data == AfterPush(d0, b0, bit);
    }
  }

  /** The bit that comes next and those below it are clear. */
  lemma LastByte(data: seq<byte>, bits: seq<bool>)
    requires Packs(data, bits)
    ensures 0 % (2 * Weight(7)) == 0
    ensures |bits| % 8 != 0 ==> |data| > 0 && data[|data| - 1] % (2 * Weight(7 - |bits| % 8)) == 0
  {
  }

  ghost function AfterPush(data: seq<byte>, bits: seq<bool>, bit: bool): seq<byte>
    requires Packs(data, bits)
  {
    if |bits| % 8 == 0 then data + [WithBit(0, bit, 7)]
    else data[|data| - 1 := WithBit(data[|data| - 1], bit, 7 - |bits| % 8)]
  }

  lemma NextWeight(k: nat)
    requires 0 < k < 8
    ensures 2 * Weight(k - 1) == Weight(k)
  {
  }

  lemma Pushed(data: seq<byte>, bits: seq<bool>, bit: bool)
    requires Packs(data, bits)
    ensures Packs(AfterPush(data, bits, bit), bits + [bit])
  {
    hide Weight, WithBit, BitOf;
    var d, n := AfterPush(data, bits, bit), |bits|;
    var k := 7 - n % 8;
    LastByte(data, bits);
    var last: byte := if n % 8 == 0 then 0 else data[|data| - 1];
    WithBitBits(last, bit, k);
    if k > 0 {
      NextWeight(k);
    }
    assert |d| == n / 8 + 1 && d[n / 8] == WithBit(last, bit, k);
    forall i | 0 <= i < n + 1 ensures StreamBit(d, i) == (bits + [bit])[i] {
      if i < n {
        assert StreamBit(data, i) == bits[i];
        if n % 8 != 0 && i / 8 == n / 8 {
          assert 7 - i % 8 > k;
        }
      }
    }
  }

  /** A cursor over the mask bytes of a whole file. */
  class MaskReader {
    const input: seq<byte>
    const start: nat
    var offset: nat
    var nextBit: nat

    ghost predicate Valid()
      reads this
    {
      nextBit <= 8 && start <= offset
    }

    /** How many bits have been taken. */
    ghost function Taken(): nat
      requires Valid()
      reads this
    {
      8 * (offset - start) + nextBit
    }

    constructor (input: seq<byte>, offset: nat)
      ensures this.input == input && this.start == offset && Valid() && Taken() == 0
    {
      this.input := input;
      this.start := offset;
      this.offset := offset;
      nextBit := 0;
    }

    /** The next bit, or none when the input has ended. */
    method PopFront() returns (r: Option<bool>)
      requires Valid()
      modifies this
      ensures Valid() && Taken() == old(Taken()) + if r.Some? then 1 else 0
      ensures r == MaskAt(input, start, old(Taken()))
    {
      if nextBit == 8 {
        nextBit := 0;
        offset := offset + 1;
      }
      if offset >= |input| { return None; }
      var value := BitOf(input[offset], 7 - nextBit);
      nextBit := nextBit + 1;
      return Some(value);
    }
  }

  /** The i-th mask bit of a file whose masks begin at start. */
  function MaskAt(input: seq<byte>, start: nat, i: nat): Option<bool> {
    if start + i / 8 >= |input| then None else Some(BitOf(input[start + i / 8], 7 - i % 8))
  }

  lemma MaskOfPacked(input: seq<byte>, start: nat, data: seq<byte>, bits: seq<bool>, i: nat)
    requires Packs(data, bits) && i < |bits| && start + |data| <= |input| && input[start..start + |data|] == data
    ensures MaskAt(input, start, i) == Some(bits[i])
  {
    assert StreamBit(data, i) == bits[i];
    assert input[start + i / 8] == data[i / 8];
  }
}

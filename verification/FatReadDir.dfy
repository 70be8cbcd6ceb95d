/** What reading a directory delivers, by the bytes of its entries. */
module FatReadDir {
  import opened FatLongName
  import opened Bytes
  import opened Options

  /** Reading delivers the first file or directory, unless an entry never used comes before it. */
  lemma {:induction false} ReadDelivers(dir: seq<entry>, i: nat, ord: nat, sum: byte, blk: nat, buf: seq<unit>, j: nat)
    requires i <= |dir| && |buf| == BUFFER
    ensures ReadFrom(dir, i, ord, sum, blk, buf).at == Some(j)
            <==> i <= j < |dir| && IsFile(dir[j]) && forall k :: i <= k < j ==> dir[k][0] != 0 && !IsFile(dir[k])
    decreases |dir| - i
  {
    hide Pick, SumFrom;
    if i < |dir| && dir[i][0] != 0 && !IsFile(dir[i]) {
      var d := dir[i];
      if Passed(d) {
        ReadDelivers(dir, i + 1, 0xFF, sum, blk, buf, j);
      } else {
        var first := Topmost(d);
        var n, sum', blk' := Order(d), if first then d[13] else sum, if first then i else blk;
        var p := Pick(buf, d);
        ReadDelivers(dir, i + 1, if p.0 then (n + 255) % 256 else 0xFF, sum', blk', p.1, j);
        ReadDelivers(dir, i + 1, 0xFF, sum', blk', buf, j);
      }
    }
  }

  /** Every s from a to b has the unit u. */
  predicate AllUnits(d: entry, a: nat, b: nat, u: unit)
    requires b <= 13
  {
    forall s :: a <= s < b ==> Unit(d, s) == u
  }

  /** The first zero unit from s on, or 13. */
  function FirstZero(d: entry, s: nat): (t: nat)
    requires s <= 13
    ensures s <= t <= 13 && (forall k :: s <= k < t ==> Unit(d, k) != 0) && (t < 13 ==> Unit(d, t) == 0)
    decreases 13 - s
  {
    if s == 13 || Unit(d, s) == 0 then s else FirstZero(d, s + 1)
  }

  /** The number of a piece, and whether it is the topmost one. */
  function Order(d: entry): nat { var x: int := d[0]; x - x / 64 % 2 * 64 }

  predicate Topmost(d: entry) { d[0] / 64 % 2 == 1 }

  /**
   * A piece that can be read: no cluster, units up to a terminator and filler behind it, and room in the buffer for
   * them and the terminator, which the topmost piece has even when it is full.
   */
  predicate Readable(d: entry) {
    var t, n := FirstZero(d, 0), Order(d);
    && Word(d, 26) == 0 && 1 <= n
    && (n - 1) * 13 + t + (if t < 13 || Topmost(d) then 1 else 0) <= 256
    && AllUnits(d, t + 1, 13, 0xFFFF)
  }

  lemma {:induction false} PickRest(buf: seq<unit>, d: entry, i: nat, s: nat)
    requires |buf| == BUFFER && s <= 13
    ensures PickFrom(buf, d, i, s, 0).0 <==> AllUnits(d, s, 13, 0xFFFF)
    decreases 13 - s
  {
    hide Unit;
    if s < 13 && Unit(d, s) == 0xFFFF {
      PickRest(buf, d, i, s + 1);
    }
  }

  lemma {:induction false} PickUnits(buf: seq<unit>, d: entry, i: nat, s: nat, wc: unit)
    requires |buf| == BUFFER && s <= 13 && wc != 0 && (s > 0 ==> i <= BUFFER)
    ensures var t := FirstZero(d, s);
            PickFrom(buf, d, i, s, wc).0
            <==> i + t - s + (if t < 13 || Topmost(d) then 1 else 0) <= 256 && AllUnits(d, t + 1, 13, 0xFFFF)
    decreases 13 - s
  {
    hide Unit;
    if s < 13 && i < BUFFER {
      var uc := Unit(d, s);
      if uc == 0 {
        PickRest(buf[i := uc], d, i + 1, s + 1);
      } else {
        PickUnits(buf[i := uc], d, i + 1, s + 1, uc);
      }
    }
  }

  /** Whether a piece is picked up does not depend on the buffer. */
  lemma PickReadable(buf: seq<unit>, d: entry)
    requires |buf| == BUFFER
    ensures Pick(buf, d).0 <==> Readable(d)
  {
    hide Unit, AllUnits, FirstZero, PickFrom;
    PickUnits(buf, d, Start(Order(d)), 0, 1);
  }

  lemma FewReadable(d: entry)
    requires Readable(d)
    ensures 1 <= Order(d) <= 20
  {
    hide Unit, Word, AllUnits, FirstZero;
  }

  /** The entry is piece n, counted from the short entry, and goes with the checksum. */
  predicate PieceAt(d: entry, n: nat, sum: byte) {
    var x: int := d[11];
    x % 64 == 0x0F && d[0] == n && d[13] == sum && Readable(d)
  }

  /** The entries from b up to the short entry j are all pieces of its long name. */
  predicate CompleteName(dir: seq<entry>, b: nat, j: nat)
    requires j < |dir|
  {
    && b < j
    && PieceAt(dir[b], 0x40 + j - b, SumFrom(dir[j][..11], 11))
    && RestOfName(dir, b + 1, j, SumFrom(dir[j][..11], 11))
  }

  /** From i on the pieces count down to the short entry j. */
  predicate RestOfName(dir: seq<entry>, i: nat, j: nat, sum: byte)
    requires j < |dir|
  {
    forall k :: i <= k < j ==> PieceAt(dir[k], j - k, sum)
  }

  /** With ord pieces still expected, they follow. */
  predicate Continues(dir: seq<entry>, i: nat, j: nat, ord: nat, sum: byte)
    requires j < |dir|
  {
    i <= j && ord == j - i && sum == SumFrom(dir[j][..11], 11) && RestOfName(dir, i, j, sum)
  }

  /** No countdown is longer than twenty pieces. */
  lemma Countdown(dir: seq<entry>, i: nat, j: nat, sum: byte)
    requires i <= j < |dir| && RestOfName(dir, i, j, sum)
    ensures j - i <= 20
  {
    hide Readable, SumFrom;
    if j - i > 20 {
      assert PieceAt(dir[j - 21], 21, sum);
      FewReadable(dir[j - 21]);
    }
  }

  /**
   * The entry delivered has a long name that begins at b if and only if the pieces from b on are complete: counting
   * down from the topmost one, each with the checksum of the short name, with nothing else in between.
   */
  lemma {:induction false} ReadBlock(dir: seq<entry>, i: nat, ord: nat, sum: byte, blk: nat, buf: seq<unit>, j: nat, b: nat)
    requires i <= |dir| && |buf| == BUFFER && ReadFrom(dir, i, ord, sum, blk, buf).at == Some(j)
    ensures j < |dir|
    ensures ReadFrom(dir, i, ord, sum, blk, buf).block == Some(b)
            <==> (i <= b && CompleteName(dir, b, j)) || (b == blk && Continues(dir, i, j, ord, sum))
    decreases |dir| - i
  {
    hide Pick, SumFrom, Readable, CompleteName, Continues;
    var d := dir[i];
    ReadDelivers(dir, i, ord, sum, blk, buf, j);
    if IsFile(d) {
      LastStep(dir, i, ord, sum, b);
    } else if Passed(d) {
      ReadBlock(dir, i + 1, 0xFF, sum, blk, buf, j, b);
      NoPiece(dir, i, j, ord, sum, blk, b);
    } else {
      PickReadable(buf, d);
      var first := Topmost(d);
      var n, sum', blk' := Order(d), if first then d[13] else sum, if first then i else blk;
      if (first || n == ord) && sum' == d[13] {
        ReadBlock(dir, i + 1, if Readable(d) then (n + 255) % 256 else 0xFF, sum', blk', Pick(buf, d).1, j, b);
      } else {
        ReadBlock(dir, i + 1, 0xFF, sum', blk', buf, j, b);
      }
      CountPiece(dir, i, j, ord, sum, blk, b);
    }
  }

  lemma LastStep(dir: seq<entry>, i: nat, ord: nat, sum: byte, b: nat)
    requires i < |dir|
    ensures Continues(dir, i, i, ord, sum) <==> ord == 0 && sum == SumFrom(dir[i][..11], 11)
    ensures i <= b ==> !CompleteName(dir, b, i)
  {
    hide SumFrom, PieceAt;
  }

  /** Nothing continues over an entry that is no piece. */
  lemma NoPiece(dir: seq<entry>, i: nat, j: nat, ord: nat, sum: byte, blk: nat, b: nat)
    requires i < j < |dir| && Passed(dir[i])
    ensures !Continues(dir, i, j, ord, sum) && !Continues(dir, i + 1, j, 0xFF, sum) && !CompleteName(dir, i, j)
  {
    hide SumFrom, Readable;
    NotExpected(dir, i, j, sum);
    if RestOfName(dir, i, j, sum) {
      assert PieceAt(dir[i], j - i, sum);
      Countdown(dir, i, j, sum);
    }
    if CompleteName(dir, i, j) {
      Countdown(dir, i + 1, j, SumFrom(dir[j][..11], 11));
    }
  }

  lemma NotExpected(dir: seq<entry>, i: nat, j: nat, sum: byte)
    requires i < j < |dir|
    ensures !Continues(dir, i + 1, j, 0xFF, sum)
  {
    hide SumFrom, PieceAt;
    if RestOfName(dir, i + 1, j, sum) {
      Countdown(dir, i + 1, j, sum);
    }
  }

  /** What one entry of a long name means for the count. */
  lemma CountPiece(dir: seq<entry>, i: nat, j: nat, ord: nat, sum: byte, blk: nat, b: nat)
    requires i < j < |dir| && Attr(dir[i]) == AM_LFN && dir[i][0] != 0
    ensures var d := dir[i];
            var first, n := Topmost(d), Order(d);
            var sum' := if first then d[13] else sum;
            && !Continues(dir, i + 1, j, 0xFF, sum')
            && (if first then
                  !Continues(dir, i, j, ord, sum)
                  && (CompleteName(dir, i, j) <==> Readable(d) && Continues(dir, i + 1, j, (n + 255) % 256, d[13]))
                else
                  !CompleteName(dir, i, j)
                  && (Continues(dir, i, j, ord, sum) <==> n == ord && sum == d[13] && Readable(d) && Continues(dir, i + 1, j, (n + 255) % 256, sum)))
  {
    hide SumFrom, Readable;
    var d := dir[i];
    NotExpected(dir, i, j, if Topmost(d) then d[13] else sum);
    if Readable(d) { FewReadable(d); }
    if RestOfName(dir, i + 1, j, sum) { Countdown(dir, i + 1, j, sum); }
    if RestOfName(dir, i + 1, j, d[13]) { Countdown(dir, i + 1, j, d[13]); }
    if RestOfName(dir, i, j, sum) { assert PieceAt(dir[i], j - i, sum); }
  }
}

/** A directory as a sequence of entries: searching it for a name, and registering a name in it. */
module FatDirectory {
  import opened Bytes
  import opened FatLongName
  import opened Options

  // ---------- searching ----------

  /** What dir_find looks for: the long name in the working buffer, the short name, and its flags. */
  datatype Target = Target(buf: seq<unit>, sfn: seq<byte>, loss: bool, noLfn: bool) {
    predicate Valid() { |buf| == BUFFER && |sfn| == 11 }
  }

  /** Pieces expected, their checksum, and where the long name began. */
  datatype State = State(ord: nat, sum: byte, blk: Option<nat>)

  const RESET: State := State(0xFF, 0xFF, None)

  datatype Result = Hit(at: nat, blk: Option<nat>) | Miss

  /** An entry without valid data: deleted, or with the label attribute. */
  predicate Skipped(d: entry) {
    d[0] == DDEM || (Attr(d) / 8 % 2 == 1 && Attr(d) != AM_LFN)
  }

  /** An entry with a short name. */
  predicate IsShort(d: entry) {
    d[0] != 0 && !Skipped(d) && Attr(d) != AM_LFN
  }

  /** The search ends at this entry. */
  predicate Stops(q: Target, d: entry, st: State)
    requires q.Valid()
  {
    IsShort(d) && ((st.ord == 0 && st.sum == SumFrom(d[..11], 11)) || (!q.loss && d[..11] == q.sfn))
  }

  /** The state after an entry i at which the search goes on. */
  function Step(up: unit -> unit, q: Target, d: entry, i: nat, st: State): State
    requires q.Valid()
  {
    if Skipped(d) || Attr(d) != AM_LFN then State(0xFF, st.sum, None)
    else if q.noLfn then st
    else
      var x: int := d[0];
      var first := x / LLEF % 2 == 1;
      var b := if first then x - LLEF else x;
      var sum := if first then d[13] else st.sum;
      State(if b == (if first then b else st.ord) && sum == d[13] && Compare(up, q.buf, d) then (b + 255) % 256 else 0xFF,
        sum, if first then Some(i) else st.blk)
  }

  /** dir_find from entry i on. */
  function FindFrom(up: unit -> unit, q: Target, dir: seq<entry>, i: nat, st: State): Result
    requires q.Valid() && i <= |dir|
    decreases |dir| - i
  {
    if i == |dir| || dir[i][0] == 0 then Miss
    else if Stops(q, dir[i], st) then Hit(i, st.blk)
    else FindFrom(up, q, dir, i + 1, Step(up, q, dir[i], i, st))
  }

  function Find(up: unit -> unit, q: Target, dir: seq<entry>): Result
    requires q.Valid()
  {
    FindFrom(up, q, dir, 0, RESET)
  }

  /** The body of the loop of dir_find, for an entry that is not the end of the table. */
  method Look(up: unit -> unit, q: Target, d: entry, i: nat, st: State) returns (found: bool, next: State)
    requires q.Valid() && d[0] != 0
    ensures found <==> Stops(q, d, st)
    ensures !found ==> next == Step(up, q, d, i, st)
  {
    hide Compare, SumFrom, Skipped, Attr;
    var c: int, a, ord, sum, blk := d[0], Attr(d), st.ord, st.sum, st.blk;
    if Skipped(d) {
      ord, blk := 0xFF, None;
    } else if a == AM_LFN {
      if !q.noLfn {
        if c / LLEF % 2 == 1 {
          sum := d[13];
          c := c - LLEF;
          ord := c;
          blk := Some(i);
        }
        var same := false;
        if c == ord && sum == d[13] {
          same := Compare(up, q.buf, d);
        }
        ord := if same then (c + 255) % 256 else 0xFF;
      }
    } else {
      var s := SumSfn(d);
      if ord == 0 && sum == s { return true, st; }
      if !q.loss && d[..11] == q.sfn { return true, st; }
      ord, blk := 0xFF, None;
    }
    return false, State(ord, sum, blk);
  }

  // ---------- searching over unchanged and free entries ----------

  /** The state after the entries from i to j. */
  function After(up: unit -> unit, q: Target, dir: seq<entry>, i: nat, j: nat, st: State): State
    requires q.Valid() && i <= j <= |dir|
    decreases j - i
  {
    if i == j then st else Step(up, q, dir[j - 1], j - 1, After(up, q, dir, i, j - 1, st))
  }

  /** The search does not end before j. */
  ghost predicate Passes(up: unit -> unit, q: Target, dir: seq<entry>, i: nat, j: nat, st: State)
    requires q.Valid() && i <= j <= |dir|
  {
    forall k :: i <= k < j ==> dir[k][0] != 0 && !Stops(q, dir[k], After(up, q, dir, i, k, st))
  }

  lemma {:induction false} FindAfter(up: unit -> unit, q: Target, dir: seq<entry>, i: nat, j: nat, st: State)
    requires q.Valid() && i <= j <= |dir| && Passes(up, q, dir, i, j, st)
    ensures FindFrom(up, q, dir, i, st) == FindFrom(up, q, dir, j, After(up, q, dir, i, j, st))
    decreases j - i
  {
    hide Stops, Step;
    if i < j {
      FindAfter(up, q, dir, i, j - 1, st);
    }
  }

  /** A search either ends before j, or passes. */
  lemma {:induction false} EndsOrPasses(up: unit -> unit, q: Target, dir: seq<entry>, i: nat, j: nat, st: State)
    requires q.Valid() && i <= j <= |dir| && forall k :: i <= k < j ==> dir[k][0] != 0
    ensures Passes(up, q, dir, i, j, st) || exists k :: i <= k < j && FindFrom(up, q, dir, i, st) == Hit(k, After(up, q, dir, i, k, st).blk)
    decreases j - i
  {
    hide Stops, Step;
    if i < j {
      EndsOrPasses(up, q, dir, i, j - 1, st);
      if Passes(up, q, dir, i, j - 1, st) {
        FindAfter(up, q, dir, i, j - 1, st);
      }
    }
  }

  /** Equal beginnings are searched alike. */
  lemma {:induction false} AfterSame(up: unit -> unit, q: Target, a: seq<entry>, b: seq<entry>, i: nat, j: nat, st: State)
    requires q.Valid() && i <= j <= |a| && j <= |b| && a[..j] == b[..j]
    ensures After(up, q, a, i, j, st) == After(up, q, b, i, j, st)
    decreases j - i
  {
    hide Step;
    if i < j {
      assert a[..j - 1] == a[..j][..j - 1] && b[..j - 1] == b[..j][..j - 1];
      assert a[j - 1] == a[..j][j - 1] && b[j - 1] == b[..j][j - 1];
      AfterSame(up, q, a, b, i, j - 1, st);
    }
  }

  /** The search up to start, in both sequences: the same end, or the same state at start. */
  lemma SameBeginning(up: unit -> unit, q: Target, a: seq<entry>, b: seq<entry>, start: nat) returns (st: State)
    requires q.Valid() && start <= |a| && start <= |b| && a[..start] == b[..start] && forall k :: 0 <= k < start ==> a[k][0] != 0
    ensures st == After(up, q, a, 0, start, RESET)
    ensures if Find(up, q, a).Hit? && Find(up, q, a).at < start then Find(up, q, b) == Find(up, q, a)
            else Find(up, q, a) == FindFrom(up, q, a, start, st) && Find(up, q, b) == FindFrom(up, q, b, start, st)
  {
    hide Stops, Step, FindFrom;
    st := After(up, q, a, 0, start, RESET);
    if Find(up, q, a).Hit? && Find(up, q, a).at < start {
      SameFrom(up, q, a, b, 0, start, RESET);
    } else {
      EndsOrPasses(up, q, a, 0, start, RESET);
      forall k | 0 <= k <= start ensures After(up, q, a, 0, k, RESET) == After(up, q, b, 0, k, RESET) {
        assert a[..k] == a[..start][..k] && b[..k] == b[..start][..k];
        AfterSame(up, q, a, b, 0, k, RESET);
      }
      assert forall k :: 0 <= k < start ==> a[k] == a[..start][k] == b[..start][k] == b[k];
      FindAfter(up, q, a, 0, start, RESET);
      FindAfter(up, q, b, 0, start, RESET);
    }
  }

  lemma {:induction false} SameFrom(up: unit -> unit, q: Target, a: seq<entry>, b: seq<entry>, i: nat, start: nat, st: State)
    requires q.Valid() && i <= start <= |a| && start <= |b| && a[..start] == b[..start]
    requires FindFrom(up, q, a, i, st).Hit? && FindFrom(up, q, a, i, st).at < start
    ensures FindFrom(up, q, b, i, st) == FindFrom(up, q, a, i, st)
    decreases start - i
  {
    hide Stops, Step;
    FindsBehind(up, q, a, i, st);
    if i < start {
      assert a[i] == a[..start][i] == b[..start][i] == b[i];
      if a[i][0] != 0 && !Stops(q, a[i], st) {
        SameFrom(up, q, a, b, i + 1, start, Step(up, q, a[i], i, st));
      }
    }
  }

  lemma {:induction false} FindsBehind(up: unit -> unit, q: Target, a: seq<entry>, i: nat, st: State)
    requires q.Valid() && i <= |a| && FindFrom(up, q, a, i, st).Hit?
    ensures i <= FindFrom(up, q, a, i, st).at < |a|
    decreases |a| - i
  {
    hide Stops, Step;
    if a[i][0] != 0 && !Stops(q, a[i], st) {
      FindsBehind(up, q, a, i + 1, Step(up, q, a[i], i, st));
    }
  }

  /** Without a piece expected, the checksum does not matter. */
  lemma {:induction false} SumForgotten(up: unit -> unit, q: Target, dir: seq<entry>, i: nat, s: byte, t: byte)
    requires q.Valid() && i <= |dir|
    ensures FindFrom(up, q, dir, i, State(0xFF, s, None)) == FindFrom(up, q, dir, i, State(0xFF, t, None))
    decreases |dir| - i
  {
    hide Compare, SumFrom;
    if i < |dir| && dir[i][0] != 0 && !Stops(q, dir[i], State(0xFF, s, None)) {
      var x, y := Step(up, q, dir[i], i, State(0xFF, s, None)), Step(up, q, dir[i], i, State(0xFF, t, None));
      if x != y {
        SumForgotten(up, q, dir, i + 1, s, t);
      }
    }
  }

  /** A free entry: deleted, or never used. */
  predicate IsFree(d: entry) { d[0] == DDEM || d[0] == 0 }

  /** Behind the first entry never used there is no other kind. */
  ghost predicate Ended(dir: seq<entry>) {
    forall i, j :: 0 <= i < j < |dir| && dir[i][0] == 0 ==> dir[j][0] == 0
  }

  /** Free entries are passed over, or end the search. */
  lemma {:induction false} OverFree(up: unit -> unit, q: Target, dir: seq<entry>, i: nat, j: nat, st: State)
    requires q.Valid() && i < j <= |dir| && Ended(dir) && forall k :: i <= k < j ==> IsFree(dir[k])
    ensures FindFrom(up, q, dir, i, st) == FindFrom(up, q, dir, j, State(0xFF, st.sum, None))
    decreases j - i
  {
    if dir[i][0] == 0 {
      assert j < |dir| ==> dir[j][0] == 0;
    } else if i + 1 < j {
      OverFree(up, q, dir, i + 1, j, State(0xFF, st.sum, None));
    }
  }

  // ---------- searching over a registered name ----------

  lemma PieceEntry(d: entry, name: seq<unit>, ord: nat, chk: byte)
    requires IsName(name) && IsWritten(d, name, ord, chk)
    ensures d[0] != 0 && !Skipped(d) && Attr(d) == AM_LFN
  {
    WrittenIsPiece(d, name, ord, chk);
  }

  /** One piece of a name that can be read. */
  lemma PieceStep(up: unit -> unit, q: Target, d: entry, i: nat, st: State, name: seq<unit>, ord: nat, chk: byte)
    requires q.Valid() && !q.noLfn && IsName(name) && IsPiece(d, name, ord, chk)
    ensures var top := ord == Pieces(name);
            Step(up, q, d, i, st)
            == State(if (top || (st.ord == ord && st.sum == chk)) && Compare(up, q.buf, d) then ord - 1 else 0xFF,
                     if top then chk else st.sum, if top then Some(i) else st.blk)
  {
    hide Compare, IsPiece, Passed, Attr;
    FirstPieceByte(d, name, ord, chk);
    PieceSum(d, name, ord, chk);
    NotSkipped(d);
    assert (ord + 255) % 256 == ord - 1;
  }

  lemma NotSkipped(d: entry)
    requires Attr(d) == AM_LFN && !Passed(d)
    ensures !Skipped(d)
  {
  }

  /** The state after k pieces: how many are still expected, if all have matched so far. */
  lemma {:induction false} PiecesState(up: unit -> unit, q: Target, dir: seq<entry>, at: nat, pieces: seq<entry>, k: nat, st: State, name: seq<unit>, chk: byte)
    requires q.Valid() && !q.noLfn && IsName(name) && 0 < k <= |pieces| == Pieces(name) && at + |pieces| <= |dir|
    requires dir[at..at + |pieces|] == pieces && forall j :: 0 <= j < |pieces| ==> IsPiece(pieces[j], name, |pieces| - j, chk)
    ensures After(up, q, dir, at, at + k, st)
            == State(if forall j :: 0 <= j < k ==> Compare(up, q.buf, pieces[j]) then |pieces| - k else 0xFF, chk, Some(at))
  {
    hide Compare, IsPiece, Step, IsName, Pieces;
    FewPieces(name);
    var d, before := pieces[k - 1], After(up, q, dir, at, at + k - 1, st);
    assert dir[at + k - 1] == d;
    PieceStep(up, q, d, at + k - 1, before, name, |pieces| - (k - 1), chk);
    if k > 1 {
      PiecesState(up, q, dir, at, pieces, k - 1, st, name, chk);
    }
  }

  lemma FewPieces(name: seq<unit>)
    requires IsName(name)
    ensures 0 < Pieces(name) <= 20
  {
  }

  /** Reading over pieces of long names never ends a search. */
  lemma PiecesPass(up: unit -> unit, q: Target, dir: seq<entry>, i: nat, j: nat, st: State)
    requires q.Valid() && i <= j <= |dir| && forall k :: i <= k < j ==> dir[k][0] != 0 && !Skipped(dir[k]) && Attr(dir[k]) == AM_LFN
    ensures Passes(up, q, dir, i, j, st)
  {
    hide Step, Attr, Skipped, SumFrom;
  }

  lemma {:induction false} AfterSplit(up: unit -> unit, q: Target, dir: seq<entry>, i: nat, m: nat, j: nat, st: State)
    requires q.Valid() && i <= m <= j <= |dir|
    ensures After(up, q, dir, i, j, st) == After(up, q, dir, m, j, After(up, q, dir, i, m, st))
    decreases j - m
  {
    hide Step;
    if m < j {
      AfterSplit(up, q, dir, i, m, j - 1, st);
    }
  }

  lemma Slice(a: seq<entry>, i: nat, b: seq<entry>, m: nat, n: nat)
    requires i + |b| <= |a| && a[i..i + |b|] == b && m <= n <= |b|
    ensures a[i + m..i + n] == b[m..n]
  {
    forall k | m <= k < n ensures a[i + k] == b[k] {
      assert a[i..i + |b|][k] == b[k];
    }
  }

  /** Whether the long name that is read from the entries of name agrees with the one looked for. */
  ghost predicate LongMatch(up: unit -> unit, name: seq<unit>, other: seq<unit>) {
    |ReadAs(name)| < BUFFER && SameUpToCase(up, ReadAs(name), other)
  }

  /** The state in front of the short entry. */
  lemma BlockState(up: unit -> unit, q: Target, dir: seq<entry>, at: nat, block: seq<entry>, st: State, name: seq<unit>, other: seq<unit>, sfn: seq<byte>)
    requires q.Valid() && !q.noLfn && IsName(name) && IsName(other) && Holds(q.buf, other) && |sfn| == 11 && IsBlock(block, name, sfn)
    requires at + |block| <= |dir| && dir[at..at + |block|] == block && forall x :: up(x) == 0 <==> x == 0
    ensures var r := After(up, q, dir, at, at + Pieces(name), st);
            && (r.ord == 0 <==> LongMatch(up, name, other)) && (r.ord == 0 ==> r.sum == SumFrom(sfn, 11))
            && (|ReadAs(name)| < BUFFER ==> r.blk == Some(at + Pieces(name) - Pieces(ReadAs(name))))
  {
    hide After, IsWritten, IsPiece, ReadAs, Compare, SumFrom, IsName, Holds, SameUpToCase;
    var n, eff, chk := Pieces(name), ReadAs(name), SumFrom(sfn, 11);
    EffectiveName(name);
    FewPieces(name);
    if |eff| < BUFFER {
      var m := Pieces(eff);
      var tail := block[n - m..n];
      forall j | 0 <= j < m ensures IsPiece(tail[j], eff, m - j, chk) {
        assert tail[j] == block[n - m + j];
        WrittenAsRead(tail[j], name, m - j, chk);
      }
      Slice(dir, at, block, n - m, n);
      AfterSplit(up, q, dir, at, at + n - m, at + n, st);
      PiecesState(up, q, dir, at + n - m, tail, m, After(up, q, dir, at, at + n - m, st), eff, chk);
      PiecesMatch(up, q.buf, eff, other, tail, chk);
    } else {
      LongBlockState(up, q, dir, at, block, n, st, name, chk);
    }
  }

  /** A twentieth piece without a terminator matches nothing, and nothing is expected behind it. */
  lemma {:induction false} LongBlockState(up: unit -> unit, q: Target, dir: seq<entry>, at: nat, block: seq<entry>, k: nat, st: State, name: seq<unit>, chk: byte)
    requires q.Valid() && !q.noLfn && IsName(name) && Pieces(name) == 20 && 247 <= FirstFiller(name) < |name| && 0 < k <= 20
    requires |block| == 21 && at + 21 <= |dir| && dir[at..at + 21] == block
    requires forall i :: 0 <= i < 20 ==> IsWritten(block[i], name, 20 - i, chk)
    ensures After(up, q, dir, at, at + k, st).ord == 0xFF
  {
    hide IsWritten, FirstFiller, Pieces, Compare, IsName;
    var d := dir[at + k - 1];
    assert d == block[k - 1];
    if k == 1 {
      TopStep(up, q, d, at, After(up, q, dir, at, at, st), name, chk);
    } else {
      LongBlockState(up, q, dir, at, block, k - 1, st, name, chk);
      LowStep(up, q, d, at + k - 1, After(up, q, dir, at, at + k - 1, st), name, 21 - k, chk);
    }
  }

  lemma TopStep(up: unit -> unit, q: Target, d: entry, i: nat, st: State, name: seq<unit>, chk: byte)
    requires q.Valid() && !q.noLfn && IsName(name) && IsWritten(d, name, 20, chk) && Pieces(name) == 20 && 247 <= FirstFiller(name) < |name|
    ensures Step(up, q, d, i, st).ord == 0xFF
  {
    hide IsWritten, FirstFiller, Compare, Attr, Passed, Skipped;
    TopDiffers(up, q.buf, d, name, chk);
    PieceEntry(d, name, 20, chk);
  }

  lemma LowStep(up: unit -> unit, q: Target, d: entry, i: nat, st: State, name: seq<unit>, ord: nat, chk: byte)
    requires q.Valid() && !q.noLfn && IsName(name) && IsWritten(d, name, ord, chk) && ord < 20 && Pieces(name) == 20
    requires 247 <= FirstFiller(name) < |name| && st.ord == 0xFF
    ensures Step(up, q, d, i, st).ord == 0xFF
  {
    hide IsWritten, FirstFiller, Compare, Attr, Passed, Skipped;
    LowPiece(d, name, ord, chk);
    PieceEntry(d, name, ord, chk);
  }

  /** The search ends at the registered name. */
  ghost predicate Matches(up: unit -> unit, q: Target, name: seq<unit>, other: seq<unit>, sfn: seq<byte>) {
    (!q.noLfn && LongMatch(up, name, other)) || (!q.loss && sfn == q.sfn)
  }

  /** A search that comes to the entries of a name ends at their short entry, or goes on behind it as if from new. */
  lemma FindBlock(up: unit -> unit, q: Target, dir: seq<entry>, at: nat, block: seq<entry>, st: State, name: seq<unit>, other: seq<unit>, sfn: seq<byte>)
    requires q.Valid() && IsName(name) && IsName(other) && Holds(q.buf, other) && |sfn| == 11 && IsBlock(block, name, sfn)
    requires at + |block| <= |dir| && dir[at..at + |block|] == block && forall x :: up(x) == 0 <==> x == 0
    requires IsShort(block[Pieces(name)]) && (q.noLfn ==> st.ord == 0xFF)
    ensures var r, last := FindFrom(up, q, dir, at, st), at + Pieces(name);
            if Matches(up, q, name, other, sfn) then
              r.Hit? && r.at == last
              && (!q.noLfn && |ReadAs(name)| < BUFFER ==> r.blk == Some(last - Pieces(ReadAs(name))))
            else exists s: byte :: r == FindFrom(up, q, dir, last + 1, State(0xFF, s, None))
  {
    hide FindFrom, After, Step, IsWritten, SumFrom, LongMatch, Skipped, Attr, ReadAs, Holds, Compare;
    var n := Pieces(name);
    forall k | at <= k < at + n ensures dir[k][0] != 0 && !Skipped(dir[k]) && Attr(dir[k]) == AM_LFN {
      assert dir[k] == block[k - at];
      PieceEntry(block[k - at], name, n - (k - at), SumFrom(sfn, 11));
    }
    PiecesPass(up, q, dir, at, at + n, st);
    FindAfter(up, q, dir, at, at + n, st);
    var d, s := dir[at + n], After(up, q, dir, at, at + n, st);
    assert d == block[n];
    if q.noLfn {
      NoLfnState(up, q, dir, at, at + n, st);
    } else {
      BlockState(up, q, dir, at, block, st, name, other, sfn);
    }
    ShortStep(up, q, dir, at + n, s);
  }

  lemma {:induction false} NoLfnState(up: unit -> unit, q: Target, dir: seq<entry>, i: nat, j: nat, st: State)
    requires q.Valid() && q.noLfn && i <= j <= |dir| && st.ord == 0xFF
    ensures After(up, q, dir, i, j, st).ord == 0xFF
    decreases j - i
  {
    if i < j {
      NoLfnState(up, q, dir, i, j - 1, st);
    }
  }

  lemma ShortStep(up: unit -> unit, q: Target, dir: seq<entry>, i: nat, st: State)
    requires q.Valid() && i < |dir| && IsShort(dir[i])
    ensures FindFrom(up, q, dir, i, st)
            == if Stops(q, dir[i], st) then Hit(i, st.blk) else FindFrom(up, q, dir, i + 1, State(0xFF, st.sum, None))
  {
    hide Stops;
  }

  // ---------- registering ----------

  /** An entry never used. */
  function Blank(): entry { seq(32, _ => 0) }

  /** t is the table, stretched by entries never used. */
  ghost predicate Lengthened(table: seq<entry>, t: seq<entry>) {
    |table| <= |t| && t[..|table|] == table && forall i :: |table| <= i < |t| ==> t[i] == Blank()
  }

  /** The entries from at on are free, and nothing before them was never used. */
  ghost predicate Vacant(t: seq<entry>, at: nat, n: nat) {
    && at + n <= |t|
    && (forall k :: at <= k < at + n ==> IsFree(t[k]))
    && (forall k :: 0 <= k < at ==> t[k][0] != 0)
  }

  /** u is t with the block in the place of the entries from at on. */
  ghost predicate Replaced(t: seq<entry>, u: seq<entry>, at: nat, block: seq<entry>) {
    at + |block| <= |t| && u == t[..at] + block + t[at + |block|..]
  }

  lemma LengthenedEnded(table: seq<entry>, t: seq<entry>)
    requires Ended(table) && Lengthened(table, t)
    ensures Ended(t)
  {
    forall i, j | 0 <= i < j < |t| && t[i][0] == 0 ensures t[j][0] == 0 {
      if j < |table| {
        assert table[i] == t[i] && table[j] == t[j];
      }
    }
  }

  /** Stretching is invisible to every search. */
  lemma {:induction false} LengthenedFind(up: unit -> unit, q: Target, table: seq<entry>, t: seq<entry>, i: nat, st: State)
    requires q.Valid() && Lengthened(table, t) && i <= |table|
    ensures FindFrom(up, q, t, i, st) == FindFrom(up, q, table, i, st)
    decreases |table| - i
  {
    hide Stops, Step;
    if i < |table| {
      assert t[i] == t[..|table|][i];
      if t[i][0] != 0 && !Stops(q, t[i], st) {
        LengthenedFind(up, q, table, t, i + 1, Step(up, q, t[i], i, st));
      }
    }
  }

  /** Equal ends are searched alike. */
  lemma {:induction false} SameEnd(up: unit -> unit, q: Target, a: seq<entry>, b: seq<entry>, i: nat, st: State)
    requires q.Valid() && i <= |a| == |b| && forall k :: i <= k < |a| ==> a[k] == b[k]
    ensures FindFrom(up, q, a, i, st) == FindFrom(up, q, b, i, st)
    decreases |a| - i
  {
    hide Stops, Step;
    if i < |a| && a[i][0] != 0 && !Stops(q, a[i], st) {
      SameEnd(up, q, a, b, i + 1, Step(up, q, a[i], i, st));
    }
  }

  /** Behind the block a search goes on as it would have done over the free entries. */
  lemma BehindBlock(up: unit -> unit, q: Target, t: seq<entry>, u: seq<entry>, at: nat, block: seq<entry>, st: State, s: byte)
    requires q.Valid() && Ended(t) && |block| > 0 && Vacant(t, at, |block|) && Replaced(t, u, at, block)
    ensures FindFrom(up, q, u, at + |block|, State(0xFF, s, None)) == FindFrom(up, q, t, at, st)
  {
    hide FindFrom;
    OverFree(up, q, t, at, at + |block|, st);
    SumForgotten(up, q, t, at + |block|, s, st.sum);
    SameEnd(up, q, u, t, at + |block|, State(0xFF, s, None));
  }

  /**
   * Registering a long name in free entries: a search that ended before them ends there still; of the others, exactly
   * those for a name that agrees with it end at its short entry, and all the rest are answered as before.
   */
  lemma RegisterFind(up: unit -> unit, q: Target, t: seq<entry>, u: seq<entry>, at: nat, block: seq<entry>, name: seq<unit>, other: seq<unit>, sfn: seq<byte>)
    requires q.Valid() && IsName(name) && IsName(other) && Holds(q.buf, other) && |sfn| == 11 && IsBlock(block, name, sfn)
    requires IsShort(block[Pieces(name)]) && forall x :: up(x) == 0 <==> x == 0
    requires Ended(t) && Vacant(t, at, |block|) && Replaced(t, u, at, block)
    ensures var f, g := Find(up, q, t), Find(up, q, u);
            if f.Hit? && f.at < at then g == f
            else if Matches(up, q, name, other, sfn) then
              g.Hit? && g.at == at + Pieces(name) && (!q.noLfn && FillersAtEnd(name) ==> g.blk == Some(at))
            else g == f
  {
    hide FindFrom, IsBlock, Matches, IsShort, ReadAs, FillersAtEnd, Ended, Holds, IsName, Find;
    assert u[..at] == t[..at];
    var st := SameBeginning(up, q, t, u, at);
    BlockSize(block, name, sfn);
    if !(Find(up, q, t).Hit? && Find(up, q, t).at < at) {
      if q.noLfn {
        NoLfnState(up, q, t, 0, at, RESET);
      }
      assert u[at..at + |block|] == block;
      FindBlock(up, q, u, at, block, st, name, other, sfn);
      ReadAsSame(name);
      NameFits(name);
      if !Matches(up, q, name, other, sfn) {
        var s: byte :| FindFrom(up, q, u, at, st) == FindFrom(up, q, u, at + Pieces(name) + 1, State(0xFF, s, None));
        BehindBlock(up, q, t, u, at, block, st, s);
      }
    }
  }

  lemma NameFits(name: seq<unit>)
    requires IsName(name)
    ensures |name| < BUFFER
  {
  }

  lemma BlockSize(block: seq<entry>, name: seq<unit>, sfn: seq<byte>)
    requires |sfn| == 11 && IsBlock(block, name, sfn)
    ensures |block| == Pieces(name) + 1
  {
  }

  /**
   * Registering a short name alone: the same, except that pieces left in front of the free entry without their short
   * entry may now belong to it, if their checksum is that of the short name; a search for their name ends there, too.
   */
  lemma RegisterShortFind(up: unit -> unit, q: Target, t: seq<entry>, u: seq<entry>, at: nat, d: entry)
    requires q.Valid() && IsShort(d) && Ended(t) && Vacant(t, at, 1) && Replaced(t, u, at, [d])
    ensures var f, g := Find(up, q, t), Find(up, q, u);
            if f.Hit? && f.at < at then g == f
            else
              var st := After(up, q, t, 0, at, RESET);
              if (st.ord == 0 && st.sum == SumFrom(d[..11], 11)) || (!q.loss && d[..11] == q.sfn) then g == Hit(at, st.blk) else g == f
  {
    hide FindFrom, IsShort, Ended, Find, After, SumFrom;
    assert u[..at] == t[..at] && u[at] == d;
    var st := SameBeginning(up, q, t, u, at);
    if !(Find(up, q, t).Hit? && Find(up, q, t).at < at) {
      ShortStep(up, q, u, at, st);
      BehindBlock(up, q, t, u, at, [d], st, st.sum);
    }
  }

  /** After a registration there is still nothing behind the first entry never used. */
  lemma RegisterEnded(t: seq<entry>, u: seq<entry>, at: nat, block: seq<entry>)
    requires Ended(t) && Vacant(t, at, |block|) && Replaced(t, u, at, block) && forall i :: 0 <= i < |block| ==> block[i][0] != 0
    ensures Ended(u)
  {
    forall i | 0 <= i < at + |block| ensures u[i][0] != 0 {
      assert u[i] == if i < at then t[i] else block[i - at];
    }
    assert forall k :: at + |block| <= k < |u| ==> u[k] == t[k];
  }

  /** A search for a short name alone that finds nothing means that no entry in use has it. */
  lemma {:induction false} NoSuchShort(up: unit -> unit, q: Target, dir: seq<entry>, i: nat, k: nat, st: State)
    requires q.Valid() && !q.loss && i <= k < |dir| && FindFrom(up, q, dir, i, st) == Miss
    requires IsShort(dir[k]) && forall j :: i <= j < k ==> dir[j][0] != 0
    ensures dir[k][..11] != q.sfn
    decreases k - i
  {
    hide Step;
    if i < k {
      NoSuchShort(up, q, dir, i + 1, k, Step(up, q, dir[i], i, st));
    }
  }

  // ---------- runs of free entries ----------

  /** The entries from start on are free, and the one before them, if there is one, is not. */
  ghost predicate IsRun(t: seq<entry>, start: int, n: nat) {
    && 0 <= start && start + n <= |t|
    && (forall k :: start <= k < start + n ==> IsFree(t[k]))
    && (start > 0 ==> !IsFree(t[start - 1]))
  }

  ghost predicate AllFree(t: seq<entry>, start: int, n: nat) {
    0 <= start && start + n <= |t| && forall k :: start <= k < start + n ==> IsFree(t[k])
  }

  /** No n free entries in a row lie before end. */
  ghost predicate NoneBefore(t: seq<entry>, end: nat, n: nat) {
    end <= |t| && forall start :: 0 <= start && start + n <= end ==> !AllFree(t, start, n)
  }

  lemma RunNext(t: seq<entry>, at: nat, c: nat, n: nat)
    requires at < |t| && c <= at && c < n && IsRun(t, at - c, c) && NoneBefore(t, at, n)
    ensures if IsFree(t[at]) then IsRun(t, at - c, c + 1) else IsRun(t, at + 1, 0)
    ensures !(IsFree(t[at]) && c + 1 == n) ==> NoneBefore(t, at + 1, n)
  {
    hide IsFree;
    if !(IsFree(t[at]) && c + 1 == n) {
      forall start | 0 <= start && start + n <= at + 1 ensures !AllFree(t, start, n) {
        if start + n == at + 1 && IsFree(t[at]) {
          assert start <= at - c - 1 < start + n;
        }
      }
    }
  }

  lemma RunStays(t: seq<entry>, u: seq<entry>, start: int, c: nat, n: nat)
    requires IsRun(t, start, c) && NoneBefore(t, start + c, n) && Lengthened(t, u)
    ensures IsRun(u, start, c) && NoneBefore(u, start + c, n)
  {
    hide IsFree;
    assert forall k :: 0 <= k < |t| ==> u[k] == u[..|t|][k] == t[k];
    forall s | 0 <= s && s + n <= start + c ensures !AllFree(u, s, n) {
      assert !AllFree(t, s, n);
    }
  }

  lemma LengthenedTrans(a: seq<entry>, b: seq<entry>, c: seq<entry>)
    requires Lengthened(a, b) && Lengthened(b, c)
    ensures Lengthened(a, c)
  {
    assert c[..|a|] == c[..|b|][..|a|];
    assert forall k :: 0 <= k < |b| ==> c[k] == c[..|b|][k];
  }

  /** If nothing in use lies behind the first entry never used, such a run has none of these before it. */
  lemma RunVacant(t: seq<entry>, start: nat, n: nat)
    requires IsRun(t, start, n) && Ended(t)
    ensures Vacant(t, start, n)
  {
    if start > 0 {
      assert !IsFree(t[start - 1]);
      assert forall k :: 0 <= k < start - 1 && t[k][0] == 0 ==> t[start - 1][0] == 0;
    }
  }

  // ---------- dir_register ----------

  type ShortName = s: seq<byte> | |s| == 11 witness seq(11, _ => 0)

  /** The flags of a short name: unusable, out of the 8.3 format, in need of a long name, and the case of its parts. */
  datatype Flags = Flags(invalid: bool, loss: bool, lfn: bool, nt: byte)

  /** The entry holds the short name and its case; all else is filled in later. */
  function NewEntry(sfn: ShortName, nt: byte): entry {
    sfn + [0, nt] + seq(19, _ => 0)
  }

  function EntriesFor(flags: Flags, name: seq<unit>): nat {
    if flags.lfn then Pieces(name) + 1 else 1
  }

  /** Some entry has the short name. */
  ghost predicate InUse(up: unit -> unit, dir: seq<entry>, buf: seq<unit>, sfn: ShortName)
    requires |buf| == BUFFER
  {
    Find(up, Target(buf, sfn, false, true), dir).Hit?
  }

  ghost predicate UsedBelow(up: unit -> unit, dir: seq<entry>, buf: seq<unit>, numbered: nat -> ShortName, n: nat)
    requires |buf| == BUFFER
  {
    forall m :: 1 <= m < n ==> InUse(up, dir, buf, numbered(m))
  }

  ghost predicate IsFirstUnused(up: unit -> unit, dir: seq<entry>, buf: seq<unit>, numbered: nat -> ShortName, sfn: ShortName)
    requires |buf| == BUFFER
  {
    !InUse(up, dir, buf, sfn) && exists n :: 1 <= n < 100 && UsedBelow(up, dir, buf, numbered, n) && sfn == numbered(n)
  }

  /** From table to u: stretched to t, and then a run of free entries from at on replaced by those of the name. */
  ghost predicate Registered(table: seq<entry>, t: seq<entry>, u: seq<entry>, at: nat, flags: Flags, name: seq<unit>, sfn: ShortName) {
    var n := EntriesFor(flags, name);
    && Lengthened(table, t) && at + n <= |u| && Replaced(t, u, at, u[at..at + n]) && IsRun(t, at, n)
    && u[at + n - 1] == NewEntry(sfn, flags.nt) && (flags.lfn ==> IsBlock(u[at..at + n], name, sfn))
  }

  /** A usable short name: neither the mark of an entry never used nor that of a deleted one. */
  predicate Usable(sfn: ShortName) { sfn[0] != 0 && sfn[0] != DDEM }

  lemma NewIsShort(sfn: ShortName, nt: byte)
    requires Usable(sfn)
    ensures IsShort(NewEntry(sfn, nt)) && NewEntry(sfn, nt)[..11] == sfn
  {
    var d := NewEntry(sfn, nt);
    assert d[0] == sfn[0] && d[11] == 0 && d[..11] == sfn;
  }

  /** The entries of a registration replace free ones behind which nothing else lies. */
  lemma RegisteredParts(table: seq<entry>, t: seq<entry>, u: seq<entry>, at: nat, flags: Flags, name: seq<unit>, sfn: ShortName)
    requires Ended(table) && IsName(name) && Usable(sfn) && Registered(table, t, u, at, flags, name, sfn)
    ensures var n := EntriesFor(flags, name);
            && n > 0 && at + n <= |u| == |t| && Vacant(t, at, n) && Replaced(t, u, at, u[at..at + n]) && Ended(t) && Ended(u)
            && IsShort(u[at + n - 1]) && u[at + n - 1][..11] == sfn
            && forall i :: at <= i < at + n - 1 ==> u[i][0] != 0 && !IsShort(u[i])
  {
    hide IsBlock, IsShort, Ended, IsRun, Pieces, IsName, Lengthened, Attr;
    var n := EntriesFor(flags, name);
    LengthenedEnded(table, t);
    RunVacant(t, at, n);
    NewIsShort(sfn, flags.nt);
    if flags.lfn {
      BlockPieces(u[at..at + n], name, sfn);
      forall i | at <= i < at + n - 1 ensures u[i][0] != 0 && !IsShort(u[i]) {
        assert u[i] == u[at..at + n][i - at];
      }
    }
    ShortInUse(u[at + n - 1]);
    var block := u[at..at + n];
    forall i | 0 <= i < n ensures block[i][0] != 0 {
      assert block[i] == u[at + i];
    }
    RegisterEnded(t, u, at, block);
  }

  lemma ShortInUse(d: entry)
    requires IsShort(d)
    ensures d[0] != 0 && !IsFree(d)
  {
  }

  lemma BlockPieces(block: seq<entry>, name: seq<unit>, sfn: ShortName)
    requires IsName(name) && IsBlock(block, name, sfn)
    ensures |block| == Pieces(name) + 1 && forall i :: 0 <= i < Pieces(name) ==> block[i][0] != 0 && !IsShort(block[i])
  {
    hide IsWritten, Attr, Skipped, SumFrom;
    forall i | 0 <= i < Pieces(name) ensures block[i][0] != 0 && !IsShort(block[i]) {
      PieceEntry(block[i], name, Pieces(name) - i, SumFrom(sfn, 11));
    }
  }

  /** What dir_register with a long name does to every search. */
  lemma RegisteredFind(up: unit -> unit, q: Target, table: seq<entry>, t: seq<entry>, u: seq<entry>, at: nat, flags: Flags, name: seq<unit>, other: seq<unit>, sfn: ShortName)
    requires q.Valid() && IsName(name) && IsName(other) && Holds(q.buf, other) && forall x :: up(x) == 0 <==> x == 0
    requires Ended(table) && Usable(sfn) && flags.lfn && Registered(table, t, u, at, flags, name, sfn)
    ensures Ended(u) && at + Pieces(name) < |u|
    ensures var f, g := Find(up, q, table), Find(up, q, u);
            if f.Hit? && f.at < at then g == f
            else if Matches(up, q, name, other, sfn) then
              g.Hit? && g.at == at + Pieces(name) && (!q.noLfn && FillersAtEnd(name) ==> g.blk == Some(at))
            else g == f
  {
    hide FindFrom, IsBlock, Matches, IsShort, FillersAtEnd, Ended, Holds, IsName, Pieces, Lengthened, Vacant, IsRun;
    RegisteredParts(table, t, u, at, flags, name, sfn);
    var n := EntriesFor(flags, name);
    RegisterFind(up, q, t, u, at, u[at..at + n], name, other, sfn);
    LengthenedFind(up, q, table, t, 0, RESET);
  }

  /** A name that was not found before is found where it has been registered. */
  lemma RegisteredIsFound(up: unit -> unit, q: Target, table: seq<entry>, t: seq<entry>, u: seq<entry>, at: nat, flags: Flags, name: seq<unit>, sfn: ShortName)
    requires q.Valid() && !q.noLfn && IsName(name) && Holds(q.buf, name) && forall x :: up(x) == 0 <==> x == 0
    requires Ended(table) && Usable(sfn) && flags.lfn && Registered(table, t, u, at, flags, name, sfn)
    requires Find(up, q, table) == Miss && FillersAtEnd(name)
    ensures Find(up, q, u) == Hit(at + Pieces(name), Some(at))
  {
    hide Find, IsShort, FillersAtEnd, Ended, Registered, ReadAs, Holds;
    RegisteredFind(up, q, table, t, u, at, flags, name, name, sfn);
    ReadAsSame(name);
  }

  /** What dir_register with a short name alone does to every search. */
  lemma RegisteredShortFind(up: unit -> unit, q: Target, table: seq<entry>, t: seq<entry>, u: seq<entry>, at: nat, flags: Flags, name: seq<unit>, sfn: ShortName)
    requires q.Valid() && IsName(name)
    requires Ended(table) && Usable(sfn) && !flags.lfn && Registered(table, t, u, at, flags, name, sfn)
    ensures Ended(u) && at < |t|
    ensures var f, g, st := Find(up, q, table), Find(up, q, u), After(up, q, t, 0, at, RESET);
            if f.Hit? && f.at < at then g == f
            else if (st.ord == 0 && st.sum == SumFrom(sfn, 11)) || (!q.loss && sfn == q.sfn) then g == Hit(at, st.blk)
            else g == f
  {
    hide FindFrom, After, IsBlock, IsShort, Ended, IsName, Pieces, Lengthened, Vacant, IsRun, SumFrom;
    RegisteredParts(table, t, u, at, flags, name, sfn);
    assert u[at..at + 1] == [u[at]];
    RegisterShortFind(up, q, t, u, at, u[at]);
    LengthenedFind(up, q, table, t, 0, RESET);
  }

  /** No two entries have the same short name. */
  ghost predicate DistinctShort(dir: seq<entry>) {
    forall i, j :: 0 <= i < j < |dir| && IsShort(dir[i]) && IsShort(dir[j]) ==> dir[i][..11] != dir[j][..11]
  }

  /** Short names stay distinct, if the new one was not found by a search that looks for it. */
  lemma RegisteredDistinct(up: unit -> unit, q: Target, table: seq<entry>, t: seq<entry>, u: seq<entry>, at: nat, flags: Flags, name: seq<unit>)
    requires q.Valid() && IsName(name) && !q.loss && Find(up, q, table) == Miss
    requires Ended(table) && DistinctShort(table) && Usable(q.sfn) && Registered(table, t, u, at, flags, name, q.sfn)
    ensures DistinctShort(u)
  {
    hide FindFrom, IsBlock, IsShort, IsName, Pieces, Vacant, IsRun, IsFree;
    RegisteredParts(table, t, u, at, flags, name, q.sfn);
    var last := at + EntriesFor(flags, name) - 1;
    forall i | 0 <= i < |u| && IsShort(u[i]) && i != last ensures i < |table| && u[i] == table[i] && table[i][..11] != q.sfn {
      OldShort(table, t, u, at, last + 1 - at, i);
      ShortInUse(table[i]);
      NoSuchShort(up, q, table, 0, i, RESET);
    }
  }

  lemma OldShort(table: seq<entry>, t: seq<entry>, u: seq<entry>, at: nat, n: nat, i: nat)
    requires Lengthened(table, t) && at + n <= |u| && Replaced(t, u, at, u[at..at + n]) && i < |u| && !(at <= i < at + n) && IsShort(u[i])
    ensures i < |table| && u[i] == table[i]
  {
    hide IsShort;
    assert u[i] == t[i];
    if i < |table| {
      assert t[i] == t[..|table|][i];
    } else {
      ShortInUse(t[i]);
    }
  }

  /** The short name "A". */
  function LetterA(): ShortName { [0x41] + seq(10, _ => 0x20) }

  /** The one piece of the long name "a" that goes with it. */
  function PieceOfA(): entry {
    [0x41, 0x61] + seq(3, _ => 0) + seq(6, _ => 0xFF) + [0x0F, 0, 0x80] + seq(12, _ => 0xFF) + [0, 0] + seq(4, _ => 0xFF)
  }

  lemma SumOfA()
    ensures SumFrom(LetterA(), 11) == 0x80
  {
    var s := LetterA();
    assert SumFrom(s, 1) == 0x41;
    assert SumFrom(s, 2) == 0xC0;
    assert SumFrom(s, 3) == 0x80;
    assert SumFrom(s, 4) == 0x60;
    assert SumFrom(s, 5) == 0x50;
    assert SumFrom(s, 6) == 0x48;
    assert SumFrom(s, 7) == 0x44;
    assert SumFrom(s, 8) == 0x42;
    assert SumFrom(s, 9) == 0x41;
    assert SumFrom(s, 10) == 0xC0;
  }

  lemma PieceOfAWritten()
    ensures IsName([0x61]) && IsWritten(PieceOfA(), [0x61], 1, 0x80) && FillersAtEnd([0x61])
  {
  }

  /**
   * A short name alone can be taken for another name: here the one piece of the name "a" has lost its short entry, the
   * free entry behind it is given to A, and a search for "a" that looks for long names only ends at that entry.
   */
  lemma OrphanTaken(up: unit -> unit)
    requires forall x :: up(x) == 0 <==> x == 0
    ensures var sfn, d, q := LetterA(), PieceOfA(), Target([0x61] + seq(255, _ => 0), LetterA(), true, false);
            && Ended([d, Blank()]) && Usable(sfn)
            && Registered([d, Blank()], [d, Blank()], [d, NewEntry(sfn, 0)], 1, Flags(false, false, false, 0), [0x61], sfn)
            && Find(up, q, [d, Blank()]) == Miss && Find(up, q, [d, NewEntry(sfn, 0)]) == Hit(1, Some(0))
  {
    hide After, FindFrom, Compare, SumFrom, PieceOfA, LetterA, NewEntry, Blank, ReadAs, FillersAtEnd, IsWritten, Skipped, Attr, Step;
    var sfn, d, name: seq<unit> := LetterA(), PieceOfA(), [0x61];
    var q, u := Target(name + seq(255, _ => 0), sfn, true, false), [d, NewEntry(sfn, 0)];
    SumOfA();
    PieceOfAWritten();
    NewIsShort(sfn, 0);
    ReadAsSame(name);
    FindBlock(up, q, u, 0, u, RESET, name, name, sfn);
    PieceEntry(d, name, 1, 0x80);
    BlankIsFree();
    Nothing(up, q, d);
  }

  lemma BlankIsFree()
    ensures Blank()[0] == 0
  {
  }

  lemma Nothing(up: unit -> unit, q: Target, d: entry)
    requires q.Valid() && d[0] != 0 && Attr(d) == AM_LFN
    ensures Find(up, q, [d, Blank()]) == Miss
  {
    hide Step, Skipped, SumFrom, Attr;
    var dir := [d, Blank()];
    assert FindFrom(up, q, dir, 1, Step(up, q, d, 0, RESET)) == Miss;
  }
}

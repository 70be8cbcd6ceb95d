/** Where the search for a name ends, by the bytes of the entries. */
module FatFindDir {
  import opened Bytes
  import opened FatLongName
  import opened FatDirectory
  import opened Options

  /** An entry with a short name: in use, and without the label attribute. */
  predicate NamesShort(d: entry) {
    var x: int := d[11];
    d[0] != 0 && d[0] != 0xE5 && x / 8 % 2 == 0
  }

  /** A piece of a long name; the topmost one is marked in its order. */
  predicate IsLong(d: entry) {
    var x: int := d[11];
    d[0] != 0 && d[0] != 0xE5 && x % 64 == 0x0F
  }

  predicate Top(d: entry) { d[0] / 64 % 2 == 1 }

  lemma Kinds(d: entry)
    ensures NamesShort(d) <==> IsShort(d)
    ensures IsLong(d) <==> d[0] != 0 && !Skipped(d) && Attr(d) == AM_LFN
  {
    hide Attr;
    LabelBit(d);
  }

  lemma LabelBit(d: entry)
    ensures var x: int := d[11]; Attr(d) == x % 64 && Attr(d) / 8 % 2 == x / 8 % 2
  {
    var x: int := d[11];
    var q, r := x / 64, x % 64;
    assert x == 64 * q + r && r == 8 * (r / 8) + r % 8;
    assert x / 8 == 8 * q + r / 8;
  }

  /** The entry is piece n, counted from the short entry, goes with the checksum, and agrees with the name looked for. */
  predicate PieceAgreesAt(up: unit -> unit, q: Target, d: entry, n: nat, sum: byte)
    requires q.Valid()
  {
    IsLong(d) && d[0] == n && d[13] == sum && Compare(up, q.buf, d)
  }

  predicate RestAgrees(up: unit -> unit, q: Target, dir: seq<entry>, i: nat, k: nat, sum: byte)
    requires q.Valid() && k < |dir|
  {
    forall m :: i <= m < k ==> PieceAgreesAt(up, q, dir[m], k - m, sum)
  }

  /** The entries from b up to the short entry k are all pieces of its long name, which is the one looked for. */
  predicate NameAgrees(up: unit -> unit, q: Target, dir: seq<entry>, b: nat, k: nat)
    requires q.Valid() && k < |dir|
  {
    var sum := SumFrom(dir[k][..11], 11);
    b < k && PieceAgreesAt(up, q, dir[b], 0x40 + k - b, sum) && RestAgrees(up, q, dir, b + 1, k, sum)
  }

  /** With ord pieces still expected, they follow. */
  predicate GoesOn(up: unit -> unit, q: Target, dir: seq<entry>, i: nat, k: nat, ord: nat, sum: byte)
    requires q.Valid() && k < |dir|
  {
    i <= k && ord == k - i && sum == SumFrom(dir[k][..11], 11) && RestAgrees(up, q, dir, i, k, sum)
  }

  ghost predicate HasName(up: unit -> unit, q: Target, dir: seq<entry>, i: nat, k: nat)
    requires q.Valid() && k < |dir|
  {
    exists b :: i <= b < k && NameAgrees(up, q, dir, b, k)
  }

  /** The short entry k is the one looked for: by its long name, or by its short one. */
  ghost predicate Answers(up: unit -> unit, q: Target, dir: seq<entry>, i: nat, k: nat, st: State)
    requires q.Valid() && k < |dir|
  {
    && NamesShort(dir[k])
    && ((!q.noLfn && (HasName(up, q, dir, i, k) || GoesOn(up, q, dir, i, k, st.ord, st.sum)))
        || (!q.loss && dir[k][..11] == q.sfn))
  }

  /** The first answer, in front of which no entry was never used. */
  ghost predicate FirstAnswer(up: unit -> unit, q: Target, dir: seq<entry>, i: nat, k: nat, st: State)
    requires q.Valid()
  {
    && i <= k < |dir| && Answers(up, q, dir, i, k, st)
    && forall m: nat :: i <= m < k ==> GoesBy(up, q, dir, i, m, st)
  }

  /** The search goes by this entry. */
  ghost predicate GoesBy(up: unit -> unit, q: Target, dir: seq<entry>, i: nat, m: nat, st: State)
    requires q.Valid() && m < |dir|
  {
    dir[m][0] != 0 && !Answers(up, q, dir, i, m, st)
  }

  lemma FewAgree(up: unit -> unit, q: Target, d: entry)
    requires q.Valid() && Compare(up, q.buf, d)
    ensures 1 <= d[0] % 64 <= 20
  {
  }

  lemma Countdown(up: unit -> unit, q: Target, dir: seq<entry>, i: nat, k: nat, sum: byte)
    requires q.Valid() && i <= k < |dir| && RestAgrees(up, q, dir, i, k, sum)
    ensures k - i <= 20
  {
    hide Compare, SumFrom, IsLong;
    if k - i > 20 {
      assert PieceAgreesAt(up, q, dir[k - 21], 21, sum);
      FewAgree(up, q, dir[k - 21]);
    }
  }

  lemma NotExpected(up: unit -> unit, q: Target, dir: seq<entry>, i: nat, k: nat, sum: byte)
    requires q.Valid() && i < k < |dir|
    ensures !GoesOn(up, q, dir, i + 1, k, 0xFF, sum)
  {
    hide SumFrom, PieceAgreesAt;
    if RestAgrees(up, q, dir, i + 1, k, sum) {
      Countdown(up, q, dir, i + 1, k, sum);
    }
  }

  /** What entry i means for the answer k: the same as the state behind it. */
  lemma StepAnswers(up: unit -> unit, q: Target, dir: seq<entry>, i: nat, k: nat, st: State)
    requires q.Valid() && i < k < |dir| && dir[i][0] != 0 && (q.noLfn ==> st.ord == 0xFF)
    ensures Answers(up, q, dir, i, k, st) <==> Answers(up, q, dir, i + 1, k, Step(up, q, dir[i], i, st))
  {
    hide SumFrom, Compare, NameAgrees, GoesOn, IsLong, Skipped, Attr, NamesShort, Step;
    Kinds(dir[i]);
    if !q.noLfn {
      assert HasName(up, q, dir, i, k) <==> NameAgrees(up, q, dir, i, k) || HasName(up, q, dir, i + 1, k) by {
        if HasName(up, q, dir, i, k) {
          var b :| i <= b < k && NameAgrees(up, q, dir, b, k);
          assert b == i || i + 1 <= b;
        }
      }
      if IsLong(dir[i]) {
        LongStep(up, q, dir, i, k, st);
      } else {
        OtherStep(up, q, dir, i, k, st);
      }
    }
  }

  lemma NoRest(up: unit -> unit, q: Target, dir: seq<entry>, i: nat, k: nat, sum: byte)
    requires q.Valid() && i < k < |dir| && !IsLong(dir[i])
    ensures !RestAgrees(up, q, dir, i, k, sum)
  {
    hide IsLong;
    assert !PieceAgreesAt(up, q, dir[i], k - i, sum);
  }

  lemma OtherStep(up: unit -> unit, q: Target, dir: seq<entry>, i: nat, k: nat, st: State)
    requires q.Valid() && i < k < |dir| && dir[i][0] != 0 && !IsLong(dir[i])
    ensures !NameAgrees(up, q, dir, i, k) && !GoesOn(up, q, dir, i, k, st.ord, st.sum)
    ensures var s := Step(up, q, dir[i], i, st); !GoesOn(up, q, dir, i + 1, k, s.ord, s.sum)
  {
    hide SumFrom, Compare, IsLong, Skipped, Attr;
    Kinds(dir[i]);
    NotExpected(up, q, dir, i, k, st.sum);
    NoRest(up, q, dir, i, k, st.sum);
  }

  lemma LongStep(up: unit -> unit, q: Target, dir: seq<entry>, i: nat, k: nat, st: State)
    requires q.Valid() && i < k < |dir| && IsLong(dir[i]) && !q.noLfn
    ensures var s := Step(up, q, dir[i], i, st);
            NameAgrees(up, q, dir, i, k) || GoesOn(up, q, dir, i, k, st.ord, st.sum) <==> GoesOn(up, q, dir, i + 1, k, s.ord, s.sum)
  {
    hide SumFrom, Compare, IsLong, Skipped, Attr, RestAgrees, GoesOn, NameAgrees, Step;
    var d, s := dir[i], Step(up, q, dir[i], i, st);
    NotExpected(up, q, dir, i, k, s.sum);
    LongState(up, q, d, i, st);
    if Top(d) {
      TopAgrees(up, q, dir, i, k);
      NoGoingOn(up, q, dir, i, k, st);
    } else {
      LowAgrees(up, q, dir, i, k, st);
    }
  }

  /** The state behind a piece: with c for the order without the mark. */
  lemma LongState(up: unit -> unit, q: Target, d: entry, i: nat, st: State)
    requires q.Valid() && IsLong(d) && !q.noLfn
    ensures var s, x := Step(up, q, d, i, st), d[0] as int;
            if Top(d) then s.sum == d[13] && s.ord == (if Compare(up, q.buf, d) then (x - 64 + 255) % 256 else 0xFF)
            else s.sum == st.sum && s.ord == (if x == st.ord && st.sum == d[13] && Compare(up, q.buf, d) then (x + 255) % 256 else 0xFF)
  {
    hide Compare, IsLong, Skipped, Attr;
    Kinds(d);
  }

  lemma TopAgrees(up: unit -> unit, q: Target, dir: seq<entry>, i: nat, k: nat)
    requires q.Valid() && i < k < |dir| && IsLong(dir[i]) && Top(dir[i])
    ensures var d := dir[i];
            NameAgrees(up, q, dir, i, k) <==> Compare(up, q.buf, d) && GoesOn(up, q, dir, i + 1, k, (d[0] as int - 64 + 255) % 256, d[13])
  {
    hide SumFrom, Compare, IsLong, RestAgrees;
    var d, sum := dir[i], SumFrom(dir[k][..11], 11);
    if Compare(up, q.buf, d) { FewAgree(up, q, d); }
    if RestAgrees(up, q, dir, i + 1, k, sum) { Countdown(up, q, dir, i + 1, k, sum); }
  }

  lemma NoGoingOn(up: unit -> unit, q: Target, dir: seq<entry>, i: nat, k: nat, st: State)
    requires q.Valid() && i < k < |dir| && Top(dir[i])
    ensures !GoesOn(up, q, dir, i, k, st.ord, st.sum)
  {
    hide SumFrom, Compare, IsLong, RestAgrees;
    RestNext(up, q, dir, i, k, st.sum);
    if RestAgrees(up, q, dir, i, k, st.sum) {
      Countdown(up, q, dir, i, k, st.sum);
    }
  }

  lemma LowAgrees(up: unit -> unit, q: Target, dir: seq<entry>, i: nat, k: nat, st: State)
    requires q.Valid() && i < k < |dir| && IsLong(dir[i]) && !Top(dir[i])
    ensures !NameAgrees(up, q, dir, i, k)
    ensures var d := dir[i];
            GoesOn(up, q, dir, i, k, st.ord, st.sum)
            <==> d[0] == st.ord && st.sum == d[13] && Compare(up, q.buf, d) && GoesOn(up, q, dir, i + 1, k, (d[0] as int + 255) % 256, st.sum)
  {
    hide SumFrom, Compare, RestAgrees, IsLong;
    var d, sum := dir[i], SumFrom(dir[k][..11], 11);
    if Compare(up, q.buf, d) { FewAgree(up, q, d); }
    if RestAgrees(up, q, dir, i + 1, k, sum) { Countdown(up, q, dir, i + 1, k, sum); }
    RestNext(up, q, dir, i, k, sum);
    NoMark(d[0], k - i);
  }

  /** Without the mark the order is at most 63 modulo 128, so that it is not that of a topmost piece. */
  lemma NoMark(x: byte, n: nat)
    requires x / 64 % 2 != 1
    ensures n <= 20 ==> x != 0x40 + n
  {
  }

  lemma RestNext(up: unit -> unit, q: Target, dir: seq<entry>, i: nat, k: nat, sum: byte)
    requires q.Valid() && i < k < |dir|
    ensures RestAgrees(up, q, dir, i, k, sum) <==> PieceAgreesAt(up, q, dir[i], k - i, sum) && RestAgrees(up, q, dir, i + 1, k, sum)
  {
    hide PieceAgreesAt;
  }

  /** The search ends at the first answer, from any state. */
  lemma {:induction false} FindsFirst(up: unit -> unit, q: Target, dir: seq<entry>, i: nat, st: State, k: nat)
    requires q.Valid() && i <= |dir| && (q.noLfn ==> st.ord == 0xFF)
    ensures (FindFrom(up, q, dir, i, st).Hit? && FindFrom(up, q, dir, i, st).at == k) <==> FirstAnswer(up, q, dir, i, k, st)
    decreases |dir| - i
  {
    hide SumFrom, Compare, Answers, Stops, Step;
    if i < |dir| {
      StopsAnswers(up, q, dir, i, st);
      if dir[i][0] != 0 && !Stops(q, dir[i], st) {
        var s := Step(up, q, dir[i], i, st);
        StepKeeps(up, q, dir[i], i, st);
        FindsFirst(up, q, dir, i + 1, s, k);
        forall m: nat | i < m < |dir| ensures Answers(up, q, dir, i, m, st) <==> Answers(up, q, dir, i + 1, m, s) {
          StepAnswers(up, q, dir, i, m, st);
        }
        FirstLater(up, q, dir, i, k, st, s);
      } else {
        FirstHere(up, q, dir, i, k, st);
      }
    }
  }

  /** The search does not get behind an entry that it does not go by. */
  lemma FirstHere(up: unit -> unit, q: Target, dir: seq<entry>, i: nat, k: nat, st: State)
    requires q.Valid() && i < |dir| && (dir[i][0] == 0 || Answers(up, q, dir, i, i, st))
    ensures FirstAnswer(up, q, dir, i, k, st) <==> k == i && Answers(up, q, dir, i, i, st)
  {
    hide Answers;
    assert !GoesBy(up, q, dir, i, i, st);
  }

  lemma FirstLater(up: unit -> unit, q: Target, dir: seq<entry>, i: nat, k: nat, st: State, s: State)
    requires q.Valid() && i < |dir| && dir[i][0] != 0 && !Answers(up, q, dir, i, i, st)
    requires forall m: nat :: i < m < |dir| ==> (Answers(up, q, dir, i, m, st) <==> Answers(up, q, dir, i + 1, m, s))
    ensures FirstAnswer(up, q, dir, i, k, st) <==> FirstAnswer(up, q, dir, i + 1, k, s)
  {
    hide Answers, FirstAnswer;
    if FirstAnswer(up, q, dir, i, k, st) {
      FirstDown(up, q, dir, i, k, st, s);
    }
    if FirstAnswer(up, q, dir, i + 1, k, s) {
      FirstUp(up, q, dir, i, k, st, s);
    }
  }

  lemma FirstDown(up: unit -> unit, q: Target, dir: seq<entry>, i: nat, k: nat, st: State, s: State)
    requires q.Valid() && i < |dir| && dir[i][0] != 0 && !Answers(up, q, dir, i, i, st)
    requires forall m: nat :: i < m < |dir| ==> (Answers(up, q, dir, i, m, st) <==> Answers(up, q, dir, i + 1, m, s))
    requires FirstAnswer(up, q, dir, i, k, st)
    ensures FirstAnswer(up, q, dir, i + 1, k, s)
  {
    hide Answers;
    assert k != i;
    assert Answers(up, q, dir, i + 1, k, s);
    var j := i + 1;
    forall m: nat | j <= m < k ensures GoesBy(up, q, dir, j, m, s) {
      assert GoesBy(up, q, dir, i, m, st);
      assert Answers(up, q, dir, i, m, st) <==> Answers(up, q, dir, i + 1, m, s);
    }
  }

  lemma FirstUp(up: unit -> unit, q: Target, dir: seq<entry>, i: nat, k: nat, st: State, s: State)
    requires q.Valid() && i < |dir| && dir[i][0] != 0 && !Answers(up, q, dir, i, i, st)
    requires forall m: nat :: i < m < |dir| ==> (Answers(up, q, dir, i, m, st) <==> Answers(up, q, dir, i + 1, m, s))
    requires FirstAnswer(up, q, dir, i + 1, k, s)
    ensures FirstAnswer(up, q, dir, i, k, st)
  {
    hide Answers;
    assert Answers(up, q, dir, i, k, st);
    assert GoesBy(up, q, dir, i, i, st);
    forall m: nat | i + 1 <= m < k ensures GoesBy(up, q, dir, i, m, st) {
      assert GoesBy(up, q, dir, i + 1, m, s);
      assert Answers(up, q, dir, i, m, st) <==> Answers(up, q, dir, i + 1, m, s);
    }
  }

  lemma StepKeeps(up: unit -> unit, q: Target, d: entry, i: nat, st: State)
    requires q.Valid() && (q.noLfn ==> st.ord == 0xFF)
    ensures q.noLfn ==> Step(up, q, d, i, st).ord == 0xFF
  {
  }

  lemma StopsAnswers(up: unit -> unit, q: Target, dir: seq<entry>, i: nat, st: State)
    requires q.Valid() && i < |dir| && (q.noLfn ==> st.ord == 0xFF)
    ensures Answers(up, q, dir, i, i, st) <==> Stops(q, dir[i], st)
    ensures Stops(q, dir[i], st) ==> dir[i][0] != 0
  {
    hide SumFrom, Compare, PieceAgreesAt, Skipped, Attr, NamesShort;
    Kinds(dir[i]);
  }

  /**
   * dir_find ends at the first entry with a short name that either stands behind all the pieces of the name looked for,
   * counting down with the checksum of the short name, or has the short name looked for; but not behind an entry never
   * used.
   */
  lemma FindIsFirst(up: unit -> unit, q: Target, dir: seq<entry>, k: nat)
    requires q.Valid()
    ensures (Find(up, q, dir).Hit? && Find(up, q, dir).at == k)
            <==> (k < |dir| && Sought(up, q, dir, k) && forall m: nat :: m < k ==> NotSought(up, q, dir, m))
  {
    hide Answers, Sought, FindFrom, GoesBy, NotSought;
    FindsFirst(up, q, dir, 0, RESET, k);
    forall m: nat | m < |dir| ensures GoesBy(up, q, dir, 0, m, RESET) <==> NotSought(up, q, dir, m) {
      SoughtAnswers(up, q, dir, m);
    }
    if k < |dir| {
      SoughtAnswers(up, q, dir, k);
    }
  }

  /** An entry in use that is not looked for. */
  ghost predicate NotSought(up: unit -> unit, q: Target, dir: seq<entry>, m: nat)
    requires q.Valid() && m < |dir|
  {
    dir[m][0] != 0 && !Sought(up, q, dir, m)
  }

  /** An entry with a short name that has all the pieces of the name looked for in front of it, or is the short name. */
  ghost predicate Sought(up: unit -> unit, q: Target, dir: seq<entry>, k: nat)
    requires q.Valid() && k < |dir|
  {
    && NamesShort(dir[k])
    && ((!q.noLfn && HasName(up, q, dir, 0, k)) || (!q.loss && dir[k][..11] == q.sfn))
  }

  lemma SoughtAnswers(up: unit -> unit, q: Target, dir: seq<entry>, k: nat)
    requires q.Valid() && k < |dir|
    ensures Answers(up, q, dir, 0, k, RESET) <==> Sought(up, q, dir, k)
    ensures GoesBy(up, q, dir, 0, k, RESET) <==> NotSought(up, q, dir, k)
  {
    hide SumFrom, PieceAgreesAt, NamesShort, HasName;
    if RestAgrees(up, q, dir, 0, k, 0xFF) {
      Countdown(up, q, dir, 0, k, 0xFF);
    }
  }

  // ---------- where the long name begins ----------

  /** The entries from i up to k are pieces, none of them a topmost one. */
  predicate LowerPieces(dir: seq<entry>, i: nat, k: nat)
    requires k < |dir|
  {
    forall m :: i <= m < k ==> IsLong(dir[m]) && !Top(dir[m])
  }

  predicate StartsAt(dir: seq<entry>, i: nat, k: nat, b: nat)
    requires k < |dir|
  {
    i <= b < k && IsLong(dir[b]) && Top(dir[b]) && LowerPieces(dir, b + 1, k)
  }

  /** What is delivered as the beginning of the long name is the last topmost piece with nothing but pieces behind it. */
  lemma {:induction false} FindBlockStart(up: unit -> unit, q: Target, dir: seq<entry>, i: nat, st: State, b: nat)
    requires q.Valid() && i <= |dir| && (q.noLfn ==> st.blk == None) && FindFrom(up, q, dir, i, st).Hit?
    ensures var r := FindFrom(up, q, dir, i, st);
            && i <= r.at < |dir|
            && (r.blk == Some(b) <==> (!q.noLfn && (StartsAt(dir, i, r.at, b) || (st.blk == Some(b) && LowerPieces(dir, i, r.at)))))
    decreases |dir| - i
  {
    hide SumFrom, Compare, IsLong, Skipped, Attr, Top;
    Kinds(dir[i]);
    if dir[i][0] != 0 && !Stops(q, dir[i], st) {
      var s := Step(up, q, dir[i], i, st);
      StepBlock(up, q, dir[i], i, st);
      FindBlockStart(up, q, dir, i + 1, s, b);
    }
  }

  lemma StepBlock(up: unit -> unit, q: Target, d: entry, i: nat, st: State)
    requires q.Valid() && d[0] != 0
    ensures Step(up, q, d, i, st).blk == if !IsLong(d) then None else if q.noLfn then st.blk else if Top(d) then Some(i) else st.blk
  {
    hide SumFrom, Compare;
  }

  // ---------- free and new entries ----------

  predicate Named(d: entry, attr: byte) {
    NamesShort(d[11 := attr]) || IsLong(d[11 := attr])
  }

  /** An entry is free to be allocated if and only if no attribute makes it a name or a piece of one. */
  lemma FreeIsUnnamed(d: entry)
    ensures IsFree(d) <==> forall attr: byte :: !Named(d, attr)
  {
    assert !IsFree(d) ==> Named(d, 0);
  }

  /** A new entry has the short name in its first eleven bytes, the case of its parts in byte 12, and zeros elsewhere. */
  lemma NewEntryBytes(sfn: ShortName, nt: byte, i: nat)
    requires i < 32
    ensures NewEntry(sfn, nt)[i] == if i < 11 then sfn[i] else if i == 12 then nt else 0
  {
  }
}

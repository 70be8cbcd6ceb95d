/** Any run of successful calls on one open file, against a plain byte sequence with a cursor. */
module FatRun {
  import opened Arith
  import opened FatBase
  import opened FatVolume
  import opened FatChains
  import opened FatAlloc
  import opened FatFileModel
  import opened FatFileState
  import opened FatFile
  import opened FatWrite
  import opened FatRead
  import opened FatSeek
  import opened FatTruncate

  datatype Op = ReadOp(btr: nat) | WriteOp(data: seq<byte>) | SeekOp(ofs: nat) | TruncateOp
  datatype Answer = Data(bytes: seq<byte>) | Wrote(bw: nat) | Done

  /** A file with nothing behind it: its bytes and a cursor. */
  datatype Plain = Plain(bytes: seq<byte>, cursor: nat)

  /** A file, and what its volume has left: the table and the recorded number of free clusters. */
  datatype Snapshot = Snapshot(plain: Plain, fat: Fat, free: nat)

  /** The pointer is at the end of the file and of a cluster, and no further cluster could be had. */
  ghost predicate OutOfSpace(cl: nat, q: Plain, full: bool)
    requires cl > 0
  {
    full && q.cursor == |q.bytes| && q.cursor % cl == 0
  }

  /**
   * op on p gives the answer a and leads to q, in a volume with clusters of cl bytes; full tells whether the volume is
   * exhausted then. A write stops short only out of space or at the size limit, and an extending seek only out of
   * space; bytes that a seek adds are unspecified.
   */
  ghost predicate PlainStep(canWrite: bool, cl: nat, p: Plain, op: Op, a: Answer, q: Plain, full: bool)
    requires cl > 0
  {
    && p.cursor <= |p.bytes| <= MAXSIZE && q.cursor <= |q.bytes| <= MAXSIZE
    && match op {
      case ReadOp(btr) =>
        var n := if btr > |p.bytes| - p.cursor then |p.bytes| - p.cursor else btr;
        a == Data(p.bytes[p.cursor..p.cursor + n]) && q == Plain(p.bytes, p.cursor + n)
      case WriteOp(data) =>
        && a.Wrote? && a.bw <= |data| && q == Plain(Patched(p.bytes, p.cursor, data[..a.bw]), p.cursor + a.bw)
        && (a.bw < |data| ==> OutOfSpace(cl, q, full) || q.cursor == MAXSIZE)
      case SeekOp(ofs) =>
        && a == Done && q.cursor <= ofs && p.bytes <= q.bytes
        && |q.bytes| == (if q.cursor > |p.bytes| then q.cursor else |p.bytes|)
        && (!canWrite ==> q.cursor == if ofs > |p.bytes| then |p.bytes| else ofs)
        && (canWrite && q.cursor < ofs ==> OutOfSpace(cl, q, full))
      case TruncateOp =>
        a == Done && q == Plain(p.bytes[..p.cursor], p.cursor)
    }
  }

  ghost predicate PlainRun(canWrite: bool, cl: nat, states: seq<Snapshot>, ops: seq<Op>, answers: seq<Answer>)
    requires cl > 0
  {
    && |states| == |ops| + 1 && |answers| == |ops|
    && forall i :: 0 <= i < |ops| ==> RunStep(canWrite, cl, states[i], ops[i], answers[i], states[i + 1])
  }

  ghost predicate RunStep(canWrite: bool, cl: nat, x: Snapshot, op: Op, a: Answer, y: Snapshot)
    requires cl > 0
  {
    PlainStep(canWrite, cl, x.plain, op, a, y.plain, Exhausted(y.fat, y.free))
  }

  ghost function View(f: File): Plain
    requires f.Sound()
    reads f, f.buf, f.vol, f.vol.win
  {
    Plain(f.Bytes(), f.fptr)
  }

  ghost function Snap(f: File): Snapshot
    requires f.Sound()
    reads f, f.buf, f.vol, f.vol.win
  {
    Snapshot(View(f), f.vol.Fat(), f.vol.freeClst)
  }

  /** What lies inside the file is always written completely. */
  lemma InsideIsComplete(canWrite: bool, cl: nat, p: Plain, data: seq<byte>, a: Answer, q: Plain, full: bool)
    requires cl > 0 && PlainStep(canWrite, cl, p, WriteOp(data), a, q, full) && p.cursor + |data| <= |p.bytes|
    ensures a == Wrote(|data|)
  {
    PatchedSize(p.bytes, p.cursor, data[..a.bw]);
  }

  /** A seek inside the file always gets there. */
  lemma SeekInside(canWrite: bool, cl: nat, p: Plain, ofs: nat, a: Answer, q: Plain, full: bool)
    requires cl > 0 && PlainStep(canWrite, cl, p, SeekOp(ofs), a, q, full) && ofs <= |p.bytes|
    ensures q.cursor == ofs && q.bytes == p.bytes
  {
  }

  /** Where the recorded number of free clusters is right, a short write below the size limit means that none is free. */
  lemma ShortMeansFull(canWrite: bool, cl: nat, x: Snapshot, data: seq<byte>, a: Answer, y: Snapshot)
    requires cl > 0 && RunStep(canWrite, cl, x, WriteOp(data), a, y) && a.Wrote? && a.bw < |data| && y.plain.cursor < MAXSIZE
    requires |y.fat| >= 2 && Counted(y.fat, y.free)
    ensures forall c :: Cluster(y.fat, c) ==> y.fat[c] != 0
  {
    ExhaustedIsFull(y.fat, y.free);
  }

  predicate Fits32(op: Op) {
    match op
    case ReadOp(btr) => btr <= MAXSIZE
    case WriteOp(data) => |data| <= MAXSIZE
    case SeekOp(ofs) => ofs <= MAXSIZE
    case TruncateOp => true
  }

  /** The call is one for which the file has been opened. */
  predicate Permitted(canRead: bool, canWrite: bool, op: Op) {
    match op
    case ReadOp(_) => canRead
    case WriteOp(_) => canWrite
    case SeekOp(_) => true
    case TruncateOp => canWrite
  }

  /** One call. */
  method Apply(f: File, op: Op) returns (res: FResult, a: Answer)
    requires f.Valid() && Fits32(op)
    modifies f`err, f`modified, f`clust, f`sclust, f`chain, f`sect, f`dirty, f`fptr, f`objsize, f.buf, f.vol`disk, f.vol`wflag, f.vol`writeFailed, f.vol`winsect, f.vol`lastClst, f.vol`freeClst, f.vol.win
    ensures f.vol.g.Bcs() > 0
    ensures res == FR_OK ==> f.Valid() && PlainStep(f.canWrite, f.vol.g.Bcs(), old(View(f)), op, a, View(f), Full(f.vol))
    ensures res == FR_OK ==> Kept(f.vol.g, f.mine, old(f.vol.Img()), f.vol.Img(), old(f.chain), f.chain)
    ensures res == FR_OK && old(FreeOk(f.vol)) ==> FreeOk(f.vol)
    ensures res == FR_OK ==> Permitted(f.canRead, f.canWrite, op) && f.err == FR_OK
    ensures f.vol.reliable && old(f.err) == FR_OK && Permitted(f.canRead, f.canWrite, op) ==> res == FR_OK
  {
    hide Core, Content, Image.Valid, Image.View, FatOf, Kept, Positioned, Patched, Clipped, Exhausted, Counted, PlainStep, OutOfSpace, Geo.Bcs;
    ghost var g, s, st := f.vol.g, f.vol.Img(), f.State();
    CoreValid(g, s, st);
    SomeBytes(g);
    ghost var p := View(f);
    ViewSize(f);
    match op {
      case ReadOp(btr) =>
        var rbuff;
        res, rbuff := Read(f, btr);
        a := Data(rbuff);
        if res == FR_OK { ReadIsStep(f.canWrite, g.Bcs(), p, btr, rbuff, View(f), Full(f.vol)); }
      case WriteOp(data) =>
        var bw;
        res, bw := Write(f, data);
        a := Wrote(bw);
        if res == FR_OK {
          ViewSize(f);
          WriteIsStep(f.canWrite, g.Bcs(), p, data, bw, View(f), Full(f.vol), |f.chain|);
        }
      case SeekOp(ofs) =>
        res := Seek(f, ofs);
        a := Done;
        if res == FR_OK {
          ViewSize(f);
          SeekIsStep(f.canWrite, g.Bcs(), p, ofs, View(f), Full(f.vol), |f.chain|);
        }
      case TruncateOp =>
        res := Truncate(f);
        a := Done;
        if res == FR_OK { TruncateIsStep(f.canWrite, g.Bcs(), p, View(f), Full(f.vol)); }
    }
  }

  lemma SomeBytes(g: Geo)
    requires g.Valid()
    ensures g.Bcs() > 0
  {
  }

  /** The length of the bytes is the file's size, and the end of the last cluster is the end of the file. */
  lemma ViewSize(f: File)
    requires f.Sound()
    ensures |View(f).bytes| == f.objsize <= MAXSIZE && f.fptr <= f.objsize
    ensures f.fptr == |f.chain| * f.vol.g.Bcs() ==> f.fptr == f.objsize
  {
    hide Core, Geo.Bcs;
    CoreSize(f.vol.g, f.vol.Img(), f.State());
    if f.fptr == |f.chain| * f.vol.g.Bcs() {
      AtEnd(f.vol.g, f.vol.Img(), f.State());
    }
  }

  lemma ReadIsStep(canWrite: bool, cl: nat, p: Plain, btr: nat, rbuff: seq<byte>, q: Plain, full: bool)
    requires cl > 0 && p.cursor <= |p.bytes| <= MAXSIZE && q.bytes == p.bytes
    requires |rbuff| == if btr > |p.bytes| - p.cursor then |p.bytes| - p.cursor else btr
    requires q.cursor == p.cursor + |rbuff| && rbuff == p.bytes[p.cursor..q.cursor]
    ensures PlainStep(canWrite, cl, p, ReadOp(btr), Data(rbuff), q, full)
  {
  }

  lemma WriteIsStep(canWrite: bool, cl: nat, p: Plain, data: seq<byte>, bw: nat, q: Plain, full: bool, n: nat)
    requires cl > 0 && p.cursor <= |p.bytes| <= MAXSIZE && |data| <= MAXSIZE && q.cursor <= |q.bytes| <= MAXSIZE
    requires bw <= Clipped(p.cursor, |data|) <= |data|
    requires q == Plain(Patched(p.bytes, p.cursor, data[..bw]), p.cursor + bw)
    requires bw < Clipped(p.cursor, |data|) ==> full && q.cursor == |q.bytes| == n * cl
    ensures PlainStep(canWrite, cl, p, WriteOp(data), Wrote(bw), q, full)
  {
    hide Clipped, Patched;
    ClipLimit(p.cursor, |data|);
    Multiple(n, cl);
  }

  lemma SeekIsStep(canWrite: bool, cl: nat, p: Plain, ofs: nat, q: Plain, full: bool, n: nat)
    requires cl > 0 && p.cursor <= |p.bytes| <= MAXSIZE && q.cursor <= |q.bytes| <= MAXSIZE
    requires |q.bytes| == (if q.cursor > |p.bytes| then q.cursor else |p.bytes|) && q.bytes[..|p.bytes|] == p.bytes
    requires !canWrite ==> q.cursor == if ofs > |p.bytes| then |p.bytes| else ofs
    requires canWrite ==> q.cursor == ofs || (q.cursor < ofs && full && q.cursor == |q.bytes| == n * cl)
    ensures PlainStep(canWrite, cl, p, SeekOp(ofs), Done, q, full)
  {
    Multiple(n, cl);
  }

  lemma TruncateIsStep(canWrite: bool, cl: nat, p: Plain, q: Plain, full: bool)
    requires cl > 0 && p.cursor <= |p.bytes| <= MAXSIZE && q == Plain(p.bytes[..p.cursor], p.cursor)
    ensures PlainStep(canWrite, cl, p, TruncateOp, Done, q, full)
  {
  }

  /** A clipped write ends at the size limit. */
  lemma ClipLimit(fptr: nat, btw: nat)
    requires fptr <= MAXSIZE && btw <= MAXSIZE
    ensures Clipped(fptr, btw) <= btw && (Clipped(fptr, btw) < btw ==> fptr + Clipped(fptr, btw) == MAXSIZE)
  {
  }

  lemma Multiple(n: nat, cl: nat)
    requires cl > 0
    ensures n * cl % cl == 0
  {
    DivUnique(n * cl, cl, n, 0);
  }

  /** Every run of successful calls is a run of the plain file, and leaves the rest of the
      volume alone: other chains and the data in other clusters are as before. A right record
      of free clusters stays right. */
  method Run(f: File, ops: seq<Op>) returns (res: FResult, answers: seq<Answer>, ghost states: seq<Snapshot>)
    requires f.Valid() && forall i :: 0 <= i < |ops| ==> Fits32(ops[i])
    modifies f`err, f`modified, f`clust, f`sclust, f`chain, f`sect, f`dirty, f`fptr, f`objsize, f.buf, f.vol`disk, f.vol`wflag, f.vol`writeFailed, f.vol`winsect, f.vol`lastClst, f.vol`freeClst, f.vol.win
    ensures f.vol.g.Bcs() > 0
    ensures res == FR_OK ==> f.Valid() && PlainRun(f.canWrite, f.vol.g.Bcs(), states, ops, answers)
    ensures res == FR_OK ==> states[0] == old(Snap(f)) && states[|ops|] == Snap(f)
    ensures res == FR_OK && Counted(states[0].fat, states[0].free) ==> forall i :: 0 <= i < |states| ==> Counted(states[i].fat, states[i].free)
    ensures res == FR_OK ==> Kept(f.vol.g, f.mine, old(f.vol.Img()), f.vol.Img(), old(f.chain), f.chain)
    ensures f.vol.reliable && old(f.err) == FR_OK && (forall i :: 0 <= i < |ops| ==> Permitted(f.canRead, f.canWrite, ops[i])) ==> res == FR_OK
  {
    hide Core, Content, Image.Valid, Image.View, FatOf, Kept, Positioned, FileStep, PlainStep, Exhausted, Counted;
    ghost var g, s, st := f.vol.g, f.vol.Img(), f.State();
    CoreValid(g, s, st);
    FileStepStays(g, f.mine, s);
    KeptSame(g, f.mine, s, s, st.chain);
    res, answers, states := FR_OK, [], [Snap(f)];
    for i := 0 to |ops|
      invariant f.Valid() && res == FR_OK && |answers| == i && |states| == i + 1
      invariant states[0] == old(Snap(f)) && states[i] == Snap(f) && f.mine == st.mine
      invariant PlainRun(f.canWrite, g.Bcs(), states, ops[..i], answers)
      invariant Counted(states[0].fat, states[0].free) ==> forall j :: 0 <= j < |states| ==> Counted(states[j].fat, states[j].free)
      invariant Kept(g, f.mine, s, f.vol.Img(), st.chain, f.chain)
      invariant old(f.err) == FR_OK ==> f.err == FR_OK
    {
      ghost var t, c1 := f.vol.Img(), f.chain;
      CoreValid(g, t, f.State());
      var a;
      res, a := Apply(f, ops[i]);
      if res != FR_OK { return; }
      CoreValid(g, f.vol.Img(), f.State());
      KeptTrans(g, f.mine, s, t, f.vol.Img(), st.chain, c1, f.chain);
      assert RunStep(f.canWrite, g.Bcs(), states[i], ops[i], a, Snap(f));
      RunNext(f.canWrite, g.Bcs(), states, ops, i, answers, a, Snap(f));
      answers := answers + [a];
      states := states + [Snap(f)];
    }
    assert ops[..|ops|] == ops;
  }

  lemma RunNext(canWrite: bool, cl: nat, states: seq<Snapshot>, ops: seq<Op>, i: nat, answers: seq<Answer>, a: Answer, y: Snapshot)
    requires cl > 0 && i < |ops| && PlainRun(canWrite, cl, states, ops[..i], answers) && RunStep(canWrite, cl, states[i], ops[i], a, y)
    ensures PlainRun(canWrite, cl, states + [y], ops[..i + 1], answers + [a])
  {
    hide RunStep;
    var ss, oo, aa := states + [y], ops[..i + 1], answers + [a];
    forall j | 0 <= j < |oo| ensures RunStep(canWrite, cl, ss[j], oo[j], aa[j], ss[j + 1]) {
      if j < i {
        assert ops[..i][j] == oo[j];
        assert RunStep(canWrite, cl, states[j], ops[..i][j], answers[j], states[j + 1]);
      }
    }
  }

  /** What was written fully can be read back after seeking to where it was written. */
  lemma ReadBack(canWrite: bool, cl: nat, states: seq<Snapshot>, data: seq<byte>, answers: seq<Answer>)
    requires cl > 0 && |states| == 4
    requires PlainRun(canWrite, cl, states, [WriteOp(data), SeekOp(states[0].plain.cursor), ReadOp(|data|)], answers)
    requires answers[0] == Wrote(|data|)
    ensures answers[2] == Data(data)
  {
    hide OutOfSpace, Exhausted;
    var p := states[0].plain;
    var ops := [WriteOp(data), SeekOp(p.cursor), ReadOp(|data|)];
    assert RunStep(canWrite, cl, states[0], ops[0], answers[0], states[0 + 1]);
    assert RunStep(canWrite, cl, states[1], ops[1], answers[1], states[1 + 1]);
    assert RunStep(canWrite, cl, states[2], ops[2], answers[2], states[2 + 1]);
    assert data[..|data|] == data;
    PatchedSize(p.bytes, p.cursor, data);
    SeekInside(canWrite, cl, states[1].plain, p.cursor, answers[1], states[2].plain, Exhausted(states[2].fat, states[2].free));
    var got := states[2].plain.bytes[p.cursor..p.cursor + |data|];
    forall i | 0 <= i < |data| ensures got[i] == data[i] {
      PatchedAt(p.bytes, p.cursor, data, p.cursor + i);
    }
    assert got == data;
  }
}

/** Which requests f_mkfs formats, and with which layout, as arithmetic on the request. */
module FatChoice {
  import opened Arith
  import opened FatBase
  import opened FatFormat
  import opened Options

  // ---------- the layout for a sub-type and a cluster size ----------

  /** x / d, rounded up. */
  function Ceil(x: nat, d: nat): nat
    requires d > 0
  {
    (x + d - 1) / d
  }

  /** The bytes of a FAT for n clusters and the two reserved entries; for 12 bits with a byte to spare. */
  function Need(ty: FsType, n: nat): nat {
    match ty
    case FAT12 => (3 * n + 1) / 2 + 3
    case FAT16 => 2 * (n + 2)
    case FAT32 => 4 * (n + 2)
  }

  /** The sectors in front of the data area, not aligned: boot record, FATs that would do for the whole volume, root directory. */
  function Plain(q: Request, ty: FsType, pau: nat): nat
    requires pau > 0
  {
    (if ty == FAT32 then 32 else 1 + q.nRoot / 16) + q.nFat * Ceil(Need(ty, q.szVol / pau), 512)
  }

  /** The same, up to the next erase block. */
  function Area(q: Request, ty: FsType, pau: nat): (r: int)
    requires pau > 0 && q.szBlk > 0
  {
    q.szBlk * Ceil(q.bVol + Plain(q, ty, pau), q.szBlk) - q.bVol
  }

  /** The clusters behind it. */
  function Left(q: Request, ty: FsType, pau: nat): int
    requires pau > 0 && q.szBlk > 0
  {
    (q.szVol - Area(q, ty, pau)) / pau
  }

  /** FAT32 at this cluster size: more than 65525 clusters, and not more than 268435445 on the whole volume. */
  predicate Fits32(q: Request, pau: nat)
    requires pau > 0 && q.szBlk > 0
  {
    Left(q, FAT32, pau) > 65525 && q.szVol / pau <= 268435445
  }

  /** Up to 4085 clusters on the whole volume are for FAT12. */
  function SmallType(q: Request, pau: nat): FsType
    requires pau > 0
  {
    if q.szVol / pau <= 4085 then FAT12 else FAT16
  }

  /** FAT12 or FAT16 at this cluster size: room for sixteen clusters, and for FAT16 from 4086 to 65525 of them. */
  predicate FitsSmall(q: Request, pau: nat)
    requires pau > 0 && q.szBlk > 0
  {
    var ty := SmallType(q, pau);
    && Plain(q, ty, pau) + 16 * pau <= q.szVol && Area(q, ty, pau) <= q.szVol
    && (ty == FAT16 ==> 4085 < Left(q, ty, pau) <= 65525)
  }

  /** The geometry: the gap in front of the erase block goes to the reserved sectors of FAT32, and else to the FATs. */
  predicate IsLayout(q: Request, ty: FsType, pau: nat, g: Geometry)
    requires pau > 0 && q.szBlk > 0 && q.nFat > 0
  {
    && g.fsty == ty && g.pau == pau && g.nClst == Left(q, ty, pau)
    && g.szDir == (if ty == FAT32 then 0 else q.nRoot / 16)
    && g.szRsv + g.szFat * q.nFat + g.szDir == Area(q, ty, pau)
    && (if ty == FAT32 then g.szFat == Ceil(Need(ty, q.szVol / pau), 512)
        else g.szRsv == 1 + (Area(q, ty, pau) - Plain(q, ty, pau)) % q.nFat)
  }

  /** The layout is a single one. */
  lemma LayoutUnique(q: Request, ty: FsType, pau: nat, g: Geometry, h: Geometry)
    requires q.Valid() && pau > 0 && IsLayout(q, ty, pau, g) && IsLayout(q, ty, pau, h)
    ensures g == h
  {
    hide Area, Plain, Left, Ceil, Need;
    if ty != FAT32 {
      assert g.szFat * q.nFat == h.szFat * q.nFat;
      assert q.nFat in {1, 2};
    }
  }

  /** A volume of at least 128 K sectors has the largest cluster size that leaves 65536 clusters on it, from 1 to 64 sectors. */
  function Auto32(szVol: nat): (p: nat)
    ensures p > 0
  {
    if szVol < 0x2_0000 then 1 else if szVol < 0x4_0000 then 2 else if szVol < 0x8_0000 then 4 else if szVol < 0x10_0000 then 8
    else if szVol < 0x20_0000 then 16 else if szVol < 0x40_0000 then 32 else 64
  }

  function AutoSmall(szVol: nat): (p: nat)
    ensures p > 0
  {
    if szVol < 0x1000 then 1 else if szVol < 0x4000 then 2 else if szVol < 0x1_0000 then 4 else if szVol < 0x4_0000 then 8
    else if szVol < 0x10_0000 then 16 else if szVol < 0x20_0000 then 32 else 64
  }

  lemma AutoIs(szVol: nat)
    ensures AutoSize(szVol, true) == Auto32(szVol) && AutoSize(szVol, false) == AutoSmall(szVol)
  {
    AutoIs32(szVol);
    AutoIsSmall(szVol);
  }

  lemma AutoIs32(szVol: nat)
    ensures AutoSize(szVol, true) == Auto32(szVol)
  {
    var n, t := szVol / 0x20000, [1, 2, 4, 8, 16, 32];
    assert FromTable(n, t, 6, 64) == 64;
    assert FromTable(n, t, 5, 32) == if 32 <= n then 64 else 32;
    assert FromTable(n, t, 4, 16) == if 16 <= n then FromTable(n, t, 5, 32) else 16;
    assert FromTable(n, t, 3, 8) == if 8 <= n then FromTable(n, t, 4, 16) else 8;
    assert FromTable(n, t, 2, 4) == if 4 <= n then FromTable(n, t, 3, 8) else 4;
    assert FromTable(n, t, 1, 2) == if 2 <= n then FromTable(n, t, 2, 4) else 2;
    assert FromTable(n, t, 0, 1) == if 1 <= n then FromTable(n, t, 1, 2) else 1;
  }

  lemma AutoIsSmall(szVol: nat)
    ensures AutoSize(szVol, false) == AutoSmall(szVol)
  {
    var n, t := szVol / 0x1000, [1, 4, 16, 64, 256, 512];
    assert FromTable(n, t, 6, 64) == 64;
    assert FromTable(n, t, 5, 32) == if 512 <= n then 64 else 32;
    assert FromTable(n, t, 4, 16) == if 256 <= n then FromTable(n, t, 5, 32) else 16;
    assert FromTable(n, t, 3, 8) == if 64 <= n then FromTable(n, t, 4, 16) else 8;
    assert FromTable(n, t, 2, 4) == if 16 <= n then FromTable(n, t, 3, 8) else 4;
    assert FromTable(n, t, 1, 2) == if 4 <= n then FromTable(n, t, 2, 4) else 2;
    assert FromTable(n, t, 0, 1) == if 1 <= n then FromTable(n, t, 1, 2) else 1;
  }

  // ---------- the layout that one round computes ----------

  /** The parts of an estimate. */
  ghost predicate IsEstimate(q: Request, ty: FsType, pau: nat, e: Layout)
    requires pau > 0
  {
    && e.fsty == ty && e.szFat == Ceil(Need(ty, q.szVol / pau), 512)
    && e.szRsv == (if ty == FAT32 then 32 else 1) && e.szDir == (if ty == FAT32 then 0 else q.nRoot / 16)
    && e.szRsv + e.szFat * q.nFat + e.szDir == Plain(q, ty, pau)
  }

  /** The estimate has not wrapped around. */
  lemma EstimateIs(q: Request, fat32: bool, pau: nat)
    requires q.Valid() && pau > 0 && q.szVol / pau <= (if fat32 then 268435445 else 0x7FFF_0000)
    ensures IsEstimate(q, if fat32 then FAT32 else SmallType(q, pau), pau, Estimate(q, fat32, pau))
  {
    hide Request.Valid, Ceil, Sectors, Wrap, Need;
    var n := q.szVol / pau;
    FatSizes(n, fat32);
    assert q.nRoot * 32 / SS == q.nRoot / 16;
  }

  lemma FatSizes(n: nat, fat32: bool)
    requires n <= (if fat32 then 268435445 else 0x7FFF_0000)
    ensures if fat32 then Sectors(Wrap(n * 4 + 8)) == Ceil(Need(FAT32, n), 512)
            else Sectors(Wrap(n * 2 + 4)) == Ceil(Need(FAT16, n), 512) && (n <= 4085 ==> Sectors((n * 3 + 1) / 2 + 3) == Ceil(Need(FAT12, n), 512))
  {
    hide Ceil, Sectors, Wrap;
    if fat32 {
      FatSize(n * 4 + 8);
    } else {
      FatSize(n * 2 + 4);
      if n <= 4085 {
        Unwrapped((n * 3 + 1) / 2 + 3);
      }
    }
  }

  lemma FatSize(bytes: nat)
    requires bytes + 512 < TWO32
    ensures Sectors(Wrap(bytes)) == Ceil(bytes, 512)
  {
    InRange(bytes);
    InRange(bytes + SS - 1);
  }

  lemma Unwrapped(bytes: nat)
    requires bytes + 512 < TWO32
    ensures Sectors(bytes) == Ceil(bytes, 512)
  {
    InRange(bytes + SS - 1);
  }

  /** Alignment leads to the area, and the rest of the layout follows. */
  lemma AlignedIs(q: Request, fat32: bool, pau: nat)
    requires q.Valid() && pau > 0 && q.szVol / pau <= (if fat32 then 268435445 else 0x7FFF_0000)
    ensures var ty := if fat32 then FAT32 else SmallType(q, pau);
            var l := Aligned(q, Estimate(q, fat32, pau));
            && l.fsty == ty && l.before == q.bVol + Plain(q, ty, pau) && l.szDir == (if fat32 then 0 else q.nRoot / 16)
            && l.szRsv + l.szFat * q.nFat + l.szDir == Area(q, ty, pau)
            && Plain(q, ty, pau) <= Area(q, ty, pau) < Plain(q, ty, pau) + q.szBlk
            && (if fat32 then l.szFat == Ceil(Need(ty, q.szVol / pau), 512)
                else l.szRsv == 1 + (Area(q, ty, pau) - Plain(q, ty, pau)) % q.nFat)
  {
    hide Estimate, Gap, Aligned, Plain, Need;
    var ty := if fat32 then FAT32 else SmallType(q, pau);
    var e := Estimate(q, fat32, pau);
    EstimateIs(q, fat32, pau);
    AlignedSize(q, e);
    GapValue(q.bVol + Plain(q, ty, pau), q.szBlk);
    if !fat32 {
      Reserved(q, e);
    }
  }

  lemma Reserved(q: Request, e: Layout)
    requires q.Valid() && e.fsty != FAT32
    ensures Aligned(q, e).szRsv == e.szRsv + Gap(q.bVol + e.szRsv + e.szFat * q.nFat + e.szDir, q.szBlk) % q.nFat
  {
    hide Gap;
  }

  lemma PlainBound(q: Request, ty: FsType, pau: nat)
    requires q.Valid() && pau > 0 && (ty == FAT32 || ty == SmallType(q, pau))
    ensures var n := q.szVol / pau; Plain(q, ty, pau) <= (if ty == FAT32 then 36 + n / 64 else 2057 + n / 128)
  {
    hide Request.Valid;
    BlockSize(q);
    var n := q.szVol / pau;
    var c := Ceil(Need(ty, n), 512);
    assert c <= (if ty == FAT32 then n / 128 + 2 else n / 256 + 4);
    MulMonotone(c, q.nFat, 2);
    assert q.nFat * c == c * q.nFat;
  }

  /** With more than 4085 clusters there is room for sixteen of them. */
  lemma NeverTooSmall(q: Request, ty: FsType, pau: nat)
    requires q.Valid() && pau > 0 && q.szVol / pau > (if ty == FAT32 then 65525 else 4085) && (ty == FAT32 || ty == SmallType(q, pau))
    ensures Plain(q, ty, pau) + 16 * pau <= q.szVol
  {
    hide Plain, Request.Valid;
    PlainBound(q, ty, pau);
    SixteenMore(q.szVol, pau);
  }

  lemma SixteenMore(v: nat, pau: nat)
    requires pau > 0 && v / pau >= 16
    ensures v / pau - 16 + 16 * pau <= v
  {
    var n := v / pau;
    DivRange(v, pau);
    MulMonotone(n - 16, 1, pau);
    Distribute(pau, n - 16, 16);
    assert pau * (n - 16) == (n - 16) * pau;
  }

  /** The size check of a round, without its wrap-around. */
  lemma TooSmallIs(q: Request, ty: FsType, pau: nat)
    requires q.Valid() && ClusterSize(pau) && (ty == FAT32 || ty == SmallType(q, pau))
    ensures Wrap(q.bVol + Plain(q, ty, pau) + pau * 16 - q.bVol) == Plain(q, ty, pau) + 16 * pau
  {
    hide Plain, Request.Valid;
    BlockSize(q);
    PlainBound(q, ty, pau);
    DivBelow(q.szVol, pau);
    InRange(Plain(q, ty, pau) + 16 * pau);
  }

  lemma DivBelow(v: nat, pau: nat)
    requires pau > 0
    ensures v / pau <= v
  {
    DivRange(v, pau);
    MulMonotone(v / pau, 1, pau);
  }

  /** What a round for FAT12 or FAT16 computes. */
  lemma SmallOutcome(q: Request, pau: nat)
    requires q.Valid() && ClusterSize(pau) && q.szVol / pau <= 0x7FFF_0000
    ensures var ty, t := SmallType(q, pau), Try(q, false, pau);
            if q.szVol < Plain(q, ty, pau) + 16 * pau then t == None
            else
              && t.Some? && t.value.fsty == ty
              && if Area(q, ty, pau) <= q.szVol then t.value.nClst == Left(q, ty, pau) && IsLayout(q, ty, pau, t.value)
                 else t.value.nClst > 65525
  {
    hide Plain, Area, Estimate, Aligned, Request.Valid, Wrap;
    BlockSize(q);
    var ty, l := SmallType(q, pau), Aligned(q, Estimate(q, false, pau));
    AlignedIs(q, false, pau);
    TooSmallIs(q, ty, pau);
    if Area(q, ty, pau) <= q.szVol {
      InRange(q.szVol - Area(q, ty, pau));
    } else {
      SysBound(q, pau, l);
      WrappedIsHuge(q.szVol, Area(q, ty, pau), pau);
    }
  }

  /** A volume of so many clusters that the estimate may wrap around. */
  lemma HugeOutcome(q: Request, pau: nat)
    requires q.Valid() && ClusterSize(pau) && q.szVol / pau > 0x7FFF_0000
    ensures !FitsSmall(q, pau)
    ensures var t := Try(q, false, pau); t.Some? && t.value.fsty == FAT16 && t.value.nClst > 65525
  {
    hide Plain, Area, Left, Request.Valid, Wrap, Aligned, Estimate, Clusters;
    BlockSize(q);
    DivBelow(q.szVol, pau);
    var l := Aligned(q, Estimate(q, false, pau));
    HugeBefore(q, pau);
    InRange(l.before + pau * 16 - q.bVol);
    HugeArea(q, pau);
    HugeClusters(q, l, pau);
  }

  lemma HugeClusters(q: Request, l: Layout, pau: nat)
    requires q.Valid() && ClusterSize(pau) && q.szVol / pau > 0x7FFF_0000 && l == Aligned(q, Estimate(q, false, pau))
    ensures Clusters(q, l, pau) > 65525
  {
    hide Request.Valid, Wrap, Aligned, Estimate;
    BlockSize(q);
    SysBound(q, pau, l);
    DivBelow(q.szVol, pau);
    var sys := l.szRsv + l.szFat * q.nFat + l.szDir;
    InRange(q.szVol - sys);
    FewerClusters(q.szVol, sys, pau);
  }

  lemma HugeArea(q: Request, pau: nat)
    requires q.Valid() && ClusterSize(pau) && q.szVol / pau > 0x7FFF_0000
    ensures Left(q, FAT16, pau) > 65525
  {
    hide Plain, Request.Valid;
    BlockSize(q);
    PlainBound(q, FAT16, pau);
    DivBelow(q.szVol, pau);
    GapValue(q.bVol + Plain(q, FAT16, pau), q.szBlk);
    FewerClusters(q.szVol, Area(q, FAT16, pau), pau);
  }

  lemma HugeBefore(q: Request, pau: nat)
    requires q.Valid() && ClusterSize(pau)
    ensures var e, l := Estimate(q, false, pau), Aligned(q, Estimate(q, false, pau));
            q.bVol <= l.before <= q.bVol + 0x110_0000 && l.fsty == e.fsty == SmallType(q, pau)
  {
    hide Estimate, Aligned, Request.Valid;
    BlockSize(q);
    var e := Estimate(q, false, pau);
    EstimateBound(q, false, pau);
    EstimateType(q, pau);
    AlignedSize(q, e);
    MulMonotone(e.szFat, q.nFat, 2);
  }

  lemma EstimateType(q: Request, pau: nat)
    requires pau > 0
    ensures Estimate(q, false, pau).fsty == SmallType(q, pau)
  {
  }

  /** What a round for FAT32 computes. */
  lemma LargeOutcome(q: Request, pau: nat)
    requires q.Valid() && ClusterSize(pau)
    ensures var n, t := q.szVol / pau, Try(q, true, pau);
            if n <= 65525 || n > 268435445 then t == None && !Fits32(q, pau)
            else t.Some? && t.value.fsty == FAT32 && t.value.nClst == Left(q, FAT32, pau) && IsLayout(q, FAT32, pau, t.value)
  {
    hide Plain, Area, Estimate, Aligned, Request.Valid, Wrap, Need;
    BlockSize(q);
    var n, l := q.szVol / pau, Aligned(q, Estimate(q, true, pau));
    if n <= 65525 {
      LeftBelow(q, FAT32, pau);
    } else if n <= 268435445 {
      AlignedIs(q, true, pau);
      NeverTooSmall(q, FAT32, pau);
      TooSmallIs(q, FAT32, pau);
      Sound32(q, pau, l);
      InRange(q.szVol - Area(q, FAT32, pau));
    }
  }

  /** Without the area there are no fewer clusters. */
  lemma LeftBelow(q: Request, ty: FsType, pau: nat)
    requires q.Valid() && pau > 0
    ensures Left(q, ty, pau) <= q.szVol / pau
  {
    hide Plain, Request.Valid;
    BlockSize(q);
    GapValue(q.bVol + Plain(q, ty, pau), q.szBlk);
    var a := Area(q, ty, pau);
    assert a >= 0;
    Lower(q.szVol, a, pau);
  }

  lemma Lower(v: nat, a: nat, pau: nat)
    requires pau > 0
    ensures (v - a) / pau <= v / pau
  {
    var x, y := (v - a) / pau, v / pau;
    assert v - a == pau * x + (v - a) % pau && v == pau * y + v % pau;
    if x > y {
      MulMonotone(pau, y + 1, x);
      Distribute(pau, y, 1);
    }
  }

  // ---------- which rounds end how ----------

  /** The rounds for FAT32. */
  lemma Round32(q: Request, szAu: nat)
    requires q.Valid() && (szAu == 0 || ClusterSize(szAu))
    ensures var pau := if szAu == 0 then Auto32(q.szVol) else szAu;
            match Round(q, true, szAu)
            case Done(g) => Fits32(q, pau) && IsLayout(q, FAT32, pau, g)
            case Abort => !Fits32(q, pau) && (szAu == 0 ==> pau == 1)
            case Retry(f, a) => !Fits32(q, pau) && f && szAu == 0 && pau >= 2 && a == pau / 2
  {
    hide Try, Left, Request.Valid, IsLayout;
    AutoIs32(q.szVol);
    var pau := if szAu == 0 then Auto32(q.szVol) else szAu;
    LargeOutcome(q, pau);
    BlockSize(q);
    AutoRange(q.szVol);
  }

  /** The automatic cluster size leaves a number of clusters in range, unless it is the smallest. */
  lemma AutoRange(szVol: nat)
    requires szVol < TWO32
    ensures var p := Auto32(szVol); szVol / p <= 268435445 && (p > 1 ==> szVol / p > 65525)
  {
  }

  /** The rounds for FAT12 and FAT16. */
  lemma RoundSmall(q: Request, szAu: nat)
    requires q.Valid() && (szAu == 0 || ClusterSize(szAu))
    ensures var pau := if szAu == 0 then AutoSmall(q.szVol) else szAu;
            var ty := SmallType(q, pau);
            match Round(q, false, szAu)
            case Done(g) => FitsSmall(q, pau) && IsLayout(q, ty, pau, g)
            case Abort => !FitsSmall(q, pau) && (ty == FAT16 ==> Few(q, pau) || !q.fat32Allowed) && (ty == FAT16 && szAu == 0 ==> false)
            case Retry(f, a) =>
              && !FitsSmall(q, pau) && ty == FAT16
              && (if f then q.fat32Allowed && a == szAu && (szAu == 0 ==> pau == 64 && !Few(q, pau))
                  else szAu == 0 && a == pau * 2 && (pau == 64 ==> Few(q, pau) || !q.fat32Allowed))
  {
    hide Try, Left, Plain, Area, Request.Valid, IsLayout;
    AutoIsSmall(q.szVol);
    var pau := if szAu == 0 then AutoSmall(q.szVol) else szAu;
    BlockSize(q);
    if q.szVol / pau > 0x7FFF_0000 {
      HugeOutcome(q, pau);
    } else {
      SmallOutcome(q, pau);
      LeftBelow(q, SmallType(q, pau), pau);
      if SmallType(q, pau) == FAT16 {
        NeverTooSmall(q, FAT16, pau);
      }
    }
  }

  /** Too few clusters for FAT16. */
  predicate Few(q: Request, pau: nat)
    requires pau > 0 && q.szBlk > 0
  {
    Area(q, FAT16, pau) <= q.szVol && Left(q, FAT16, pau) <= 4085
  }

  // ---------- what is chosen ----------

  /** The sub-type and the cluster size of the first layout that fits. */
  function Picked(q: Request, fat32: bool, szAu: nat): Option<(FsType, nat)>
    requires q.szBlk > 0
  {
    if szAu != 0 then
      if !fat32 && FitsSmall(q, szAu) then Some((SmallType(q, szAu), szAu))
      else if (fat32 || q.fat32Allowed) && Fits32(q, szAu) then Some((FAT32, szAu))
      else None
    else if fat32 then PickedLarge(q)
    else
      var p := AutoSmall(q.szVol);
      if FitsSmall(q, p) then Some((SmallType(q, p), p))
      else if q.szVol / p <= 4085 then None
      else if p == 64 && q.fat32Allowed then PickedLarge(q)
      else if FitsSmall(q, 2 * p) then Some((SmallType(q, 2 * p), 2 * p))
      else None
  }

  function PickedLarge(q: Request): Option<(FsType, nat)>
    requires q.szBlk > 0
  {
    var p := Auto32(q.szVol);
    if Fits32(q, p) then Some((FAT32, p)) else if p >= 2 && Fits32(q, p / 2) then Some((FAT32, p / 2)) else None
  }

  /** The choice is this layout, or there is none. */
  ghost predicate Agrees(q: Request, c: Option<Geometry>, p: Option<(FsType, nat)>)
    requires q.szBlk > 0 && q.nFat > 0
  {
    match p
    case None => c == None
    case Some(x) => x.1 > 0 && c.Some? && IsLayout(q, x.0, x.1, c.value)
  }

  lemma FixedLarge(q: Request, szAu: nat)
    requires q.Valid() && ClusterSize(szAu)
    ensures Agrees(q, Choose(q, true, szAu), Picked(q, true, szAu))
  {
    hide Fits32, IsLayout, Round, Request.Valid;
    BlockSize(q);
    Round32(q, szAu);
  }

  lemma AutoLarge(q: Request)
    requires q.Valid()
    ensures Agrees(q, Choose(q, true, 0), PickedLarge(q))
  {
    hide Fits32, IsLayout, Round, Request.Valid;
    BlockSize(q);
    Round32(q, 0);
    HalfSize(q.szVol);
    match Round(q, true, 0)
    case Done(_) =>
    case Abort =>
    case Retry(_, a) => FixedLarge(q, a);
  }

  lemma HalfSize(szVol: nat)
    ensures var p := Auto32(szVol); ClusterSize(p) && (p >= 2 ==> ClusterSize(p / 2))
  {
  }

  /** More than 65525 clusters for FAT32 are not too few for FAT16. */
  lemma LargeIsNotFew(q: Request, pau: nat)
    requires q.Valid() && ClusterSize(pau) && Fits32(q, pau)
    ensures SmallType(q, pau) == FAT16 && !Few(q, pau)
  {
    hide Plain, Request.Valid, Area;
    BlockSize(q);
    LeftBelow(q, FAT32, pau);
    ManyLeft(q, pau);
  }

  /** The area takes few of so many clusters. */
  lemma ManyLeft(q: Request, pau: nat)
    requires q.Valid() && ClusterSize(pau) && (q.szVol / pau > 65525 || (pau == 64 && q.szVol >= 0x20_0000))
    ensures !Few(q, pau)
  {
    hide Plain, Request.Valid, Area;
    BlockSize(q);
    var n := q.szVol / pau;
    if pau == 64 { assert n >= 32768; }
    PlainBound(q, FAT16, pau);
    DivRange(q.szVol, pau);
    AreaRange(q, pau);
    if Few(q, pau) {
      Enough(q.szVol, Area(q, FAT16, pau), pau);
    }
  }

  lemma AreaRange(q: Request, pau: nat)
    requires q.Valid() && pau > 0
    ensures Plain(q, FAT16, pau) <= Area(q, FAT16, pau) < Plain(q, FAT16, pau) + q.szBlk
  {
    hide Plain, Request.Valid;
    BlockSize(q);
    GapValue(q.bVol + Plain(q, FAT16, pau), q.szBlk);
  }

  lemma Enough(v: nat, a: nat, pau: nat)
    requires ClusterSize(pau) && a <= v && a < 34900 + v / pau / 128
    requires v / pau > 65525 || (pau == 64 && v >= 0x20_0000)
    ensures (v - a) / pau > 4085
  {
    var n := v / pau;
    DivRange(v, pau);
    DivRange(v - a, pau);
    FewerClusters(v, a, pau);
  }

  lemma FixedSmall(q: Request, szAu: nat)
    requires q.Valid() && ClusterSize(szAu)
    ensures Agrees(q, Choose(q, false, szAu), Picked(q, false, szAu))
  {
    hide Fits32, FitsSmall, Few, IsLayout, Round, Request.Valid, SmallType;
    BlockSize(q);
    RoundSmall(q, szAu);
    if Fits32(q, szAu) {
      LargeIsNotFew(q, szAu);
    }
    match Round(q, false, szAu)
    case Done(_) =>
    case Abort =>
    case Retry(_, _) => FixedLarge(q, szAu);
  }

  lemma AutoSmallOnly(q: Request)
    requires q.Valid()
    ensures Agrees(q, Choose(q, false, 0), Picked(q, false, 0))
  {
    hide Fits32, FitsSmall, Few, IsLayout, Round, Request.Valid, PickedLarge;
    BlockSize(q);
    RoundSmall(q, 0);
    var p := AutoSmall(q.szVol);
    DoubleSize(q);
    match Round(q, false, 0)
    case Done(_) =>
    case Abort =>
    case Retry(f, a) =>
      if f {
        AutoLarge(q);
      } else {
        FixedSmall(q, a);
      }
  }

  /** The automatic size can be doubled, and FAT32 never fits the double of one below the largest; the largest leaves enough. */
  lemma DoubleSize(q: Request)
    requires q.Valid()
    ensures var p := AutoSmall(q.szVol); ClusterSize(2 * p) && (p < 64 ==> !Fits32(q, 2 * p)) && (p == 64 ==> !Few(q, p))
  {
    hide Few, Request.Valid, Left;
    BlockSize(q);
    var p := AutoSmall(q.szVol);
    if p == 64 {
      ManyLeft(q, p);
    } else {
      LeftBelow(q, FAT32, 2 * p);
    }
  }

  /**
   * f_mkfs formats a request if and only if one of these layouts fits, and then with the first one: of the size asked
   * for, or of the automatic size, its double for FAT12 and FAT16 and its half for FAT32.
   */
  lemma ChosenExactly(q: Request, fat32: bool, szAu: nat)
    requires q.Valid() && (szAu == 0 || ClusterSize(szAu))
    ensures q.szBlk > 0 && q.nFat > 0 && Agrees(q, Choose(q, fat32, szAu), Picked(q, fat32, szAu))
  {
    hide Fits32, FitsSmall, IsLayout, Request.Valid;
    BlockSize(q);
    if szAu != 0 {
      if fat32 { FixedLarge(q, szAu); } else { FixedSmall(q, szAu); }
    } else {
      if fat32 { AutoLarge(q); } else { AutoSmallOnly(q); }
    }
  }

  /** From 64 MiB on FAT32 with the automatic size never fails. */
  lemma LargeAlways(q: Request)
    requires q.Valid() && q.szVol >= 0x2_0000
    ensures PickedLarge(q).Some?
  {
    hide Plain, Area, Request.Valid;
    BlockSize(q);
    var p := Auto32(q.szVol);
    HalfArea(q, p / 2);
    AutoHalf(q.szVol);
  }

  lemma AutoHalf(szVol: nat)
    requires 0x2_0000 <= szVol < TWO32
    ensures var p := Auto32(szVol); p >= 2 && ClusterSize(p / 2) && 131072 <= szVol / (p / 2) <= 268435445
  {
  }

  lemma HalfArea(q: Request, pau: nat)
    requires q.Valid() && ClusterSize(pau) && q.szVol / pau >= 131072
    ensures Left(q, FAT32, pau) > 65525
  {
    hide Plain, Request.Valid;
    BlockSize(q);
    PlainBound(q, FAT32, pau);
    GapValue(q.bVol + Plain(q, FAT32, pau), q.szBlk);
    DivBelow(q.szVol, pau);
    FewerClusters(q.szVol, Area(q, FAT32, pau), pau);
  }

  /** A request for an image of 512 MiB. */
  const IMAGE: Request := Request(1048576, 0, 1, 1, 512, true)

  lemma ImageArea()
    ensures Area(IMAGE, FAT32, 16) == 545 && Area(IMAGE, FAT32, 8) == 1057 && Ceil(Need(FAT32, 131072), 512) == 1025
  {
    assert IMAGE.szVol / 16 == 65536 && IMAGE.szVol / 8 == 131072;
    assert Ceil(Need(FAT32, 65536), 512) == 513;
    assert Plain(IMAGE, FAT32, 16) == 545 && Plain(IMAGE, FAT32, 8) == 1057;
  }

  /** It gets clusters of eight sectors, since those of sixteen would be too few. */
  lemma Image512()
    ensures !Fits32(IMAGE, 16) && Choose(IMAGE, true, 0) == Some(Geometry(FAT32, 8, 32, 1025, 0, 130939))
  {
    hide Choose, Area, Ceil, Plain, Need;
    ImageArea();
    assert Left(IMAGE, FAT32, 16) == 65501 && Left(IMAGE, FAT32, 8) == 130939;
    assert PickedLarge(IMAGE) == Some((FAT32, 8));
    ImageLayout();
  }

  lemma ImageLayout()
    requires PickedLarge(IMAGE) == Some((FAT32, 8)) && Area(IMAGE, FAT32, 8) == 1057 && Ceil(Need(FAT32, 131072), 512) == 1025
    requires Left(IMAGE, FAT32, 8) == 130939
    ensures Choose(IMAGE, true, 0) == Some(Geometry(FAT32, 8, 32, 1025, 0, 130939))
  {
    hide Choose, Area, Ceil, Need, PickedLarge, Left;
    ChosenExactly(IMAGE, true, 0);
  }

  // ---------- which boot records are mounted ----------

  /** Bits of an entry, by the number of clusters. */
  function EntryBits(n: nat): nat { if n <= 4085 then 12 else if n <= 65525 then 16 else 32 }

  function SystemOf(b: BootRecord): nat { b.rsvdSecCnt + FatSectors(b) * b.numFats + b.rootEntCnt / 16 }

  /** The clusters behind the system area. */
  function ClustersOf(b: BootRecord): int
    requires b.secPerClus > 0
  {
    (TotalSectors(b) - SystemOf(b)) / b.secPerClus
  }

  /**
   * One or two FATs that hold an entry for each cluster and two more, at least one cluster of a power of two of sectors,
   * and a root directory of whole sectors, which FAT32 alone does without.
   */
  predicate Acceptable(b: BootRecord) {
    && b.numFats in {1, 2} && b.secPerClus in {1, 2, 4, 8, 16, 32, 64, 128}
    && b.rsvdSecCnt > 0 && b.rootEntCnt % 16 == 0
    && 1 <= ClustersOf(b) <= 268435445
    && (ClustersOf(b) > 65525 <==> b.rootEntCnt == 0)
    && EntryBits(ClustersOf(b)) * (ClustersOf(b) + 2) <= 8 * 512 * FatSectors(b)
  }

  lemma FatBytesExact(t: FsType, n: nat, bits: nat)
    requires bits == match t case FAT12 => 12 case FAT16 => 16 case FAT32 => 32
    ensures 0 <= 8 * FatBytes(t, n) - bits * n < 8
  {
    var h, r := n / 2, n % 2;
    assert n == 2 * h + r;
    DivUnique(n * 3, 2, 3 * h + r, r);
  }

  lemma EnoughSectors(bytes: nat, bits: int, f: nat)
    requires 0 <= 8 * bytes - bits < 8
    ensures f < (bytes + 511) / 512 <==> bits > 8 * 512 * f
  {
  }

  /** Where the system area does not wrap around, exactly these boot records are mounted, with these fields. */
  lemma MountedExactly(b: BootRecord, bsect: nat)
    requires SystemOf(b) < TWO32
    ensures Mount(b, bsect).Volume? <==> Acceptable(b)
    ensures Acceptable(b) ==> var n := ClustersOf(b);
              Mount(b, bsect) == Volume(if n <= 4085 then FAT12 else if n <= 65525 then FAT16 else FAT32, n + 2, FatSectors(b), b.secPerClus,
                                        Wrap(bsect + b.rsvdSecCnt), Wrap(bsect + SystemOf(b)))
  {
    hide Wrap, FatBytes, FatSectors, TotalSectors;
    if b.numFats in {1, 2} {
      FatArea(b);
      if ClusterSize(b.secPerClus) && TotalSectors(b) >= SystemOf(b) {
        var n: nat := ClustersOf(b);
        FatBytesExact(TypeOf(n), n + 2, EntryBits(n));
        EnoughSectors(FatBytes(TypeOf(n), n + 2), EntryBits(n) * (n + 2), FatSectors(b));
      }
    }
  }

  lemma FatArea(b: BootRecord)
    requires SystemOf(b) < TWO32 && b.numFats in {1, 2}
    ensures Wrap(FatSectors(b) * b.numFats) == FatSectors(b) * b.numFats
    ensures Wrap(b.rsvdSecCnt + FatSectors(b) * b.numFats + b.rootEntCnt / 16) == SystemOf(b)
  {
    hide Wrap;
    var f := FatSectors(b) * b.numFats;
    MulNat(FatSectors(b), b.numFats);
    InRange(f);
    InRange(SystemOf(b));
  }
}

/** Types shared by the FatFs modules: bytes, sectors, the geometry of a mounted
    FAT volume and the two windows through which the medium is seen. */
module FatBase {
  import Bytes

  const SS: nat := 512
  const INVALID: nat := 0xFFFFFFFF

  type byte = Bytes.byte
  type Sector = s: seq<byte> | |s| == SS witness seq(SS, _ => 0)

  const MAX_FAT12: nat := 0xFF5
  const MAX_FAT16: nat := 0xFFF5
  const MAX_FAT32: nat := 0x0FFFFFF5

  datatype FsType = FAT12 | FAT16 | FAT32
  datatype FResult = FR_OK | FR_DISK_ERR | FR_INT_ERR | FR_NO_FILE | FR_INVALID_NAME | FR_DENIED

  function MaxClusters(fsType: FsType): nat {
    match fsType
    case FAT12 => MAX_FAT12
    case FAT16 => MAX_FAT16
    case FAT32 => MAX_FAT32
  }

  /** The bytes that a FAT of n entries takes, as the mount check computes them. */
  function FatBytes(fsType: FsType, n: nat): nat {
    match fsType
    case FAT12 => n * 3 / 2 + n % 2
    case FAT16 => n * 2
    case FAT32 => n * 4
  }

  predicate ClusterSize(csize: nat) { csize in {1, 2, 4, 8, 16, 32, 64, 128} }

  /** What mounting fixes: sub-type, number of FATs, cluster size in sectors, number
      of FAT entries, sectors per FAT, and the first sectors of the FAT and data areas. */
  datatype Geo = Geo(fsType: FsType, nFats: nat, csize: nat, nFatent: nat, fsize: nat, fatbase: nat, database: nat) {

    /** One past the last data sector. */
    function End(): nat
      requires nFatent >= 2
    {
      database + csize * (nFatent - 2)
    }

    ghost predicate Valid() {
      && (nFats == 1 || nFats == 2)
      && ClusterSize(csize)
      && 3 <= nFatent <= MaxClusters(fsType) + 2
      && FatBytes(fsType, nFatent) <= fsize * SS
      && 0 < fatbase && fatbase + nFats * fsize <= database
      && End() <= INVALID
    }

    /** Sector of the copy of the FAT that nothing reads back. */
    ghost predicate InMirror(sect: nat) {
      nFats == 2 && fatbase + fsize <= sect < fatbase + 2 * fsize
    }

    /** Size of a cluster in bytes. */
    function Bcs(): nat { csize * SS }
  }

  /** The medium and the one-sector access window in front of it. */
  datatype Image = Image(disk: seq<Sector>, win: Sector, winsect: nat, wflag: bool, writeFailed: bool) {

    /** The sectors as the filesystem sees them: the window shadows its sector. */
    ghost function View(): seq<Sector> {
      if winsect < |disk| then disk[winsect := win] else disk
    }

    ghost predicate Valid(g: Geo) {
      && g.Valid()
      && g.End() <= |disk| <= INVALID
      && (winsect < |disk| || winsect == INVALID)
      && (wflag ==> winsect < |disk| && !g.InMirror(winsect))
      && (!wflag && winsect < |disk| ==> disk[winsect] == win)
      && (!writeFailed ==> Mirrored(g))
    }

    /** The second FAT copy equals the first. */
    ghost predicate Mirrored(g: Geo) {
      g.nFats == 2 ==>
        forall i :: g.fatbase <= i < g.fatbase + g.fsize && i + g.fsize < |disk| ==> disk[i + g.fsize] == disk[i]
    }
  }

  /** Two views agree everywhere except in the second FAT copy. */
  ghost predicate SamePrimary(g: Geo, a: seq<Sector>, b: seq<Sector>) {
    |a| == |b| && forall i :: 0 <= i < |a| && !g.InMirror(i) ==> a[i] == b[i]
  }

  /** Between s and t only FAT sectors went through the window: every data sector of the
      medium is untouched, except that a window left dirty over one may have been flushed. */
  ghost predicate FatTraffic(g: Geo, s: Image, t: Image) {
    && |s.disk| == |t.disk|
    && (forall i :: g.database <= i < |s.disk| && !(s.wflag && i == s.winsect) ==> t.disk[i] == s.disk[i])
    && (g.database <= t.winsect < |t.disk| ==> t.winsect == s.winsect && t.win == s.win && (t.wflag ==> s.wflag))
  }
}

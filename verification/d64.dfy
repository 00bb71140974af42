/**
 * Geometry and block-availability-map (BAM) queries of the 1541 "D64"
 * disk-image engine, together with the file and chain descriptors it hands
 * out. Only the members whose code is inline in the engine's header are
 * modelled; loading, saving, directory and chain code are not.
 */
module D64 {
  import opened Words

  /** Number of tracks on a standard 35-track image. */
  const StandardTracks: nat := 35

  /** Rows and columns of the in-memory BAM grid: tracks 0..35, sectors 0..23. */
  const BamRows: nat := 36
  const BamColumns: nat := 24

  // ---------------------------------------------------------------- geometry

  /**
   * trackRange: number of sectors on a track. The source computes it with
   * boolean arithmetic on the track number; every track past 30, and track 0,
   * gets a value too.
   */
  function TrackRange(track: nat): (r: byte)
    ensures track <= 17 ==> r == 21
    ensures 18 <= track <= 24 ==> r == 19
    ensures 25 <= track <= 30 ==> r == 18
    ensures 31 <= track ==> r == 17
  {
    (21 - (if track > 17 then 2 else 0) - (if track > 24 then 1 else 0) - (if track > 30 then 1 else 0)) as byte
  }

  /** A later track never holds more sectors than an earlier one, and every track holds 17 to 21. */
  lemma TrackRangeMonotone(t1: nat, t2: nat)
    requires t1 <= t2
    ensures TrackRange(t2) <= TrackRange(t1)
    ensures 17 <= TrackRange(t1) <= 21 && 17 <= TrackRange(t2) <= 21
  {
  }

  /** Every sector number a track admits, even one past its last sector, is a column of the BAM grid. */
  lemma TrackRangeFitsBamRow(track: nat)
    ensures TrackRange(track) as int < BamColumns
  {
  }

  /** Total number of sectors on tracks 1..n. */
  function SectorsUpTo(n: nat): nat
  {
    if n == 0 then 0 else SectorsUpTo(n - 1) + TrackRange(n) as int
  }

  /** Over a run of `len` tracks after track a with the same sector count k, the total grows by k per track. */
  lemma {:induction false} SectorsOverZone(a: nat, len: nat, k: nat)
    requires forall t :: a < t <= a + len ==> TrackRange(t) as int == k
    ensures SectorsUpTo(a + len) == SectorsUpTo(a) + len * k
  {
    if len > 0 {
      SectorsOverZone(a, len - 1, k);
      assert TrackRange(a + len) as int == k;
      assert len * k == (len - 1) * k + k;
    }
  }

  /** A standard image holds 683 sectors: 17 * 21 + 7 * 19 + 6 * 18 + 5 * 17. */
  lemma StandardDiskSectors()
    ensures SectorsUpTo(StandardTracks) == 683
  {
    SectorsOverZone(0, 17, 21);
    assert SectorsUpTo(17) == 357;
    SectorsOverZone(17, 7, 19);
    assert SectorsUpTo(24) == 490;
    SectorsOverZone(24, 6, 18);
    assert SectorsUpTo(30) == 598;
    SectorsOverZone(30, 5, 17);
  }

  /** A sector that physically exists on a disk of `trackCount` tracks. */
  predicate OnDisk(track: nat, sector: nat, trackCount: nat)
  {
    1 <= track <= trackCount && sector < TrackRange(track) as int
  }

  /** The guard of bamTrackSectorUse as the source writes it: sector may equal the sector count. */
  predicate BamGuard(track: nat, sector: nat, trackCount: nat)
  {
    track != 0 && track <= trackCount && sector <= TrackRange(track) as int
  }

  /**
   * The guard as written admits, on every track, the sector numbered like
   * the track's sector count, which is not on the disk.
   */
  lemma BamGuardAdmitsPhantomSector(track: nat, trackCount: nat)
    requires 1 <= track <= trackCount
    ensures BamGuard(track, TrackRange(track) as int, trackCount)
    ensures !OnDisk(track, TrackRange(track) as int, trackCount)
  {
  }

  /** Every pair the guard as written admits on a 35-track image lies inside the 36 x 24 grid. */
  lemma BamGuardStaysInGrid(track: nat, sector: nat, trackCount: nat)
    requires trackCount <= StandardTracks
    requires BamGuard(track, sector, trackCount)
    ensures track < BamRows && sector < BamColumns
  {
  }

  // ---------------------------------------------------------- file descriptors

  /** eD64FileType: the directory entry's file type. */
  datatype FileType = DEL | SEQ | PRG | USR | REL | UNK

  /** sD64File: one directory entry, its chain and, once loaded, its content. */
  class D64File {
    var chainBroken: bool
    var name: seq<byte>
    var track: byte
    var sector: byte
    var fileSize: nat
    var fileType: FileType
    var buffer: seq<byte>
    var tsChain: seq<D64Chain>

    /** A fresh descriptor: chain intact, start 0/0, no blocks, empty content and chain; the type is left unset. */
    constructor ()
      ensures !chainBroken && name == []
      ensures track == 0 && sector == 0 && fileSize == 0
      ensures buffer == [] && tsChain == []
    {
      chainBroken := false;
      name := [];
      track := 0;
      sector := 0;
      buffer := [];
      fileSize := 0;
      tsChain := [];
    }
  }

  /** sD64Chain: one (track, sector) of a file's chain and the file that owns it. */
  class D64Chain {
    const track: nat
    const sector: nat
    const file: D64File?

    constructor (track: nat, sector: nat, file: D64File?)
      ensures this.track == track && this.sector == sector && this.file == file
    {
      this.track := track;
      this.sector := sector;
      this.file := file;
    }
  }

  // ------------------------------------------------------------------- the BAM

  /** Sum of the per-track free counters of tracks 1..n; index 0 is never part of it. */
  function FreeSum(free: seq<byte>, n: nat): nat
    requires n < |free|
  {
    if n == 0 then 0 else FreeSum(free, n - 1) + free[n] as int
  }

  /** The counter of index 0 does not enter the sum. */
  lemma {:induction false} FreeSumIgnoresIndexZero(free: seq<byte>, n: nat, b: byte)
    requires n < |free|
    ensures FreeSum(free[0 := b], n) == FreeSum(free, n)
  {
    if n > 0 {
      FreeSumIgnoresIndexZero(free, n - 1, b);
    }
  }

  /** Changing one track's counter by d changes the sum by d when that track is counted, and not at all otherwise. */
  lemma {:induction false} FreeSumUpdate(free: seq<byte>, n: nat, t: nat, b: byte)
    requires n < |free| && t < |free|
    ensures FreeSum(free[t := b], n) == FreeSum(free, n) + (if 1 <= t <= n then b as int - free[t] as int else 0)
  {
    if n > 0 {
      FreeSumUpdate(free, n - 1, t, b);
    }
  }

  /** When no track claims more free sectors than it has, the disk total is bounded by the geometry (683 for 35 tracks). */
  lemma {:induction false} FreeSumWithinGeometry(free: seq<byte>, n: nat)
    requires n < |free|
    requires forall t :: 1 <= t <= n ==> free[t] <= TrackRange(t)
    ensures FreeSum(free, n) <= SectorsUpTo(n)
  {
    if n > 0 {
      FreeSumWithinGeometry(free, n - 1);
    }
  }

  /** cD64: the BAM state of a loaded image. */
  class Disk {
    /** mBamTracks[36][24]: one flag per (track, sector). */
    const bamTracks: array2<bool>
    /** mBamFree[36]: free-sector counter per track. */
    const bamFree: array<byte>
    /** mTrackCount: number of tracks of the image. */
    var trackCount: nat
    /** mCreated: whether a file was created on the image. */
    var created: bool

    ghost predicate Valid()
      reads this
    {
      && bamTracks.Length0 == BamRows && bamTracks.Length1 == BamColumns
      && bamFree.Length == BamRows
      && 1 <= trackCount <= StandardTracks
    }

    /**
     * Stands for a loaded image: the BAM grid and counters are given as they
     * come out of loading, which is not part of this model.
     */
    constructor Loaded(tracks: seq<seq<bool>>, free: seq<byte>, count: nat)
      requires |tracks| == BamRows && forall t :: 0 <= t < |tracks| ==> |tracks[t]| == BamColumns
      requires |free| == BamRows
      requires 1 <= count <= StandardTracks
      ensures Valid() && fresh(bamTracks) && fresh(bamFree)
      ensures forall t, s :: 0 <= t < BamRows && 0 <= s < BamColumns ==> bamTracks[t, s] == tracks[t][s]
      ensures bamFree[..] == free && trackCount == count && !created
    {
      bamTracks := new bool[BamRows, BamColumns]((t, s) requires 0 <= t < BamRows && 0 <= s < BamColumns => tracks[t][s]);
      bamFree := new byte[BamRows](t requires 0 <= t < BamRows => free[t]);
      trackCount := count;
      created := false;
    }

    /** trackCount(): always a standard image's range. */
    function TrackCount(): (n: nat)
      reads this
      requires Valid()
      ensures 1 <= n <= StandardTracks
    {
      trackCount
    }

    /** createdGet(). */
    function CreatedGet(): (c: bool)
      reads this
      ensures c <==> created
    {
      created
    }

    /**
     * bamTrackSectorUse: false outside the guard, the grid cell inside it.
     * Sector numbers equal to the track's sector count pass the guard.
     */
    method BamTrackSectorUse(track: byte, sector: byte) returns (inUse: bool)
      requires Valid()
      ensures !BamGuard(track as nat, sector as nat, trackCount) ==> !inUse
      ensures BamGuard(track as nat, sector as nat, trackCount) ==> inUse == bamTracks[track, sector]
    {
      if track == 0 || track as nat > trackCount || sector > TrackRange(track as nat) {
        return false;
      }
      BamGuardStaysInGrid(track as nat, sector as nat, trackCount);
      return bamTracks[track, sector];
    }

    /** The lookup with the guard the geometry calls for: only sectors that exist on the disk. */
    method BamSectorOnDiskUse(track: byte, sector: byte) returns (inUse: bool)
      requires Valid()
      ensures inUse ==> OnDisk(track as nat, sector as nat, trackCount)
      ensures OnDisk(track as nat, sector as nat, trackCount) ==> inUse == bamTracks[track, sector]
    {
      if track == 0 || track as nat > trackCount || sector >= TrackRange(track as nat) {
        return false;
      }
      return bamTracks[track, sector];
    }

    /** sectorsFree: the sum of the counters of tracks 1..trackCount. */
    method SectorsFree() returns (result: nat)
      requires Valid()
      ensures result == FreeSum(bamFree[..], trackCount)
      ensures result <= 0xFF * trackCount
    {
      result := 0;
      var i := 1;
      while i <= trackCount
        invariant 1 <= i <= trackCount + 1
        invariant result == FreeSum(bamFree[..], i - 1)
        invariant result <= 0xFF * (i - 1)
      {
        result := result + bamFree[i] as nat;
        i := i + 1;
      }
    }
  }
}

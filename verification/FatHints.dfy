/** The free count and the allocation hint of a FAT32 volume, from mount to mount. */
module FatHints {
  import opened FatBytes
  import opened Octets
  import opened FatTable
  import opened FatVol
  import opened FatVolume
  import opened FatChain
  import opened FatAlloc
  import opened FatFree
  import opened FatMount
  import opened FatSync

  /** With the flag clear, a known count and the hint are what the FSInfo sector says. */
  ghost predicate Noted(v: Vol, flag: bool, free: nat, last: nat)
    requires v.Valid()
  {
    v.geo.fsType == FAT32 && !flag && free != 0xFFFF_FFFF ==>
      v.geo.fsiSector < |v.disk| && Hints(v.disk[v.geo.fsiSector]) == (free, last)
  }

  /** The count is known and right. */
  ghost predicate Right(v: Vol, free: nat)
    requires v.Valid()
  {
    free != 0xFFFF_FFFF && free == FreeCount(v.Table())
  }

  /** A volume with a right count, and an FSInfo sector that will not be left behind. */
  ghost predicate Sound(fs: FatFs)
    reads fs, fs.win, fs.disk
  {
    && fs.View().Valid() && InfoPlaced(fs.geo) && Booted(fs.disk.sectors, fs.geo)
    && Right(fs.View(), fs.freeClust) && fs.lastClust < 0x1_0000_0000
    && Noted(fs.View(), fs.fsiFlag, fs.freeClust, fs.lastClust)
  }

  /** In front of the table an edit of the table changes nothing on the medium. */
  lemma FrontEdited(v: Vol, was: Vol, i: nat)
    requires was.Valid() && v.Edited(was) && i < was.geo.fatbase
    ensures i < |v.disk| == |was.disk| && v.disk[i] == was.disk[i] && AllSectors(v.disk)
  {
    hide Vol.Image;
    InFront(v, i);
    InFront(was, i);
  }

  lemma StillThere(v: Vol, was: Vol)
    requires was.Valid() && v.Edited(was) && Booted(was.disk, was.geo)
    ensures Booted(v.disk, v.geo)
  {
    hide Volume, BootSector, Vol.Edited, Vol.Valid;
    var b := BootSector(was.disk).value;
    EditedGeometry(v, was);
    FrontEdited(v, was, 0);
    FrontEdited(v, was, b);
    VolumeStays(was.disk, v.disk);
    BootStays(was.disk, v.disk);
  }

  lemma EditedGeometry(v: Vol, was: Vol)
    requires was.Valid() && v.Edited(was)
    ensures v.Valid() && v.geo == was.geo && 0 < was.geo.fatbase && AllSectors(was.disk)
  {
  }

  /** What changes the count raises the flag. */
  lemma StillNoted(v: Vol, was: Vol, flag: bool, free: nat, last: nat, flag': bool, free': nat, last': nat)
    requires v.Valid() && was.Valid() && InfoStays(v, was) && Noted(was, flag, free, last)
    requires flag' || (!flag && free' == free && last' == last)
    ensures Noted(v, flag', free', last')
  {
    hide Vol.Valid, Hints;
  }

  /** The FSInfo sector is where it was, and as it was. */
  ghost predicate InfoStays(v: Vol, was: Vol) {
    && v.geo == was.geo && was.geo.fsiSector < |v.disk| == |was.disk|
    && v.disk[was.geo.fsiSector] == was.disk[was.geo.fsiSector]
  }

  lemma InfoKept(v: Vol, was: Vol)
    requires was.Valid() && v.Edited(was) && InfoPlaced(was.geo)
    ensures v.Valid() && InfoStays(v, was)
  {
    hide Vol.Edited, Vol.Valid;
    EditedGeometry(v, was);
    FrontEdited(v, was, was.geo.fsiSector);
  }

  /** There are fewer free clusters than entries. */
  lemma FewFree(v: Vol)
    requires v.Valid()
    ensures |v.Table()| == v.geo.nFatent && 3 <= v.geo.nFatent < 0x1000_0000
    ensures FreeCount(v.Table()) <= v.geo.nFatent - 2
  {
    Bounds(v);
    CountBound(v.Table(), |v.Table()|);
  }

  lemma {:induction false} CountBound(fat: seq<nat>, k: nat)
    requires 2 <= k <= |fat|
    ensures FreeBelow(fat, k) <= k - 2
  {
    if k > 2 {
      CountBound(fat, k - 1);
    }
  }

  /** A right count stays right when a cluster is taken or not. */
  lemma TakenRight(fat: seq<nat>, clst: nat, last: nat, eoc: nat, ncl: nat, fat': seq<nat>, free: nat)
    requires Created(fat, clst, last, eoc, ncl, fat') && eoc != 0 && |fat| < 0x1000_0000 && free == FreeCount(fat)
    ensures (if Took(fat, clst, ncl) then Fewer(free) else free) == FreeCount(fat') < 0x1000_0000
    ensures Took(fat, clst, ncl) ==> ncl < |fat| && Fewer(free) != free
  {
    hide Created;
    CreateCounts(fat, clst, last, eoc, ncl, fat');
  }

  /** And when a chain is freed. */
  lemma ReleasedRight(fat: seq<nat>, clst: nat, free: nat)
    requires |fat| < 0x1000_0000 && free == FreeCount(fat)
    ensures MoreBy(free, |Walk(fat, clst)|) == FreeCount(Removed(fat, clst)) < 0x1000_0000
  {
    hide Removed, Walk;
    RemovedIsFreed(fat, clst);
    MoreByCounts(free, |Walk(fat, clst)|);
  }

  /** What can happen to the allocation of a mounted volume. */
  datatype Op =
    | Create(clst: nat) // create_chain
    | Remove(clst: nat) // remove_chain
    | Count             // f_getfree

  /** One operation keeps the count right, and noted unless the flag is up. */
  method Apply(fs: FatFs, op: Op) returns (ok: bool)
    requires fs.View().Valid() && (!fs.disk.failed ==> Sound(fs))
    modifies fs`winsect, fs`wflag, fs`lastClust, fs`freeClust, fs`fsiFlag, fs.win, fs.disk
    ensures old(fs.disk.failed) || !ok ==> fs.disk.failed
    ensures ok ==> fs.View().Valid() && fs.View().geo == old(fs.View()).geo
    ensures !fs.disk.failed ==> Sound(fs)
  {
    hide Vol.Table, Vol.Image, Vol.Valid, Vol.Mirrored, Vol.Edited, Geometry.Valid, Created, Took, Removed, Walk,
      FreeCount, Booted, InfoPlaced, Noted, HitsBroken, Fewer, MoreBy, Counts;
    ghost var v, fat, flag, free, last := fs.View(), fs.View().Table(), fs.fsiFlag, fs.freeClust, fs.lastClust;
    FewFree(v);
    match op {
      case Create(clst) =>
        var ncl := CreateChain(fs, clst);
        ok := ncl != 0xFFFF_FFFF;
        if ok { EditedGeometry(fs.View(), v); }
        if !fs.disk.failed {
          Bounds(v);
          TakenRight(fat, clst, last, EndMark(v.geo), ncl, fs.View().Table(), free);
        }
      case Remove(clst) =>
        var r := RemoveChain(fs, clst);
        ok := r != FR_DISK_ERR;
        if ok { EditedGeometry(fs.View(), v); }
        if !fs.disk.failed {
          ReleasedRight(fat, clst, free);
        }
      case Count =>
        var r, n := GetFree(fs);
        ok := true;
        SameEdited(fs.View(), v);
        EditedGeometry(fs.View(), v);
    }
    if !fs.disk.failed {
      StillThere(fs.View(), v);
      InfoKept(fs.View(), v);
      StillNoted(fs.View(), v, flag, free, last, fs.fsiFlag, fs.freeClust, fs.lastClust);
    }
  }

  lemma SameEdited(v: Vol, was: Vol)
    requires was.Valid() && v.Same(was)
    ensures v.Edited(was)
  {
  }

  /**
   * Any run of operations, then a synchronisation, then mounting again: the same layout, and on FAT32 the number of
   * free clusters the table has and the hint as it was.
   */
  method RunAndMount(fs: FatFs, ops: seq<Op>, win: array<byte>)
    returns (r: FResult, m: MountResult, free: nat, last: nat)
    requires Sound(fs) && win != fs.win && win.Length == 512 && !fs.disk.failed
    modifies fs`winsect, fs`wflag, fs`lastClust, fs`freeClust, fs`fsiFlag, fs.win, fs.disk, win
    ensures r == FR_OK && !fs.disk.failed ==> |fs.disk.sectors| > 0 && AllSectors(fs.disk.sectors)
    ensures r == FR_OK && !fs.disk.failed ==> Volume(fs.disk.sectors) == Some(fs.geo) && fs.View().Valid()
    ensures r == FR_OK && !fs.disk.failed && !fs.disk.lost ==> m == MOUNT_OK
    ensures r == FR_OK && !fs.disk.failed && !fs.disk.lost && fs.geo.fsType == FAT32 ==>
      free == FreeCount(fs.View().Table()) && last == fs.lastClust
  {
    hide Vol.Table, Vol.Image, Vol.Valid, Vol.Mirrored, Geometry.Valid, FreeCount, Booted, Volume, Hints;
    m, free, last := MOUNT_DISK_ERR, 0, 0;
    for i := 0 to |ops|
      invariant fs.View().Valid() && (!fs.disk.failed ==> Sound(fs))
    {
      var ok := Apply(fs, ops[i]);
      if !ok { return FR_DISK_ERR, m, free, last; }
    }
    if !fs.disk.failed {
      FewFree(fs.View());
      InFront(fs.View(), fs.geo.fsiSector);
    }
    r, m, free, last := SyncAndMount(fs, win);
  }
}

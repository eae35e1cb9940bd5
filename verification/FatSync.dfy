/** Writing back what is cached: the window, and on FAT32 the allocation hints, which the next mount finds again. */
module FatSync {
  import opened FatBytes
  import opened Octets
  import opened FatDisk
  import opened FatTable
  import opened FatVol
  import opened FatVolume
  import opened FatMount
  import FatMkfs

  /** The FSInfo sector as sync builds it. */
  function Info(free: nat, last: nat): (s: Sector)
    ensures |s| == 512
  {
    var s := FatMkfs.PutWord(Zeros(), 510, SIGNATURE);
    var s := FatMkfs.PutDword(s, 0, 0x4161_5252);
    var s := FatMkfs.PutDword(s, 484, 0x6141_7272);
    var s := FatMkfs.PutDword(s, 488, free);
    FatMkfs.PutDword(s, 492, last)
  }

  /** Mounting reads from it what was put there. */
  lemma InfoBack(free: nat, last: nat)
    requires free < 0x1_0000_0000 && last < 0x1_0000_0000
    ensures FsInfo(Info(free, last)) == Some((free, last))
  {
    hide LoadWord, LoadDword;
    var s := Info(free, last);
    InfoBytes(free, last);
    FatMkfs.WordIs(s, 510, SIGNATURE);
    FatMkfs.DwordIs(s, 0, 0x4161_5252);
    FatMkfs.DwordIs(s, 484, 0x6141_7272);
    FatMkfs.DwordIs(s, 488, free);
    FatMkfs.DwordIs(s, 492, last);
  }

  lemma InfoBytes(free: nat, last: nat)
    ensures var s := Info(free, last);
      && s[510] == 0x55 && s[511] == 0xAA && s[0] == 0x52 && s[1] == 0x52 && s[2] == 0x61 && s[3] == 0x41
      && s[484] == 0x72 && s[485] == 0x72 && s[486] == 0x41 && s[487] == 0x61
      && s[488] == free % 256 && s[489] == free / 0x100 % 256
      && s[490] == free / 0x1_0000 % 256 && s[491] == free / 0x1_0000 / 0x100 % 256
      && s[492] == last % 256 && s[493] == last / 0x100 % 256
      && s[494] == last / 0x1_0000 % 256 && s[495] == last / 0x1_0000 / 0x100 % 256
  {
  }

  /** The FSInfo sector lies in front of the table; other sub-types have none. */
  predicate InfoPlaced(geo: Geometry) {
    geo.fsiSector < geo.fatbase && (geo.fsType == FAT32 ==> 0 < geo.fsiSector)
  }

  /** The same logical content but for one sector, and a second table that still follows the first. */
  ghost predicate SameExcept(v: Vol, was: Vol, sector: nat)
    requires was.Valid()
  {
    && v.Valid() && v.geo == was.geo && |v.disk| == |was.disk|
    && (was.lost ==> v.lost) && (!v.lost && was.Mirrored() ==> v.Mirrored())
    && forall i :: 0 <= i < |v.Image()| && i != sector ==> i < |was.Image()| && v.Image()[i] == was.Image()[i]
  }

  /** In front of the table nothing waits to be written. */
  lemma InFront(v: Vol, s: nat)
    requires v.Valid() && s < v.geo.fatbase
    ensures s < |v.disk| && v.Image()[s] == v.disk[s]
  {
  }

  /** A clean window is given up, whatever it now holds. */
  lemma GivenUp(v: Vol, x: Sector, lost: bool)
    requires v.Valid() && !v.wflag && |x| == 512 && (v.lost ==> lost)
    ensures v.(lost := lost, win := x, winsect := 0).Same(v)
  {
    hide Blank;
    var a := v.(lost := lost, win := x, winsect := 0);
    assert a.Valid() && a.Image() == v.Image();
  }

  /** A write in front of the table. */
  lemma WrittenInFront(v: Vol, s: nat, x: Sector)
    requires v.Valid() && !v.wflag && 0 < s < v.geo.fatbase && |x| == 512
    requires v.winsect == 0
    ensures SameExcept(v.(disk := v.disk[s := x]), v, s)
  {
    hide Blank;
    var b := v.(disk := v.disk[s := x]);
    assert v.Image() == Blank(v.geo, v.disk);
    assert b.Valid() && b.Image() == Blank(v.geo, v.disk[s := x]);
    BlankSet(v.geo, v.disk, s, x);
    if v.Mirrored() {
      MirrorStays(v, s, x);
    }
  }

  lemma MirrorStays(v: Vol, s: nat, x: Sector)
    requires v.Valid() && v.Mirrored() && !v.wflag && 0 < s < v.geo.fatbase && v.(disk := v.disk[s := x]).Valid()
    ensures v.(disk := v.disk[s := x]).Mirrored()
  {
    var d := v.disk[s := x];
    assert forall i: nat :: i < |d| && i != s ==> d[i] == v.disk[i];
  }

  lemma BlankSet(geo: Geometry, img: seq<Sector>, s: nat, x: Sector)
    requires Holds(geo, img) && s < |img| && |x| == 512
    ensures Holds(geo, img[s := x])
    ensures forall i :: 0 <= i < |img| && i != s ==> Blank(geo, img[s := x])[i] == Blank(geo, img)[i]
  {
  }

  lemma SameMeans(v: Vol, was: Vol, s: nat)
    requires was.Valid() && v.Same(was)
    ensures SameExcept(v, was, s)
  {
  }

  lemma ExceptTrans(c: Vol, b: Vol, a: Vol, s: nat)
    requires a.Valid() && SameExcept(b, a, s) && SameExcept(c, b, s)
    ensures SameExcept(c, a, s)
  {
  }

  /** mem_set and the stores that follow it. */
  method BuildInfo(win: array<byte>, free: nat, last: nat)
    requires win.Length == 512
    modifies win
    ensures win[..] == Info(free, last)
  {
    hide FatMkfs.PutWord, FatMkfs.PutDword, Zeros;
    ClearBuffer(win);
    FatMkfs.StoreWord(win, 510, SIGNATURE);
    FatMkfs.StoreDword(win, 0, 0x4161_5252);
    FatMkfs.StoreDword(win, 484, 0x6141_7272);
    FatMkfs.StoreDword(win, 488, free);
    FatMkfs.StoreDword(win, 492, last);
  }

  /**
   * sync: nothing waits in the window any more, and the hints are on the medium; synced says whether the device's own
   * cache could be written out.
   */
  method Sync(fs: FatFs, synced: bool) returns (r: FResult)
    requires fs.View().Valid() && InfoPlaced(fs.geo)
    modifies fs`winsect, fs`wflag, fs`fsiFlag, fs.win, fs.disk
    ensures SameExcept(fs.View(), old(fs.View()), fs.geo.fsiSector) && fs.View().Table() == old(fs.View().Table())
    ensures old(fs.disk.failed) ==> fs.disk.failed
    ensures (fs.geo.fsType == FAT32 && old(fs.fsiFlag)) || fs.View().Same(old(fs.View()))
    ensures r == FR_OK ==> !fs.wflag && synced
    ensures r == FR_OK && fs.geo.fsType == FAT32 ==> !fs.fsiFlag
    ensures r == FR_OK && fs.geo.fsType == FAT32 && old(fs.fsiFlag) && !fs.disk.lost ==>
      fs.geo.fsiSector < |fs.disk.sectors| && fs.disk.sectors[fs.geo.fsiSector] == Info(fs.freeClust, fs.lastClust)
  {
    hide Info, Vol.Valid, Vol.Same, SameExcept, Vol.Image;
    ghost var v := fs.View();
    r := fs.MoveWindow(0);
    SameMeans(fs.View(), v, fs.geo.fsiSector);
    if r == FR_OK {
      if fs.geo.fsType == FAT32 && fs.fsiFlag {
        ghost var w := fs.View();
        CleanWindow(w);
        fs.winsect := 0;
        BuildInfo(fs.win, fs.freeClust, fs.lastClust);
        fs.disk.CopyOne(fs.win, fs.geo.fsiSector);
        fs.fsiFlag := false;
        InfoWritten(w, fs.View(), fs.geo.fsiSector);
        ExceptTrans(fs.View(), w, v, fs.geo.fsiSector);
      }
      if !synced {
        r := FR_DISK_ERR;
      }
    }
    TableStays(fs.View(), v, fs.geo.fsiSector);
  }

  /** The window given up, and its content written in front of the table or lost. */
  lemma InfoWritten(v: Vol, r: Vol, s: nat)
    requires v.Valid() && !v.wflag && 0 < s < v.geo.fatbase && |r.win| == 512 && (v.lost ==> r.lost)
    requires r == v.(lost := r.lost, win := r.win, winsect := 0) ||
      (s < |v.disk| && r == v.(disk := v.disk[s := r.win], lost := r.lost, win := r.win, winsect := 0))
    ensures SameExcept(r, v, s)
  {
    hide Vol.Same, SameExcept;
    var a := v.(lost := r.lost, win := r.win, winsect := 0);
    GivenUp(v, r.win, r.lost);
    SameMeans(a, v, s);
    ExceptValid(a, v, s);
    if r != a {
      WrittenInFront(a, s, r.win);
      ExceptTrans(r, a, v, s);
    }
  }

  lemma ExceptValid(v: Vol, was: Vol, s: nat)
    requires was.Valid() && SameExcept(v, was, s)
    ensures v.Valid()
  {
  }

  lemma CleanWindow(v: Vol)
    requires v.Valid()
    ensures |v.win| == 512
  {
  }

  /** The table lies elsewhere. */
  lemma TableStays(v: Vol, was: Vol, s: nat)
    requires was.Valid() && SameExcept(v, was, s) && s < was.geo.fatbase
    ensures v.Table() == was.Table()
  {
    ImageHolds(v);
    ImageHolds(was);
    SameFat(v.geo, v.Image(), was.Image());
  }

  /** Nor does the medium change in front of the table, but for that sector. */
  lemma FrontStays(v: Vol, was: Vol, s: nat, i: nat)
    requires was.Valid() && SameExcept(v, was, s) && i != s && i < was.geo.fatbase
    ensures i < |v.disk| == |was.disk| && v.disk[i] == was.disk[i]
  {
    InFront(v, i);
    InFront(was, i);
  }

  /** The volume a medium holds is a matter of its first sector and its boot record. */
  lemma VolumeStays(a: seq<Sector>, b: seq<Sector>)
    requires 0 < |a| == |b| && AllSectors(a) && AllSectors(b) && BootSector(a).Some?
    requires a[0] == b[0] && a[BootSector(a).value] == b[BootSector(a).value]
    ensures Volume(b) == Volume(a)
  {
    hide Kind, LoadDword, Layout, ReadBpb;
  }

  /** The boot record lies in front of the table, and on FAT32 the FSInfo sector is not it. */
  ghost predicate Booted(img: seq<Sector>, geo: Geometry) {
    && |img| > 0 && AllSectors(img) && Volume(img) == Some(geo)
    && BootSector(img).Some? && BootSector(img).value < geo.fatbase
    && (geo.fsType == FAT32 ==> geo.fsiSector != BootSector(img).value)
  }

  /** The volume stays when one sector in front of the table changes that is neither the first nor the boot record. */
  lemma StillBooted(v: Vol, was: Vol, s: nat)
    requires was.Valid() && SameExcept(v, was, s) && Booted(was.disk, was.geo) && s != 0
    requires s != BootSector(was.disk).value
    ensures Booted(v.disk, was.geo)
  {
    hide Volume, BootSector, SameExcept;
    var b := BootSector(was.disk).value;
    VolDisk(v, was, s);
    FrontStays(v, was, s, 0);
    FrontStays(v, was, s, b);
    VolumeStays(was.disk, v.disk);
    BootStays(was.disk, v.disk);
  }

  lemma BootStays(a: seq<Sector>, b: seq<Sector>)
    requires 0 < |a| == |b| && AllSectors(a) && AllSectors(b) && BootSector(a).Some?
    requires a[0] == b[0] && a[BootSector(a).value] == b[BootSector(a).value]
    ensures BootSector(b) == BootSector(a)
  {
    hide Kind, LoadDword;
  }

  lemma VolDisk(v: Vol, was: Vol, s: nat)
    requires was.Valid() && SameExcept(v, was, s)
    ensures AllSectors(v.disk) && |v.disk| == |was.disk| && v.geo == was.geo && 0 < was.geo.fatbase
  {
  }

  /** The hints that mounting finds after a synchronisation: those held if they were to be written, else as before. */
  ghost function Recorded(geo: Geometry, img: seq<Sector>, flag: bool, free: nat, last: nat): (nat, nat)
    requires AllSectors(img)
  {
    if geo.fsType != FAT32 || geo.fsiSector >= |img| then (0xFFFF_FFFF, 0)
    else if flag then (free, last)
    else Hints(img[geo.fsiSector])
  }

  /** A volume synchronised and mounted again: the same layout, and the allocation hints that were to be kept. */
  method SyncAndMount(fs: FatFs, win: array<byte>) returns (r: FResult, m: MountResult, free: nat, last: nat)
    requires fs.View().Valid() && InfoPlaced(fs.geo) && win != fs.win && win.Length == 512
    requires !fs.disk.failed ==>
      Booted(fs.disk.sectors, fs.geo) && fs.freeClust < 0x1_0000_0000 && fs.lastClust < 0x1_0000_0000
    modifies fs`winsect, fs`wflag, fs`fsiFlag, fs.win, fs.disk, win
    ensures fs.View().Valid() && fs.View().Table() == old(fs.View().Table())
    ensures old(fs.disk.failed) ==> fs.disk.failed
    ensures r == FR_OK && !fs.disk.failed ==> |fs.disk.sectors| > 0 && AllSectors(fs.disk.sectors)
    ensures r == FR_OK && !fs.disk.failed ==> Volume(fs.disk.sectors) == Some(fs.geo)
    ensures r == FR_OK && !fs.disk.lost && !fs.disk.failed ==>
      m == MOUNT_OK &&
      AllSectors(old(fs.disk.sectors)) &&
      (free, last) == Recorded(fs.geo, old(fs.disk.sectors), old(fs.fsiFlag), fs.freeClust, fs.lastClust)
  {
    hide Volume, BootSector, Info, Vol.Valid, Vol.Table, FsInfo, Vol.Same, SameExcept;
    ghost var v := fs.View();
    ValidGeo(v);
    ghost var written := fs.geo.fsType == FAT32 && fs.fsiFlag;
    // The sector Sync may have changed; without the flag there is none, and any past the boot records will do.
    ghost var s := if written then fs.geo.fsiSector else fs.geo.fatbase;
    r := Sync(fs, true);
    m, free, last := MOUNT_DISK_ERR, 0, 0;
    ExceptValid(fs.View(), v, v.geo.fsiSector);
    ValidGeo(fs.View());
    if r == FR_OK {
      if !written {
        SameMeans(fs.View(), v, s);
      }
      VolDisk(fs.View(), v, s);
      if !fs.disk.failed {
        StillBooted(fs.View(), v, s);
      }
      if fs.geo.fsType == FAT32 && !fs.disk.failed {
        if written {
          InfoBack(fs.freeClust, fs.lastClust);
        } else {
          FrontStays(fs.View(), v, s, fs.geo.fsiSector);
        }
      }
      ghost var u := fs.View();
      var geo;
      m, geo, free, last := Mount(fs.disk, win);
      assert fs.View() == u;
    }
  }
}

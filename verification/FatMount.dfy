/** Mounting: finding the boot record, and deriving the volume's layout from its parameters. */
module FatMount {
  import opened FatBytes
  import opened Octets
  import opened Arith
  import opened FatDisk
  import opened FatTable

  datatype Option<T> = None | Some(value: T)

  function LoadWord(s: Sector, p: nat): (r: nat)
    requires p + 1 < |s|
    ensures r < 0x1_0000
  {
    LdWord(s[p], s[p + 1])
  }

  function LoadDword(s: Sector, p: nat): (r: nat)
    requires p + 3 < |s|
    ensures r < 0x1_0000_0000
  {
    LdDword(s[p], s[p + 1], s[p + 2], s[p + 3])
  }

  /** Unsigned 32-bit arithmetic. */
  function Wrap(x: int): (r: nat)
    ensures 0 <= x < 0x1_0000_0000 ==> r == x
  {
    x % 0x1_0000_0000
  }

  const SIGNATURE := 0xAA55
  const FAT_STRING := 0x544146
  const MIN_FAT16 := 4086
  const MIN_FAT32 := 65526

  /** 0: FAT boot record, 1: some other boot record, 2: none. */
  function Kind(s: Sector): nat
    requires |s| == 512
  {
    if LoadWord(s, 510) != SIGNATURE then 2
    else if LoadDword(s, 54) % 0x100_0000 == FAT_STRING then 0
    else if LoadDword(s, 82) % 0x100_0000 == FAT_STRING then 0
    else 1
  }

  /** The parameters a boot record carries. */
  datatype Bpb = Bpb(
    bytsPerSec: nat, secPerClus: nat, rsvdSecCnt: nat, numFats: nat, rootEntCnt: nat, totSec16: nat, fatSz16: nat,
    totSec32: nat, fatSz32: nat, rootClus: nat, fsInfo: nat)
  {
    predicate Ranged() {
      && bytsPerSec < 0x1_0000 && secPerClus < 0x100 && rsvdSecCnt < 0x1_0000 && numFats < 0x100
      && rootEntCnt < 0x1_0000 && totSec16 < 0x1_0000 && fatSz16 < 0x1_0000 && fsInfo < 0x1_0000
      && totSec32 < 0x1_0000_0000 && fatSz32 < 0x1_0000_0000 && rootClus < 0x1_0000_0000
    }

    function FatSize(): nat {
      if fatSz16 != 0 then fatSz16 else fatSz32
    }

    function Total(): nat {
      if totSec16 != 0 then totSec16 else totSec32
    }

    /** Sectors before the data area, without regard to overflow. */
    function System(): nat {
      rsvdSecCnt + FatSize() * numFats + rootEntCnt / 16
    }

    /** Clusters in the data area, without regard to overflow. */
    function Clusters(): int {
      if secPerClus == 0 then 0 else (Total() - System()) / secPerClus
    }
  }

  function ReadBpb(s: Sector): (b: Bpb)
    requires |s| == 512
    ensures b.Ranged()
  {
    Bpb(LoadWord(s, 11), s[13], LoadWord(s, 14), s[16], LoadWord(s, 17), LoadWord(s, 19), LoadWord(s, 22),
        LoadDword(s, 32), LoadDword(s, 36), LoadDword(s, 44), LoadWord(s, 48))
  }

  predicate PowerByte(b: nat) {
    b == 1 || b == 2 || b == 4 || b == 8 || b == 16 || b == 32 || b == 64 || b == 128
  }

  lemma PowerSmall(au: nat)
    requires PowerByte(au)
    ensures 0 < au <= 128
  {
  }

  function SubType(nclst: nat): FatType {
    if nclst >= MIN_FAT32 then FAT32 else if nclst >= MIN_FAT16 then FAT16 else FAT12
  }

  /** Bytes a table of n entries needs, in 32-bit arithmetic. */
  function TableBytes(t: FatType, n: nat): nat {
    match t
    case FAT12 => Wrap(n * 3) / 2 + n % 2
    case FAT16 => Wrap(n * 2)
    case FAT32 => Wrap(n * 4)
  }

  /** The layout of the volume whose boot record at sector bsect holds b, or None if it is not acceptable. */
  function Layout(b: Bpb, bsect: nat): Option<Geometry> {
    var fasize := Wrap(b.FatSize() * b.numFats);
    var sysect := Wrap(b.rsvdSecCnt + fasize + b.rootEntCnt / 16);
    if b.bytsPerSec != 512 || (b.numFats != 1 && b.numFats != 2) || !PowerByte(b.secPerClus)
       || b.rootEntCnt % 16 != 0 || b.rsvdSecCnt == 0 || b.Total() < sysect then None
    else
      var nclst := (b.Total() - sysect) / b.secPerClus;
      var t, n, fatbase := SubType(nclst), Wrap(nclst + 2), Wrap(bsect + b.rsvdSecCnt);
      if nclst == 0 || (t == FAT32) != (b.rootEntCnt == 0) || b.FatSize() < Wrap(TableBytes(t, n) + 511) / 512 then None
      else Some(Geometry(t, b.secPerClus, b.numFats, b.rootEntCnt, n, b.FatSize(), fatbase,
        if t == FAT32 then b.rootClus else Wrap(fatbase + fasize), Wrap(bsect + sysect),
        if t == FAT32 then Wrap(bsect + b.fsInfo) else 0))
  }

  lemma QuotTimes(x: nat, m: nat)
    requires m > 0
    ensures 0 <= x / m <= x && x / m * m <= x
  {
    DivParts(x, m);
    MulMono(1, m, x / m);
  }

  /** An accepted volume whose numbers do not overflow 32 bits has a layout everything else relies on. */
  lemma MountedIsValid(b: Bpb, bsect: nat)
    requires b.Ranged() && Layout(b, bsect).Some?
    requires b.System() < 0x1_0000_0000 && bsect + b.Total() < 0x1_0000_0000
    requires b.Clusters() + 2 <= 0x1000_0000 - 9
    ensures Layout(b, bsect).value.Valid() && Layout(b, bsect).value.End() <= bsect + b.Total()
  {
    hide Wrap, TableBytes, SubType;
    var geo := Layout(b, bsect).value;
    var sysect, fa := b.System(), b.FatSize() * b.numFats;
    Copies(b.FatSize(), b.numFats);
    Unwrapped(fa);
    Unwrapped(sysect);
    QuotTimes(b.Total() - sysect, b.secPerClus);
    TimesIs(b.Clusters(), b.secPerClus);
    Unwrapped(b.Clusters() + 2);
    Unwrapped(bsect + b.rsvdSecCnt);
    Unwrapped(bsect + sysect);
    Unwrapped(bsect + b.rsvdSecCnt + fa);
    EntriesFit(b.Clusters(), geo.nFatent);
    RoomFor(geo.fsType, geo.nFatent, geo.fsize);
  }

  /** Where an accepted volume's areas are, from the parameters of its boot record, for one table or two. */
  lemma LayoutIs(b: Bpb, bsect: nat)
    requires b.Ranged() && Layout(b, bsect).Some?
    requires b.System() < 0x1_0000_0000 && bsect + b.Total() < 0x1_0000_0000 && b.Clusters() + 2 < 0x1_0000_0000
    ensures var geo, clusters := Layout(b, bsect).value, b.Clusters();
      && geo.csize == b.secPerClus && geo.nFats == b.numFats && geo.fsize == b.FatSize()
      && geo.nRootdir == b.rootEntCnt
      && geo.fatbase == bsect + b.rsvdSecCnt
      && geo.database == geo.fatbase + b.numFats * b.FatSize() + b.rootEntCnt / 16
      && geo.dirbase == (if clusters >= 65526 then b.rootClus else geo.fatbase + b.numFats * b.FatSize())
      && geo.fsType == (if clusters >= 65526 then FAT32 else if clusters >= 4086 then FAT16 else FAT12)
      && 0 < clusters && geo.nFatent == clusters + 2
      && (clusters >= 65526 && bsect + b.fsInfo < 0x1_0000_0000 ==> geo.fsiSector == bsect + b.fsInfo)
  {
    hide Wrap, TableBytes, PowerByte;
    var fa := b.FatSize() * b.numFats;
    Copies(b.FatSize(), b.numFats);
    Unwrapped(fa);
    Unwrapped(b.System());
    LayoutUnit(b, bsect);
    QuotTimes(b.Total() - b.System(), b.secPerClus);
    Unwrapped(b.Clusters() + 2);
    Unwrapped(bsect + b.rsvdSecCnt);
    Unwrapped(bsect + b.System());
    Unwrapped(bsect + b.rsvdSecCnt + fa);
    if bsect + b.fsInfo < 0x1_0000_0000 {
      Unwrapped(bsect + b.fsInfo);
    }
  }

  lemma LayoutUnit(b: Bpb, bsect: nat)
    requires Layout(b, bsect).Some?
    ensures 0 < b.secPerClus <= 128 && 0 < b.rsvdSecCnt && 1 <= b.numFats <= 2
  {
    hide Wrap, TableBytes;
  }

  lemma Copies(f: nat, n: nat)
    requires n == 1 || n == 2
    ensures f * n == if n == 2 then f + f else f
  {
  }

  lemma Unwrapped(x: nat)
    requires x < 0x1_0000_0000
    ensures Wrap(x) == x
  {
  }

  /** The sub-type leaves room for the reserved entry values. */
  lemma EntriesFit(nclst: nat, n: nat)
    requires n == nclst + 2 <= 0x1000_0000 - 9
    ensures match SubType(nclst)
            case FAT12 => n <= 0x1000 - 9
            case FAT16 => n <= 0x1_0000 - 9
            case FAT32 => true
  {
  }

  /** The size check of the mount is the room the table needs. */
  lemma RoomFor(t: FatType, n: nat, fsize: nat)
    requires n <= 0x1000_0000 && fsize >= Wrap(TableBytes(t, n) + 511) / 512
    ensures match t
            case FAT12 => 3 * n <= 1024 * fsize
            case FAT16 => n <= 256 * fsize
            case FAT32 => n <= 128 * fsize
  {
    hide Wrap, TableBytes;
    match t
    case FAT12 => Room12(n, fsize);
    case FAT16 => Room16(n, fsize);
    case FAT32 => Room32(n, fsize);
  }

  lemma Room12(n: nat, fsize: nat)
    requires n <= 0x1000_0000 && fsize >= Wrap(TableBytes(FAT12, n) + 511) / 512
    ensures 3 * n <= 1024 * fsize
  {
    hide Wrap;
    Unwrapped(n * 3);
    Unwrapped(n * 3 / 2 + n % 2 + 511);
    Ceiling(n * 3 / 2 + n % 2, fsize);
  }

  lemma Room16(n: nat, fsize: nat)
    requires n <= 0x1000_0000 && fsize >= Wrap(TableBytes(FAT16, n) + 511) / 512
    ensures n <= 256 * fsize
  {
    hide Wrap;
    Unwrapped(n * 2);
    Unwrapped(n * 2 + 511);
    Ceiling(n * 2, fsize);
  }

  lemma Room32(n: nat, fsize: nat)
    requires n <= 0x1000_0000 && fsize >= Wrap(TableBytes(FAT32, n) + 511) / 512
    ensures n <= 128 * fsize
  {
    hide Wrap;
    Unwrapped(n * 4);
    Unwrapped(n * 4 + 511);
    Ceiling(n * 4, fsize);
  }

  lemma Ceiling(x: nat, f: nat)
    ensures f >= (x + 511) / 512 <==> x <= 512 * f
  {
  }

  /** check_fs: loads a sector and says what it is; 3 on a disk error. */
  method CheckFs(disk: Disk, win: array<byte>, sect: nat) returns (fmt: nat)
    requires win.Length == 512 && AllSectors(disk.sectors)
    modifies disk`failed, win
    ensures fmt <= 3 && disk.failed == (old(disk.failed) || fmt == 3)
    ensures fmt < 3 ==> sect < |disk.sectors| && win[..] == disk.sectors[sect] && fmt == Kind(disk.sectors[sect])
  {
    var ok := disk.ReadOne(win, sect);
    if !ok { return 3; }
    if LoadWord(win[..], 510) != SIGNATURE { return 2; }
    if LoadDword(win[..], 54) % 0x100_0000 == FAT_STRING { return 0; }
    if LoadDword(win[..], 82) % 0x100_0000 == FAT_STRING { return 0; }
    return 1;
  }

  /** Sector of the boot record: the first sector of the medium, or of its first partition. */
  function BootSector(img: seq<Sector>): Option<nat>
    requires |img| > 0 && AllSectors(img)
  {
    if Kind(img[0]) == 0 then Some(0)
    else if Kind(img[0]) == 1 && img[0][450] != 0 then
      var b := LoadDword(img[0], 454);
      if b < |img| && Kind(img[b]) == 0 then Some(b) else None
    else None
  }

  /** A boot record ends in its signature; that it is one of FAT is said at byte 54 or 82. */
  lemma KindIs(s: Sector)
    requires |s| == 512
    ensures Kind(s) == 0 <==>
      s[510..512] == [0x55, 0xAA] && (s[54..57] == [0x46, 0x41, 0x54] || s[82..85] == [0x46, 0x41, 0x54])
    ensures Kind(s) == 2 <==> s[510..512] != [0x55, 0xAA]
  {
    hide LoadWord, LoadDword;
    SignedIs(s);
    NamedIs(s, 54);
    NamedIs(s, 82);
  }

  lemma SignedIs(s: Sector)
    requires |s| == 512
    ensures LoadWord(s, 510) == SIGNATURE <==> s[510..512] == [0x55, 0xAA]
  {
    assert s[510..512] == [s[510], s[511]];
  }

  lemma NamedIs(s: Sector, p: nat)
    requires p + 3 < |s|
    ensures LoadDword(s, p) % 0x100_0000 == FAT_STRING <==> s[p..p + 3] == [0x46, 0x41, 0x54]
  {
    assert s[p..p + 3] == [s[p], s[p + 1], s[p + 2]];
    ThreeBytes(s[p], s[p + 1], s[p + 2], s[p + 3]);
  }

  lemma ThreeBytes(a: byte, b: byte, c: byte, d: byte)
    ensures LdDword(a, b, c, d) % 0x100_0000 == a as int + 0x100 * (b as int) + 0x1_0000 * (c as int)
  {
    var x := a as int + 0x100 * (b as int) + 0x1_0000 * (c as int);
    assert LdDword(a, b, c, d) == x + 0x100_0000 * (d as int);
    DropTop(x, d as int);
  }

  lemma DropTop(low: nat, high: nat)
    requires low < 0x100_0000
    ensures (low + 0x100_0000 * high) % 0x100_0000 == low
  {
  }

  /** The boot record is in front, or where a first partition that has a type begins, if another record is in front. */
  lemma BootSectorIs(img: seq<Sector>, b: nat)
    requires |img| > 0 && AllSectors(img)
    ensures BootSector(img) == Some(b) <==>
      && b < |img| && Kind(img[b]) == 0
      && (b == 0 || (Kind(img[0]) == 1 && img[0][450] != 0 && LoadDword(img[0], 454) == b))
  {
    hide Kind, LoadDword;
  }

  /** What the medium holds, as mounting sees it. */
  function Volume(img: seq<Sector>): Option<Geometry>
    requires |img| > 0 && AllSectors(img)
  {
    match BootSector(img)
    case None => None
    case Some(b) => Layout(ReadBpb(img[b]), b)
  }

  datatype MountResult = MOUNT_OK | MOUNT_DISK_ERR | MOUNT_NO_FILESYSTEM

  /** The derivation of the layout, step by step from the parameters of the loaded boot record. */
  method Analyse(b: Bpb, bsect: nat) returns (r: Option<Geometry>)
    ensures r == Layout(b, bsect)
  {
    hide Wrap, PowerByte;
    if b.bytsPerSec != 512 { return None; }
    var fasize := b.fatSz16;
    if fasize == 0 { fasize := b.fatSz32; }
    var fsize := fasize;
    var nFats := b.numFats;
    if nFats != 1 && nFats != 2 { return None; }
    fasize := Wrap(fasize * nFats);
    var csize := b.secPerClus;
    if !PowerByte(csize) { return None; }
    PowerSmall(csize);
    var nRootdir := b.rootEntCnt;
    if nRootdir % 16 != 0 { return None; }
    var tsect := b.totSec16;
    if tsect == 0 { tsect := b.totSec32; }
    var nrsv := b.rsvdSecCnt;
    if nrsv == 0 { return None; }
    var sysect := Wrap(nrsv + fasize + nRootdir / 16);
    if tsect < sysect { return None; }
    var nclst := (tsect - sysect) / csize;
    if nclst == 0 { return None; }
    var fmt := FAT12;
    if nclst >= MIN_FAT16 { fmt := FAT16; }
    if nclst >= MIN_FAT32 { fmt := FAT32; }
    var nFatent := Wrap(nclst + 2);
    var database, fatbase := Wrap(bsect + sysect), Wrap(bsect + nrsv);
    var dirbase, szbfat;
    if fmt == FAT32 {
      if nRootdir != 0 { return None; }
      dirbase := b.rootClus;
      szbfat := Wrap(nFatent * 4);
    } else {
      if nRootdir == 0 { return None; }
      dirbase := Wrap(fatbase + fasize);
      szbfat := if fmt == FAT16 then Wrap(nFatent * 2) else Wrap(nFatent * 3) / 2 + nFatent % 2;
    }
    if fsize < Wrap(szbfat + 511) / 512 { return None; }
    var fsiSector := if fmt == FAT32 then Wrap(bsect + b.fsInfo) else 0;
    return Some(Geometry(fmt, csize, nFats, nRootdir, nFatent, fsize, fatbase, dirbase, database, fsiSector));
  }

  /** Free count and last allocated cluster kept on a FAT32 volume. */
  function FsInfo(s: Sector): Option<(nat, nat)>
    requires |s| == 512
  {
    if LoadWord(s, 510) == SIGNATURE && LoadDword(s, 0) == 0x4161_5252 && LoadDword(s, 484) == 0x6141_7272
    then Some((LoadDword(s, 488), LoadDword(s, 492))) else None
  }

  /** The hints a volume starts with, unknown ones if the sector holds none. */
  function Hints(s: Sector): (nat, nat)
    requires |s| == 512
  {
    if FsInfo(s).Some? then FsInfo(s).value else (0xFFFF_FFFF, 0)
  }

  /** The sector is believed exactly if it carries all three signatures. */
  lemma HintsAre(s: Sector)
    requires |s| == 512
    ensures Hints(s) ==
      if s[510..512] == [0x55, 0xAA] && s[0..4] == [0x52, 0x52, 0x61, 0x41] && s[484..488] == [0x72, 0x72, 0x41, 0x61]
      then (LoadDword(s, 488), LoadDword(s, 492)) else (0xFFFF_FFFF, 0)
  {
  }

  /** The part of chk_mounted that mounts; free and last are the allocation hints it starts with. */
  method Mount(disk: Disk, win: array<byte>) returns (r: MountResult, geo: Option<Geometry>, free: nat, last: nat)
    requires win.Length == 512 && |disk.sectors| > 0 && AllSectors(disk.sectors)
    modifies disk`failed, win
    ensures r == MOUNT_OK <==> geo.Some?
    ensures old(disk.failed) || r == MOUNT_DISK_ERR ==> disk.failed
    ensures r == MOUNT_OK ==> geo == Volume(disk.sectors)
    ensures r == MOUNT_NO_FILESYSTEM && !disk.failed ==> Volume(disk.sectors) == None
    ensures r == MOUNT_OK && !disk.failed && geo.value.fsType == FAT32 && geo.value.fsiSector < |disk.sectors| ==>
      (free, last) == Hints(disk.sectors[geo.value.fsiSector])
    ensures r == MOUNT_OK && (geo.value.fsType != FAT32 || geo.value.fsiSector >= |disk.sectors|) ==>
      (free, last) == (0xFFFF_FFFF, 0)
  {
    free, last, geo := 0xFFFF_FFFF, 0, None;
    var bsect := 0;
    var fmt := CheckFs(disk, win, bsect);
    if fmt == 1 {
      if win[450] != 0 {
        bsect := LoadDword(win[..], 454);
        fmt := CheckFs(disk, win, bsect);
      }
    }
    if fmt == 3 { return MOUNT_DISK_ERR, None, free, last; }
    if fmt != 0 { return MOUNT_NO_FILESYSTEM, None, free, last; }
    geo := Analyse(ReadBpb(win[..]), bsect);
    if geo.None? { return MOUNT_NO_FILESYSTEM, None, free, last; }
    if geo.value.fsType == FAT32 {
      var ok := disk.ReadOne(win, geo.value.fsiSector);
      if ok && LoadWord(win[..], 510) == SIGNATURE
        && LoadDword(win[..], 0) == 0x4161_5252 && LoadDword(win[..], 484) == 0x6141_7272
      {
        last := LoadDword(win[..], 492);
        free := LoadDword(win[..], 488);
      }
    }
    r := MOUNT_OK;
  }
}

/** Counting free clusters: f_getfree. */
module FatFree {
  import opened Octets
  import opened Arith
  import opened FatBytes
  import opened FatTable
  import opened FatVol
  import opened FatVolume
  import opened FatChain
  import opened FatAlloc

  /** Number of zero entries below position k, the two reserved ones included. */
  function ZeroBelow(fat: seq<nat>, k: nat): (r: nat)
    requires k <= |fat|
    ensures r <= k
  {
    if k == 0 then 0 else ZeroBelow(fat, k - 1) + if fat[k - 1] == 0 then 1 else 0
  }

  /** The linear scan counts the free clusters, and whichever of the two reserved entries is zero. */
  lemma {:induction false} ScanCounts(fat: seq<nat>, k: nat)
    requires 2 <= k <= |fat|
    ensures ZeroBelow(fat, k) == FreeBelow(fat, k) + ZeroBelow(fat, 2)
    ensures ZeroBelow(fat, 2) == 0 <==> fat[0] != 0 && fat[1] != 0
  {
    if k > 2 {
      ScanCounts(fat, k - 1);
    } else {
      assert ZeroBelow(fat, 2) == ZeroBelow(fat, 1) + if fat[1] == 0 then 1 else 0;
      assert ZeroBelow(fat, 1) == ZeroBelow(fat, 0) + if fat[0] == 0 then 1 else 0;
    }
  }

  /** The scan agrees with the count made cluster by cluster exactly when neither reserved entry is zero. */
  lemma ScanExactly(fat: seq<nat>)
    requires |fat| >= 2
    ensures ZeroBelow(fat, |fat|) == FreeCount(fat) <==> fat[0] != 0 && fat[1] != 0
  {
    ScanCounts(fat, |fat|);
  }

  /** A FAT16 table whose first reserved entry is zero, and with one free cluster, of which the scan finds two. */
  lemma ScanTrap()
    ensures var fat := [0, 0xFFFF, 0]; ZeroBelow(fat, |fat|) == 2 && FreeCount(fat) == 1
  {
    var fat := [0, 0xFFFF, 0];
    assert ZeroBelow(fat, 2) == ZeroBelow(fat, 1) == ZeroBelow(fat, 0) + 1;
    ScanCounts(fat, 3);
  }

  /** What the whole count comes to for a volume. */
  function Counts(geo: Geometry, fat: seq<nat>): nat {
    if geo.fsType == FAT12 then FreeCount(fat) else ZeroBelow(fat, |fat|)
  }

  /** Counts by reading entry after entry. */
  method CountEach(fs: FatFs) returns (r: FResult, n: nat)
    requires fs.View().Valid()
    modifies fs`winsect, fs`wflag, fs.win, fs.disk
    ensures fs.disk.failed == (old(fs.disk.failed) || r == FR_DISK_ERR)
    ensures fs.View().Same(old(fs.View())) && fs.View().Table() == old(fs.View().Table())
    ensures r == FR_OK ==> n == FreeCount(fs.View().Table())
    ensures r != FR_OK && r != FR_DISK_ERR ==> r == FR_INT_ERR && Broken(fs.View().Table())
  {
    hide Vol.Table, Vol.Image, Vol.Valid, Vol.Mirrored, Geometry.Valid;
    Bounds(fs.View());
    ghost var fat := fs.View().Table();
    r, n := FR_OK, 0;
    var clst := 2;
    while true
      invariant 2 <= clst < fs.geo.nFatent == |fat| && r == FR_OK
      invariant fs.View().Same(old(fs.View())) && fs.View().Table() == fat
      invariant fs.disk.failed == old(fs.disk.failed)
      invariant n == FreeBelow(fat, clst)
      decreases fs.geo.nFatent - clst
    {
      var stat := fs.GetFat(clst);
      assert InRange(|fat|, clst);
      if stat == 0xFFFF_FFFF { r := FR_DISK_ERR; break; }
      if stat == 1 { r := FR_INT_ERR; break; }
      if stat == 0 { n := n + 1; }
      clst := clst + 1;
      if clst >= fs.geo.nFatent { break; }
    }
  }

  /** Entry e of a FAT16 or FAT32 table lies e * size bytes into it. */
  lemma EntryIn(geo: Geometry, img: seq<Sector>, e: nat, size: nat, k: nat, o: nat)
    requires Holds(geo, img) && e < geo.nFatent && geo.fsType != FAT12
    requires size == (if geo.fsType == FAT16 then 2 else 4) && e * size == 512 * k + o && o < 512
    ensures k < geo.fsize && geo.fatbase + k < |img| && o + size <= 512
    ensures geo.fsType == FAT16 ==> Entry(geo, img, e) == Decode16(img[geo.fatbase + k], o)
    ensures geo.fsType == FAT32 ==> Entry(geo, img, e) == Decode32(img[geo.fatbase + k], o)
  {
    if geo.fsType == FAT16 {
      Fits16(geo, e);
      assert e / 256 == k && e % 256 * 2 == o;
    } else {
      Fits32(geo, e);
      assert e / 128 == k && e % 128 * 4 == o;
    }
  }

  /** Whether the entry at byte p of a table sector is free. */
  method FreeAt(win: array<byte>, p: nat, fat16: bool) returns (free: bool)
    requires p + (if fat16 then 2 else 4) <= win.Length
    ensures free <==> (if fat16 then Decode16(win[..], p) else Decode32(win[..], p)) == 0
  {
    if fat16 {
      free := LdWord(win[p], win[p + 1]) == 0;
    } else {
      Decode32Is(win[..], p);
      free := LdDword(win[p], win[p + 1], win[p + 2], win[p + 3]) % 0x1000_0000 == 0;
    }
  }

  function EntrySize(geo: Geometry): nat {
    if geo.fsType == FAT16 then 2 else 4
  }

  /** The scan is about to look at entry e: i bytes are left of the sector before sect. */
  predicate Scanning(geo: Geometry, e: nat, sect: nat, i: nat) {
    geo.fatbase <= sect && i < 512 && e * EntrySize(geo) + i == 512 * (sect - geo.fatbase)
  }

  lemma ScanStart(geo: Geometry)
    ensures Scanning(geo, 0, geo.fatbase, 0)
  {
  }

  /** What the scan finds at the position it has come to, and where it goes next. */
  lemma ScanNext(geo: Geometry, img: seq<Sector>, e: nat, sect: nat, i: nat, s: nat, o: nat)
    requires Holds(geo, img) && e < geo.nFatent && geo.fsType != FAT12 && Scanning(geo, e, sect, i)
    requires if i == 0 then s == sect && o == 0 else s + 1 == sect && o + i == 512
    ensures geo.fatbase <= s < |img| && geo.InFat(s) && o + EntrySize(geo) <= 512
    ensures Entry(geo, img, e) == if geo.fsType == FAT16 then Decode16(img[s], o) else Decode32(img[s], o)
    ensures Scanning(geo, e + 1, s + 1, 512 - o - EntrySize(geo))
  {
    hide Entry, Decode16, Decode32;
    EntryIn(geo, img, e, EntrySize(geo), s - geo.fatbase, o);
    MulSplit(e, 1, EntrySize(geo));
  }

  /** Counts by scanning the table sector by sector. */
  method CountScan(fs: FatFs) returns (r: FResult, n: nat)
    requires fs.View().Valid() && fs.geo.fsType != FAT12
    modifies fs`winsect, fs`wflag, fs.win, fs.disk
    ensures fs.disk.failed == (old(fs.disk.failed) || r == FR_DISK_ERR) && (r == FR_OK || r == FR_DISK_ERR)
    ensures fs.View().Same(old(fs.View()))
    ensures r == FR_OK ==> n == ZeroBelow(fs.View().Table(), fs.geo.nFatent)
  {
    hide Vol.Mirrored, Vol.Image, Vol.Valid, Geometry.Valid, Entry, Decode16, Decode32, Scanning;
    Bounds(fs.View());
    ghost var img, fat := fs.View().Image(), fs.View().Table();
    ImageHolds(fs.View());
    ScanStart(fs.geo);
    var fat16 := fs.geo.fsType == FAT16;
    var clst: nat, sect: nat, i: nat, p: nat := fs.geo.nFatent, fs.geo.fatbase, 0, 0;
    r, n := FR_OK, 0;
    while true
      invariant 0 < clst <= fs.geo.nFatent && r == FR_OK
      invariant fs.View().Same(old(fs.View())) && fs.View().Image() == img
      invariant fs.disk.failed == old(fs.disk.failed)
      invariant Scanning(fs.geo, fs.geo.nFatent - clst, sect, i)
      invariant i > 0 ==> p + i == 512 && 0 < sect <= |img| && fs.win[..] == img[sect - 1]
      invariant n == ZeroBelow(fat, fs.geo.nFatent - clst)
      decreases clst
    {
      ghost var e := fs.geo.nFatent - clst;
      ScanNext(fs.geo, img, e, sect, i, if i == 0 then sect else sect - 1, if i == 0 then 0 else p);
      if i == 0 {
        r := fs.FatWindow(sect);
        sect := sect + 1;
        if r != FR_OK { break; }
        p, i := 0, 512;
      }
      FatAt(fs.geo, img, e);
      var free := FreeAt(fs.win, p, fat16);
      if free { n := n + 1; }
      if fat16 {
        p, i := p + 2, i - 2;
      } else {
        p, i := p + 4, i - 4;
      }
      clst := clst - 1;
      if clst == 0 { break; }
    }
  }

  /** f_getfree on a mounted volume. */
  method GetFree(fs: FatFs) returns (r: FResult, nclst: nat)
    requires fs.View().Valid()
    modifies fs`winsect, fs`wflag, fs`freeClust, fs`fsiFlag, fs.win, fs.disk
    ensures fs.disk.failed == (old(fs.disk.failed) || r == FR_DISK_ERR)
    ensures fs.View().Same(old(fs.View()))
    ensures old(fs.freeClust) <= fs.geo.nFatent - 2 ==>
      r == FR_OK && nclst == old(fs.freeClust) && fs.freeClust == nclst && fs.View() == old(fs.View())
    ensures old(fs.freeClust) > fs.geo.nFatent - 2 ==>
      fs.freeClust == nclst && (r == FR_OK ==> nclst == Counts(fs.geo, fs.View().Table()))
    ensures r == FR_INT_ERR ==> fs.geo.fsType == FAT12 && Broken(fs.View().Table())
    ensures !fs.disk.failed && !(fs.geo.fsType == FAT12 && Broken(fs.View().Table())) ==> r == FR_OK
    ensures fs.fsiFlag <==>
      old(fs.fsiFlag) || (fs.geo.fsType == FAT32 && old(fs.freeClust) > fs.geo.nFatent - 2)
  {
    hide Vol.Table, Vol.Image, Vol.Valid, Vol.Mirrored, Geometry.Valid, FreeCount, ZeroBelow;
    Bounds(fs.View());
    if fs.freeClust <= fs.geo.nFatent - 2 { return FR_OK, fs.freeClust; }
    if fs.geo.fsType == FAT12 {
      r, nclst := CountEach(fs);
    } else {
      r, nclst := CountScan(fs);
    }
    fs.freeClust := nclst;
    if fs.geo.fsType == FAT32 { fs.fsiFlag := true; }
  }

  /** After an error-free scan the cached count is right exactly when, off FAT12, neither reserved entry is zero. */
  lemma CountedExactly(geo: Geometry, fat: seq<nat>)
    requires 3 <= |fat| < 0xFFFF_FFFF
    ensures Counted(fat, Counts(geo, fat)) <==> geo.fsType == FAT12 || (fat[0] != 0 && fat[1] != 0)
  {
    ScanExactly(fat);
  }
}

/** Directory objects: walking, finding, registering and removing entries through the window. */
module FatDir {
  import opened FatBytes
  import opened Octets
  import opened FatDisk
  import opened FatTable
  import opened FatVol
  import opened FatVolume
  import opened FatChain
  import opened FatAlloc
  import opened FatLayout
  import opened FatEntries
  import opened FatDirState

  lemma DataCluster(geo: Geometry, c: nat)
    requires geo.Valid() && geo.IsCluster(c)
    ensures geo.ClustToSect(c) == Base(geo, c) && geo.fatbase + geo.FatArea() <= geo.database <= Base(geo, c)
    ensures Base(geo, c) + geo.csize <= geo.End() && geo.csize >= 1
  {
    hide Base, Geometry.End, Geometry.ClustToSect, Geometry.Width, Geometry.Roomy;
    ClusterSmall(geo, c);
    ClustToSectIsBase(geo, c);
    BaseApart(geo, c, 0, c, 0);
    BaseApart(geo, c, geo.csize - 1, c, 0);
  }

  lemma ClusterSmall(geo: Geometry, c: nat)
    requires geo.Valid() && geo.IsCluster(c)
    ensures c < 0x1_0000_0000
  {
  }

  /** Fills a cluster with zeros through the window, which is left on its first sector. */
  method ZeroFill(fs: FatFs, clst: nat) returns (r: FResult)
    requires fs.View().Valid() && fs.geo.IsCluster(clst) && fs.geo.End() <= |fs.disk.sectors|
    modifies fs`winsect, fs`wflag, fs.win, fs.disk
    ensures fs.disk.failed == (old(fs.disk.failed) || r == FR_DISK_ERR) && (r == FR_OK || r == FR_DISK_ERR)
    ensures r == FR_OK ==>
      fs.View().Valid() && fs.winsect == Base(fs.geo, clst) && |fs.disk.sectors| == old(|fs.disk.sectors|)
    ensures r == FR_OK ==> Zeroed(old(fs.View().Image()), fs.View().Image(), Base(fs.geo, clst), fs.geo.csize)
    ensures r == FR_OK ==> Kept(old(fs.View()), fs.View(), Run(Base(fs.geo, clst), fs.geo.csize))
    ensures r == FR_OK ==> fs.View().Table() == old(fs.View().Table())
  {
    hide Vol.Table, Vol.Image, Vol.Valid, Vol.Mirrored, Geometry.Valid, Zeroed, Kept, Run, Zeros, Base;
    ghost var v := fs.View();
    ValidGeo(v);
    ImageSize(v);
    DataCluster(fs.geo, clst);
    ghost var b := Base(fs.geo, clst);
    r := fs.MoveWindow(0);
    if r != FR_OK { return; }
    ghost var v1 := fs.View();
    ClearBuffer(fs.win);
    Disarm(v1, Zeros());
    fs.winsect := fs.geo.ClustToSect(clst);
    ZeroedStart(v.Image(), b);
    var c := 0;
    while c < fs.geo.csize
      invariant 0 <= c <= fs.geo.csize && !fs.wflag && fs.win[..] == Zeros() && fs.winsect == b + c && r == FR_OK
      invariant fs.disk.failed == old(fs.disk.failed)
      invariant var u := fs.View().(winsect := 0);
        && u.Valid() && |u.disk| == |v.disk| && Zeroed(v.Image(), u.Image(), b, c)
        && (v.lost ==> u.lost) && (!u.lost && v.Mirrored() ==> u.Mirrored())
    {
      ghost var u := fs.View().(winsect := 0);
      Arm(u, b + c);
      ZeroedNext(v.Image(), u.Image(), b, c);
      fs.wflag := true;
      assert fs.View() == u.(winsect := b + c, wflag := true);
      r := fs.MoveWindow(0);
      if r != FR_OK { return; }
      Disarm(fs.View(), Zeros());
      ImageSize(fs.View());
      fs.winsect := fs.winsect + 1;
      c := c + 1;
    }
    ghost var u := fs.View().(winsect := 0);
    fs.winsect := fs.winsect - c;
    ZeroedAt(v.Image(), u.Image(), b, c);
    Rearm(u, b);
    assert fs.View() == u.(winsect := b);
    ZeroedKept(v, fs.View(), b, c);
  }

  lemma ImageSize(v: Vol)
    requires v.Valid()
    ensures |v.Image()| == |v.disk| && |v.win| == 512
  {
  }

  lemma ZeroedAt(img: seq<Sector>, img2: seq<Sector>, b: nat, n: nat)
    requires Zeroed(img, img2, b, n) && n > 0
    ensures b < |img2| && img2[b] == Zeros()
  {
  }

  class Dir {
    const fs: FatFs
    const sclust: nat
    var index: nat
    var clust: nat
    var sect: nat
    var dir: nat
    ghost var ch: seq<nat>
    ghost var others: set<seq<nat>>

    constructor (volume: FatFs, start: nat, ghost chain: seq<nat>, ghost rest: set<seq<nat>>)
      requires Present(volume.View(), start, chain, rest)
      ensures fs == volume && sclust == start && ch == chain && others == rest && There()
    {
      fs, sclust := volume, start;
      index, clust, sect, dir := 0, 0, 0, 0;
      ch, others := chain, rest;
    }

    ghost predicate Safe()
      reads fs, fs.win, fs.disk
    {
      fs.View().Valid() && fs.geo.End() <= |fs.disk.sectors|
    }

    /** The directory is on the volume. */
    ghost predicate There()
      reads this, fs, fs.win, fs.disk
    {
      Present(fs.View(), sclust, ch, others)
    }

    /** The object stands at entry i. */
    ghost predicate On(i: nat)
      reads this
    {
      AtEntry(fs.geo, ch, i, clust, sect) && index == i && dir == i % 16 * 32
    }

    ghost function List(): (es: seq<seq<byte>>)
      requires There()
      reads this, fs, fs.win, fs.disk
      ensures AllEntries(es) && Clusters(fs.geo, ch) && |es| == 16 * |DirSects(fs.geo, ch)|
    {
      PresentIs(fs.View(), sclust, ch, others);
      Entries(fs.View(), DirSects(fs.geo, ch))
    }

    /** Follows the chain from its first cluster to the one that holds entry idx. */
    method Descend(start: nat, idx: nat) returns (r: FResult, clst: nat, rem: nat, ghost q: nat)
      requires Safe() && (!fs.disk.failed ==> There() && ch != [] && ch[0] == start)
      modifies fs`winsect, fs`wflag, fs.win, fs.disk
      ensures old(fs.disk.failed) || r == FR_DISK_ERR ==> fs.disk.failed
      ensures Safe() && fs.View().Same(old(fs.View())) && rem % 16 == idx % 16
      ensures !fs.disk.failed ==> fs.View().Table() == old(fs.View().Table()) && (r == FR_OK || r == FR_INT_ERR)
      ensures !fs.disk.failed && r == FR_OK ==>
        q < |ch| && clst == ch[q] && q * (16 * fs.geo.csize) + rem == idx && rem < 16 * fs.geo.csize
      ensures !fs.disk.failed && r == FR_INT_ERR ==> |ch| * (16 * fs.geo.csize) <= idx
    {
      hide Vol.Table, Vol.Image, Vol.Valid, Vol.Mirrored, Geometry.Valid, IsChain, Chained, Geometry.End;
      ghost var v := fs.View();
      if !fs.disk.failed { PresentIs(v, sclust, ch, others); }
      PositiveCsize(v);
      ImageSize(v);
      clst, rem, q := start, idx, 0;
      var ic := 16 * fs.geo.csize;
      while rem >= ic
        invariant fs.View().Same(v) && (old(fs.disk.failed) ==> fs.disk.failed) && rem % 16 == idx % 16
        invariant !fs.disk.failed ==> q < |ch| && clst == ch[q] && q * ic + rem == idx && fs.View().Table() == v.Table()
        decreases rem
      {
        if !fs.disk.failed { LinkOf(v.Table(), ch, q); }
        clst := fs.GetFat(clst);
        MulAdd(q, ic, rem - ic);
        ImageSize(fs.View());
        if clst == 0xFFFF_FFFF { return FR_DISK_ERR, clst, rem, q; }
        if clst < 2 || clst >= fs.geo.nFatent { return FR_INT_ERR, clst, rem, q; }
        rem, q := rem - ic, q + 1;
      }
      ImageSize(fs.View());
      r := FR_OK;
    }

    /** dir_sdi: goes to entry idx. */
    method Sdi(idx: nat) returns (r: FResult)
      requires Safe() && idx < 0x1_0000 && (!fs.disk.failed ==> There())
      modifies this`index, this`clust, this`sect, this`dir, fs`winsect, fs`wflag, fs.win, fs.disk
      ensures old(fs.disk.failed) || r == FR_DISK_ERR ==> fs.disk.failed
      ensures Safe() && fs.View().Same(old(fs.View()))
      ensures r == FR_OK ==> index == idx && dir == index % 16 * 32
      ensures !fs.disk.failed ==>
        && There() && List() == old(List()) && (r == FR_OK || r == FR_INT_ERR)
        && (r == FR_OK <==> idx < |List()|) && (r == FR_OK ==> On(idx))
    {
      hide Vol.Table, Vol.Image, Vol.Valid, Vol.Mirrored, Geometry.Valid, Base, Sects, Geometry.ClustToSect,
        Entries, Chained, IsChain, Geometry.End;
      ghost var v := fs.View();
      if !fs.disk.failed {
        PresentIs(v, sclust, ch, others);
        ValidGeo(v);
      }
      index := idx;
      var clst := sclust;
      if clst == 1 || clst >= fs.geo.nFatent { return FR_INT_ERR; }
      if clst == 0 && fs.geo.fsType == FAT32 { clst := fs.geo.dirbase; }
      var rem := idx;
      if clst == 0 {
        clust := clst;
        if idx >= fs.geo.nRootdir { return FR_INT_ERR; }
        sect := fs.geo.dirbase + idx / 16;
      } else {
        ghost var q;
        r, clst, rem, q := Descend(clst, idx);
        if !fs.disk.failed {
          PresentKept(v, fs.View(), sclust, ch, others);
          AllOf(fs.geo, ch);
        }
        if r != FR_OK { return; }
        clust := clst;
        sect := fs.geo.ClustToSect(clst) + rem / 16;
        if !fs.disk.failed {
          InCluster(fs.geo, ch, q, rem);
          DataCluster(fs.geo, clst);
        }
      }
      dir := rem % 16 * 32;
      return FR_OK;
    }

    /** Appends a zeroed cluster to the directory's chain. */
    method Stretch() returns (r: FResult, clst: nat)
      requires Safe()
      requires !fs.disk.failed ==> There() && ch != [] && clust == ch[|ch| - 1]
      modifies this`ch, fs`winsect, fs`wflag, fs`lastClust, fs`freeClust, fs`fsiFlag, fs.win, fs.disk
      ensures old(fs.disk.failed) || r == FR_DISK_ERR ==> fs.disk.failed
      ensures r == FR_OK ==> Safe()
      ensures !fs.disk.failed ==> There() && (r == FR_OK || r == FR_DENIED)
      ensures !fs.disk.failed && r == FR_DENIED ==>
        ch == old(ch) && NoFree(fs.View().Table()) && List() == old(List()) && fs.View().Edited(old(fs.View()))
      ensures !fs.disk.failed && r == FR_OK ==>
        && fs.geo.IsCluster(clst) && ch == old(ch) + [clst] && List() == old(List()) + Nones(16 * fs.geo.csize)
        && FatDirState.Kept(old(fs.View()), fs.View(), DirSects(fs.geo, ch))
    {
      hide Vol.Table, Vol.Image, Vol.Valid, Vol.Mirrored, Geometry.Valid, Base, Sects, Geometry.ClustToSect,
        Entries, Chained, IsChain, Geometry.End, Present, FatDirState.Zeroed, FatDirState.Kept, Nones, EndMark,
          Created, NoFree, Took;
      ghost var v, last := fs.View(), fs.lastClust;
      Bounds(v);
      ImageSize(v);
      if !fs.disk.failed { AtEnd(v, sclust, ch, others); }
      clst := CreateChain(fs, clust);
      ghost var v1 := fs.View();
      if !fs.disk.failed {
        EditedGeo(v1, v);
        CreateOutcome(v, v1, sclust, ch, others, last, clst, EndMark(fs.geo));
      }
      if clst == 0 { return FR_DENIED, 0; }
      if clst == 1 { return FR_INT_ERR, 0; }
      if clst == 0xFFFF_FFFF { return FR_DISK_ERR, 0; }
      EditedGeo(v1, v);
      r := ZeroFill(fs, clst);
      if r != FR_OK { return; }
      ImageSize(fs.View());
      ImageSize(v1);
      if !fs.disk.failed {
        GrowEntries(v, v1, fs.View(), sclust, ch, others, clst);
        ch := ch + [clst];
      }
    }

    /** The part of dir_next that leaves a cluster for the next one, which it may append. */
    method NextCluster(stretch: bool) returns (r: FResult)
      requires Safe()
      requires !fs.disk.failed ==>
        There() && On(index) && ch != [] && LeavesCluster(fs.geo, index)
      modifies this`clust, this`sect, this`ch,
        fs`winsect, fs`wflag, fs`lastClust, fs`freeClust, fs`fsiFlag, fs.win, fs.disk
      ensures old(fs.disk.failed) || r == FR_DISK_ERR ==> fs.disk.failed
      ensures r == FR_OK ==> Safe()
      ensures !fs.disk.failed ==>
        && There() && (r == FR_OK || r == FR_NO_FILE || r == FR_DENIED)
        && (r == FR_OK ==> AtEntry(fs.geo, ch, index + 1, clust, sect))
        && FatDirState.Kept(old(fs.View()), fs.View(), DirSects(fs.geo, ch))
      ensures !fs.disk.failed && ch == old(ch) ==> List() == old(List()) && (r == FR_OK <==> index + 1 < |List()|)
      ensures !fs.disk.failed && ch != old(ch) ==>
        && r == FR_OK && stretch && old(ch) <= ch && index + 1 == old(|List()|)
        && List() == old(List()) + Nones(16 * fs.geo.csize)
      ensures !fs.disk.failed && r == FR_DENIED ==> stretch && NoFree(fs.View().Table())
      ensures !fs.disk.failed && r == FR_NO_FILE ==> !stretch
    {
      hide Vol.Table, Vol.Image, Vol.Valid, Vol.Mirrored, Geometry.Valid, Base, Sects, Geometry.ClustToSect,
        Entries, Chained, IsChain, Geometry.End, Present, FatDirState.Kept, Nones, NoFree, AtEntry;
      ghost var v, ch0 := fs.View(), ch;
      if !fs.disk.failed {
        PresentIs(v, sclust, ch, others);
        ValidGeo(v);
        LastOrNot(v.geo, v.Table(), ch, index, clust, sect);
      }
      var clst := fs.GetFat(clust);
      ghost var v1 := fs.View();
      ImageSize(v);
      EditedGeo(v1, v);
      if !fs.disk.failed {
        PresentKept(v, v1, sclust, ch, others);
        KeptSame(v, v1, DirSects(fs.geo, ch));
      }
      if clst <= 1 { return FR_INT_ERR; }
      if clst == 0xFFFF_FFFF { return FR_DISK_ERR; }
      if clst >= fs.geo.nFatent {
        if !stretch { return FR_NO_FILE; }
        r, clst := Stretch();
        if !fs.disk.failed {
          if r == FR_OK {
            SectsGrow(fs.geo, ch0, clst);
            StepNew(fs.geo, ch0, clst, index + 1);
            KeptTrans(v, v1, fs.View(), DirSects(fs.geo, ch0), DirSects(fs.geo, ch));
            DataCluster(fs.geo, clst);
          } else {
            KeptSame(v1, fs.View(), DirSects(fs.geo, ch0));
            KeptTrans(v, v1, fs.View(), DirSects(fs.geo, ch0), DirSects(fs.geo, ch0));
          }
        }
        if r != FR_OK { return; }
      } else if !fs.disk.failed {
        DataCluster(fs.geo, clst);
      }
      clust := clst;
      sect := fs.geo.ClustToSect(clst);
      r := FR_OK;
    }

    /** dir_next: moves on to the next entry, appending a cluster if asked to. */
    method Next(stretch: bool) returns (r: FResult)
      requires Safe() && index < 0x1_0000 && (!fs.disk.failed ==> There() && On(index))
      modifies this`index, this`clust, this`sect, this`dir, this`ch,
        fs`winsect, fs`wflag, fs`lastClust, fs`freeClust, fs`fsiFlag, fs.win, fs.disk
      ensures old(fs.disk.failed) || r == FR_DISK_ERR ==> fs.disk.failed
      ensures r == FR_OK ==> Safe() && index == old(index) + 1 && index < 0x1_0000 && dir == index % 16 * 32
      ensures !fs.disk.failed ==>
        && There() && (r == FR_OK || r == FR_NO_FILE || r == FR_DENIED) && (r == FR_OK ==> On(old(index) + 1))
        && FatDirState.Kept(old(fs.View()), fs.View(), DirSects(fs.geo, ch))
      ensures !fs.disk.failed && ch == old(ch) ==>
        && List() == old(List())
        && (r == FR_OK <==> old(index) + 1 < |List()| && old(index) + 1 < 0x1_0000)
      ensures !fs.disk.failed && ch != old(ch) ==>
        && r == FR_OK && stretch && old(ch) != [] && old(ch) <= ch && old(index) + 1 == old(|List()|)
        && List() == old(List()) + Nones(16 * fs.geo.csize)
      ensures !fs.disk.failed && r == FR_DENIED ==> stretch && NoFree(fs.View().Table())
      ensures !fs.disk.failed && r == FR_NO_FILE ==> !stretch || ch == [] || old(index) + 1 == 0x1_0000
    {
      hide Vol.Table, Vol.Image, Vol.Valid, Vol.Mirrored, Geometry.Valid, Base, Sects, Geometry.ClustToSect,
        Entries, Chained, IsChain, Geometry.End, Present, FatDirState.Kept, Nones, NoFree, AtEntry, Run,
        BeginsCluster;
      ghost var v := fs.View();
      if !fs.disk.failed {
        PresentIs(v, sclust, ch, others);
        KeptSelf(v, DirSects(fs.geo, ch));
        EntryIs(fs.geo, ch, index, clust, sect);
        NonZero(v, DirSects(fs.geo, ch), index / 16);
      }
      PositiveCsize(v);
      var i := (index + 1) % 0x1_0000;
      if i == 0 || sect == 0 { return FR_NO_FILE; }
      if i % 16 == 0 {
        if clust == 0 {
          if !fs.disk.failed { StepStatic(fs.geo, index, sect); }
          sect := sect + 1;
          if i >= fs.geo.nRootdir { return FR_NO_FILE; }
        } else if BeginsCluster(fs.geo, i) {
          r := NextCluster(stretch);
          if r != FR_OK { return; }
        } else {
          if !fs.disk.failed { StepSector(fs.geo, ch, index, clust, sect); }
          sect := sect + 1;
        }
      } else if !fs.disk.failed {
        StepInSector(fs.geo, ch, index, clust, sect);
      }
      if !fs.disk.failed { EntryIs(fs.geo, ch, i, clust, sect); }
      index := i;
      dir := i % 16 * 32;
      return FR_OK;
    }

    /** Brings the current entry into the window. */
    method Fetch() returns (r: FResult)
      requires Safe() && (!fs.disk.failed ==> There() && On(index))
      modifies fs`winsect, fs`wflag, fs.win, fs.disk
      ensures fs.disk.failed == (old(fs.disk.failed) || r == FR_DISK_ERR) && (r == FR_OK || r == FR_DISK_ERR)
      ensures Safe() && fs.win.Length == 512 && fs.View().Same(old(fs.View()))
      ensures !fs.disk.failed ==>
        && There() && List() == old(List()) && fs.winsect == sect && dir + 32 <= 512
        && index < |List()| && fs.win[dir..dir + 32] == List()[index]
        && FatDirState.Kept(old(fs.View()), fs.View(), DirSects(fs.geo, ch))
    {
      hide Vol.Table, Vol.Image, Vol.Valid, Vol.Mirrored, Geometry.Valid, Base, Sects, Geometry.ClustToSect,
        Entries, Chained, IsChain, Geometry.End, Present, FatDirState.Kept, AtEntry, Run;
      ghost var v := fs.View();
      ImageSize(v);
      if !fs.disk.failed {
        PresentIs(v, sclust, ch, others);
        EntryIs(fs.geo, ch, index, clust, sect);
        NonZero(v, DirSects(fs.geo, ch), index / 16);
      }
      r := fs.MoveWindow(sect);
      EditedGeo(fs.View(), v);
      ImageSize(fs.View());
      if !fs.disk.failed {
        TableOfImage(v, fs.View());
        PresentKept(v, fs.View(), sclust, ch, others);
        KeptSame(v, fs.View(), DirSects(fs.geo, ch));
        EntryInWindow(fs.View(), DirSects(fs.geo, ch), index);
      }
    }

    /** One round of dir_find: end at a never-used entry, hit at the name. */
    method Probe(name: seq<byte>) returns (r: FResult, end: bool, hit: bool)
      requires Safe() && |name| == 11 && dir == index % 16 * 32 && (!fs.disk.failed ==> There() && On(index))
      modifies fs`winsect, fs`wflag, fs.win, fs.disk
      ensures fs.disk.failed == (old(fs.disk.failed) || r == FR_DISK_ERR) && (r == FR_OK || r == FR_DISK_ERR)
      ensures Safe()
      ensures !fs.disk.failed ==>
        && There() && List() == old(List()) && index < |List()|
        && end == (List()[index][0] == 0) && (!end ==> hit == Matches(List()[index], name))
        && FatDirState.Kept(old(fs.View()), fs.View(), DirSects(fs.geo, ch))
    {
      hide Vol.Table, Vol.Image, Vol.Valid, Vol.Mirrored, Geometry.Valid, Base, Sects, Geometry.ClustToSect,
        Entries, Chained, IsChain, Geometry.End, Present, FatDirState.Kept, AtEntry, Run, IsLabel;
      end, hit := false, false;
      r := Fetch();
      if r != FR_OK { return; }
      var e := fs.win[dir..dir + 32];
      if e[0] == 0 { return FR_OK, true, false; }
      hit := !IsLabel(e) && e[..11] == name;
    }

    /** dir_find: looks for a name; the object is left on its entry. */
    method Find(name: seq<byte>) returns (r: FResult, ghost stop: nat)
      requires Safe() && |name| == 11 && (!fs.disk.failed ==> There())
      modifies this`index, this`clust, this`sect, this`dir, this`ch,
        fs`winsect, fs`wflag, fs`lastClust, fs`freeClust, fs`fsiFlag, fs.win, fs.disk
      ensures old(fs.disk.failed) || r == FR_DISK_ERR ==> fs.disk.failed
      ensures !fs.disk.failed ==>
        && There() && ch == old(ch) && List() == old(List()) && (r == FR_OK || r == FR_NO_FILE || r == FR_INT_ERR)
        && FatDirState.Kept(old(fs.View()), fs.View(), DirSects(fs.geo, ch))
        && (r == FR_OK ==> On(index) && index < 0x1_0000 && FoundAt(Cap(List()), name, index))
        && (r == FR_NO_FILE ==> MissingAt(Cap(List()), name, stop)) && (r == FR_INT_ERR <==> List() == [])
    {
      hide Vol.Table, Vol.Image, Vol.Valid, Vol.Mirrored, Geometry.Valid, Base, Sects, Geometry.ClustToSect, On,
        Entries, Chained, IsChain, Geometry.End, Present, FatDirState.Kept, AtEntry, Run, Nones, NoFree, Matches;
      ghost var v, ch0, es := fs.View(), ch, [];
      stop := 0;
      if !fs.disk.failed { es := List(); }
      r := Sdi(0);
      if !fs.disk.failed { KeptSame(v, fs.View(), DirSects(fs.geo, ch)); }
      if r != FR_OK { return; }
      while true
        invariant Safe() && index < 0x1_0000 && dir == index % 16 * 32 && r == FR_OK
        invariant (old(fs.disk.failed) ==> fs.disk.failed)
        invariant !fs.disk.failed ==>
          && There() && On(index) && ch == ch0 && List() == es && AllEntries(Cap(es)) && NotBefore(Cap(es), name, index)
          && FatDirState.Kept(v, fs.View(), DirSects(fs.geo, ch))
        decreases 0x1_0000 - index
      {
        ghost var v1 := fs.View();
        var end, hit;
        r, end, hit := Probe(name);
        if r != FR_OK { return; }
        ghost var v2 := fs.View();
        if !fs.disk.failed {
          KeptTrans(v, v1, v2, DirSects(fs.geo, ch), DirSects(fs.geo, ch));
          CapAt(es, index);
        }
        stop := index;
        if end { return FR_NO_FILE, stop; }
        if hit { return; }
        stop := stop + 1;
        r := Next(false);
        if !fs.disk.failed {
          KeptTrans(v, v2, fs.View(), DirSects(fs.geo, ch), DirSects(fs.geo, ch));
          CapEnd(es, stop);
        }
        if r != FR_OK { return; }
      }
    }

    /** One round of the search for a blank entry. */
    method ProbeBlank() returns (r: FResult, blank: bool)
      requires Safe() && dir == index % 16 * 32 && (!fs.disk.failed ==> There() && On(index))
      modifies fs`winsect, fs`wflag, fs.win, fs.disk
      ensures fs.disk.failed == (old(fs.disk.failed) || r == FR_DISK_ERR) && (r == FR_OK || r == FR_DISK_ERR)
      ensures Safe()
      ensures !fs.disk.failed ==>
        && There() && List() == old(List()) && index < |List()| && blank == IsBlank(List()[index])
        && FatDirState.Kept(old(fs.View()), fs.View(), DirSects(fs.geo, ch))
    {
      hide Vol.Table, Vol.Image, Vol.Valid, Vol.Mirrored, Geometry.Valid, Base, Sects, Geometry.ClustToSect,
        Entries, Chained, IsChain, Geometry.End, Present, FatDirState.Kept, AtEntry, Run, IsLabel;
      r := Fetch();
      var c := fs.win[dir];
      blank := c == DDE || c == 0;
    }

    /** While a blank entry is looked for: the entries are as they were, or followed by those of one more cluster. */
    ghost predicate Searched(v: Vol, ch0: seq<nat>, es0: seq<seq<byte>>)
      requires v.Valid()
      reads this, fs, fs.win, fs.disk
    {
      && There() && ch0 <= ch && AllEntries(es0) && FatDirState.Kept(v, fs.View(), DirSects(fs.geo, ch))
      && List() == (if ch == ch0 then es0 else es0 + Nones(16 * fs.geo.csize)) && (ch != ch0 ==> NoBlank(es0))
    }

    /** One round of the search: the current entry is blank, or the next one is made current. */
    method BlankRound(ghost v: Vol, ghost ch0: seq<nat>, ghost es0: seq<seq<byte>>) returns (r: FResult, found: bool)
      requires Safe() && v.Valid() && index < 0x1_0000 && dir == index % 16 * 32
      requires !fs.disk.failed ==> Searched(v, ch0, es0) && On(index) && (ch != ch0 ==> index == |es0|)
      requires !fs.disk.failed ==> AllEntries(Cap(List())) && NoBlankBelow(Cap(List()), index)
      modifies this`index, this`clust, this`sect, this`dir, this`ch,
        fs`winsect, fs`wflag, fs`lastClust, fs`freeClust, fs`fsiFlag, fs.win, fs.disk
      ensures old(fs.disk.failed) || r == FR_DISK_ERR ==> fs.disk.failed
      ensures r == FR_OK ==> Safe() && index < 0x1_0000 && dir == index % 16 * 32
      ensures r == FR_OK ==> index == if found then old(index) else old(index) + 1
      ensures !fs.disk.failed ==> (r == FR_OK || r == FR_NO_FILE || r == FR_DENIED) && Searched(v, ch0, es0)
      ensures !fs.disk.failed && r == FR_OK ==> On(index) && (ch != ch0 ==> index == |es0|)
      ensures !fs.disk.failed && r == FR_OK && found ==> BlankAt(Cap(List()), index)
      ensures !fs.disk.failed && r == FR_OK && !found ==> NoBlankBelow(Cap(List()), index)
      ensures !fs.disk.failed && r != FR_OK ==>
        && ch == ch0 && NoBlank(Cap(List())) && (r == FR_DENIED ==> NoFree(fs.View().Table()))
        && (r == FR_NO_FILE ==> ch == [] || |List()| >= 0x1_0000)
    {
      hide Vol.Table, Vol.Image, Vol.Valid, Vol.Mirrored, Geometry.Valid, Base, Sects, Geometry.ClustToSect, On,
        Entries, Chained, IsChain, Geometry.End, Present, FatDirState.Kept, AtEntry, Run, Nones, NoFree, IsBlank,
          DirSects;
      ghost var v1, ch1, es := fs.View(), ch, [];
      if !fs.disk.failed { es := List(); }
      r, found := ProbeBlank();
      if r != FR_OK { return; }
      ghost var v2 := fs.View();
      if !fs.disk.failed {
        DirKeptTrans(fs.geo, v, v1, v2, ch, ch);
        CapAt(es, index);
        if ch != ch0 { NewBlank(es0, 16 * fs.geo.csize); }
      }
      if found { return; }
      r := Next(true);
      if !fs.disk.failed {
        DirKeptTrans(fs.geo, v, v2, fs.View(), ch1, ch);
        StillNoBlank(es, List(), old(index));
      }
    }

    /** Finds the first blank entry, appending a cluster if there is none. */
    method FindBlank() returns (r: FResult)
      requires Safe() && (!fs.disk.failed ==> There())
      modifies this`index, this`clust, this`sect, this`dir, this`ch,
        fs`winsect, fs`wflag, fs`lastClust, fs`freeClust, fs`fsiFlag, fs.win, fs.disk
      ensures old(fs.disk.failed) || r == FR_DISK_ERR ==> fs.disk.failed
      ensures r == FR_OK ==> Safe() && dir == index % 16 * 32
      ensures !fs.disk.failed ==>
        && There() && old(ch) <= ch && (r == FR_OK || r == FR_NO_FILE || r == FR_INT_ERR || r == FR_DENIED)
        && FatDirState.Kept(old(fs.View()), fs.View(), DirSects(fs.geo, ch))
        && (r == FR_OK ==> On(index) && index < 0x1_0000 && BlankAt(Cap(List()), index))
        && (r == FR_DENIED ==> NoFree(fs.View().Table()))
        && (r != FR_OK ==> NoBlank(Cap(List())))
        && (r == FR_NO_FILE ==> ch == [] || |List()| >= 0x1_0000) && (r == FR_INT_ERR ==> List() == [])
      ensures !fs.disk.failed && ch == old(ch) ==> List() == old(List())
      ensures !fs.disk.failed && ch != old(ch) ==>
        && r == FR_OK && index == old(|List()|) && NoBlank(old(List()))
        && List() == old(List()) + Nones(16 * fs.geo.csize)
    {
      hide Vol.Table, Vol.Image, Vol.Valid, Vol.Mirrored, Geometry.Valid, Base, Sects, Geometry.ClustToSect, On,
        Entries, Chained, IsChain, Geometry.End, Present, FatDirState.Kept, AtEntry, Run, Nones, NoFree, IsBlank,
          DirSects;
      ghost var v, ch0, es0 := fs.View(), ch, [];
      if !fs.disk.failed { es0 := List(); }
      r := Sdi(0);
      if !fs.disk.failed { KeptSame(v, fs.View(), DirSects(fs.geo, ch)); }
      if r != FR_OK { return; }
      var found := false;
      while !found
        invariant Safe() && index < 0x1_0000 && dir == index % 16 * 32 && r == FR_OK
        invariant (old(fs.disk.failed) ==> fs.disk.failed)
        invariant !fs.disk.failed ==>
          Searched(v, ch0, es0) && On(index) && (ch != ch0 ==> index == |es0|) && es0 == old(List())
        invariant !fs.disk.failed ==> AllEntries(Cap(List())) && NoBlankBelow(Cap(List()), index)
        invariant !fs.disk.failed && found ==> BlankAt(Cap(List()), index)
        decreases 0x1_0000 - index, !found
      {
        r, found := BlankRound(v, ch0, es0);
        if r != FR_OK { return; }
      }
    }

    /** dir_register: puts a fresh entry of this name in the first blank place. */
    method Register(name: seq<byte>) returns (r: FResult)
      requires Safe() && |name| == 11 && (!fs.disk.failed ==> There())
      modifies this`index, this`clust, this`sect, this`dir, this`ch,
        fs`winsect, fs`wflag, fs`lastClust, fs`freeClust, fs`fsiFlag, fs.win, fs.disk
      ensures old(fs.disk.failed) || r == FR_DISK_ERR ==> fs.disk.failed
      ensures !fs.disk.failed ==>
        && There() && old(ch) <= ch && (r == FR_OK || r == FR_NO_FILE || r == FR_INT_ERR || r == FR_DENIED)
        && FatDirState.Kept(old(fs.View()), fs.View(), DirSects(fs.geo, ch))
      ensures !fs.disk.failed && r == FR_OK ==>
        var es := if ch == old(ch) then old(List()) else old(List()) + Nones(16 * fs.geo.csize);
        && AllEntries(es) && AllEntries(Cap(es)) && BlankAt(Cap(es), index) && index < |es|
        && List() == es[index := NewEntry(name)]
        && (ch != old(ch) ==> NoBlank(old(List())))
      ensures !fs.disk.failed && r != FR_OK ==>
        && ch == old(ch) && List() == old(List()) && NoBlank(Cap(List()))
        && (r == FR_DENIED ==> NoFree(fs.View().Table()))
        && (r == FR_NO_FILE ==> ch == [] || |List()| >= 0x1_0000) && (r == FR_INT_ERR ==> List() == [])
    {
      hide Vol.Table, Vol.Image, Vol.Valid, Vol.Mirrored, Geometry.Valid, Base, Sects, Geometry.ClustToSect,
        Entries, Chained, IsChain, Geometry.End, Present, FatDirState.Kept, AtEntry, Run, Nones, NoFree, IsBlank,
          DirSects,
        Splice;
      ghost var v := fs.View();
      r := FindBlank();
      if r != FR_OK { return; }
      ghost var v1 := fs.View();
      r := Fetch();
      if r != FR_OK { return; }
      ghost var v2 := fs.View();
      ghost var es := if fs.disk.failed then [] else List();
      StoreEntry(name);
      fs.wflag := true;
      if !fs.disk.failed {
        DirKeptTrans(fs.geo, v, v1, v2, ch, ch);
        PutEntry(v2, sclust, ch, others, index, clust, sect, NewEntry(name));
        DirKeptTrans(fs.geo, v, v2, fs.View(), ch, ch);
        CapEnd(es, index);
      }
    }

    /** Overwrites the current entry in the window with a fresh one of this name. */
    method StoreEntry(name: seq<byte>)
      requires fs.win.Length == 512 && dir == index % 16 * 32 && |name| == 11
      modifies fs.win
      ensures fs.win[..] == Splice(old(fs.win[..]), index % 16 * 32, NewEntry(name))
    {
      forall i | 0 <= i < 32 {
        fs.win[dir + i] := if i < 11 then name[i] else 0;
      }
    }

    /** dir_remove: marks the current entry deleted. */
    method Remove() returns (r: FResult)
      requires Safe() && index < 0x1_0000 && (!fs.disk.failed ==> There() && index < |List()|)
      modifies this`index, this`clust, this`sect, this`dir, fs`winsect, fs`wflag, fs.win, fs.disk
      ensures old(fs.disk.failed) || r == FR_DISK_ERR ==> fs.disk.failed
      ensures !fs.disk.failed ==>
        && r == FR_OK && There() && index == old(index)
        && FatDirState.Kept(old(fs.View()), fs.View(), DirSects(fs.geo, ch))
        && List() == old(List())[index := Deleted(old(List())[index])]
    {
      hide Vol.Table, Vol.Image, Vol.Valid, Vol.Mirrored, Geometry.Valid, Base, Sects, Geometry.ClustToSect,
        Entries, Chained, IsChain, Geometry.End, Present, FatDirState.Kept, AtEntry, Run, DirSects, Splice;
      ghost var v := fs.View();
      r := Sdi(index);
      ghost var v1 := fs.View();
      if !fs.disk.failed { KeptSame(v, v1, DirSects(fs.geo, ch)); }
      if r != FR_OK { return; }
      r := Fetch();
      if r != FR_OK { return; }
      ghost var v2 := fs.View();
      fs.win[dir] := DDE;
      fs.wflag := true;
      if !fs.disk.failed {
        DirKeptTrans(fs.geo, v, v1, v2, ch, ch);
        OneByte(v2.win, dir);
        PutEntry(v2, sclust, ch, others, index, clust, sect, Deleted(v2.win[dir..dir + 32]));
        DirKeptTrans(fs.geo, v, v2, fs.View(), ch, ch);
      }
    }
  }

  lemma OneByte(w: Sector, p: nat)
    requires |w| == 512 && p + 32 <= 512
    ensures w[p := DDE] == Splice(w, p, Deleted(w[p..p + 32]))
  {
  }

  /** Changing the entry in the window. */
  lemma PutEntry(v: Vol, sclust: nat, ch: seq<nat>, others: set<seq<nat>>, i: nat, clust: nat, sect: nat, e: seq<byte>)
    requires Present(v, sclust, ch, others) && AtEntry(v.geo, ch, i, clust, sect) && v.winsect == sect && |e| == 32
    requires |v.win| == 512
    ensures var v' := v.(win := Splice(v.win, i % 16 * 32, e), wflag := true);
      && Present(v', sclust, ch, others)
      && Housed(v, DirSects(v.geo, ch)) && Housed(v', DirSects(v.geo, ch))
      && FatDirState.Kept(v, v', DirSects(v.geo, ch))
      && i < |Entries(v, DirSects(v.geo, ch))|
      && Entries(v', DirSects(v.geo, ch)) == Entries(v, DirSects(v.geo, ch))[i := e]
  {
    hide Vol.Table, Vol.Image, Vol.Valid, Vol.Mirrored, Geometry.Valid, Base, Sects, Chained, Splice, FatDirState.Kept,
      Entries;
    PresentIs(v, sclust, ch, others);
    EntryIs(v.geo, ch, i, clust, sect);
    EntryEdit(v, DirSects(v.geo, ch), i, e);
  }

  ghost predicate NoBlank(es: seq<seq<byte>>)
    requires AllEntries(es)
  {
    forall i :: 0 <= i < |es| ==> !IsBlank(es[i])
  }

  ghost predicate NoBlankBelow(es: seq<seq<byte>>, k: nat)
    requires AllEntries(es)
  {
    forall i :: 0 <= i < |es| && i < k ==> !IsBlank(es[i])
  }

  /** Entry i is not blank either, and more entries may have come. */
  lemma StillNoBlank(es: seq<seq<byte>>, more: seq<seq<byte>>, i: nat)
    requires AllEntries(es) && AllEntries(more) && es <= more
    requires i < |es| && i < 0x1_0000 && !IsBlank(es[i]) && NoBlankBelow(Cap(es), i)
    ensures NoBlankBelow(Cap(more), i + 1)
    ensures i + 1 == |es| ==> NoBlank(es)
    ensures (i + 1 == |es| || i + 1 == 0x1_0000) && more == es ==> NoBlank(Cap(more))
  {
    hide IsBlank;
    forall j | 0 <= j < |es| && j < i + 1 && j < 0x1_0000 ensures !IsBlank(es[j]) {
      CapAt(es, j);
    }
  }

  lemma NewBlank(es: seq<seq<byte>>, n: nat)
    requires AllEntries(es) && n > 0
    ensures AllEntries(es + Nones(n)) && IsBlank((es + Nones(n))[|es|])
  {
  }

  lemma DirKeptTrans(geo: Geometry, a: Vol, b: Vol, c: Vol, ch: seq<nat>, ch': seq<nat>)
    requires a.Valid() && Clusters(geo, ch') && Clusters(geo, ch) && (ch == ch' || (ch != [] && ch <= ch'))
    requires FatDirState.Kept(a, b, DirSects(geo, ch)) && FatDirState.Kept(b, c, DirSects(geo, ch'))
    ensures FatDirState.Kept(a, c, DirSects(geo, ch'))
  {
    hide Vol.Valid, Sects, FatDirState.Kept;
    if ch != ch' {
      SectsPrefix(geo, ch, ch');
    }
    KeptTrans(a, b, c, DirSects(geo, ch), DirSects(geo, ch'));
  }

  lemma {:induction false} SectsPrefix(geo: Geometry, a: seq<nat>, b: seq<nat>)
    requires Clusters(geo, a) && Clusters(geo, b) && a <= b
    ensures Sects(geo, a) <= Sects(geo, b)
  {
    if a != b {
      var n := |b| - 1;
      assert b == b[..n] + [b[n]];
      SectsGrow(geo, b[..n], b[n]);
      SectsPrefix(geo, a, b[..n]);
    }
  }

  lemma CapAt(es: seq<seq<byte>>, i: nat)
    requires i < |es| && i < 0x1_0000
    ensures i < |Cap(es)| && Cap(es)[i] == es[i]
  {
  }

  lemma CapEnd(es: seq<seq<byte>>, i: nat)
    ensures i < |Cap(es)| <==> i < |es| && i < 0x1_0000
  {
  }

  /** The entries a 16-bit index can reach. */
  function Cap(es: seq<seq<byte>>): (r: seq<seq<byte>>)
    ensures AllEntries(es) ==> AllEntries(r)
  {
    if |es| > 0x1_0000 then es[..0x1_0000] else es
  }

  lemma TableOfImage(v: Vol, v2: Vol)
    requires v.Valid() && v2.Same(v)
    ensures v2.Table() == v.Table()
  {
  }

  lemma KeptSelf(v: Vol, ss: seq<nat>)
    requires v.Valid()
    ensures FatDirState.Kept(v, v, ss)
  {
  }

  lemma EntryIs(geo: Geometry, ch: seq<nat>, i: nat, clust: nat, sect: nat)
    requires AtEntry(geo, ch, i, clust, sect)
    ensures i < 16 * |DirSects(geo, ch)| && sect == DirSects(geo, ch)[i / 16]
    ensures clust == 0 <==> ch == []
  {
    hide Sects, Run;
    if ch != [] {
      ChainPos(geo, ch, i / 16);
    }
  }

  lemma NonZero(v: Vol, ss: seq<nat>, k: nat)
    requires Housed(v, ss) && k < |ss|
    ensures ss[k] != 0
  {
    SectorOk(v, ss[k]);
  }

  /** Where the entry of a directory's current cluster leads. */
  lemma LastOrNot(geo: Geometry, fat: seq<nat>, ch: seq<nat>, i: nat, clust: nat, sect: nat)
    requires IsChain(fat, ch) && |fat| == geo.nFatent && AtEntry(geo, ch, i, clust, sect) && LeavesCluster(geo, i)
    ensures geo.IsCluster(clust)
    ensures var c := fat[clust];
      if geo.IsCluster(c) then AtEntry(geo, ch, i + 1, c, Base(geo, c)) && i + 1 < 16 * |DirSects(geo, ch)|
      else c >= geo.nFatent && clust == ch[|ch| - 1] && i + 1 == 16 * |DirSects(geo, ch)|
  {
    hide Sects, Base, AtEntry, LeavesCluster;
    var q := StepCluster(geo, ch, i, clust, sect);
    LinkOf(fat, ch, q);
    if q + 1 < |ch| {
      LinkOf(fat, ch, q + 1);
    }
  }

  lemma AtEnd(v: Vol, sclust: nat, ch: seq<nat>, others: set<seq<nat>>)
    requires Present(v, sclust, ch, others) && ch != []
    ensures Clusters(v.geo, ch) && v.Table()[ch[|ch| - 1]] >= v.geo.nFatent
  {
    PresentIs(v, sclust, ch, others);
  }

  /** What create_chain can do to the last cluster of a directory. */
  lemma CreateOutcome(v: Vol, v1: Vol, sclust: nat, ch: seq<nat>, others: set<seq<nat>>, last: nat, ncl: nat, eoc: nat)
    requires Present(v, sclust, ch, others) && ch != [] && v1.Edited(v) && eoc >= v.geo.nFatent
    requires Created(v.Table(), ch[|ch| - 1], last, eoc, ncl, v1.Table())
    ensures Clusters(v.geo, ch)
    ensures ncl == 0 ==> NoFree(v1.Table()) && Present(v1, sclust, ch, others)
    ensures ncl == 0 ==> Housed(v, DirSects(v.geo, ch)) && Housed(v1, DirSects(v.geo, ch))
    ensures ncl == 0 ==> Entries(v1, DirSects(v.geo, ch)) == Entries(v, DirSects(v.geo, ch))
    ensures ncl != 0 ==> v.geo.IsCluster(ncl) && Present(v1, sclust, ch + [ncl], others)
  {
    hide Vol.Table, Vol.Image, Vol.Mirrored, Geometry.Valid, Chained, IsChain, Entries, Sects;
    AtEnd(v, sclust, ch, others);
    if ncl == 0 {
      PresentKept(v, v1, sclust, ch, others);
    } else {
      GrowPresent(v, v1, sclust, ch, others, last, ncl, eoc);
    }
  }

  lemma LinkOf(fat: seq<nat>, ch: seq<nat>, q: nat)
    requires IsChain(fat, ch) && q < |ch|
    ensures InRange(|fat|, ch[q]) && (q + 1 < |ch| ==> fat[ch[q]] == ch[q + 1])
    ensures (q + 1 == |ch| ==> fat[ch[q]] >= |fat|)
  {
    FatChain.Follows(fat, ch, q);
  }

  lemma MulAdd(q: nat, m: nat, rem: nat)
    ensures (q + 1) * m + rem == q * m + (rem + m)
  {
  }

  /** Registering a name the directory does not have inserts exactly that name, whether or not the table grew. */
  lemma RegisterIsInsert(es0: seq<seq<byte>>, grown: nat, name: seq<byte>, k: nat)
    requires AllEntries(es0) && AllEntries(Cap(es0)) && Tidy(Cap(es0)) && Unique(Cap(es0)) && IsName(name)
    requires !Has(Cap(es0), name)
    requires grown > 0 ==> |es0| < 0x1_0000
    requires AllEntries(Cap(es0 + Nones(grown))) && BlankAt(Cap(es0 + Nones(grown)), k)
    ensures k < |es0 + Nones(grown)|
    ensures var es' := (es0 + Nones(grown))[k := NewEntry(name)];
      && AllEntries(Cap(es')) && Tidy(Cap(es')) && Unique(Cap(es'))
      && forall n :: IsName(n) ==> (Has(Cap(es'), n) <==> Has(Cap(es0), n) || n == name)
  {
    var es := es0 + Nones(grown);
    var m := |Cap(es)| - |Cap(es0)|;
    assert Cap(es) == Cap(es0) + Nones(m);
    StretchNeutral(Cap(es0), Nones(m));
    RegisterInserts(Cap(es), name, k, Cap(es)[k := NewEntry(name)]);
    assert Cap(es[k := NewEntry(name)]) == Cap(es)[k := NewEntry(name)];
  }

  /** Finding a name and removing what was found deletes exactly that name. */
  lemma RemoveIsDelete(es: seq<seq<byte>>, name: seq<byte>, k: nat)
    requires AllEntries(es) && AllEntries(Cap(es)) && Tidy(Cap(es)) && Unique(Cap(es)) && IsName(name)
    requires FoundAt(Cap(es), name, k)
    ensures k < |es|
    ensures var es' := es[k := Deleted(es[k])];
      && AllEntries(Cap(es')) && Tidy(Cap(es')) && Unique(Cap(es'))
      && forall n :: IsName(n) ==> (Has(Cap(es'), n) <==> Has(Cap(es), n) && n != name)
  {
    RemoveDeletes(Cap(es), name, k, Cap(es)[k := Deleted(es[k])]);
    assert Cap(es[k := Deleted(es[k])]) == Cap(es)[k := Deleted(es[k])];
  }

  /** dir_sdi(0) and n rounds of dir_next lead to the entry dir_sdi(n) leads to, or fail when it does. */
  method WalkTo(d: Dir, n: nat) returns (r: FResult)
    requires d.Safe() && n < 0x1_0000 && (!d.fs.disk.failed ==> d.There())
    modifies d`index, d`clust, d`sect, d`dir, d`ch,
      d.fs`winsect, d.fs`wflag, d.fs`lastClust, d.fs`freeClust, d.fs`fsiFlag, d.fs.win, d.fs.disk
    ensures old(d.fs.disk.failed) ==> d.fs.disk.failed
    ensures !d.fs.disk.failed ==>
      && d.There() && d.ch == old(d.ch) && d.List() == old(d.List())
      && (r == FR_OK <==> n < |d.List()|) && (r == FR_OK ==> d.On(n))
  {
    hide Vol.Table, Vol.Image, Vol.Valid, Vol.Mirrored, Geometry.Valid, Base, Sects, Dir.On, Entries, Chained,
      Geometry.End,
      Present, FatDirState.Kept, AtEntry, DirSects;
    ghost var ch0 := d.ch;
    r := d.Sdi(0);
    if r != FR_OK { return; }
    for i := 0 to n
      invariant d.Safe() && d.index == i && r == FR_OK && (old(d.fs.disk.failed) ==> d.fs.disk.failed)
      invariant !d.fs.disk.failed ==> d.There() && d.ch == ch0 && d.List() == old(d.List()) && d.On(i) && i < |d.List()|
    {
      r := d.Next(false);
      if r != FR_OK { return; }
    }
  }

  /** Where the object points at entry i does not depend on how it got there. */
  lemma OneWay(geo: Geometry, ch: seq<nat>, i: nat, clust: nat, sect: nat, clust': nat, sect': nat)
    requires AtEntry(geo, ch, i, clust, sect) && AtEntry(geo, ch, i, clust', sect')
    ensures clust == clust' && sect == sect'
  {
  }

  /** Going to entry n at once and walking there succeed together, and then lead to the same cluster and sector. */
  method TwoPaths(d: Dir, n: nat) returns (walked: FResult, jumped: FResult, same: bool)
    requires d.Safe() && n < 0x1_0000 && !d.fs.disk.failed && d.There()
    modifies d`index, d`clust, d`sect, d`dir, d`ch,
      d.fs`winsect, d.fs`wflag, d.fs`lastClust, d.fs`freeClust, d.fs`fsiFlag, d.fs.win, d.fs.disk
    ensures !d.fs.disk.failed ==> (walked == FR_OK <==> jumped == FR_OK) && (walked == FR_OK ==> same)
  {
    hide Vol.Table, Vol.Image, Vol.Valid, Vol.Mirrored, Geometry.Valid, Base, Sects, Entries, Chained, Geometry.End,
      Present, AtEntry, DirSects;
    jumped := d.Sdi(n);
    var clust, sect := d.clust, d.sect;
    walked := WalkTo(d, n);
    same := d.clust == clust && d.sect == sect;
    if !d.fs.disk.failed && walked == FR_OK {
      OneWay(d.fs.geo, d.ch, n, clust, sect, d.clust, d.sect);
    }
  }
}

/** The state of a mounted volume as a value, and what a window access does to it. */
module FatVol {
  import opened FatBytes
  import opened Octets
  import opened FatTable

  datatype FResult = FR_OK | FR_DISK_ERR | FR_INT_ERR | FR_NO_FILE | FR_DENIED

  /** Sectors on the medium, whether an unchecked write was lost, and the fields the window code works on. */
  datatype Vol = Vol(geo: Geometry, disk: seq<Sector>, lost: bool, win: Sector, winsect: nat, wflag: bool)
  {
    ghost predicate Valid() {
      && |win| == 512
      && Holds(geo, disk)
      && |disk| < 0x1_0000_0000
      && winsect < |disk|
      && (wflag ==> geo.Editable(winsect))
      && (!wflag && winsect != 0 ==> win == disk[winsect])
    }

    /** The disk overlaid by a dirty window, second table left out. */
    ghost function Image(): (r: seq<Sector>)
      requires Valid()
      ensures |r| == |disk|
    {
      Blank(geo, if wflag then disk[winsect := win] else disk)
    }

    ghost function Table(): (r: seq<nat>)
      requires Valid()
      ensures |r| == geo.nFatent
    {
      ImageHolds(this);
      Fat(geo, Image())
    }

    /** The second table copies the first, leaving aside the sector waiting in the window. */
    ghost predicate Mirrored()
      requires Valid()
    {
      geo.nFats == 2 ==>
        forall s: nat {:trigger disk[s]} :: geo.InFat(s) && !(wflag && s == winsect) ==> disk[s] == disk[s + geo.fsize]
    }

    /** The first table as bytes. */
    ghost function Table8(): (r: seq<byte>)
      requires Valid()
      ensures |r| == 512 * geo.fsize
    {
      ImageHolds(this);
      Bytes(geo, Image())
    }

    /** Content changed in the table at most; the second table follows it as long as no write to it is lost. */
    ghost predicate Edited(was: Vol)
      requires was.Valid()
    {
      && Valid()
      && geo == was.geo
      && Outside(geo, was.Image(), Image())
      && (was.lost ==> lost)
      && (!lost && was.Mirrored() ==> Mirrored())
    }

    /** Same logical content: what every window access promises when it succeeds. */
    ghost predicate Same(was: Vol)
      requires was.Valid()
    {
      Edited(was) && Image() == was.Image()
    }
  }

  lemma BlankHolds(geo: Geometry, img: seq<Sector>)
    requires Holds(geo, img)
    ensures Holds(geo, Blank(geo, img))
  {
  }

  /** Writing back a dirty window outside the first table. */
  lemma FlushOther(v: Vol)
    requires v.Valid() && v.wflag && !v.geo.InFat(v.winsect)
    ensures v.(disk := v.disk[v.winsect := v.win], wflag := false).Same(v)
  {
  }

  /** Writing back a dirty table sector and its copy. */
  lemma FlushBoth(v: Vol)
    requires v.Valid() && v.wflag && v.geo.InFat(v.winsect) && v.geo.nFats == 2
    ensures v.winsect + v.geo.fsize < |v.disk|
    ensures v.(disk := v.disk[v.winsect := v.win][v.winsect + v.geo.fsize := v.win], wflag := false).Same(v)
  {
    var v' := v.(disk := v.disk[v.winsect := v.win][v.winsect + v.geo.fsize := v.win], wflag := false);
    assert Blank(v.geo, v'.disk) == Blank(v.geo, v.disk[v.winsect := v.win]);
  }

  /** Writing back a dirty table sector whose copy is absent or could not be written. */
  lemma FlushFirst(v: Vol)
    requires v.Valid() && v.wflag && v.geo.InFat(v.winsect)
    requires v.geo.nFats == 1 || v.lost
    ensures v.(disk := v.disk[v.winsect := v.win], wflag := false).Same(v)
  {
  }

  /** The same when the copy was written or not, once some copy has been lost. */
  lemma FlushLost(v: Vol)
    requires v.Valid() && v.wflag && v.geo.InFat(v.winsect) && v.geo.nFats == 2
    ensures v.(disk := v.disk[v.winsect := v.win], wflag := false, lost := true).Same(v)
    ensures v.winsect + v.geo.fsize < |v.disk|
    ensures
      v.(disk := v.disk[v.winsect := v.win][v.winsect + v.geo.fsize := v.win], wflag := false, lost := true).Same(v)
  {
    FlushBoth(v.(lost := true));
    FlushFirst(v.(lost := true));
    assert v.(lost := true).Image() == v.Image();
  }

  /** Loading a sector into a clean window. */
  lemma Load(v: Vol, sector: nat)
    requires v.Valid() && !v.wflag && sector < |v.disk|
    ensures v.(win := v.disk[sector], winsect := sector).Same(v)
  {
    hide Blank, Geometry.Valid;
    var v' := v.(win := v.disk[sector], winsect := sector);
    assert v'.Valid();
    assert v'.Image() == Blank(v.geo, v.disk) == v.Image();
  }

  /** A window that holds a sector shows its logical content. */
  lemma Shows(v: Vol)
    requires v.Valid() && v.winsect != 0 && !v.geo.InMirror(v.winsect)
    ensures v.Image()[v.winsect] == v.win
  {
  }

  /** Editing a table sector in the window and marking it dirty edits the image. */
  lemma Edit(v: Vol, w: Sector)
    requires v.Valid() && v.geo.InFat(v.winsect) && |w| == 512
    ensures v.(win := w, wflag := true).Edited(v)
    ensures v.(win := w, wflag := true).Image() == v.Image()[v.winsect := w]
  {
    assert !v.geo.InMirror(v.winsect);
  }

  lemma ImageHolds(v: Vol)
    requires v.Valid()
    ensures Holds(v.geo, v.Image())
  {
    BlankHolds(v.geo, if v.wflag then v.disk[v.winsect := v.win] else v.disk);
  }

  lemma TableIs(v: Vol, c: nat)
    requires v.Valid() && c < v.geo.nFatent
    ensures Holds(v.geo, v.Image()) && v.Table()[c] == Entry(v.geo, v.Image(), c)
  {
    ImageHolds(v);
    FatAt(v.geo, v.Image(), c);
  }

  /** A FAT12 entry is read from two bytes of the table. */
  lemma Read12(v: Vol, c: nat)
    requires v.Valid() && c < v.geo.nFatent && v.geo.fsType == FAT12
    ensures c + c / 2 + 1 < 512 * v.geo.fsize
    ensures
      Entry(v.geo, v.Image(), c) == Decode12(c, v.Table8()[c + c / 2], v.Table8()[c + c / 2 + 1])
  {
    Fits12(v.geo, c);
    ImageHolds(v);
  }

  lemma Read32(v: Vol, c: nat)
    requires v.Valid() && c < v.geo.nFatent && v.geo.fsType == FAT32
    ensures v.geo.InFat(v.geo.fatbase + c / 128) && v.geo.fatbase + c / 128 < |v.Image()| && Holds(v.geo, v.Image())
    ensures var s := v.Image()[v.geo.fatbase + c / 128];
      |s| == 512 && Entry(v.geo, v.Image(), c) == Decode32(s, c % 128 * 4)
  {
    hide Vol.Image, Decode32;
    Fits32(v.geo, c);
    ImageHolds(v);
  }

  lemma Became12(v: Vol, v2: Vol, clst: nat, val: nat)
    requires v.Valid() && clst < v.geo.nFatent && val < 0x1_0000_0000 && v.geo.fsType == FAT12
    requires v2.Edited(v) && Start12(clst) + 1 < 512 * v.geo.fsize
    requires v2.Table8() == Put12(v.Table8(), clst, val)
    ensures Holds(v.geo, v.Image()) && Stored(v.geo, v.Image(), clst, val, v2.Image())
  {
    ImageHolds(v);
    ImageHolds(v2);
  }

  /** Storing one byte of the sector in the window stores that byte of the table. */
  lemma Poked(v: Vol, o: nat, b: byte)
    requires v.Valid() && o < 512 * v.geo.fsize && v.winsect == v.geo.fatbase + o / 512
    ensures var v' := v.(win := SetByte(v.win, o % 512, b), wflag := true);
      v'.Edited(v) && v'.Table8() == v.Table8()[o := b]
  {
    hide Bytes, Geometry.Width, Vol.Mirrored;
    ImageHolds(v);
    Shows(v);
    Edit(v, SetByte(v.win, o % 512, b));
    ByteSet(v.geo, v.Image(), o / 512, o % 512, b);
  }

  /** Editing the two bytes of a FAT16 entry in the window stores into the table. */
  lemma Put16(v: Vol, clst: nat, val: nat)
    requires v.Valid() && clst < v.geo.nFatent && val < 0x1_0000_0000 && v.geo.fsType == FAT16
    requires v.winsect == v.geo.fatbase + clst / 256
    ensures clst * 2 % 512 + 1 < 512 && Holds(v.geo, v.Image())
    ensures var v' := v.(win := Encode16(v.win, clst * 2 % 512, val), wflag := true);
      v'.Edited(v) && Stored(v.geo, v.Image(), clst, val, v'.Image())
  {
    hide Vol.Mirrored, Encode16;
    Fits16(v.geo, clst);
    Half(clst);
    ImageHolds(v);
    Shows(v);
    Edit(v, Encode16(v.win, clst * 2 % 512, val));
    ImageHolds(v.(win := Encode16(v.win, clst * 2 % 512, val), wflag := true));
  }

  /** Editing the four bytes of a FAT32 entry in the window stores into the table. */
  lemma Put32(v: Vol, clst: nat, val: nat)
    requires v.Valid() && clst < v.geo.nFatent && val < 0x1_0000_0000 && v.geo.fsType == FAT32
    requires v.winsect == v.geo.fatbase + clst / 128
    ensures clst * 4 % 512 + 3 < 512 && Holds(v.geo, v.Image())
    ensures var v' := v.(win := Encode32(v.win, clst * 4 % 512, val), wflag := true);
      v'.Edited(v) && Stored(v.geo, v.Image(), clst, val, v'.Image())
  {
    hide Vol.Mirrored, Encode32;
    Fits32(v.geo, clst);
    Quarter(clst);
    ImageHolds(v);
    Shows(v);
    Edit(v, Encode32(v.win, clst * 4 % 512, val));
    ImageHolds(v.(win := Encode32(v.win, clst * 4 % 512, val), wflag := true));
  }

  /** What a store into the entry of a cluster may leave when a disk call fails: at most that entry has changed. */
  ghost predicate Torn(now: Vol, was: Vol, clst: nat)
    requires was.Valid()
  {
    && now.Edited(was) && (was.geo.fsType != FAT12 ==> now.Same(was))
    && forall d :: 0 <= d < was.geo.nFatent && d != clst ==> now.Table()[d] == was.Table()[d]
  }

  /** The same, but that the window may have been marked dirty although it is clean. */
  ghost predicate TornOff(now: Vol, was: Vol, clst: nat, flag: bool)
    requires was.Valid()
  {
    Torn(now.(wflag := flag), was, clst)
  }

  /** Nothing has been stored. */
  lemma NotBegun(v: Vol, v2: Vol, clst: nat)
    requires v.Valid() && v2.Same(v)
    ensures Torn(v2, v, clst)
  {
  }

  /** Only the first byte of a FAT12 entry has been stored. */
  lemma HalfDone(v: Vol, v2: Vol, clst: nat, val: nat)
    requires v.Valid() && clst < v.geo.nFatent && v.geo.fsType == FAT12 && v2.Edited(v)
    requires Start12(clst) < |v.Table8()|
    requires v2.Table8() == v.Table8()[Start12(clst) := Low12(clst, val, v.Table8()[Start12(clst)])]
    ensures Torn(v2, v, clst)
  {
    hide Vol.Table, Vol.Image, Vol.Mirrored, Outside, Geometry.Valid, Entry12, Low12, Bytes;
    Fits12(v.geo, clst);
    forall d | 0 <= d < v.geo.nFatent && d != clst ensures v2.Table()[d] == v.Table()[d] {
      Fits12(v.geo, d);
      HalfPacked12(v.Table8(), clst, val, d);
      TableIs(v, d);
      TableIs(v2, d);
    }
  }

  lemma TableAfter(v: Vol, v2: Vol, clst: nat, val: nat)
    requires v.Valid() && v2.Edited(v) && clst < v.geo.nFatent && val < 0x1_0000_0000
    requires Holds(v.geo, v.Image()) && Stored(v.geo, v.Image(), clst, val, v2.Image())
    ensures v2.Table() == v.Table()[clst := val % v.geo.Width()]
  {
    PackedLaw(v.geo, v.Image(), clst, val, v2.Image());
  }

  lemma ValidGeo(v: Vol)
    requires v.Valid()
    ensures v.geo.Valid() && Holds(v.geo, v.disk)
  {
  }

  /** Cluster numbers fit an entry and never look like an error code. */
  lemma Bounds(v: Vol)
    requires v.Valid()
    ensures 3 <= v.geo.nFatent <= v.geo.Width() - 9 && v.geo.Width() <= 0x1000_0000
    ensures forall c: nat {:trigger v.geo.IsCluster(c)} :: v.geo.IsCluster(c) ==> c % v.geo.Width() == c
  {
  }

  lemma PositiveCsize(v: Vol)
    requires v.Valid()
    ensures v.geo.csize >= 1
  {
  }
}

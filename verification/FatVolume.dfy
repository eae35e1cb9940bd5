/** The mounted volume: the one-sector write-back window, and the table read and written through it. */
module FatVolume {
  import opened FatBytes
  import opened Octets
  import opened FatDisk
  import opened FatTable
  import opened FatVol

  class FatFs {
    const disk: Disk
    const geo: Geometry
    const win: array<byte>
    var winsect: nat
    var wflag: bool
    var lastClust: nat
    var freeClust: nat
    var fsiFlag: bool

    ghost function View(): Vol
      reads this, win, disk
    {
      Vol(geo, disk.sectors, disk.lost, win[..], winsect, wflag)
    }

    /** The state mounting leaves: nothing in the window, free count unknown. */
    constructor (d: Disk, g: Geometry)
      requires Holds(g, d.sectors)
      requires |d.sectors| < 0x1_0000_0000
      ensures View().Valid() && View().Image() == Blank(g, d.sectors) && disk == d && geo == g && fresh(win)
      ensures !wflag && winsect == 0 && lastClust == 0 && freeClust == 0xFFFF_FFFF && !fsiFlag
    {
      disk, geo := d, g;
      win := new byte[512](i => 0);
      winsect, wflag := 0, false;
      lastClust, freeClust, fsiFlag := 0, 0xFFFF_FFFF, false;
    }

    /** Writes the window to its sector and to that sector's copies; errors on the copies are ignored. */
    method WriteBack() returns (r: FResult)
      requires View().Valid() && wflag
      modifies this`wflag, disk
      ensures disk.failed == (old(disk.failed) || r == FR_DISK_ERR) && (r == FR_OK || r == FR_DISK_ERR)
      ensures View().Same(old(View())) && (r == FR_OK ==> !wflag)
    {
      ghost var v := View();
      var wsect := winsect;
      var ok := disk.WriteOne(win, wsect);
      if !ok { return FR_DISK_ERR; }
      wflag := false;
      if wsect < geo.fatbase + geo.fsize {
        var nf := geo.nFats;
        while nf > 1
          invariant 1 <= nf <= geo.nFats && !wflag && disk.failed == old(disk.failed)
          invariant nf == geo.nFats ==> wsect == winsect
          invariant nf == geo.nFats ==> View() == v.(disk := v.disk[winsect := v.win], wflag := false)
          invariant nf < geo.nFats ==> View().Same(v)
        {
          wsect := wsect + geo.fsize;
          disk.CopyOne(win, wsect);
          nf := nf - 1;
          FlushBoth(v);
          if disk.lost {
            FlushLost(v);
          }
        }
        if geo.nFats == 1 {
          FlushFirst(v);
        }
      } else {
        FlushOther(v);
      }
      return FR_OK;
    }

    /** Brings a sector into the window; sector 0 only writes back. */
    method MoveWindow(sector: nat) returns (r: FResult)
      requires View().Valid()
      modifies this`winsect, this`wflag, win, disk
      ensures disk.failed == (old(disk.failed) || r == FR_DISK_ERR) && (r == FR_OK || r == FR_DISK_ERR)
      ensures View().Same(old(View()))
      ensures winsect == old(winsect) || winsect == sector
      ensures r == FR_OK && sector != 0 ==> winsect == sector
      ensures r == FR_OK && sector == 0 ==> winsect == old(winsect) && win[..] == old(win[..]) && !wflag
    {
      if winsect != sector {
        if wflag {
          r := WriteBack();
          if r != FR_OK { return; }
        }
        if sector != 0 {
          ghost var v := View();
          var ok := disk.ReadOne(win, sector);
          if !ok { return FR_DISK_ERR; }
          winsect := sector;
          Load(v, sector);
        }
      }
      return FR_OK;
    }

    /** Brings a table sector into the window. */
    method FatWindow(sector: nat) returns (r: FResult)
      requires View().Valid() && geo.InFat(sector)
      modifies this`winsect, this`wflag, win, disk
      ensures disk.failed == (old(disk.failed) || r == FR_DISK_ERR) && (r == FR_OK || r == FR_DISK_ERR)
      ensures View().Same(old(View())) && win.Length == 512
      ensures winsect == old(winsect) || winsect == sector
      ensures r == FR_OK ==> winsect == sector
      ensures r == FR_OK ==> win[..] == old(View().Image())[sector]
    {
      r := MoveWindow(sector);
      if r == FR_OK {
        Shows(View());
      }
    }

    /** Brings the sector holding byte o of the table into the window and reads the byte. */
    method FatByte(o: nat) returns (r: FResult, b: byte)
      requires View().Valid() && o < 512 * geo.fsize
      modifies this`winsect, this`wflag, win, disk
      ensures disk.failed == (old(disk.failed) || r == FR_DISK_ERR) && (r == FR_OK || r == FR_DISK_ERR)
      ensures View().Same(old(View())) && (winsect == old(winsect) || geo.InFat(winsect))
      ensures r == FR_OK ==> winsect == geo.fatbase + o / 512
      ensures View().Table8() == old(View().Table8())
      ensures r == FR_OK ==> b == View().Table8()[o]
    {
      hide Bytes, Vol.Mirrored, Vol.Image, Geometry.Valid, Outside;
      b := 0;
      var i, j := o / 512, o % 512;
      r := FatWindow(geo.fatbase + i);
      if r == FR_OK {
        b := win[j];
        ImageHolds(View());
        ByteAt(geo, View().Image(), i, j);
      }
    }

    /** Stores byte o of the table, whose sector is in the window. */
    method PokeFat(o: nat, b: byte)
      requires View().Valid() && o < 512 * geo.fsize && winsect == geo.fatbase + o / 512
      modifies this`wflag, win
      ensures View().Edited(old(View())) && View().Table8() == old(View().Table8())[o := b] && wflag
    {
      hide Vol.Table8, Vol.Edited, Geometry.Valid;
      ghost var v := View();
      win[o % 512] := b;
      wflag := true;
      assert win[..] == SetByte(v.win, o % 512, b);
      Poked(v, o, b);
    }

    method GetFat12(clst: nat) returns (v: nat)
      requires View().Valid() && clst < geo.nFatent && geo.fsType == FAT12
      modifies this`winsect, this`wflag, win, disk
      ensures disk.failed == (old(disk.failed) || v == 0xFFFF_FFFF)
      ensures View().Same(old(View())) && (winsect == old(winsect) || geo.InFat(winsect))
      ensures v != 0xFFFF_FFFF ==> geo.InFat(winsect)
      ensures v != 0xFFFF_FFFF ==> v == Entry(geo, old(View().Image()), clst)
    {
      hide Vol.Valid, Vol.Image, Vol.Table8, Vol.Mirrored, Geometry.Valid, Outside, Entry;
      Read12(View(), clst);
      var bc := clst + clst / 2;
      var r, b0 := FatByte(bc);
      if r != FR_OK { return 0xFFFF_FFFF; }
      var b1;
      r, b1 := FatByte(bc + 1);
      if r != FR_OK { return 0xFFFF_FFFF; }
      Decode12Is(clst, b0, b1);
      return if clst % 2 == 1 then LdWord(b0, b1) / 16 else LdWord(b0, b1) % 4096;
    }

    method GetFat16(clst: nat) returns (v: nat)
      requires View().Valid() && clst < geo.nFatent && geo.fsType == FAT16
      modifies this`winsect, this`wflag, win, disk
      ensures disk.failed == (old(disk.failed) || v == 0xFFFF_FFFF)
      ensures View().Same(old(View())) && (winsect == old(winsect) || geo.InFat(winsect))
      ensures v != 0xFFFF_FFFF ==> geo.InFat(winsect)
      ensures v != 0xFFFF_FFFF ==> v == Entry(geo, old(View().Image()), clst)
    {
      Fits16(geo, clst);
      Half(clst);
      var r := FatWindow(geo.fatbase + clst / 256);
      if r != FR_OK { return 0xFFFF_FFFF; }
      return Decode16(win[..], clst * 2 % 512);
    }

    method GetFat32(clst: nat) returns (v: nat)
      requires View().Valid() && clst < geo.nFatent && geo.fsType == FAT32
      modifies this`winsect, this`wflag, win, disk
      ensures disk.failed == (old(disk.failed) || v == 0xFFFF_FFFF)
      ensures View().Same(old(View())) && (winsect == old(winsect) || geo.InFat(winsect))
      ensures v != 0xFFFF_FFFF ==> geo.InFat(winsect)
      ensures v != 0xFFFF_FFFF ==> v == Entry(geo, old(View().Image()), clst)
    {
      hide Vol.Mirrored, Vol.Image, Vol.Valid, Geometry.Valid, Outside, Entry, Decode32;
      Read32(View(), clst);
      Quarter(clst);
      var r := FatWindow(geo.fatbase + clst / 128);
      if r != FR_OK { return 0xFFFF_FFFF; }
      var p := clst * 4 % 512;
      Decode32Is(win[..], p);
      return LdDword(win[p], win[p + 1], win[p + 2], win[p + 3]) % 0x1000_0000;
    }

    /** 0xFFFFFFFF: disk error, 1: internal error, else the entry. */
    method GetFat(clst: nat) returns (v: nat)
      requires View().Valid()
      modifies this`winsect, this`wflag, win, disk
      ensures disk.failed == (old(disk.failed) || v == 0xFFFF_FFFF)
      ensures View().Same(old(View())) && (winsect == old(winsect) || geo.InFat(winsect))
      ensures View().Table() == old(View().Table())
      ensures !geo.IsCluster(clst) ==> v == 1
      ensures geo.IsCluster(clst) && v != 0xFFFF_FFFF ==> geo.InFat(winsect)
      ensures v != 0xFFFF_FFFF ==> v == if geo.IsCluster(clst) then old(View().Table())[clst] else 1
    {
      if clst < 2 || clst >= geo.nFatent { return 1; }
      TableIs(View(), clst);
      match geo.fsType {
        case FAT12 => v := GetFat12(clst);
        case FAT16 => v := GetFat16(clst);
        case FAT32 => v := GetFat32(clst);
      }
    }

    method PutFat12(clst: nat, val: nat) returns (r: FResult)
      requires View().Valid() && clst < geo.nFatent && val < 0x1_0000_0000 && geo.fsType == FAT12
      modifies this`winsect, this`wflag, win, disk
      ensures disk.failed == (old(disk.failed) || r == FR_DISK_ERR) && (r == FR_OK || r == FR_DISK_ERR)
      ensures r == FR_OK ==> View().Edited(old(View())) && geo.InFat(winsect) && wflag
      ensures r == FR_OK ==>
          && Start12(clst) + 1 < |old(View().Table8())|
          && View().Table8() == Put12(old(View().Table8()), clst, val)
      ensures r == FR_DISK_ERR ==> Torn(View(), old(View()), clst)
    {
      hide Vol.Table, Vol.Image, Vol.Mirrored, Vol.Table8, Geometry.Valid, Low12, High12, Holds, Vol.Valid;
      ValidGeo(View());
      Fits12(geo, clst);
      var bc := clst + clst / 2;
      var p;
      r, p := FatByte(bc);
      if r != FR_OK {
        NotBegun(old(View()), View(), clst);
        return;
      }
      PokeFat(bc, Low12(clst, val, p));
      r, p := FatByte(bc + 1);
      if r != FR_OK {
        HalfDone(old(View()), View(), clst, val);
        return;
      }
      PokeFat(bc + 1, High12(clst, val, p));
    }

    method PutFat16(clst: nat, val: nat) returns (r: FResult)
      requires View().Valid() && clst < geo.nFatent && val < 0x1_0000_0000 && geo.fsType == FAT16
      modifies this`winsect, this`wflag, win, disk
      ensures disk.failed == (old(disk.failed) || r == FR_DISK_ERR) && (r == FR_OK || r == FR_DISK_ERR)
      ensures r == FR_OK ==> View().Edited(old(View())) && geo.InFat(winsect) && wflag
      ensures r == FR_OK ==> Stored(geo, old(View().Image()), clst, val, View().Image())
      ensures r == FR_DISK_ERR ==> View().Same(old(View()))
    {
      hide Vol.Image, Vol.Mirrored, Outside, Vol.Valid, Geometry.Valid, Stored, Digit, HighByte;
      ImageHolds(View());
      Fits16(geo, clst);
      Half(clst);
      r := FatWindow(geo.fatbase + clst / 256);
      if r != FR_OK { return; }
      ghost var v := View();
      Put16(v, clst, val);
      var p := clst * 2 % 512;
      win[p] := Digit(val, 0);
      win[p + 1] := Digit(val, 1);
      wflag := true;
      assert win[..] == Encode16(v.win, p, val);
    }

    method PutFat32(clst: nat, val: nat) returns (r: FResult)
      requires View().Valid() && clst < geo.nFatent && val < 0x1_0000_0000 && geo.fsType == FAT32
      modifies this`winsect, this`wflag, win, disk
      ensures disk.failed == (old(disk.failed) || r == FR_DISK_ERR) && (r == FR_OK || r == FR_DISK_ERR)
      ensures r == FR_OK ==> View().Edited(old(View())) && geo.InFat(winsect) && wflag
      ensures r == FR_OK ==> Stored(geo, old(View().Image()), clst, val, View().Image())
      ensures r == FR_DISK_ERR ==> View().Same(old(View()))
    {
      hide Vol.Image, Vol.Mirrored, Outside, Vol.Valid, Geometry.Valid, Stored, Digit, HighByte;
      ImageHolds(View());
      Fits32(geo, clst);
      Quarter(clst);
      r := FatWindow(geo.fatbase + clst / 128);
      if r != FR_OK { return; }
      ghost var v := View();
      Put32(v, clst, val);
      var p := clst * 4 % 512;
      var high := HighByte(val, win[p + 3]);
      win[p] := Digit(val, 0);
      win[p + 1] := Digit(val, 1);
      win[p + 2] := Digit(val, 2);
      win[p + 3] := high;
      wflag := true;
      assert win[..] == Encode32(v.win, p, val);
    }

    /** Stores val in the entry of a cluster. */
    method PutFat(clst: nat, val: nat) returns (r: FResult)
      requires View().Valid() && val < 0x1_0000_0000
      modifies this`winsect, this`wflag, win, disk
      ensures r == FR_INT_ERR <==> !geo.IsCluster(clst)
      ensures if r == FR_INT_ERR then View() == old(View()) else wflag
      ensures disk.failed == (old(disk.failed) || r == FR_DISK_ERR) && r in {FR_OK, FR_INT_ERR, FR_DISK_ERR}
      ensures r == FR_OK ==> View().Edited(old(View())) && geo.InFat(winsect)
      ensures r == FR_OK ==> View().Table() == old(View().Table())[clst := val % geo.Width()]
      ensures r == FR_DISK_ERR ==> exists flag :: TornOff(View(), old(View()), clst, flag)
    {
      hide Vol.Table, Vol.Image, Vol.Valid, Vol.Mirrored, Vol.Table8, Geometry.Valid, Stored, Holds, Put12,
        Geometry.Width;
      if clst < 2 || clst >= geo.nFatent { return FR_INT_ERR; }
      ghost var v := View();
      ValidGeo(v);
      ImageHolds(v);
      match geo.fsType {
        case FAT12 =>
          Fits12(geo, clst);
          r := PutFat12(clst, val);
          if r == FR_OK { Became12(v, View(), clst, val); }
        case FAT16 => r := PutFat16(clst, val);
        case FAT32 => r := PutFat32(clst, val);
      }
      if r == FR_OK {
        TableAfter(v, View(), clst, val);
      } else if geo.fsType != FAT12 {
        NotBegun(v, View(), clst);
      }
      ghost var now := View();
      wflag := true;
      assert now == View().(wflag := now.wflag) && (r == FR_DISK_ERR ==> TornOff(View(), v, clst, now.wflag));
    }
  }
}

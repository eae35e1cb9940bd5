/** The sectors f_mkfs writes, and that mounting and counting what it wrote give back what it planned. */
module FatMkfs {
  import opened FatBytes
  import opened Octets
  import opened FatDisk
  import opened FatTable
  import opened FatChain
  import opened FatMount
  import opened FatFormat

  function PutWord(s: Sector, p: nat, v: nat): (r: Sector)
    requires p + 1 < |s|
    ensures |r| == |s|
  {
    s[p := v % 256][p + 1 := v / 0x100 % 256]
  }

  function PutDword(s: Sector, p: nat, v: nat): (r: Sector)
    requires p + 3 < |s|
    ensures |r| == |s|
  {
    PutWord(PutWord(s, p, v), p + 2, v / 0x1_0000)
  }

  const BOOT: seq<byte> := [0xEB, 0xFE, 0x90, 0x4D, 0x53, 0x44, 0x4F, 0x53, 0x35, 0x2E, 0x30]
  const LABEL: seq<byte> := [0x4E, 0x4F, 0x20, 0x4E, 0x41, 0x4D, 0x45, 0x20, 0x20, 0x20, 0x20]
  const FAT32_NAME: seq<byte> := [0x46, 0x41, 0x54, 0x33, 0x32, 0x20, 0x20, 0x20]
  const FAT_NAME: seq<byte> := [0x46, 0x41, 0x54, 0x20, 0x20, 0x20, 0x20, 0x20]

  /** The part of the boot record common to all sub-types. */
  function Head(p: Plan, md: byte): (s: Sector)
    requires p.au < 256
    ensures |s| == 512
  {
    var s := Splice(Zeros(), 0, BOOT);
    var s := PutWord(s, 11, 512);
    var s := s[13 := p.au];
    var s := PutWord(s, 14, p.nRsv);
    var s := s[16 := 1];
    var s := PutWord(s, 17, if p.fmt == FAT32 then 0 else 512);
    var s := if p.nVol < 0x1_0000 then PutWord(s, 19, p.nVol) else PutDword(s, 32, p.nVol);
    var s := s[21 := md];
    var s := PutWord(s, 24, 63);
    var s := PutWord(s, 26, 255);
    PutDword(s, 28, p.bVol)
  }

  /** The rest of the boot record; vsn is the volume serial number. */
  function Tail(s: Sector, p: Plan, vsn: nat): (r: Sector)
    requires |s| == 512
    ensures |r| == 512
  {
    var s :=
      if p.fmt == FAT32 then
        var s := PutDword(s, 67, vsn);
        var s := PutDword(s, 36, p.nFat);
        var s := PutDword(s, 44, 2);
        var s := PutWord(s, 48, 1);
        var s := PutWord(s, 50, 6);
        var s := s[64 := 0x80][66 := 0x29];
        Splice(s, 71, LABEL + FAT32_NAME)
      else
        var s := PutDword(s, 39, vsn);
        var s := PutWord(s, 22, p.nFat);
        var s := s[36 := 0x80][38 := 0x29];
        Splice(s, 43, LABEL + FAT_NAME);
    PutWord(s, 510, SIGNATURE)
  }

  function Vbr(p: Plan, md: byte, vsn: nat): (s: Sector)
    requires p.au < 256
    ensures |s| == 512
  {
    Tail(Head(p, md), p, vsn)
  }

  /** A plan whose numbers fit the fields of a boot record. */
  predicate Fits(p: Plan) {
    && p.au < 256 && p.nRsv < 0x1_0000 && p.nFat < 0x1_0000_0000 && 0 < p.nVol < 0x1_0000_0000
    && (p.fmt != FAT32 ==> 0 < p.nFat < 0x1_0000)
  }

  lemma SpliceElsewhere(s: Sector, at: nat, d: seq<byte>, i: nat)
    requires at + |d| <= |s| && i < |s| && !(at <= i < at + |d|)
    ensures Splice(s, at, d)[i] == s[i]
  {
  }

  /** The fields in front survive the rest. */
  lemma TailKeeps(s: Sector, p: Plan, vsn: nat, i: nat)
    requires |s| == 512 && i < 36 && i != 22 && i != 23
    ensures Tail(s, p, vsn)[i] == s[i]
  {
  }

  /** The numbers in front. */
  lemma HeadFields(p: Plan, md: byte)
    requires Fits(p)
    ensures var s := Head(p, md);
      && LoadWord(s, 11) == 512 && s[13] == p.au && LoadWord(s, 14) == p.nRsv && s[16] == 1
      && LoadWord(s, 17) == (if p.fmt == FAT32 then 0 else 512)
      && LoadWord(s, 19) == (if p.nVol < 0x1_0000 then p.nVol else 0)
      && s[22] == 0 && s[23] == 0 && (p.nVol >= 0x1_0000 ==> LoadDword(s, 32) == p.nVol)
  {
    hide Head;
    HeadBytes(p, md);
    Low2(512);
    Low2(p.nRsv);
    if p.nVol < 0x1_0000 {
      Low2(p.nVol);
    } else {
      Low4(p.nVol);
    }
  }

  lemma HeadBytes(p: Plan, md: byte)
    requires Fits(p)
    ensures var s := Head(p, md);
      && s[11] == 512 % 256 && s[12] == 512 / 0x100 % 256 && s[13] == p.au
      && s[14] == p.nRsv % 256 && s[15] == p.nRsv / 0x100 % 256 && s[16] == 1
      && s[17] == 0 && s[18] == (if p.fmt == FAT32 then 0 else 2) && s[22] == 0 && s[23] == 0
      && s[19] == (if p.nVol < 0x1_0000 then p.nVol % 256 else 0)
      && s[20] == (if p.nVol < 0x1_0000 then p.nVol / 0x100 % 256 else 0)
      && (p.nVol >= 0x1_0000 ==>
            && s[32] == p.nVol % 256 && s[33] == p.nVol / 0x100 % 256
            && s[34] == p.nVol / 0x1_0000 % 256 && s[35] == p.nVol / 0x1_0000 / 0x100 % 256)
  {
    hide Splice;
    Blank(11);
    Blank(22);
    Blank(23);
    Blank(19);
    Blank(20);
  }

  lemma Blank(i: nat)
    requires 11 <= i < 512
    ensures Splice(Zeros(), 0, BOOT)[i] == 0
  {
    SpliceElsewhere(Zeros(), 0, BOOT, i);
  }

  lemma Low2(v: nat)
    requires v < 0x1_0000
    ensures v % 256 + 0x100 * (v / 0x100 % 256) == v
  {
  }

  lemma Low4(v: nat)
    requires v < 0x1_0000_0000
    ensures (v % 256 + 0x100 * (v / 0x100 % 256))
      + 0x1_0000 * (v / 0x1_0000 % 256 + 0x100 * (v / 0x1_0000 / 0x100 % 256)) == v
  {
    Low2(v % 0x1_0000);
    Low2(v / 0x1_0000);
    assert v % 256 == v % 0x1_0000 % 256 && v / 0x100 % 256 == v % 0x1_0000 / 0x100 % 256;
  }

  lemma SameDword(a: Sector, b: Sector, p: nat)
    requires p + 3 < |a| == |b| && a[p] == b[p] && a[p + 1] == b[p + 1] && a[p + 2] == b[p + 2] && a[p + 3] == b[p + 3]
    ensures LoadDword(a, p) == LoadDword(b, p)
  {
  }

  lemma TailFields(s: Sector, p: Plan, vsn: nat)
    requires |s| == 512 && Fits(p)
    ensures var r := Tail(s, p, vsn);
      && LoadWord(r, 510) == SIGNATURE
      && (p.fmt == FAT32 ==>
            && r[22] == s[22] && r[23] == s[23] && LoadDword(r, 36) == p.nFat && LoadDword(r, 44) == 2
            && LoadWord(r, 48) == 1
            && LoadDword(r, 82) % 0x100_0000 == FAT_STRING)
      && (p.fmt != FAT32 ==> LoadWord(r, 22) == p.nFat && LoadDword(r, 54) % 0x100_0000 == FAT_STRING)
  {
    hide Tail, LoadWord, LoadDword;
    var r := Tail(s, p, vsn);
    if p.fmt == FAT32 {
      TailBytes32(s, p, vsn);
      WordIs(r, 510, SIGNATURE);
      DwordIs(r, 36, p.nFat);
      DwordIs(r, 44, 2);
      WordIs(r, 48, 1);
      NameIs(r, 82);
    } else {
      TailBytes16(s, p, vsn);
      WordIs(r, 510, SIGNATURE);
      WordIs(r, 22, p.nFat);
      NameIs(r, 54);
    }
  }

  lemma WordIs(s: Sector, p: nat, v: nat)
    requires p + 1 < |s| && v < 0x1_0000 && s[p] == v % 256 && s[p + 1] == v / 0x100 % 256
    ensures LoadWord(s, p) == v
  {
    Low2(v);
  }

  lemma DwordIs(s: Sector, p: nat, v: nat)
    requires p + 3 < |s| && v < 0x1_0000_0000 && s[p] == v % 256 && s[p + 1] == v / 0x100 % 256
    requires s[p + 2] == v / 0x1_0000 % 256 && s[p + 3] == v / 0x1_0000 / 0x100 % 256
    ensures LoadDword(s, p) == v
  {
    Low4(v);
  }

  lemma NameIs(s: Sector, p: nat)
    requires p + 3 < |s| && s[p] == 0x46 && s[p + 1] == 0x41 && s[p + 2] == 0x54
    ensures LoadDword(s, p) % 0x100_0000 == FAT_STRING
  {
    assert LoadDword(s, p) == FAT_STRING + 0x100_0000 * (s[p + 3] as int);
  }

  lemma TailBytes32(s: Sector, p: Plan, vsn: nat)
    requires |s| == 512 && Fits(p) && p.fmt == FAT32
    ensures var r := Tail(s, p, vsn);
      && r[510] == 0x55 && r[511] == 0xAA && r[22] == s[22] && r[23] == s[23]
      && r[36] == p.nFat % 256 && r[37] == p.nFat / 0x100 % 256
      && r[38] == p.nFat / 0x1_0000 % 256 && r[39] == p.nFat / 0x1_0000 / 0x100 % 256
      && r[44] == 2 && r[45] == 0 && r[46] == 0 && r[47] == 0 && r[48] == 1 && r[49] == 0
      && r[82] == 0x46 && r[83] == 0x41 && r[84] == 0x54
  {
    hide Splice;
    var u := PutDword(PutDword(PutDword(s, 67, vsn), 36, p.nFat), 44, 2);
    var t := PutWord(PutWord(u, 48, 1), 50, 6)[64 := 0x80][66 := 0x29];
    Name32(t);
  }

  lemma TailBytes16(s: Sector, p: Plan, vsn: nat)
    requires |s| == 512 && Fits(p) && p.fmt != FAT32
    ensures var r := Tail(s, p, vsn);
      && r[510] == 0x55 && r[511] == 0xAA && r[22] == p.nFat % 256 && r[23] == p.nFat / 0x100 % 256
      && r[54] == 0x46 && r[55] == 0x41 && r[56] == 0x54
  {
    hide Splice;
    Name16(PutWord(PutDword(s, 39, vsn), 22, p.nFat)[36 := 0x80][38 := 0x29]);
  }

  lemma Name32(s: Sector)
    requires |s| == 512
    ensures var r := Splice(s, 71, LABEL + FAT32_NAME);
      && r[82] == 0x46 && r[83] == 0x41 && r[84] == 0x54 && forall i :: 0 <= i < 71 ==> r[i] == s[i]
  {
  }

  lemma Name16(s: Sector)
    requires |s| == 512
    ensures var r := Splice(s, 43, LABEL + FAT_NAME);
      && r[54] == 0x46 && r[55] == 0x41 && r[56] == 0x54 && forall i :: 0 <= i < 43 ==> r[i] == s[i]
  {
  }

  /** The parameters in the boot record, by their places. */
  lemma VbrParameters(p: Plan, md: byte, vsn: nat)
    requires Fits(p)
    ensures var s := Vbr(p, md, vsn);
      && LoadWord(s, 11) == 512 && s[13] as int == p.au && LoadWord(s, 14) == p.nRsv && s[16] == 1
      && LoadWord(s, 17) == (if p.fmt == FAT32 then 0 else 512)
      && LoadWord(s, 19) == (if p.nVol < 0x1_0000 then p.nVol else 0)
      && (p.nVol >= 0x1_0000 ==> LoadDword(s, 32) == p.nVol)
      && LoadWord(s, 22) == (if p.fmt == FAT32 then 0 else p.nFat)
      && (p.fmt == FAT32 ==> LoadDword(s, 36) == p.nFat && LoadDword(s, 44) == 2 && LoadWord(s, 48) == 1)
      && Kind(s) == 0
  {
    hide Head, Tail, LoadWord, LoadDword;
    var s := Head(p, md);
    var r := Tail(s, p, vsn);
    HeadFields(p, md);
    TailFields(s, p, vsn);
    TailWord(s, p, vsn, 11);
    TailKeeps(s, p, vsn, 13);
    TailWord(s, p, vsn, 14);
    TailKeeps(s, p, vsn, 16);
    TailWord(s, p, vsn, 17);
    TailWord(s, p, vsn, 19);
    TailWord(s, p, vsn, 32);
    TailWord(s, p, vsn, 34);
    SameDword(r, s, 32);
    Zero16(r);
  }

  /** The boot record f_mkfs writes is one, and carries its plan. */
  lemma VbrCarries(p: Plan, md: byte, vsn: nat)
    requires Fits(p)
    ensures Kind(Vbr(p, md, vsn)) == 0 && Carries(ReadBpb(Vbr(p, md, vsn)), p)
  {
    hide Vbr, Kind, LoadWord, LoadDword;
    VbrParameters(p, md, vsn);
  }

  /** What else the boot record says: media, geometry, sectors in front of it, drive, serial number, and its copy. */
  lemma VbrFields(p: Plan, md: byte, vsn: nat)
    requires Fits(p) && p.bVol < 0x1_0000_0000 && vsn < 0x1_0000_0000
    ensures var s := Vbr(p, md, vsn);
      && s[0] == 0xEB && s[2] == 0x90 && s[21] == md && LoadWord(s, 24) == 63 && LoadWord(s, 26) == 255
      && LoadDword(s, 28) == p.bVol
      && (p.fmt == FAT32 ==>
            s[64] == 0x80 && s[66] == 0x29 && LoadDword(s, 67) == vsn && LoadWord(s, 50) == 6)
      && (p.fmt != FAT32 ==> s[36] == 0x80 && s[38] == 0x29 && LoadDword(s, 39) == vsn)
  {
    hide Head, Tail, LoadWord, LoadDword;
    var h, s := Head(p, md), Vbr(p, md, vsn);
    HeadRest(p, md);
    TailKeeps(h, p, vsn, 0);
    TailKeeps(h, p, vsn, 2);
    TailKeeps(h, p, vsn, 21);
    TailWord(h, p, vsn, 24);
    TailWord(h, p, vsn, 26);
    TailWord(h, p, vsn, 28);
    TailWord(h, p, vsn, 30);
    WordIs(s, 24, 63);
    WordIs(s, 26, 255);
    DwordIs(s, 28, p.bVol);
    TailRest(h, p, vsn);
    if p.fmt == FAT32 {
      DwordIs(s, 67, vsn);
      WordIs(s, 50, 6);
    } else {
      DwordIs(s, 39, vsn);
    }
  }

  lemma HeadRest(p: Plan, md: byte)
    requires Fits(p)
    ensures var s := Head(p, md);
      && s[0] == 0xEB && s[2] == 0x90 && s[21] == md && s[24] == 63 && s[25] == 0 && s[26] == 255 && s[27] == 0
      && s[28] == p.bVol % 256 && s[29] == p.bVol / 0x100 % 256
      && s[30] == p.bVol / 0x1_0000 % 256 && s[31] == p.bVol / 0x1_0000 / 0x100 % 256
  {
    hide Splice;
    BootBytes();
  }

  lemma BootBytes()
    ensures Splice(Zeros(), 0, BOOT)[0] == 0xEB && Splice(Zeros(), 0, BOOT)[2] == 0x90
  {
  }

  lemma TailRest(s: Sector, p: Plan, vsn: nat)
    requires |s| == 512 && Fits(p)
    ensures var r := Tail(s, p, vsn);
      && (p.fmt == FAT32 ==>
            && r[64] == 0x80 && r[66] == 0x29 && r[50] == 6 && r[51] == 0
            && r[67] == vsn % 256 && r[68] == vsn / 0x100 % 256
            && r[69] == vsn / 0x1_0000 % 256 && r[70] == vsn / 0x1_0000 / 0x100 % 256)
      && (p.fmt != FAT32 ==>
            && r[36] == 0x80 && r[38] == 0x29
            && r[39] == vsn % 256 && r[40] == vsn / 0x100 % 256
            && r[41] == vsn / 0x1_0000 % 256 && r[42] == vsn / 0x1_0000 / 0x100 % 256)
  {
    hide Splice;
    if p.fmt == FAT32 {
      var u := PutDword(PutDword(PutDword(s, 67, vsn), 36, p.nFat), 44, 2);
      Name32(PutWord(PutWord(u, 48, 1), 50, 6)[64 := 0x80][66 := 0x29]);
    } else {
      Name16(PutWord(PutDword(s, 39, vsn), 22, p.nFat)[36 := 0x80][38 := 0x29]);
    }
  }

  lemma TailWord(s: Sector, p: Plan, vsn: nat, i: nat)
    requires |s| == 512 && i + 1 < 36 && i != 21 && i != 22 && i != 23
    ensures var r := Tail(s, p, vsn); LoadWord(r, i) == LoadWord(s, i) && r[i] == s[i] && r[i + 1] == s[i + 1]
  {
    hide Tail;
    TailKeeps(s, p, vsn, i);
    TailKeeps(s, p, vsn, i + 1);
  }

  lemma Zero16(r: Sector)
    requires |r| == 512
    ensures r[22] == 0 && r[23] == 0 ==> LoadWord(r, 22) == 0
  {
  }

  /** First sector of a fresh table: the reserved entries, and on FAT32 the root directory's cluster. */
  function FirstFat(t: FatType, md: byte): (s: Sector)
    ensures |s| == 512
  {
    match t
    case FAT12 => PutDword(Zeros(), 0, md + 0xFF_FF00)
    case FAT16 => PutDword(Zeros(), 0, md + 0xFFFF_FF00)
    case FAT32 => PutDword(PutDword(PutDword(Zeros(), 0, md + 0xFFFF_FF00), 4, 0xFFFF_FFFF), 8, 0x0FFF_FFFF)
  }

  function FsiSector(free: nat): (s: Sector)
    ensures |s| == 512
  {
    var s := PutDword(Zeros(), 0, 0x4161_5252);
    var s := PutDword(s, 484, 0x6141_7272);
    var s := PutDword(s, 488, free);
    var s := PutDword(s, 492, 2);
    PutWord(s, 510, SIGNATURE)
  }

  function SystemId(t: FatType, nVol: nat): byte {
    match t
    case FAT12 => 0x01
    case FAT16 => if nVol < 0x1_0000 then 0x04 else 0x06
    case FAT32 => 0x0C
  }

  /** The partition table with the volume as its only entry; n is the last cylinder. */
  function Mbr(sys: byte, nVol: nat): (s: Sector)
    ensures |s| == 512
  {
    var n := (63 + nVol) / 63 / 255;
    var s := Zeros()[447 := 1][448 := 1][449 := 0][450 := sys][451 := 254];
    var s := s[452 := n / 4 % 256 / 64 * 64 + 63][453 := n % 256];
    var s := PutDword(s, 454, 63);
    var s := PutDword(s, 458, nVol);
    PutWord(s, 510, SIGNATURE)
  }

  function Media(sfd: bool): byte {
    if sfd then 0xF0 else 0xF8
  }

  /** One past the last sector f_mkfs clears. */
  function Cleared(p: Plan): nat {
    p.bVol + p.nRsv + p.Table() + p.nDir + if p.fmt == FAT32 then p.au else 0
  }

  ghost predicate AllZeros(img: seq<Sector>, a: nat, b: nat) {
    b <= |img| && forall i :: a <= i < b ==> img[i] == Zeros()
  }

  /** The medium after a successful f_mkfs. */
  ghost predicate Formatted(img: seq<Sector>, p: Plan, sfd: bool, vsn: nat)
    requires Fits(p)
  {
    && AllSectors(img) && p.bVol < p.bVol + p.nRsv < Cleared(p) <= |img|
    && img[p.bVol] == Vbr(p, Media(sfd), vsn)
    && (!sfd ==> img[0] == Mbr(SystemId(p.fmt, p.nVol), p.nVol))
    && img[p.bVol + p.nRsv] == FirstFat(p.fmt, Media(sfd))
    && AllZeros(img, p.bVol + p.nRsv + 1, Cleared(p))
    && (p.fmt == FAT32 ==> p.nRsv > 7 && img[p.bVol + 6] == Vbr(p, Media(sfd), vsn))
    && (p.fmt == FAT32 ==>
          && img[p.bVol + 1] == FsiSector(Wrap(p.nClst - 1)) && img[p.bVol + 7] == FsiSector(Wrap(p.nClst - 1)))
  }

  /** A boot record that is not one of FAT, and whose first partition begins at sector 63. */
  lemma PlainRecord(s: Sector)
    requires |s| == 512 && s[510] == 0x55 && s[511] == 0xAA && forall i :: 54 <= i < 86 ==> s[i] == 0
    requires s[454] == 63 && s[455] == 0 && s[456] == 0 && s[457] == 0
    ensures Kind(s) == 1 && LoadDword(s, 454) == 63
  {
    hide LoadWord, LoadDword;
    WordIs(s, 510, SIGNATURE);
    DwordIs(s, 54, 0);
    DwordIs(s, 82, 0);
    DwordIs(s, 454, 63);
  }

  /** Everything the partition table says: one partition, not active, from sector 63 to the end of the medium. */
  lemma MbrIs(sys: byte, nVol: nat)
    requires nVol < 0x1_0000_0000
    ensures var s := Mbr(sys, nVol);
      && s[446] == 0 && s[450] == sys && LoadDword(s, 454) == 63 && LoadDword(s, 458) == nVol
      && s[447] == 1 && s[448] == 1 && s[449] == 0 && s[451] == 254 && s[452] % 64 == 63
      && s[453] as int + 256 * (s[452] as int / 64) == (63 + nVol) / 63 / 255 % 1024
      && LoadWord(s, 510) == 0xAA55 && forall i :: 462 <= i < 510 ==> s[i] == 0
  {
    hide LoadWord, LoadDword;
    var s := Mbr(sys, nVol);
    MbrRest(sys, nVol);
    MbrBytes(sys, nVol);
    WordIs(s, 510, SIGNATURE);
    DwordIs(s, 454, 63);
    DwordIs(s, 458, nVol);
    Cylinder((63 + nVol) / 63 / 255);
  }

  /** The ten bits of a cylinder number, two of them in the sector's byte. */
  lemma Cylinder(c: nat)
    ensures (c / 4 % 256 / 64 * 64 + 63) % 64 == 63 && (c / 4 % 256 / 64 * 64 + 63) / 64 == c / 4 % 256 / 64
    ensures c % 256 + 256 * (c / 4 % 256 / 64) == c % 1024
  {
    CylinderBits(c, c / 1024, c % 1024 / 256, c % 1024 % 256);
  }

  lemma CylinderBits(c: nat, q: nat, h: nat, l: nat)
    requires c == 1024 * q + 256 * h + l && h < 4 && l < 256
    ensures c / 4 % 256 / 64 == h && c % 256 == l && c % 1024 == 256 * h + l
  {
    var x := 64 * h + l / 4;
    assert c / 4 == 256 * q + x && c % 256 == l;
    assert c / 4 % 256 == x && x / 64 == h;
  }

  lemma MbrRest(sys: byte, nVol: nat)
    ensures var s, n := Mbr(sys, nVol), (63 + nVol) / 63 / 255;
      && s[446] == 0 && s[447] == 1 && s[448] == 1 && s[449] == 0 && s[451] == 254
      && s[452] == n / 4 % 256 / 64 * 64 + 63 && s[453] == n % 256
      && s[458] == nVol % 256 && s[459] == nVol / 0x100 % 256
      && s[460] == nVol / 0x1_0000 % 256 && s[461] == nVol / 0x1_0000 / 0x100 % 256
      && forall i :: 462 <= i < 510 ==> s[i] == 0
  {
  }

  /** The partition type tells FAT12, FAT16 below and above 32 MiB, and FAT32. */
  lemma SystemIdIs(t: FatType, nVol: nat)
    ensures SystemId(t, nVol) ==
      if t == FAT12 then 1 else if t == FAT32 then 12 else if nVol * 512 < 32 * 0x10_0000 then 4 else 6
  {
  }

  lemma MbrBytes(sys: byte, nVol: nat)
    ensures var s := Mbr(sys, nVol);
      && s[450] == sys && s[454] == 63 && s[455] == 0 && s[456] == 0 && s[457] == 0 && s[510] == 0x55 && s[511] == 0xAA
      && forall i :: 54 <= i < 86 ==> s[i] == 0
  {
  }

  /** Mounting finds what f_mkfs planned, and otherwise nothing it could work with, exactly when the plan is usable. */
  lemma MkfsMounts(sectors: nat, sfd: bool, au: nat, block: nat, img: seq<Sector>, vsn: nat)
    requires 128 <= sectors < 0x1_0000_0000 && PowerByte(au)
    requires PlanFor(sectors, sfd, au, block).Some?
    ensures Fits(PlanFor(sectors, sfd, au, block).value)
    ensures var p := PlanFor(sectors, sfd, au, block).value;
      |img| > 0 && Formatted(img, p, sfd, vsn) ==>
        && (Volume(img).Some? && Volume(img).value.Valid() <==> Usable(p))
        && (Usable(p) ==> Volume(img) == Some(Expected(p)))
        && (p.nVol < p.System() + p.au ==> Volume(img) == None)
  {
    hide PlanFor, Vbr, ReadBpb, Kind, Layout, Mbr, Carries, LoadDword;
    PlanBounds(sectors, sfd, au, block);
    PowerSmall(au);
    var p := PlanFor(sectors, sfd, au, block).value;
    if |img| > 0 && Formatted(img, p, sfd, vsn) {
      VbrCarries(p, Media(sfd), vsn);
      FormatMounts(sectors, sfd, au, block, ReadBpb(img[p.bVol]));
      if !sfd {
        assert Kind(img[0]) == 1 && LoadDword(img[0], 454) == 63 && img[0][450] != 0 by {
          MbrBytes(SystemId(p.fmt, p.nVol), p.nVol);
          PlainRecord(img[0]);
        }
      }
    }
  }

  /** A fresh table: two reserved entries, the root directory's cluster on FAT32, and nothing else. */
  predicate Fresh(t: FatType, fat: seq<nat>) {
    && |fat| > 2 && fat[0] != 0 && fat[1] != 0 && (t == FAT32 ==> fat[2] == 0x0FFF_FFFF)
    && forall c :: (if t == FAT32 then 3 else 2) <= c < |fat| ==> fat[c] == 0
  }

  /** The table sectors of a formatted volume. */
  ghost predicate FreshSectors(geo: Geometry, img: seq<Sector>, md: byte) {
    && Holds(geo, img) && img[geo.fatbase] == FirstFat(geo.fsType, md)
    && AllZeros(img, geo.fatbase + 1, geo.fatbase + geo.fsize) && geo.fsize > 0
  }

  lemma FirstBytes(t: FatType, md: byte)
    ensures var s := FirstFat(t, md);
      && s[0] == md && s[1] == 0xFF && s[2] == 0xFF && s[3] == (if t == FAT12 then 0 else 0xFF)
      && (t == FAT32 ==>
            && s[4] == 0xFF && s[5] == 0xFF && s[6] == 0xFF && s[7] == 0xFF
            && s[8] == 0xFF && s[9] == 0xFF && s[10] == 0xFF && s[11] == 0x0F)
      && forall i :: (if t == FAT12 then 3 else if t == FAT16 then 4 else 12) <= i < 512 ==> s[i] == 0
  {
    assert (md + 0xFF_FF00) % 256 == md && (md + 0xFF_FF00) / 0x100 == 0xFFFF && (md + 0xFF_FF00) / 0x1_0000 == 0xFF;
    assert (md + 0xFFFF_FF00) % 256 == md;
    assert (md + 0xFFFF_FF00) / 0x100 == 0xFF_FFFF && (md + 0xFFFF_FF00) / 0x1_0000 == 0xFFFF;
  }

  lemma Fresh12(geo: Geometry, img: seq<Sector>, md: byte, c: nat)
    requires FreshSectors(geo, img, md) && geo.fsType == FAT12 && c < geo.nFatent && md >= 0xF0
    ensures c < 2 ==> Entry(geo, img, c) == if c == 0 then 0xF00 + md as int else 0xFFF
    ensures c >= 2 ==> Entry(geo, img, c) == 0
  {
    hide FirstFat;
    FirstBytes(FAT12, md);
    Fits12(geo, c);
    var o := c + c / 2;
    Decode12Is(c, Bytes(geo, img)[o], Bytes(geo, img)[o + 1]);
    ByteAt(geo, img, o / 512, o % 512);
    ByteAt(geo, img, (o + 1) / 512, (o + 1) % 512);
    FatByteIs(geo, img, md, o);
    FatByteIs(geo, img, md, o + 1);
    if c == 0 {
      assert Entry(geo, img, 0) == (md as int + 0x100 * 0xFF) % 4096;
    } else if c == 1 {
      assert Entry(geo, img, 1) == (0xFF + 0x100 * 0xFF) / 16;
    } else {
      assert o >= 3;
    }
  }

  lemma FatByteIs(geo: Geometry, img: seq<Sector>, md: byte, o: nat)
    requires FreshSectors(geo, img, md) && geo.fsType == FAT12 && o < 512 * geo.fsize
    ensures Bytes(geo, img)[o] == if o == 0 then md else if o < 3 then 0xFF else 0
  {
    hide FirstFat;
    FirstBytes(FAT12, md);
    ByteAt(geo, img, o / 512, o % 512);
  }

  lemma Fresh16(geo: Geometry, img: seq<Sector>, md: byte, c: nat)
    requires FreshSectors(geo, img, md) && geo.fsType == FAT16 && c < geo.nFatent
    ensures c < 2 ==> Entry(geo, img, c) == if c == 0 then 0xFF00 + md as int else 0xFFFF
    ensures c >= 2 ==> Entry(geo, img, c) == 0
  {
    hide FirstFat;
    FirstBytes(FAT16, md);
    Fits16(geo, c);
  }

  lemma Fresh32(geo: Geometry, img: seq<Sector>, md: byte, c: nat)
    requires FreshSectors(geo, img, md) && geo.fsType == FAT32 && c < geo.nFatent
    ensures c < 2 ==> Entry(geo, img, c) == if c == 0 then 0x0FFF_FF00 + md as int else 0x0FFF_FFFF
    ensures c == 2 ==> Entry(geo, img, c) == 0x0FFF_FFFF
    ensures c >= 3 ==> Entry(geo, img, c) == 0
  {
    hide FirstFat, Decode32;
    FirstBytes(FAT32, md);
    Fits32(geo, c);
    var s, o := img[geo.fatbase + c / 128], c % 128 * 4;
    if c == 0 {
      AllOnes(s, 0, md, 0xFF);
    } else if c == 1 {
      AllOnes(s, 4, 0xFF, 0xFF);
    } else if c == 2 {
      AllOnes(s, 8, 0xFF, 0x0F);
    } else {
      if c / 128 == 0 {
        assert o >= 12 && s[o] == 0;
      }
      AllZero(s, o);
    }
  }

  lemma AllOnes(s: Sector, p: nat, lo: byte, hi: byte)
    requires p + 3 < |s| && s[p] == lo && s[p + 1] == 0xFF && s[p + 2] == 0xFF && s[p + 3] == hi && hi % 16 == 15
    ensures Decode32(s, p) == 0x0FFF_FF00 + lo
  {
    Decode32Is(s, p);
    DropTop(lo as int + 0xFF_FF00, hi);
  }

  lemma DropTop(low: nat, hi: byte)
    requires low < 0x100_0000 && hi % 16 == 15
    ensures (low + 0x100_0000 * hi) % 0x1000_0000 == low + 0xF00_0000
  {
    assert low + 0x100_0000 * hi == (low + 0xF00_0000) + 0x1000_0000 * (hi / 16);
  }

  lemma AllZero(s: Sector, p: nat)
    requires p + 3 < |s| && s[p] == 0 && s[p + 1] == 0 && s[p + 2] == 0 && s[p + 3] == 0
    ensures Decode32(s, p) == 0
  {
  }

  lemma FreshTable(geo: Geometry, img: seq<Sector>, md: byte)
    requires FreshSectors(geo, img, md) && md >= 0xF0
    ensures Fresh(geo.fsType, Fat(geo, img))
  {
    forall c | 0 <= c < geo.nFatent
      ensures c < 2 ==> Entry(geo, img, c) != 0
      ensures c == 2 && geo.fsType == FAT32 ==> Entry(geo, img, c) == 0x0FFF_FFFF
      ensures c >= (if geo.fsType == FAT32 then 3 else 2) ==> Entry(geo, img, c) == 0
    {
      match geo.fsType
      case FAT12 => Fresh12(geo, img, md, c);
      case FAT16 => Fresh16(geo, img, md, c);
      case FAT32 => Fresh32(geo, img, md, c);
    }
    FreshEntries(geo, img);
  }

  lemma FreshEntries(geo: Geometry, img: seq<Sector>)
    requires Holds(geo, img) && forall c :: 0 <= c < geo.nFatent ==>
      && (c < 2 ==> Entry(geo, img, c) != 0)
      && (c == 2 && geo.fsType == FAT32 ==> Entry(geo, img, c) == 0x0FFF_FFFF)
      && (c >= (if geo.fsType == FAT32 then 3 else 2) ==> Entry(geo, img, c) == 0)
    ensures Fresh(geo.fsType, Fat(geo, img))
  {
    hide Entry, Fat;
    forall c | 0 <= c < geo.nFatent ensures Fat(geo, img)[c] == Entry(geo, img, c) {
      FatAt(geo, img, c);
    }
  }

  /** An entry of ones. */
  function Ones(t: FatType): nat {
    match t
    case FAT12 => 0xFFF
    case FAT16 => 0xFFFF
    case FAT32 => 0x0FFF_FFFF
  }

  /** The reserved entries of a fresh table: all ones, but for the media byte in the first. */
  lemma FreshReserved(geo: Geometry, img: seq<Sector>, md: byte)
    requires FreshSectors(geo, img, md) && geo.nFatent >= 2 && md >= 0xF0
    ensures Fat(geo, img)[0] == Ones(geo.fsType) - 0xFF + md as int && Fat(geo, img)[1] == Ones(geo.fsType)
  {
    hide FirstFat, Entry, Fat;
    forall c | 0 <= c < 2 ensures Fat(geo, img)[c] == Entry(geo, img, c) {
      FatAt(geo, img, c);
    }
    match geo.fsType
    case FAT12 =>
      Fresh12(geo, img, md, 0);
      Fresh12(geo, img, md, 1);
    case FAT16 =>
      Fresh16(geo, img, md, 0);
      Fresh16(geo, img, md, 1);
    case FAT32 =>
      Fresh32(geo, img, md, 0);
      Fresh32(geo, img, md, 1);
  }

  /** A fresh table is a set of chains: the root directory's on FAT32, none otherwise. */
  lemma FreshChains(t: FatType, fat: seq<nat>)
    requires Fresh(t, fat) && |fat| <= 0x0FFF_FFFF
    ensures Chained(fat, if t == FAT32 then {[2]} else {})
    ensures FreeCount(fat) == |fat| - 2 - (if t == FAT32 then 1 else 0)
  {
    var cs := if t == FAT32 then {[2]} else {};
    if t == FAT32 {
      assert IsChain(fat, [2]);
      assert 2 in [2];
    }
    forall c: nat | InRange(|fat|, c) && fat[c] != 0 ensures Covered(cs, c) {
      assert c == 2 && [2] in cs;
    }
    FreshCount(t, fat, |fat|);
  }

  lemma {:induction false} FreshCount(t: FatType, fat: seq<nat>, k: nat)
    requires Fresh(t, fat) && 3 <= k <= |fat|
    ensures FreeBelow(fat, k) == k - 2 - (if t == FAT32 then 1 else 0)
  {
    if k > 3 {
      FreshCount(t, fat, k - 1);
    } else {
      assert FreeBelow(fat, 3) == FreeBelow(fat, 2) + if fat[2] == 0 then 1 else 0;
    }
  }

  lemma FsiIs(free: nat)
    requires free < 0x1_0000_0000
    ensures FsInfo(FsiSector(free)) == Some((free, 2))
  {
    hide LoadWord, LoadDword;
    var s := FsiSector(free);
    FsiMarks(free);
    FsiCounts(free);
    WordIs(s, 510, SIGNATURE);
    DwordIs(s, 0, 0x4161_5252);
    DwordIs(s, 484, 0x6141_7272);
    DwordIs(s, 488, free);
    DwordIs(s, 492, 2);
  }

  lemma FsiMarks(free: nat)
    ensures var s := FsiSector(free);
      && s[510] == 0x55 && s[511] == 0xAA && s[0] == 0x52 && s[1] == 0x52 && s[2] == 0x61 && s[3] == 0x41
      && s[484] == 0x72 && s[485] == 0x72 && s[486] == 0x41 && s[487] == 0x61
  {
  }

  lemma FsiCounts(free: nat)
    ensures var s := FsiSector(free);
      && s[488] == free % 256 && s[489] == free / 0x100 % 256
      && s[490] == free / 0x1_0000 % 256 && s[491] == free / 0x1_0000 / 0x100 % 256
      && s[492] == 2 && s[493] == 0 && s[494] == 0 && s[495] == 0
  {
  }

  /**
   * The table of a formatted volume, as mounted: a set of chains, with as many free clusters as the volume has
   * clusters, less the root directory's on FAT32, where the recorded free count says the same.
   */
  lemma MkfsCounts(sectors: nat, sfd: bool, au: nat, block: nat, img: seq<Sector>, vsn: nat)
    requires 128 <= sectors < 0x1_0000_0000 && PowerByte(au) && PlanFor(sectors, sfd, au, block).Some?
    requires var p := PlanFor(sectors, sfd, au, block).value;
      Fits(p) && Formatted(img, p, sfd, vsn) && Usable(p)
    ensures var p := PlanFor(sectors, sfd, au, block).value;
      var geo := Expected(p);
      Holds(geo, img) &&
      var fat := Fat(geo, img);
      && Fresh(p.fmt, fat) && Chained(fat, if p.fmt == FAT32 then {[2]} else {})
      && FreeCount(fat) == p.nClst - (if p.fmt == FAT32 then 1 else 0)
      && fat[0] == Ones(p.fmt) - (if sfd then 15 else 7) && fat[1] == Ones(p.fmt)
      && (p.fmt == FAT32 ==> geo.fsiSector < |img| && FsInfo(img[geo.fsiSector]) == Some((FreeCount(fat), 2)))
  {
    hide PlanFor, Vbr, ReadBpb, Kind, Layout, Mbr, Carries, FirstFat, Fat, Fresh, FsiSector, FsInfo, Chained, Ones;
    var p := PlanFor(sectors, sfd, au, block).value;
    PlanBounds(sectors, sfd, au, block);
    VbrCarries(p, Media(sfd), vsn);
    FormatMounts(sectors, sfd, au, block, ReadBpb(img[p.bVol]));
    FreshTable(Expected(p), img, Media(sfd));
    FreshReserved(Expected(p), img, Media(sfd));
    FreshChains(p.fmt, Fat(Expected(p), img));
    if p.fmt == FAT32 {
      Unwrapped(p.nClst - 1);
      FsiIs(p.nClst - 1);
    }
  }

  datatype FormatResult = FMT_OK | FMT_INVALID_PARAMETER | FMT_DISK_ERR | FMT_MKFS_ABORTED

  const VST: seq<nat> := [1024, 512, 256, 128, 64, 32, 16, 8, 4, 2, 0]
  const CST: seq<nat> := [32768, 16384, 8192, 4096, 2048, 16384, 8192, 4096, 2048, 1024, 512]

  /** The allocation unit chosen when none is asked for: that of the largest size class the volume reaches. */
  ghost predicate AutoUnit(nVol: nat, au: nat) {
    exists i ::
      0 <= i < 11 && VST[i] <= nVol / 2000 && (forall j :: 0 <= j < i ==> nVol / 2000 < VST[j]) && au == CST[i]
  }

  /** Where the size classes of volumes begin, in sectors. */
  lemma AutoUnitIs(nVol: nat, au: nat)
    ensures AutoUnit(nVol, au) <==>
      au ==
        if nVol >= 2_048_000 then 32768 else if nVol >= 1_024_000 then 16384 else if nVol >= 512_000 then 8192
        else if nVol >= 256_000 then 4096 else if nVol >= 128_000 then 2048 else if nVol >= 64_000 then 16384
        else if nVol >= 32_000 then 8192 else if nVol >= 16_000 then 4096 else if nVol >= 8_000 then 2048
        else if nVol >= 4_000 then 1024 else 512
  {
    var i :=
      if nVol >= 2_048_000 then 0 else if nVol >= 1_024_000 then 1 else if nVol >= 512_000 then 2
      else if nVol >= 256_000 then 3 else if nVol >= 128_000 then 4 else if nVol >= 64_000 then 5
      else if nVol >= 32_000 then 6 else if nVol >= 16_000 then 7 else if nVol >= 8_000 then 8
      else if nVol >= 4_000 then 9 else 10;
    assert VST[i] <= nVol / 2000 && CST[i] ==
      if i == 0 then 32768 else if i == 1 || i == 5 then 16384 else if i == 2 || i == 6 then 8192
      else if i == 3 || i == 7 then 4096 else if i == 4 || i == 8 then 2048 else if i == 9 then 1024 else 512;
    assert forall j :: 0 <= j < i ==> nVol / 2000 < VST[j];
  }

  method ChooseUnit(nVol: nat) returns (au: nat)
    ensures AutoUnit(nVol, au) && PowerOfTwo(au)
    ensures au == 32768 || nVol < 2_048_000
  {
    var vs, i := nVol / 2000, 0;
    while vs < VST[i]
      invariant 0 <= i < 11 && forall j :: 0 <= j < i ==> vs < VST[j]
    {
      i := i + 1;
    }
    au := CST[i];
    assert PowerOfTwo(512) && PowerOfTwo(1024) && PowerOfTwo(2048) && PowerOfTwo(4096);
    assert PowerOfTwo(8192) && PowerOfTwo(16384) && PowerOfTwo(32768);
  }

  /** Works the sizes out step by step. */
  method ChooseSizes(sectors: nat, sfd: bool, au: nat, block: nat) returns (p: Option<Plan>)
    requires 128 <= sectors < 0x1_0000_0000 && PowerByte(au)
    ensures p == PlanFor(sectors, sfd, au, block)
  {
    hide Wrap, Aligned, Quot, PowerByte;
    var bVol := if sfd then 0 else 63;
    var nVol := sectors - bVol;
    var nClst := Quot(nVol, au);
    var fmt := FAT12;
    if nClst >= MIN_FAT16 { fmt := FAT16; }
    if nClst >= MIN_FAT32 { fmt := FAT32; }
    var nFat, nRsv, nDir;
    if fmt == FAT32 {
      nFat, nRsv, nDir := Wrap(nClst * 4 + 8 + 511) / 512, 32, 0;
    } else {
      nFat := if fmt == FAT12 then (nClst * 3 + 1) / 2 + 3 else nClst * 2 + 4;
      nFat := (nFat + 511) / 512;
      nRsv, nDir := 1, 32;
    }
    p := AlignSizes(bVol, nVol, au, fmt, nFat, nRsv, nDir, block);
  }

  /** The second half: alignment to erase blocks and the final count of clusters. */
  method AlignSizes(bVol: nat, nVol: nat, au: nat, fmt: FatType, fat: nat, rsv: nat, nDir: nat, block: nat)
    returns (p: Option<Plan>)
    requires PowerByte(au)
    ensures p == Aligned(bVol, nVol, au, fmt, fat, rsv, nDir, block)
  {
    hide Wrap, PowerByte, Quot, BitAnd;
    var nFat, nRsv := fat, rsv;
    var bData := bVol + nRsv + nFat + nDir;
    if nVol < bData + au - bVol { return None; }
    var n := if block == 0 || block > 32768 then 1 else block;
    n := ClearBits(bData + n - 1, n - 1) - bData;
    assert n == Pad(bVol + rsv + fat + nDir, block);
    if fmt == FAT32 { nRsv := nRsv + n; } else { nFat := nFat + n; }
    var nClst := Quot(Wrap(nVol - nRsv - nFat - nDir), au);
    if (fmt == FAT16 && nClst < MIN_FAT16) || (fmt == FAT32 && nClst < MIN_FAT32) { return None; }
    return Some(Plan(bVol, nVol, au, fmt, nRsv, nFat, nDir, nClst));
  }

  method StoreWord(a: array<byte>, p: nat, v: nat)
    requires p + 1 < a.Length
    modifies a
    ensures a[..] == PutWord(old(a[..]), p, v)
  {
    a[p] := v % 256;
    a[p + 1] := v / 0x100 % 256;
  }

  method StoreDword(a: array<byte>, p: nat, v: nat)
    requires p + 3 < a.Length
    modifies a
    ensures a[..] == PutDword(old(a[..]), p, v)
  {
    StoreWord(a, p, v);
    StoreWord(a, p + 2, v / 0x1_0000);
  }

  method StoreByte(a: array<byte>, p: nat, v: byte)
    requires p < a.Length
    modifies a
    ensures a[..] == old(a[..])[p := v]
  {
    a[p] := v;
  }

  method StoreBytes(a: array<byte>, p: nat, d: seq<byte>)
    requires p + |d| <= a.Length
    modifies a
    ensures a[..] == Splice(old(a[..]), p, d)
  {
    forall i | 0 <= i < |d| {
      a[p + i] := d[i];
    }
  }

  /** Builds the common part of the boot record. */
  method StoreHead(a: array<byte>, p: Plan, md: byte)
    requires a.Length == 512 && p.au < 256
    modifies a
    ensures a[..] == Head(p, md)
  {
    hide PutWord, PutDword, Splice;
    ClearBuffer(a);
    StoreBytes(a, 0, BOOT);
    StoreWord(a, 11, 512);
    StoreByte(a, 13, p.au);
    StoreWord(a, 14, p.nRsv);
    StoreByte(a, 16, 1);
    var i := if p.fmt == FAT32 then 0 else 512;
    StoreWord(a, 17, i);
    if p.nVol < 0x1_0000 {
      StoreWord(a, 19, p.nVol);
    } else {
      StoreDword(a, 32, p.nVol);
    }
    StoreByte(a, 21, md);
    StoreWord(a, 24, 63);
    StoreWord(a, 26, 255);
    StoreDword(a, 28, p.bVol);
  }

  /** Builds the rest of the boot record. */
  method StoreTail(a: array<byte>, p: Plan, vsn: nat)
    requires a.Length == 512
    modifies a
    ensures a[..] == Tail(old(a[..]), p, vsn)
  {
    hide PutWord, PutDword, Splice;
    if p.fmt == FAT32 {
      StoreDword(a, 67, vsn);
      StoreDword(a, 36, p.nFat);
      StoreDword(a, 44, 2);
      StoreWord(a, 48, 1);
      StoreWord(a, 50, 6);
      StoreByte(a, 64, 0x80);
      StoreByte(a, 66, 0x29);
      StoreBytes(a, 71, LABEL + FAT32_NAME);
    } else {
      StoreDword(a, 39, vsn);
      StoreWord(a, 22, p.nFat);
      StoreByte(a, 36, 0x80);
      StoreByte(a, 38, 0x29);
      StoreBytes(a, 43, LABEL + FAT_NAME);
    }
    StoreWord(a, 510, SIGNATURE);
  }

  method StoreMbr(a: array<byte>, sys: byte, nVol: nat)
    requires a.Length == 512
    modifies a
    ensures a[..] == Mbr(sys, nVol)
  {
    hide PutWord, PutDword;
    ClearBuffer(a);
    StoreByte(a, 447, 1);
    StoreByte(a, 448, 1);
    StoreByte(a, 449, 0);
    StoreByte(a, 450, sys);
    StoreByte(a, 451, 254);
    var n := (63 + nVol) / 63 / 255;
    StoreByte(a, 452, n / 4 % 256 / 64 * 64 + 63);
    StoreByte(a, 453, n % 256);
    StoreDword(a, 454, 63);
    StoreDword(a, 458, nVol);
    StoreWord(a, 510, SIGNATURE);
  }

  method StoreFirstFat(a: array<byte>, t: FatType, md: byte)
    requires a.Length == 512
    modifies a
    ensures a[..] == FirstFat(t, md)
  {
    hide PutWord, PutDword;
    ClearBuffer(a);
    if t != FAT32 {
      StoreDword(a, 0, md + if t == FAT12 then 0xFF_FF00 else 0xFFFF_FF00);
    } else {
      StoreDword(a, 0, md + 0xFFFF_FF00);
      StoreDword(a, 4, 0xFFFF_FFFF);
      StoreDword(a, 8, 0x0FFF_FFFF);
    }
  }

  /** Turns a cleared buffer into the FSInfo sector. */
  method StoreFsi(a: array<byte>, free: nat)
    requires a.Length == 512 && a[..] == Zeros()
    modifies a
    ensures a[..] == FsiSector(free)
  {
    hide PutWord, PutDword;
    StoreDword(a, 0, 0x4161_5252);
    StoreDword(a, 484, 0x6141_7272);
    StoreDword(a, 488, free);
    StoreDword(a, 492, 2);
    StoreWord(a, 510, SIGNATURE);
  }

  /** Writes n copies of a cleared buffer from sector wsect on. */
  method WriteZeros(disk: Disk, a: array<byte>, wsect: nat, n: nat) returns (r: FormatResult)
    requires a.Length == 512 && a[..] == Zeros() && AllSectors(disk.sectors)
    modifies disk`sectors, disk`failed
    ensures r == FMT_OK || (r == FMT_DISK_ERR && disk.failed)
    ensures |disk.sectors| == old(|disk.sectors|) && AllSectors(disk.sectors)
    ensures r == FMT_OK ==> AllZeros(disk.sectors, wsect, wsect + n) || n == 0
    ensures r == FMT_OK ==> forall i :: 0 <= i < |disk.sectors| && !(wsect <= i < wsect + n) ==>
      disk.sectors[i] == old(disk.sectors[i])
  {
    hide Zeros;
    for k := 0 to n
      invariant |disk.sectors| == old(|disk.sectors|) && AllSectors(disk.sectors) && a[..] == Zeros()
      invariant k == 0 || AllZeros(disk.sectors, wsect, wsect + k)
      invariant forall i :: 0 <= i < |disk.sectors| && !(wsect <= i < wsect + k) ==>
        disk.sectors[i] == old(disk.sectors[i])
    {
      var ok := disk.WriteOne(a, wsect + k);
      if !ok { return FMT_DISK_ERR; }
    }
    return FMT_OK;
  }

  /** A plan leaves room for what is written in front of the table. */
  predicate Spaced(p: Plan, sfd: bool) {
    && Fits(p) && p.au > 0 && p.bVol == (if sfd then 0 else 63)
    && (if p.fmt == FAT32 then p.nRsv >= 32 && p.nDir == 0 else p.nRsv >= 1 && p.nDir == 32)
  }

  /** Writes the partition table, unless the volume is the whole medium, and the boot records. */
  method WriteBoot(disk: Disk, win: array<byte>, p: Plan, sfd: bool, vsn: nat) returns (r: FormatResult)
    requires win.Length == 512 && Spaced(p, sfd) && AllSectors(disk.sectors)
    modifies disk, win
    ensures r == FMT_OK || (r == FMT_DISK_ERR && disk.failed)
    ensures |disk.sectors| == old(|disk.sectors|) && AllSectors(disk.sectors) && (old(disk.lost) ==> disk.lost)
    ensures r == FMT_OK ==> p.bVol < |disk.sectors| && disk.sectors[p.bVol] == Vbr(p, Media(sfd), vsn)
    ensures r == FMT_OK && !sfd ==> disk.sectors[0] == Mbr(SystemId(p.fmt, p.nVol), p.nVol)
    ensures r == FMT_OK && p.fmt == FAT32 && !disk.lost ==>
      p.bVol + 6 < |disk.sectors| && disk.sectors[p.bVol + 6] == Vbr(p, Media(sfd), vsn)
  {
    hide Mbr, Head, Tail;
    if !sfd {
      StoreMbr(win, SystemId(p.fmt, p.nVol), p.nVol);
      var ok := disk.WriteOne(win, 0);
      if !ok { return FMT_DISK_ERR; }
    }
    StoreHead(win, p, Media(sfd));
    StoreTail(win, p, vsn);
    var ok := disk.WriteOne(win, p.bVol);
    if !ok { return FMT_DISK_ERR; }
    if p.fmt == FAT32 {
      disk.CopyOne(win, p.bVol + 6);
    }
    return FMT_OK;
  }

  /** Writes the empty table and root directory. */
  method WriteArea(disk: Disk, win: array<byte>, p: Plan, md: byte) returns (r: FormatResult)
    requires win.Length == 512 && Fits(p) && p.au > 0 && (p.fmt != FAT32 ==> p.nDir > 0) && AllSectors(disk.sectors)
    requires p.fmt == FAT32 ==> p.nDir == 0
    modifies disk`sectors, disk`failed, win
    ensures r == FMT_OK || (r == FMT_DISK_ERR && disk.failed)
    ensures |disk.sectors| == old(|disk.sectors|) && AllSectors(disk.sectors)
    ensures r == FMT_OK ==>
      && win[..] == Zeros() && p.bVol + p.nRsv < Cleared(p) <= |disk.sectors|
      && disk.sectors[p.bVol + p.nRsv] == FirstFat(p.fmt, md)
      && AllZeros(disk.sectors, p.bVol + p.nRsv + 1, Cleared(p))
      && forall i :: 0 <= i < p.bVol + p.nRsv ==> disk.sectors[i] == old(disk.sectors[i])
  {
    hide Zeros, FirstFat;
    var wsect := p.bVol + p.nRsv;
    StoreFirstFat(win, p.fmt, md);
    var ok := disk.WriteOne(win, wsect);
    if !ok { return FMT_DISK_ERR; }
    ClearBuffer(win);
    r := WriteZeros(disk, win, wsect + 1, p.Table() - 1);
    if r != FMT_OK { return; }
    r := WriteZeros(disk, win, wsect + p.Table(), if p.fmt == FAT32 then p.au else p.nDir);
  }

  /** Writes everything a plan asks for. */
  method Install(disk: Disk, win: array<byte>, p: Plan, sfd: bool, vsn: nat) returns (r: FormatResult)
    requires win.Length == 512 && Spaced(p, sfd) && AllSectors(disk.sectors)
    modifies disk, win
    ensures r == FMT_OK || (r == FMT_DISK_ERR && disk.failed)
    ensures |disk.sectors| == old(|disk.sectors|)
    ensures r == FMT_OK && !disk.lost ==> Formatted(disk.sectors, p, sfd, vsn)
  {
    hide Vbr, Mbr, FirstFat, FsiSector, Zeros, Wrap;
    r := WriteBoot(disk, win, p, sfd, vsn);
    if r != FMT_OK { return; }
    r := WriteArea(disk, win, p, Media(sfd));
    if r != FMT_OK { return; }
    if p.fmt == FAT32 {
      StoreFsi(win, Wrap(p.nClst - 1));
      disk.CopyOne(win, p.bVol + 1);
      disk.CopyOne(win, p.bVol + 7);
    }
  }

  lemma PlanSpaced(sectors: nat, sfd: bool, au: nat, block: nat)
    requires 128 <= sectors < 0x1_0000_0000 && PowerByte(au) && PlanFor(sectors, sfd, au, block).Some?
    ensures Spaced(PlanFor(sectors, sfd, au, block).value, sfd)
  {
    hide PlanFor, TableSectors, PowerByte;
    PlanBounds(sectors, sfd, au, block);
    PowerSmall(au);
  }

  /** f_mkfs, once the medium is ready; au is the allocation unit in bytes, 0 for an automatic choice. */
  method Format(disk: Disk, win: array<byte>, sfd: bool, au: nat, block: nat, vsn: nat)
    returns (r: FormatResult, p: Option<Plan>)
    requires win.Length == 512 && AllSectors(disk.sectors) && |disk.sectors| < 0x1_0000_0000
    modifies disk, win
    ensures r == FMT_INVALID_PARAMETER <==> au != 0 && !PowerOfTwo(au)
    ensures r == FMT_OK || r == FMT_INVALID_PARAMETER || r == FMT_MKFS_ABORTED || r == FMT_DISK_ERR
    ensures |disk.sectors| == old(|disk.sectors|)
    ensures r == FMT_OK ==>
      && p.Some? && Fits(p.value) && 128 <= |disk.sectors| && PowerByte(p.value.au)
      && p == PlanFor(|disk.sectors|, sfd, p.value.au, block)
      && (au != 0 ==> p.value.au == UnitSectors(au))
      && (au == 0 ==> exists unit :: AutoUnit(p.value.nVol, unit) && p.value.au == UnitSectors(unit))
      && (au == 0 ==> (Usable(p.value) <==> p.value.nVol >= p.value.System() + p.value.au))
    ensures r == FMT_OK && !disk.lost ==> Formatted(disk.sectors, p.value, sfd, vsn)
  {
    hide PlanFor, Formatted, AutoUnit, PowerByte;
    p := None;
    if au != 0 && !PowerOfTwo(au) { return FMT_INVALID_PARAMETER, p; }
    var sectors := |disk.sectors|;
    if sectors < 128 { return FMT_DISK_ERR, p; }
    var nVol := sectors - if sfd then 0 else 63;
    var unit := au;
    if unit == 0 {
      unit := ChooseUnit(nVol);
    }
    UnitIsPower(unit);
    var n := UnitSectors(unit);
    p := ChooseSizes(sectors, sfd, n, block);
    if p.None? { return FMT_MKFS_ABORTED, p; }
    PlanBounds(sectors, sfd, n, block);
    if au == 0 { AutoLimit(sectors, sfd, unit, block); }
    PlanSpaced(sectors, sfd, n, block);
    r := Install(disk, win, p.value, sfd, vsn);
  }

  /** The automatic choice never gives more clusters than FAT32 can number. */
  lemma AutoLimit(sectors: nat, sfd: bool, unit: nat, block: nat)
    requires 128 <= sectors < 0x1_0000_0000 && PowerByte(UnitSectors(unit))
    requires unit == 32768 || sectors - (if sfd then 0 else 63) < 2_048_000
    requires PlanFor(sectors, sfd, UnitSectors(unit), block).Some?
    ensures var p := PlanFor(sectors, sfd, UnitSectors(unit), block).value;
      Usable(p) <==> p.nVol >= p.System() + p.au
  {
    hide PlanFor, TableSectors, Wrap;
    var p := PlanFor(sectors, sfd, UnitSectors(unit), block).value;
    PlanBounds(sectors, sfd, UnitSectors(unit), block);
    if p.nVol >= p.System() + p.au {
      Unwrapped(p.nVol - p.System());
      if unit == 32768 {
        assert p.au == 64;
      } else {
        QuotTimes(p.nVol - p.System(), p.au);
      }
    }
  }
}

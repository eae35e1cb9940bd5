/** The packed allocation table as a pure function of the sector image. */
module FatTable {
  import opened FatBytes
  import opened Octets
  import opened Arith

  datatype FatType = FAT12 | FAT16 | FAT32

  /** What mounting a volume records about its layout. */
  datatype Geometry = Geometry(
    fsType: FatType, csize: nat, nFats: nat, nRootdir: nat, nFatent: nat,
    fsize: nat, fatbase: nat, dirbase: nat, database: nat, fsiSector: nat)
  {
    /** The table has room for every entry: 12, 16 or 32 bits each. */
    predicate Roomy() {
      match fsType
      case FAT12 => 3 * nFatent <= 1024 * fsize
      case FAT16 => nFatent <= 256 * fsize
      case FAT32 => nFatent <= 128 * fsize
    }

    /** One more than the largest value an entry can hold. */
    function Width(): nat {
      match fsType
      case FAT12 => 0x1000
      case FAT16 => 0x1_0000
      case FAT32 => 0x1000_0000
    }

    /** Sectors taken by all copies of the table. */
    function FatArea(): nat {
      if nFats == 2 then fsize + fsize else fsize
    }

    /** One past the last data sector. */
    function End(): nat {
      if nFatent < 2 then database else database + Times(nFatent - 2, csize)
    }

    predicate Valid() {
      && 1 <= csize <= 128
      && 1 <= nFats <= 2
      && 3 <= nFatent <= Width() - 9
      && 1 <= fatbase
      && Roomy()
      && fatbase + FatArea() <= database
      && (fsType != FAT32 ==>
           && dirbase == fatbase + FatArea()
           && nRootdir == 16 * (database - dirbase))
    }

    predicate InFat(s: nat) {
      fatbase <= s < fatbase + fsize
    }

    /** Sectors of the second copy of the table. */
    predicate InMirror(s: nat) {
      nFats == 2 && fatbase + fsize <= s < fatbase + 2 * fsize
    }

    /** Sectors that may be edited through the window: the first table, and whatever follows the last. */
    predicate Editable(s: nat) {
      InFat(s) || fatbase + FatArea() <= s
    }

    predicate IsCluster(c: nat) {
      2 <= c < nFatent
    }

    /** First sector of a cluster, 0 for a number that names none. */
    function ClustToSect(clst: nat): nat {
      if Sub32(clst, 2) >= nFatent - 2 then 0 else Sub32(clst, 2) * csize + database
    }
  }

  /** An image large enough to hold the table. */
  predicate Holds(geo: Geometry, img: seq<Sector>) {
    geo.Valid() && geo.database <= |img| && AllSectors(img)
  }

  /** The first table as bytes. */
  function Bytes(geo: Geometry, img: seq<Sector>): (r: seq<byte>)
    requires Holds(geo, img)
    ensures |r| == 512 * geo.fsize
  {
    Flat(img[geo.fatbase..geo.fatbase + geo.fsize])
  }

  /** Equal outside the first table. */
  predicate Outside(geo: Geometry, a: seq<Sector>, b: seq<Sector>) {
    |a| == |b| && forall s :: 0 <= s < |a| && !geo.InFat(s) ==> a[s] == b[s]
  }

  lemma ByteAt(geo: Geometry, img: seq<Sector>, i: nat, j: nat)
    requires Holds(geo, img) && i < geo.fsize && j < 512
    ensures Bytes(geo, img)[512 * i + j] == img[geo.fatbase + i][j]
  {
    FlatIndex(img[geo.fatbase..geo.fatbase + geo.fsize], i, j);
  }

  lemma ByteSet(geo: Geometry, img: seq<Sector>, i: nat, j: nat, b: byte)
    requires Holds(geo, img) && i < geo.fsize && j < 512
    ensures var s := geo.fatbase + i;
      var img' := img[s := SetByte(img[s], j, b)];
      Holds(geo, img') && Outside(geo, img, img') && Bytes(geo, img') == Bytes(geo, img)[512 * i + j := b]
  {
    var s := geo.fatbase + i;
    var img' := img[s := SetByte(img[s], j, b)];
    var area := img[geo.fatbase..geo.fatbase + geo.fsize];
    FlatUpdate(area, i, j, b);
    assert img'[geo.fatbase..geo.fatbase + geo.fsize] == area[i := SetByte(area[i], j, b)];
  }

  /** Every entry lies inside the table. */
  lemma Fits12(geo: Geometry, c: nat)
    requires geo.Valid() && c < geo.nFatent && geo.fsType == FAT12
    ensures Start12(c) == c + c / 2 && Start12(c) + 1 < 512 * geo.fsize
  {
    QuotientIs(c, 2);
  }

  lemma Fits16(geo: Geometry, c: nat)
    requires geo.Valid() && c < geo.nFatent && geo.fsType == FAT16
    ensures Quotient(c, 256) == c / 256 < geo.fsize
    ensures Remainder(c, 256) == c % 256
  {
    QuotientIs(c, 256);
  }

  lemma Fits32(geo: Geometry, c: nat)
    requires geo.Valid() && c < geo.nFatent && geo.fsType == FAT32
    ensures Quotient(c, 128) == c / 128 < geo.fsize
    ensures Remainder(c, 128) == c % 128
  {
    QuotientIs(c, 128);
  }

  /** get_fat and put_fat take the offset of a FAT16 or FAT32 entry as 2c or 4c modulo the sector size. */
  lemma Half(c: nat)
    ensures c * 2 % 512 == c % 256 * 2
  {
  }

  lemma Quarter(c: nat)
    ensures c * 4 % 512 == c % 128 * 4
  {
  }

  /** Entry c of a FAT12 table from the two bytes it touches. */
  function Decode12(c: nat, b0: byte, b1: byte): nat {
    if Remainder(c, 2) == 1 then Quotient(LdWord(b0, b1), 16) else Remainder(LdWord(b0, b1), 4096)
  }

  lemma Decode12Is(c: nat, b0: byte, b1: byte)
    ensures Decode12(c, b0, b1) == if c % 2 == 1 then LdWord(b0, b1) / 16 else LdWord(b0, b1) % 4096
  {
    QuotientIs(c, 2);
    QuotientIs(LdWord(b0, b1), 16);
    QuotientIs(LdWord(b0, b1), 4096);
  }

  /** Where a FAT12 entry starts, in bytes. */
  function Start12(c: nat): nat {
    c + Quotient(c, 2)
  }

  function Entry12(t: seq<byte>, c: nat): nat
    requires Start12(c) + 1 < |t|
  {
    Decode12(c, t[Start12(c)], t[Start12(c) + 1])
  }

  function Decode16(s: Sector, p: nat): nat
    requires p + 1 < |s|
  {
    LdWord(s[p], s[p + 1])
  }

  /** A FAT32 entry: the low 28 bits of its four bytes. */
  function Decode32(s: Sector, p: nat): nat
    requires p + 3 < |s|
  {
    Remainder(LdDword(s[p], s[p + 1], s[p + 2], s[p + 3]), 0x1000_0000)
  }

  lemma Decode32Is(s: Sector, p: nat)
    requires p + 3 < |s|
    ensures Decode32(s, p) == LdDword(s[p], s[p + 1], s[p + 2], s[p + 3]) % 0x1000_0000
  {
    QuotientIs(LdDword(s[p], s[p + 1], s[p + 2], s[p + 3]), 0x1000_0000);
  }

  /** The value of entry c. */
  function Entry(geo: Geometry, img: seq<Sector>, c: nat): nat
    requires Holds(geo, img) && c < geo.nFatent
  {
    match geo.fsType
    case FAT12 => Fits12(geo, c); Entry12(Bytes(geo, img), c)
    case FAT16 => Fits16(geo, c); Decode16(img[geo.fatbase + Quotient(c, 256)], Remainder(c, 256) * 2)
    case FAT32 => Fits32(geo, c); Decode32(img[geo.fatbase + Quotient(c, 128)], Remainder(c, 128) * 4)
  }

  /** The bits of byte 3 of a FAT32 entry that belong to nobody. */
  function Reserved(geo: Geometry, img: seq<Sector>, c: nat): nat
    requires Holds(geo, img) && c < geo.nFatent && geo.fsType == FAT32
  {
    Fits32(geo, c);
    img[geo.fatbase + Quotient(c, 128)][Remainder(c, 128) * 4 + 3] / 16
  }

  /** How entries lie in the table: three bytes for two, two bytes for one, or four, the least significant first. */
  lemma EntryFormat(geo: Geometry, img: seq<Sector>, c: nat)
    requires Holds(geo, img) && c < geo.nFatent
    ensures var t := Bytes(geo, img);
      match geo.fsType
      case FAT12 =>
        var o := c / 2 * 3;
        && o + c % 2 + 1 < |t|
        && Entry(geo, img, c) ==
             if c % 2 == 0 then 256 * (t[o + 1] as int % 16) + t[o] else 16 * (t[o + 2] as int) + t[o + 1] / 16
      case FAT16 => 2 * c + 1 < |t| && Entry(geo, img, c) == 256 * (t[2 * c + 1] as int) + t[2 * c]
      case FAT32 =>
        && 4 * c + 3 < |t|
        && Entry(geo, img, c) ==
             t[4 * c] as int + 0x100 * (t[4 * c + 1] as int) + 0x1_0000 * (t[4 * c + 2] as int)
             + 0x100_0000 * (t[4 * c + 3] as int % 16)
  {
    match geo.fsType
    case FAT12 => Format12(geo, img, c);
    case FAT16 => Format16(geo, img, c);
    case FAT32 => Format32(geo, img, c);
  }

  lemma Format12(geo: Geometry, img: seq<Sector>, c: nat)
    requires Holds(geo, img) && c < geo.nFatent && geo.fsType == FAT12
    ensures var t, o := Bytes(geo, img), c / 2 * 3;
      && o + c % 2 + 1 < |t|
      && Entry(geo, img, c) ==
           if c % 2 == 0 then 256 * (t[o + 1] as int % 16) + t[o] else 16 * (t[o + 2] as int) + t[o + 1] / 16
  {
    hide Bytes;
    Fits12(geo, c);
    var t, o := Bytes(geo, img), c + c / 2;
    assert o == c / 2 * 3 + c % 2;
    Decode12Is(c, t[o], t[o + 1]);
    HalfBytes(t[o], t[o + 1]);
  }

  lemma HalfBytes(x: byte, y: byte)
    ensures LdWord(x, y) / 16 == 16 * (y as int) + x / 16 && LdWord(x, y) % 4096 == 256 * (y as int % 16) + x
  {
  }

  lemma Format16(geo: Geometry, img: seq<Sector>, c: nat)
    requires Holds(geo, img) && c < geo.nFatent && geo.fsType == FAT16
    ensures var t := Bytes(geo, img);
      2 * c + 1 < |t| && Entry(geo, img, c) == 256 * (t[2 * c + 1] as int) + t[2 * c]
  {
    Fits16(geo, c);
    ByteAt(geo, img, c / 256, c % 256 * 2);
    ByteAt(geo, img, c / 256, c % 256 * 2 + 1);
    assert 512 * (c / 256) + c % 256 * 2 == 2 * c;
  }

  lemma Format32(geo: Geometry, img: seq<Sector>, c: nat)
    requires Holds(geo, img) && c < geo.nFatent && geo.fsType == FAT32
    ensures var t := Bytes(geo, img);
      && 4 * c + 3 < |t|
      && Entry(geo, img, c) ==
           t[4 * c] as int + 0x100 * (t[4 * c + 1] as int) + 0x1_0000 * (t[4 * c + 2] as int)
           + 0x100_0000 * (t[4 * c + 3] as int % 16)
  {
    hide Bytes, Decode32;
    Fits32(geo, c);
    var s, i, p := img[geo.fatbase + c / 128], c / 128, c % 128 * 4;
    assert 512 * i + p == 4 * c;
    ByteAt(geo, img, i, p);
    ByteAt(geo, img, i, p + 1);
    ByteAt(geo, img, i, p + 2);
    ByteAt(geo, img, i, p + 3);
    Decode32Is(s, p);
    LowBits(s[p], s[p + 1], s[p + 2], s[p + 3]);
  }

  lemma LowBits(a: byte, b: byte, c: byte, d: byte)
    ensures LdDword(a, b, c, d) % 0x1000_0000 ==
      a as int + 0x100 * (b as int) + 0x1_0000 * (c as int) + 0x100_0000 * (d as int % 16)
  {
    var low := a as int + 0x100 * (b as int) + 0x1_0000 * (c as int) + 0x100_0000 * (d as int % 16);
    assert LdDword(a, b, c, d) == low + 0x1000_0000 * (d as int / 16) && low < 0x1000_0000;
  }

  /** The first n entries. */
  function FatBelow(geo: Geometry, img: seq<Sector>, n: nat): (r: seq<nat>)
    requires Holds(geo, img) && n <= geo.nFatent
    ensures |r| == n
  {
    if n == 0 then [] else FatBelow(geo, img, n - 1) + [Entry(geo, img, n - 1)]
  }

  /** The whole table. */
  function Fat(geo: Geometry, img: seq<Sector>): (r: seq<nat>)
    requires Holds(geo, img)
    ensures |r| == geo.nFatent
  {
    FatBelow(geo, img, geo.nFatent)
  }

  lemma FatAt(geo: Geometry, img: seq<Sector>, c: nat)
    requires Holds(geo, img) && c < geo.nFatent
    ensures Fat(geo, img)[c] == Entry(geo, img, c)
  {
    FatBelowAt(geo, img, geo.nFatent, c);
  }

  lemma {:induction false} FatBelowAt(geo: Geometry, img: seq<Sector>, n: nat, c: nat)
    requires Holds(geo, img) && c < n <= geo.nFatent
    ensures FatBelow(geo, img, n)[c] == Entry(geo, img, c)
  {
    hide Entry;
    if c < n - 1 {
      FatBelowAt(geo, img, n - 1, c);
    }
  }

  /** First byte of a FAT12 entry: odd clusters share its low nibble with the entry before. */
  function Low12(c: nat, val: nat, b0: byte): byte {
    if c % 2 == 1 then b0 % 16 + val % 16 * 16 else val % 256
  }

  /** Second byte of a FAT12 entry: even clusters share its high nibble with the entry after. */
  function High12(c: nat, val: nat, b1: byte): byte {
    if c % 2 == 1 then val / 16 % 256 else b1 / 16 * 16 + val / 256 % 16
  }

  /** Byte k of a word or doubleword. */
  function Digit(val: nat, k: nat): byte {
    if k == 0 then val % 256 else if k == 1 then val / 0x100 % 256 else val / 0x1_0000 % 256
  }

  /** Byte 3 of a FAT32 entry after val is ORed with the reserved bits of the old byte. */
  function HighByte(val: nat, old3: byte): byte
    requires val < 0x1_0000_0000
  {
    BitOrNibble(val / 0x1000_0000, old3 / 16);
    val / 0x100_0000 % 16 + 16 * BitOr(val / 0x1000_0000, old3 / 16)
  }

  function Encode16(s: Sector, p: nat, val: nat): (r: Sector)
    requires p + 1 < |s|
    ensures |r| == |s|
  {
    s[p := Digit(val, 0)][p + 1 := Digit(val, 1)]
  }

  function Encode32(s: Sector, p: nat, val: nat): (r: Sector)
    requires p + 3 < |s| && val < 0x1_0000_0000
    ensures |r| == |s|
  {
    s[p := Digit(val, 0)][p + 1 := Digit(val, 1)][p + 2 := Digit(val, 2)][p + 3 := HighByte(val, s[p + 3])]
  }

  /** The table bytes after storing val in entry c of a FAT12 table. */
  function Put12(t: seq<byte>, c: nat, val: nat): (r: seq<byte>)
    requires Start12(c) + 1 < |t|
    ensures |r| == |t|
  {
    var o := Start12(c);
    t[o := Low12(c, val, t[o])][o + 1 := High12(c, val, t[o + 1])]
  }

  /** img2 is img with val stored in entry c: the entry's own bits change, its neighbours' bits do not. */
  predicate Stored(geo: Geometry, img: seq<Sector>, c: nat, val: nat, img2: seq<Sector>)
    requires Holds(geo, img) && c < geo.nFatent && val < 0x1_0000_0000
  {
    && Holds(geo, img2)
    && match geo.fsType
       case FAT12 =>
         Fits12(geo, c);
         Outside(geo, img, img2) && Bytes(geo, img2) == Put12(Bytes(geo, img), c, val)
       case FAT16 =>
         Fits16(geo, c);
         var i := geo.fatbase + Quotient(c, 256);
         img2 == img[i := Encode16(img[i], Remainder(c, 256) * 2, val)]
       case FAT32 =>
         Fits32(geo, c);
         var i := geo.fatbase + Quotient(c, 128);
         img2 == img[i := Encode32(img[i], Remainder(c, 128) * 4, val)]
  }

  /** An image with the second table, which nothing reads, blanked out. */
  function Blank(geo: Geometry, img: seq<Sector>): (r: seq<Sector>)
    ensures |r| == |img|
  {
    seq(|img|, s requires 0 <= s < |img| => if geo.InMirror(s) then seq(512, i => 0) else img[s])
  }

  /** Storing into one entry reads back the value cut to the entry's width, and no other entry moves. */
  lemma PackedLaw(geo: Geometry, img: seq<Sector>, c: nat, val: nat, img2: seq<Sector>)
    requires Holds(geo, img) && c < geo.nFatent && val < 0x1_0000_0000
    requires Stored(geo, img, c, val, img2)
    ensures Fat(geo, img2) == Fat(geo, img)[c := val % geo.Width()]
    ensures Outside(geo, img, img2)
  {
    forall d | 0 <= d < geo.nFatent
      ensures Entry(geo, img2, d) == if d == c then val % geo.Width() else Entry(geo, img, d)
    {
      match geo.fsType
      case FAT12 => Fits12(geo, c); Fits12(geo, d); Packed12(Bytes(geo, img), c, val, d);
      case FAT16 => Packed16(geo, img, c, val, img2, d);
      case FAT32 => Packed32(geo, img, c, val, img2, d);
    }
    TableWith(geo, img, img2, c, val % geo.Width());
    match geo.fsType
    case FAT12 =>
    case FAT16 => Fits16(geo, c);
    case FAT32 => Fits32(geo, c);
  }

  /** A table that differs in one entry. */
  lemma TableWith(geo: Geometry, a: seq<Sector>, b: seq<Sector>, c: nat, x: nat)
    requires Holds(geo, a) && Holds(geo, b) && c < geo.nFatent
    requires forall d :: 0 <= d < geo.nFatent ==> Entry(geo, b, d) == if d == c then x else Entry(geo, a, d)
    ensures Fat(geo, b) == Fat(geo, a)[c := x]
  {
    hide Entry, Fat;
    forall d | 0 <= d < geo.nFatent ensures Fat(geo, b)[d] == Fat(geo, a)[c := x][d] {
      FatAt(geo, a, d);
      FatAt(geo, b, d);
    }
  }

  lemma DecodeOdd12(b0: byte, val: nat)
    ensures (b0 % 16 + val % 16 * 16 + 256 * (val / 16 % 256)) / 16 == val % 4096
  {
    var v := val % 4096;
    assert val % 16 == v % 16 && val / 16 % 256 == v / 16;
  }

  lemma TwelveBits(val: nat)
    ensures val % 256 + 256 * (val / 256 % 16) == val % 4096
  {
    assert val == 256 * (val / 256) + val % 256;
    assert val / 256 == 16 * (val / 256 / 16) + val / 256 % 16;
  }

  lemma DropHigh(low: nat, q: nat)
    requires low < 4096
    ensures (low + 4096 * q) % 4096 == low
  {
  }

  lemma DecodeEven12(b1: byte, val: nat)
    ensures (val % 256 + 256 * (b1 / 16 * 16 + val / 256 % 16)) % 4096 == val % 4096
  {
    TwelveBits(val);
    DropHigh(val % 4096, b1 / 16);
  }

  lemma NeighbourBefore(x: byte, y: byte, k: nat)
    requires k < 16
    ensures LdWord(x, y % 16 + k * 16) % 4096 == LdWord(x, y) % 4096
  {
    assert LdWord(x, y) == (x as int + 256 * (y as int % 16)) + 4096 * (y as int / 16);
    DropHigh(x as int + 256 * (y as int % 16), y as int / 16);
    DropHigh(x as int + 256 * (y as int % 16), k);
  }

  lemma NeighbourAfter(x: byte, y: byte, k: nat)
    requires k < 16
    ensures LdWord(x / 16 * 16 + k, y) / 16 == LdWord(x, y) / 16
  {
    DropLow(x as int % 16, x as int / 16 + 16 * (y as int));
    DropLow(k, x as int / 16 + 16 * (y as int));
    assert LdWord(x, y) == x as int % 16 + 16 * (x as int / 16 + 16 * (y as int));
  }

  lemma DropLow(low: nat, high: nat)
    requires low < 16
    ensures (low + 16 * high) / 16 == high
  {
  }

  /** The byte an entry shares with the one before keeps that one, and so does the one it shares with the one after. */
  lemma EntryBefore(c: nat, x: byte, y: byte, val: nat)
    requires c % 2 == 1
    ensures Decode12(c - 1, x, Low12(c, val, y)) == Decode12(c - 1, x, y)
  {
    hide Decode12, LdWord;
    NeighbourBefore(x, y, val % 16);
    Decode12Is(c - 1, x, y);
    Decode12Is(c - 1, x, Low12(c, val, y));
  }

  lemma EntryAfter(c: nat, x: byte, y: byte, val: nat)
    requires c % 2 == 0
    ensures Decode12(c + 1, High12(c, val, x), y) == Decode12(c + 1, x, y)
  {
    hide Decode12, LdWord;
    NeighbourAfter(x, y, val / 256 % 16);
    Decode12Is(c + 1, x, y);
    Decode12Is(c + 1, High12(c, val, x), y);
  }

  /** The two bytes of a FAT12 entry carry its value. */
  lemma Codec12(c: nat, val: nat, b0: byte, b1: byte)
    ensures Decode12(c, Low12(c, val, b0), High12(c, val, b1)) == val % 4096
  {
    Decode12Is(c, Low12(c, val, b0), High12(c, val, b1));
    if c % 2 == 1 {
      DecodeOdd12(b0, val);
    } else {
      DecodeEven12(b1, val);
    }
  }

  /** FAT12 entries overlap only a neighbour of the other parity. */
  lemma Overlap12(c: nat, d: nat)
    ensures c + c / 2 == d + d / 2 <==> c == d
    ensures d + d / 2 + 1 == c + c / 2 <==> d + 1 == c && c % 2 == 1
    ensures d + d / 2 == c + c / 2 + 1 <==> d == c + 1 && c % 2 == 0
  {
  }

  lemma Packed12(t: seq<byte>, c: nat, val: nat, d: nat)
    requires Start12(c) + 1 < |t| && Start12(d) + 1 < |t|
    ensures Entry12(Put12(t, c, val), d) == if d == c then val % 4096 else Entry12(t, d)
  {
    hide Decode12, Low12, High12;
    QuotientIs(c, 2);
    QuotientIs(d, 2);
    Overlap12(c, d);
    var x, y := t[d + d / 2], t[d + d / 2 + 1];
    if d == c {
      Codec12(c, val, x, y);
    } else if d + 1 == c && c % 2 == 1 {
      EntryBefore(c, x, y, val);
    } else if d == c + 1 && c % 2 == 0 {
      EntryAfter(c, x, y, val);
    }
  }

  /** The first of the two bytes alone changes no other entry. */
  lemma HalfPacked12(t: seq<byte>, c: nat, val: nat, d: nat)
    requires Start12(c) + 1 < |t| && Start12(d) + 1 < |t| && d != c
    ensures Entry12(t[Start12(c) := Low12(c, val, t[Start12(c)])], d) == Entry12(t, d)
  {
    hide Decode12, Low12;
    QuotientIs(c, 2);
    QuotientIs(d, 2);
    Overlap12(c, d);
    if d + 1 == c && c % 2 == 1 {
      EntryBefore(c, t[d + d / 2], t[d + d / 2 + 1], val);
    }
  }

  lemma Word(val: nat)
    ensures LdWord(Digit(val, 0), Digit(val, 1)) == val % 0x1_0000
  {
    assert val == 256 * (val / 256) + val % 256;
    assert val / 256 == 256 * (val / 256 / 256) + val / 256 % 256;
  }

  lemma Codec16(s: Sector, p: nat, val: nat, q: nat)
    requires p + 1 < |s| && q + 1 < |s| && (p == q || p + 1 < q || q + 1 < p)
    ensures Decode16(Encode16(s, p, val), q) == if p == q then val % 0x1_0000 else Decode16(s, q)
  {
    Word(val);
  }

  lemma Slots16(c: nat, d: nat)
    requires c / 256 == d / 256 && c != d
    ensures c % 256 * 2 + 1 < d % 256 * 2 || d % 256 * 2 + 1 < c % 256 * 2
  {
  }

  lemma Packed16(geo: Geometry, img: seq<Sector>, c: nat, val: nat, img2: seq<Sector>, d: nat)
    requires Holds(geo, img) && c < geo.nFatent && d < geo.nFatent && val < 0x1_0000_0000 && geo.fsType == FAT16
    requires Stored(geo, img, c, val, img2)
    ensures Entry(geo, img2, d) == if d == c then val % 0x1_0000 else Entry(geo, img, d)
  {
    Fits16(geo, c);
    Fits16(geo, d);
    if c / 256 == d / 256 {
      if c != d {
        Slots16(c, d);
      }
      Codec16(img[geo.fatbase + c / 256], c % 256 * 2, val, d % 256 * 2);
    }
  }

  lemma LowThree(val: nat)
    ensures Digit(val, 0) as int + 0x100 * (Digit(val, 1) as int) + 0x1_0000 * (Digit(val, 2) as int) ==
      val % 0x100_0000
  {
    assert val == 256 * (val / 256) + val % 256;
    assert val / 256 == 256 * (val / 0x1_0000) + val / 256 % 256;
    assert val / 0x1_0000 == 256 * (val / 0x100_0000) + val / 0x1_0000 % 256;
  }

  lemma LowDigits(low: nat, h: nat, val: nat)
    requires low == val % 0x100_0000 && h % 16 == val / 0x100_0000 % 16
    ensures (low + 0x100_0000 * h) % 0x1000_0000 == val % 0x1000_0000
  {
    assert low + 0x100_0000 * h == (low + 0x100_0000 * (h % 16)) + 0x1000_0000 * (h / 16);
  }

  /** The four bytes of a FAT32 entry carry its value. */
  lemma Dword(val: nat, old3: byte)
    requires val < 0x1_0000_0000
    ensures LdDword(Digit(val, 0), Digit(val, 1), Digit(val, 2), HighByte(val, old3)) % 0x1000_0000 == val % 0x1000_0000
  {
    LowThree(val);
    LowDigits(val % 0x100_0000, HighByte(val, old3), val);
  }

  lemma Codec32(s: Sector, p: nat, val: nat, q: nat)
    requires p + 3 < |s| && q + 3 < |s| && (p == q || p + 3 < q || q + 3 < p) && val < 0x1_0000_0000
    ensures Decode32(Encode32(s, p, val), q) == if p == q then val % 0x1000_0000 else Decode32(s, q)
  {
    Dword(val, s[p + 3]);
    Decode32Is(Encode32(s, p, val), q);
    Decode32Is(s, q);
  }

  lemma Slots32(c: nat, d: nat)
    requires c / 128 == d / 128 && c != d
    ensures c % 128 * 4 + 3 < d % 128 * 4 || d % 128 * 4 + 3 < c % 128 * 4
  {
  }

  lemma Packed32(geo: Geometry, img: seq<Sector>, c: nat, val: nat, img2: seq<Sector>, d: nat)
    requires Holds(geo, img) && c < geo.nFatent && d < geo.nFatent && val < 0x1_0000_0000 && geo.fsType == FAT32
    requires Stored(geo, img, c, val, img2)
    ensures Entry(geo, img2, d) == if d == c then val % 0x1000_0000 else Entry(geo, img, d)
  {
    Fits32(geo, c);
    Fits32(geo, d);
    if c / 128 == d / 128 {
      if c != d {
        Slots32(c, d);
      }
      Codec32(img[geo.fatbase + c / 128], c % 128 * 4, val, d % 128 * 4);
    }
  }

  lemma Reserved32(s: Sector, p: nat, val: nat, q: nat)
    requires p + 3 < |s| && q + 3 < |s| && (p == q || p + 3 < q || q + 3 < p) && val < 0x1_0000_0000
    ensures Encode32(s, p, val)[q + 3] / 16 ==
      if p == q then BitOr(val / 0x1000_0000, s[p + 3] / 16) else s[q + 3] / 16
  {
    BitOrNibble(val / 0x1000_0000, s[p + 3] / 16);
  }

  /**
   * The reserved bits of the FAT32 entries after a store: those of the entry itself take the top bits of the value
   * besides their own, so that a value of 28 bits leaves them alone, and those of all others are as they were.
   */
  lemma ReservedKept(geo: Geometry, img: seq<Sector>, c: nat, val: nat, img2: seq<Sector>, d: nat)
    requires Holds(geo, img) && c < geo.nFatent && d < geo.nFatent && geo.fsType == FAT32
    requires val < 0x1_0000_0000 && Stored(geo, img, c, val, img2)
    ensures Reserved(geo, img2, d) ==
      if d == c then BitOr(val / 0x1000_0000, Reserved(geo, img, c)) else Reserved(geo, img, d)
    ensures val < 0x1000_0000 ==> Reserved(geo, img2, d) == Reserved(geo, img, d)
  {
    hide HighByte, Digit;
    Fits32(geo, c);
    Fits32(geo, d);
    BitOrZero(Reserved(geo, img, c));
    if c / 128 == d / 128 {
      if c != d {
        Slots32(c, d);
      }
      Reserved32(img[geo.fatbase + c / 128], c % 128 * 4, val, d % 128 * 4);
    }
  }

  lemma SameEntries(geo: Geometry, a: seq<Sector>, b: seq<Sector>)
    requires Holds(geo, a) && Holds(geo, b)
    requires forall c :: 0 <= c < geo.nFatent ==> Entry(geo, a, c) == Entry(geo, b, c)
    ensures Fat(geo, a) == Fat(geo, b)
  {
    hide Entry, Fat;
    forall c | 0 <= c < geo.nFatent ensures Fat(geo, a)[c] == Fat(geo, b)[c] {
      FatAt(geo, a, c);
      FatAt(geo, b, c);
    }
  }

  /** The table is a matter of its own sectors. */
  lemma SameFat(geo: Geometry, a: seq<Sector>, b: seq<Sector>)
    requires Holds(geo, a) && Holds(geo, b) && |a| == |b|
    requires forall i :: 0 <= i < |a| && geo.InFat(i) ==> a[i] == b[i]
    ensures Fat(geo, a) == Fat(geo, b)
  {
    assert a[geo.fatbase..geo.fatbase + geo.fsize] == b[geo.fatbase..geo.fatbase + geo.fsize];
    forall c | 0 <= c < geo.nFatent ensures Entry(geo, a, c) == Entry(geo, b, c) {
      match geo.fsType
      case FAT12 => Fits12(geo, c);
      case FAT16 => Fits16(geo, c);
      case FAT32 => Fits32(geo, c);
    }
    SameEntries(geo, a, b);
  }
}

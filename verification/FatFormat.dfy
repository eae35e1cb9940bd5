/** Formatting: the sizes f_mkfs chooses, the sectors it writes, and that mounting gets the same volume back. */
module FatFormat {
  import opened Arith
  import opened FatTable
  import opened FatMount

  /** Table entries FAT32 can number, the two reserved ones included. */
  const MAX_ENTRIES := 0x1000_0000 - 9

  predicate PowerOfTwo(n: nat) {
    n == 1 || (n > 1 && n % 2 == 0 && PowerOfTwo(n / 2))
  }

  /** Where everything goes on a volume to be made. */
  datatype Plan = Plan(
    bVol: nat, nVol: nat, au: nat, fmt: FatType, nRsv: nat, nFat: nat, nDir: nat, nClst: nat)
  {
    function System(): nat {
      nRsv + nFat + nDir
    }

    function Data(): nat {
      bVol + System()
    }

    /** Sectors written for the table: the first one in any case. */
    function Table(): nat {
      if nFat == 0 then 1 else nFat
    }
  }

  /** Sectors per cluster from an allocation unit in bytes. */
  function UnitSectors(au: nat): nat {
    if au / 512 == 0 then 1 else if au / 512 > 128 then 128 else au / 512
  }

  /** Units that are powers of two are kept from one sector to 128, and cut to that outside. */
  lemma {:induction false} UnitIsPower(au: nat)
    requires PowerOfTwo(au)
    ensures PowerByte(UnitSectors(au))
    ensures UnitSectors(au) * 512 == if au < 512 then 512 else if au > 0x1_0000 then 0x1_0000 else au
  {
    if au >= 512 {
      Half(au, au / 2);
      Half(au / 2, au / 4);
      Half(au / 4, au / 8);
      Half(au / 8, au / 16);
      Half(au / 16, au / 32);
      Half(au / 32, au / 64);
      Half(au / 64, au / 128);
      Half(au / 128, au / 256);
      Half(au / 256, au / 512);
      if au / 512 <= 128 {
        SmallPower(au / 512);
      }
    }
  }

  lemma Half(n: nat, m: nat)
    requires PowerOfTwo(n) && n >= 2 && m == n / 2
    ensures PowerOfTwo(m) && n == 2 * m
  {
  }

  lemma SmallPower(m: nat)
    requires PowerOfTwo(m) && m <= 128
    ensures PowerByte(m)
  {
    assert m == 1 || PowerOfTwo(m / 2);
    assert m < 4 || PowerOfTwo(m / 4);
  }

  /** Sectors f_mkfs gives a table for n clusters. */
  function TableSectors(t: FatType, n: nat): nat {
    match t
    case FAT12 => ((n * 3 + 1) / 2 + 3 + 511) / 512
    case FAT16 => (n * 2 + 4 + 511) / 512
    case FAT32 => Wrap(n * 4 + 8 + 511) / 512
  }

  function ReservedSectors(t: FatType): nat {
    if t == FAT32 then 32 else 1
  }

  function RootSectors(t: FatType): nat {
    if t == FAT32 then 0 else 32
  }

  /** Where erase blocks do not matter: the sizes in exact arithmetic. */
  lemma PlanIs(sectors: nat, sfd: bool, au: nat)
    requires 128 <= sectors < 0x1_0000_0000 && PowerByte(au)
    ensures var bVol := if sfd then 0 else 63;
      var n0 := (sectors - bVol) / au;
      var fmt := if n0 >= 65526 then FAT32 else if n0 >= 4086 then FAT16 else FAT12;
      var nRsv, nDir, nFat := if fmt == FAT32 then 32 else 1, if fmt == FAT32 then 0 else 512 * 32 / 512,
        TableSectors(fmt, n0);
      match PlanFor(sectors, sfd, au, 1)
      case None =>
        || sectors - bVol < nRsv + nFat + nDir + au
        || (fmt == FAT16 && (sectors - bVol - nRsv - nFat - nDir) / au < 4086)
        || (fmt == FAT32 && (sectors - bVol - nRsv - nFat - nDir) / au < 65526)
      case Some(p) =>
        && p.bVol == bVol && p.bVol + p.nVol == sectors && p.au == au && p.fmt == fmt
        && p.nRsv == nRsv && p.nFat == nFat && p.nDir == nDir
        && p.nClst == (sectors - bVol - nRsv - nFat - nDir) / au
  {
    hide TableSectors, BitAnd, Wrap;
    var bVol := if sfd then 0 else 63;
    var fmt := SubType(Quot(sectors - bVol, au));
    var system := ReservedSectors(fmt) + TableSectors(fmt, Quot(sectors - bVol, au)) + RootSectors(fmt);
    if system <= sectors - bVol {
      Unwrapped(sectors - bVol - system);
    }
  }

  /** The erase block size as f_mkfs uses it. */
  function Block(block: nat): nat {
    if block == 0 || block > 32768 then 1 else block
  }

  /** Bitwise and. */
  function BitAnd(a: nat, b: nat): (r: nat)
    ensures r <= a && r <= b
    decreases b
  {
    if b == 0 then 0 else (if a % 2 == 1 && b % 2 == 1 then 1 else 0) + 2 * BitAnd(a / 2, b / 2)
  }

  /** x & ~mask. */
  function ClearBits(x: nat, mask: nat): (r: nat)
    ensures x - mask <= r <= x
  {
    x - BitAnd(x, mask)
  }

  /** Clearing the bits below a power of two rounds down to a multiple of it. */
  lemma ClearRounds(x: nat, n: nat)
    requires PowerOfTwo(n)
    ensures ClearBits(x, n - 1) == RoundDown(x, n)
  {
    hide BitAnd, PowerOfTwo;
    MaskIsMod(x, n);
    DivParts(x, n);
  }

  lemma {:induction false} MaskIsMod(x: nat, n: nat)
    requires PowerOfTwo(n)
    ensures BitAnd(x, n - 1) == x % n
    decreases n
  {
    if n > 1 {
      var m := n / 2;
      assert n == 2 * m && (n - 1) / 2 == m - 1 && (n - 1) % 2 == 1;
      MaskIsMod(x / 2, m);
      HalfMod(x, m);
    }
  }

  lemma HalfMod(x: nat, m: nat)
    requires m > 0
    ensures x % (2 * m) == x % 2 + 2 * (x / 2 % m)
  {
    var q, r := x / 2 / m, x / 2 % m;
    DivParts(x / 2, m);
    assert q * (2 * m) == 2 * (q * m);
    DivUnique(x, q, x % 2 + 2 * r, 2 * m);
  }

  /** Sectors skipped so that the data area starts on an erase block. */
  function Pad(data: nat, block: nat): (pad: nat)
    ensures pad < Block(block)
  {
    ClearBits(data + (Block(block) - 1), Block(block) - 1) - data
  }

  /** Where erase blocks are a power of two long, the data area starts on the next one. */
  lemma PadAligns(data: nat, block: nat)
    requires PowerOfTwo(Block(block))
    ensures (data + Pad(data, block)) % Block(block) == 0
  {
    hide ClearBits, BitAnd, RoundDown, PowerOfTwo;
    var n := Block(block);
    ClearRounds(data + (n - 1), n);
    RoundedEven(data + (n - 1), n);
  }

  /**
   * The sizes of the volume, from the medium's size, the partitioning rule, the cluster size and the erase block
   * size.
   */
  function PlanFor(sectors: nat, sfd: bool, au: nat, block: nat): Option<Plan>
    requires 128 <= sectors && PowerByte(au)
  {
    var bVol := if sfd then 0 else 63;
    var nVol := sectors - bVol;
    var fmt := SubType(Quot(nVol, au));
    Aligned(bVol, nVol, au, fmt, TableSectors(fmt, Quot(nVol, au)), ReservedSectors(fmt), RootSectors(fmt), block)
  }

  /** Whole clusters of m sectors in x sectors. */
  function Quot(x: nat, m: nat): nat
    requires PowerByte(m)
  {
    x / m
  }

  /** The plan once the data area is moved to an erase block, by widening the reserved area or the table. */
  function Aligned(bVol: nat, nVol: nat, au: nat, fmt: FatType, nFat: nat, nRsv: nat, nDir: nat,
    block: nat): Option<Plan>
    requires PowerByte(au)
  {
    if nVol < nRsv + nFat + nDir + au then None
    else
      var pad := Pad(bVol + nRsv + nFat + nDir, block);
      var nRsv', nFat' := if fmt == FAT32 then nRsv + pad else nRsv, if fmt == FAT32 then nFat else nFat + pad;
      var nClst := Quot(Wrap(nVol - nRsv' - nFat' - nDir), au);
      if (fmt == FAT16 && nClst < MIN_FAT16) || (fmt == FAT32 && nClst < MIN_FAT32) then None
      else Some(Plan(bVol, nVol, au, fmt, nRsv', nFat', nDir, nClst))
  }

  /** A boot record that carries the sizes of a plan. */
  predicate Carries(b: Bpb, p: Plan) {
    && b.bytsPerSec == 512 && b.secPerClus == p.au && b.rsvdSecCnt == p.nRsv && b.numFats == 1
    && b.rootEntCnt == (if p.fmt == FAT32 then 0 else 512)
    && b.Total() == p.nVol && b.FatSize() == p.nFat
    && (p.fmt == FAT32 ==> b.rootClus == 2 && b.fsInfo == 1)
  }

  /** What mounting should find. */
  function Expected(p: Plan): Geometry {
    Geometry(p.fmt, p.au, 1, if p.fmt == FAT32 then 0 else 512, p.nClst + 2, p.nFat, p.bVol + p.nRsv,
      if p.fmt == FAT32 then 2 else p.bVol + p.nRsv + p.nFat, p.Data(), if p.fmt == FAT32 then p.bVol + 1 else 0)
  }

  /** The table f_mkfs sizes from all sectors of the volume holds every cluster of its data area. */
  lemma TableLarge(t: FatType, n0: nat, n: nat, f: nat)
    requires n <= n0 <= n + 0x200_0000 && n + 2 <= MAX_ENTRIES && f >= TableSectors(t, n0)
    ensures f >= Wrap(TableBytes(t, n + 2) + 511) / 512
  {
    hide Wrap;
    match t
    case FAT12 =>
      Unwrapped((n + 2) * 3);
      Unwrapped((n + 2) * 3 / 2 + n % 2 + 511);
      Ceiling((n0 * 3 + 1) / 2 + 3, f);
      Ceiling((n + 2) * 3 / 2 + n % 2, f);
      Odd(n, n0);
    case FAT16 =>
      Unwrapped((n + 2) * 2);
      Unwrapped((n + 2) * 2 + 511);
      Ceiling(n0 * 2 + 4, f);
      Ceiling((n + 2) * 2, f);
    case FAT32 =>
      Unwrapped(n0 * 4 + 8 + 511);
      Unwrapped((n + 2) * 4);
      Unwrapped((n + 2) * 4 + 511);
      Ceiling(n0 * 4 + 8, f);
      Ceiling((n + 2) * 4, f);
  }

  /** The table is the smallest that holds an entry for every cluster of the volume and the two reserved ones. */
  lemma TableLeast(t: FatType, n: nat)
    requires n < 0x1000_0000
    ensures var f, bits := TableSectors(t, n), if t == FAT12 then 12 else if t == FAT16 then 16 else 32;
      (n + 2) * bits <= f * 512 * 8 && (f - 1) * 512 * 8 < (n + 2) * bits
  {
    hide Wrap;
    Unwrapped(n * 4 + 8 + 511);
  }

  lemma Odd(n: nat, n0: nat)
    requires n <= n0
    ensures (n + 2) * 3 / 2 + n % 2 <= (n0 * 3 + 1) / 2 + 3 && (n + 2) % 2 == n % 2
  {
  }

  /** Upper bounds on the sizes. */
  lemma PlanBounds(sectors: nat, sfd: bool, au: nat, block: nat)
    requires 128 <= sectors < 0x1_0000_0000 && PowerByte(au) && PlanFor(sectors, sfd, au, block).Some?
    ensures var p := PlanFor(sectors, sfd, au, block).value;
      && p.bVol + p.nVol == sectors && ReservedSectors(p.fmt) <= p.nRsv < 0x1_0000
      && p.nFat < 0x1_0000_0000 && p.System() < 0x100_0000
      && (p.fmt != FAT32 ==> 0 < p.nFat < 0x1_0000) && p.nDir == RootSectors(p.fmt)
      && p.fmt == SubType(p.nVol / au) && p.au == au && p.bVol == (if sfd then 0 else 63)
      && p.nFat >= TableSectors(p.fmt, p.nVol / au)
      && p.nClst == Wrap(p.nVol - p.System()) / au
      && (p.fmt == FAT16 ==> p.nClst >= MIN_FAT16) && (p.fmt == FAT32 ==> p.nClst >= MIN_FAT32)
  {
    hide ClearBits;
    var bVol := if sfd then 0 else 63;
    SmallTable((sectors - bVol) / au);
  }

  lemma Fewer(a: nat, b: nat, m: nat)
    requires a <= b && PowerByte(m)
    ensures a / m <= b / m <= a / m + (b - a) + 1
  {
  }

  lemma SmallTable(n: nat)
    ensures TableSectors(FAT32, n) < 0x80_0001
    ensures SubType(n) == FAT12 ==> 0 < TableSectors(FAT12, n) < 0x100
    ensures SubType(n) == FAT16 ==> 0 < TableSectors(FAT16, n) < 0x200
  {
  }

  /** The data area, once moved to an erase block, still holds a cluster, and no more than FAT32 can number. */
  predicate Usable(p: Plan) {
    p.nVol >= p.System() + p.au && p.nClst + 2 <= MAX_ENTRIES
  }

  /**
   * Mounting a volume f_mkfs has made gives a sound layout exactly when its data area holds a cluster and no more than
   * FAT32 can number; it then is the sub-type, cluster size and areas that f_mkfs laid out. A volume without a cluster
   * is refused.
   */
  lemma FormatMounts(sectors: nat, sfd: bool, au: nat, block: nat, b: Bpb)
    requires 128 <= sectors < 0x1_0000_0000 && PowerByte(au) && PlanFor(sectors, sfd, au, block).Some?
    requires b.Ranged() && Carries(b, PlanFor(sectors, sfd, au, block).value)
    ensures var p := PlanFor(sectors, sfd, au, block).value;
      && (Layout(b, p.bVol).Some? && Layout(b, p.bVol).value.Valid() <==> Usable(p))
      && (Layout(b, p.bVol).Some? ==> p.nVol >= p.System() + p.au)
      && (Usable(p) ==> Layout(b, p.bVol) == Some(Expected(p)) && Expected(p).End() <= sectors)
      && (Block(block) == 1 ==> p.nVol >= p.System() + p.au)
  {
    hide Wrap, PlanFor, TableSectors, TableBytes, PowerByte, Geometry.Valid, SubType;
    PowerSmall(au);
    var p := PlanFor(sectors, sfd, au, block).value;
    PlanBounds(sectors, sfd, au, block);
    NoBlocks(sectors, sfd, au, block);
    assert b.System() == p.System();
    Unwrapped(p.nFat);
    Unwrapped(p.System());
    if Usable(p) {
      UsableMounts(p, b);
    } else if p.nVol >= p.System() + p.au {
      if Layout(b, p.bVol).Some? {
        TooMany(p, b);
      }
    } else if p.nVol >= p.System() {
      NoCluster(p.nVol - p.System(), au);
    }
  }

  /** What is known of a plan. */
  predicate Sized(p: Plan) {
    && p.bVol + p.nVol < 0x1_0000_0000 && ReservedSectors(p.fmt) <= p.nRsv
    && p.nFat < 0x1_0000_0000 && p.System() < 0x100_0000
    && p.nDir == RootSectors(p.fmt) && PowerByte(p.au) && p.fmt == SubType(p.nVol / p.au)
    && p.nFat >= TableSectors(p.fmt, p.nVol / p.au) && p.nClst == Wrap(p.nVol - p.System()) / p.au
    && (p.fmt == FAT16 ==> p.nClst >= MIN_FAT16) && (p.fmt == FAT32 ==> p.nClst >= MIN_FAT32)
  }

  lemma UsableMounts(p: Plan, b: Bpb)
    requires Sized(p) && Usable(p) && b.Ranged() && Carries(b, p)
    ensures Layout(b, p.bVol) == Some(Expected(p)) && Expected(p).Valid() && Expected(p).End() <= p.bVol + p.nVol
  {
    hide Wrap, TableSectors, TableBytes, PowerByte, Geometry.Valid, SubType;
    PowerSmall(p.au);
    assert b.System() == p.System();
    Unwrapped(p.nFat);
    Unwrapped(p.System());
    Unwrapped(p.Data());
    Unwrapped(p.bVol + p.nRsv);
    Unwrapped(p.bVol + p.nRsv + p.nFat);
    Unwrapped(p.bVol + 1);
    Unwrapped(p.nVol - p.System());
    DataClusters(p.nVol, p.System(), p.au);
    Fewer(p.nVol - p.System(), p.nVol, p.au);
    SameType(p);
    Unwrapped(p.nClst + 2);
    TableLarge(p.fmt, p.nVol / p.au, p.nClst, p.nFat);
    assert Layout(b, p.bVol) == Some(Expected(p));
    MountedIsValid(b, p.bVol);
  }

  /** With more clusters than FAT32 can number, what mounting records is not sound. */
  lemma TooMany(p: Plan, b: Bpb)
    requires Sized(p) && p.nVol >= p.System() + p.au && p.nClst + 2 > MAX_ENTRIES && b.Ranged() && Carries(b, p)
    requires Layout(b, p.bVol).Some?
    ensures !Layout(b, p.bVol).value.Valid()
  {
    hide Wrap, Layout, Geometry.Valid, Sized;
    SizedBounds(p);
    var geo := Layout(b, p.bVol).value;
    LayoutEntries(b, p.bVol);
    Unwrapped(p.nFat);
    Unwrapped(p.System());
    ClusterCount(p);
    Unwrapped(p.nClst + 2);
    if geo.Valid() {
      EntriesOf(geo);
      assert false;
    }
  }

  lemma SizedBounds(p: Plan)
    requires Sized(p)
    ensures p.nFat < 0x1_0000_0000 && p.System() < 0x100_0000 && p.nDir == RootSectors(p.fmt)
  {
  }

  lemma ClusterCount(p: Plan)
    requires Sized(p) && p.nVol >= p.System() && p.nClst + 2 > MAX_ENTRIES
    ensures p.nClst == (p.nVol - p.System()) / p.au && p.nClst + 2 < 0x1_0000_0000
  {
    hide Wrap, TableSectors;
    PowerSmall(p.au);
    Unwrapped(p.nVol - p.System());
    Fewer(p.nVol - p.System(), p.nVol, p.au);
    QuotTimes(p.nVol - p.System(), p.au);
  }

  lemma EntriesOf(geo: Geometry)
    requires geo.Valid()
    ensures geo.nFatent <= MAX_ENTRIES
  {
  }

  lemma LayoutEntries(b: Bpb, bsect: nat)
    requires Layout(b, bsect).Some?
    ensures var sysect := Wrap(b.rsvdSecCnt + Wrap(b.FatSize() * b.numFats) + b.rootEntCnt / 16);
      && 0 < b.secPerClus && sysect <= b.Total()
      && Layout(b, bsect).value.nFatent == Wrap((b.Total() - sysect) / b.secPerClus + 2)
  {
    hide Wrap, TableBytes, SubType;
  }

  lemma SameType(p: Plan)
    requires PowerByte(p.au) && p.fmt == SubType(p.nVol / p.au) && 0 < p.nClst <= p.nVol / p.au
    requires (p.fmt == FAT16 ==> p.nClst >= MIN_FAT16) && (p.fmt == FAT32 ==> p.nClst >= MIN_FAT32)
    ensures SubType(p.nClst) == p.fmt
  {
  }

  lemma DataClusters(v: nat, s: nat, m: nat)
    requires PowerByte(m) && v >= s + m
    ensures 0 < (v - s) / m <= v / m
  {
  }

  lemma NoCluster(x: nat, m: nat)
    requires PowerByte(m) && x < m
    ensures x / m == 0
  {
  }

  /** Without erase blocks the early size check settles it. */
  lemma NoBlocks(sectors: nat, sfd: bool, au: nat, block: nat)
    requires 128 <= sectors && PowerByte(au) && PlanFor(sectors, sfd, au, block).Some?
    ensures var p := PlanFor(sectors, sfd, au, block).value; Block(block) == 1 ==> p.nVol >= p.System() + p.au
  {
    hide ClearBits;
  }

  /** The sizes of a volume of 32800 sectors, in clusters of 64, on a medium with erase blocks of 32768. */
  const TRAP := Plan(0, 32800, 64, FAT12, 1, 32735, 32, 0)

  /**
   * On a medium with erase blocks, a volume that f_mkfs makes and mounting refuses. Media whose erase blocks are
   * single sectors, such as the card of this system, are not concerned.
   */
  lemma EraseBlockTrap(b: Bpb)
    requires b.Ranged() && Carries(b, TRAP)
    ensures PlanFor(32800, true, 64, 32768) == Some(TRAP) && Layout(b, TRAP.bVol) == None
  {
    hide PlanFor, Layout, Carries;
    TrapPlan();
    FormatMounts(32800, true, 64, 32768, b);
  }

  /** 384 GiB in clusters of a sector: a volume that f_mkfs makes, with more clusters than FAT32 can number. */
  const HUGE := Plan(0, 0x3000_0000, 1, FAT32, 32, 6291457, 0, 799014879)

  /** Mounting accepts it, and records numbers that its table cannot hold. */
  lemma HugeTrap(b: Bpb)
    requires b.Ranged() && Carries(b, HUGE)
    ensures PlanFor(0x3000_0000, true, 1, 1) == Some(HUGE)
    ensures Layout(b, 0).Some? && Layout(b, 0).value.nFatent > MAX_ENTRIES
  {
    hide ClearBits;
    assert TableSectors(FAT32, 0x3000_0000) == 6291457;
  }

  lemma TrapPlan()
    ensures PlanFor(32800, true, 64, 32768) == Some(TRAP)
  {
    hide Aligned;
    assert TableSectors(FAT12, 512) == 2;
    TrapAligned();
  }

  lemma TrapAligned()
    ensures Aligned(0, 32800, 64, FAT12, 2, 1, 32, 32768) == Some(TRAP)
  {
    hide ClearBits, BitAnd;
    TrapPad();
  }

  lemma TrapPad()
    ensures ClearBits(35 + 32767, 32767) == 32768
  {
    hide BitAnd, ClearBits;
    assert PowerOfTwo(32) && PowerOfTwo(1024);
    assert PowerOfTwo(32768);
    assert RoundDown(35 + 32767, 32768) == 32768;
    ClearRounds(35 + 32767, 32768);
  }
}

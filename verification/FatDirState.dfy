/** Where the entries of a directory lie, and what window accesses do to them. */
module FatDirState {
  import opened FatBytes
  import opened Octets
  import opened Arith
  import opened FatTable
  import opened FatVol
  import opened FatChain
  import opened FatLayout
  import opened FatEntries
  import opened FatAlloc

  /** Entry i of the directory whose sectors are ss. */
  function EntryOf(img: seq<Sector>, ss: seq<nat>, i: nat): (e: seq<byte>)
    requires AllSectors(img) && i / 16 < |ss| && ss[i / 16] < |img|
    ensures |e| == 32
  {
    img[ss[i / 16]][i % 16 * 32..i % 16 * 32 + 32]
  }

  function Listing(img: seq<Sector>, ss: seq<nat>): (es: seq<seq<byte>>)
    requires AllSectors(img) && forall k :: 0 <= k < |ss| ==> ss[k] < |img|
    ensures |es| == 16 * |ss| && AllEntries(es)
  {
    seq(16 * |ss|, i requires 0 <= i < 16 * |ss| => EntryOf(img, ss, i))
  }

  /** Sectors of a directory: distinct, behind the tables. */
  ghost predicate Housed(v: Vol, ss: seq<nat>) {
    && v.Valid() && Distinct(ss)
    && forall k :: 0 <= k < |ss| ==> v.geo.fatbase + v.geo.FatArea() <= ss[k] < |v.disk|
  }

  /** The entries, as the volume shows them. */
  ghost function Entries(v: Vol, ss: seq<nat>): (es: seq<seq<byte>>)
    requires Housed(v, ss)
    ensures |es| == 16 * |ss| && AllEntries(es)
  {
    ImageHolds(v);
    Listing(v.Image(), ss)
  }

  lemma SectorOk(v: Vol, s: nat)
    requires v.Valid() && v.geo.fatbase + v.geo.FatArea() <= s
    ensures s > 0 && !v.geo.InFat(s) && !v.geo.InMirror(s) && v.geo.Editable(s)
  {
  }

  /** Going from was to v touched nothing but the tables and the listed sectors. */
  ghost predicate Kept(was: Vol, v: Vol, ss: seq<nat>)
    requires was.Valid()
  {
    && v.Valid() && v.geo == was.geo && |v.Image()| == |was.Image()|
    && (forall i {:trigger v.Image()[i]} :: 0 <= i < |v.Image()| && !v.geo.InFat(i) && i !in ss ==>
          v.Image()[i] == was.Image()[i])
    && (was.lost ==> v.lost)
    && (!v.lost && was.Mirrored() ==> v.Mirrored())
  }

  lemma KeptSame(was: Vol, v: Vol, ss: seq<nat>)
    requires was.Valid() && v.Edited(was)
    ensures Kept(was, v, ss)
  {
  }

  lemma KeptTrans(a: Vol, b: Vol, c: Vol, ss: seq<nat>, ss': seq<nat>)
    requires a.Valid() && Kept(a, b, ss) && Kept(b, c, ss') && ss <= ss'
    ensures Kept(a, c, ss')
  {
    hide Vol.Valid, Vol.Image, Vol.Mirrored;
    assert forall s :: s in ss ==> s in ss';
  }

  /** Table accesses leave the entries alone. */
  lemma EntriesKept(was: Vol, v: Vol, ss: seq<nat>)
    requires Housed(was, ss) && v.Edited(was)
    ensures Housed(v, ss) && Entries(v, ss) == Entries(was, ss)
  {
    hide Blank, Vol.Mirrored;
    ImageHolds(was);
    ImageHolds(v);
    forall k | 0 <= k < |ss| ensures v.Image()[ss[k]] == was.Image()[ss[k]] {
      SectorOk(was, ss[k]);
    }
    ListingSame(was.Image(), v.Image(), ss);
  }

  lemma ListingSame(a: seq<Sector>, b: seq<Sector>, ss: seq<nat>)
    requires AllSectors(a) && AllSectors(b) && forall k :: 0 <= k < |ss| ==>
      ss[k] < |a| && ss[k] < |b| && a[ss[k]] == b[ss[k]]
    ensures Listing(a, ss) == Listing(b, ss)
  {
    forall i | 0 <= i < 16 * |ss| ensures Listing(a, ss)[i] == Listing(b, ss)[i] {
      assert a[ss[i / 16]] == b[ss[i / 16]];
    }
  }

  /** The entry in the window. */
  lemma EntryInWindow(v: Vol, ss: seq<nat>, i: nat)
    requires Housed(v, ss) && i / 16 < |ss| && v.winsect == ss[i / 16]
    ensures |v.win| == 512 && i < |Entries(v, ss)| && Entries(v, ss)[i] == v.win[i % 16 * 32..i % 16 * 32 + 32]
  {
    hide Blank, Vol.Image, Vol.Mirrored;
    SectorOk(v, ss[i / 16]);
    Shows(v);
  }

  /** Changing the window over a sector behind the tables changes that sector. */
  lemma EditBehind(v: Vol, w: Sector)
    requires v.Valid() && v.geo.fatbase + v.geo.FatArea() <= v.winsect && |w| == 512
    ensures var v' := v.(win := w, wflag := true);
      && v'.Valid() && v'.Image() == v.Image()[v.winsect := w] && v'.Table() == v.Table()
      && (v.Mirrored() ==> v'.Mirrored())
  {
    SectorOk(v, v.winsect);
    var v' := v.(win := w, wflag := true);
    assert v'.Valid();
    assert v'.Image() == v.Image()[v.winsect := w];
    SameTable(v, v');
  }

  lemma SameTable(v: Vol, v': Vol)
    requires v.Valid() && v'.Valid() && v'.geo == v.geo && |v'.Image()| == |v.Image()|
    requires forall i :: 0 <= i < |v.Image()| && v.geo.InFat(i) ==> v'.Image()[i] == v.Image()[i]
    ensures v'.Table() == v.Table()
  {
    hide Blank, Vol.Image, Vol.Mirrored, Vol.Valid;
    ImageHolds(v);
    ImageHolds(v');
    SameFat(v.geo, v.Image(), v'.Image());
  }

  /** Writing one entry in the window changes that entry and no other. */
  lemma EntryEdit(v: Vol, ss: seq<nat>, i: nat, e: seq<byte>)
    requires Housed(v, ss) && i / 16 < |ss| && v.winsect == ss[i / 16] && |e| == 32 && |v.win| == 512
    ensures var v' := v.(win := Splice(v.win, i % 16 * 32, e), wflag := true);
      && Housed(v', ss) && Kept(v, v', ss) && v'.Table() == v.Table()
      && Entries(v', ss) == Entries(v, ss)[i := e]
  {
    hide Blank, Vol.Mirrored, Splice, Fat, Geometry.Valid, Holds, Vol.Table;
    var k, w := i / 16, Splice(v.win, i % 16 * 32, e);
    var v' := v.(win := w, wflag := true);
    EditBehind(v, w);
    SectorOk(v, v.winsect);
    Shows(v);
    ImageHolds(v);
    ImageHolds(v');
    EntrySet(v.Image(), ss, i, e);
    assert ss[k] in ss;
  }

  lemma EntrySet(img: seq<Sector>, ss: seq<nat>, i: nat, e: seq<byte>)
    requires AllSectors(img) && (forall k :: 0 <= k < |ss| ==> ss[k] < |img|) && Distinct(ss)
    requires i / 16 < |ss| && |e| == 32
    ensures var s := ss[i / 16];
      var img' := img[s := Splice(img[s], i % 16 * 32, e)];
      AllSectors(img') && Listing(img', ss) == Listing(img, ss)[i := e]
  {
    var s := ss[i / 16];
    var img' := img[s := Splice(img[s], i % 16 * 32, e)];
    forall j | 0 <= j < 16 * |ss| ensures Listing(img', ss)[j] == Listing(img, ss)[i := e][j] {
      if j / 16 == i / 16 {
        Piece(img[s], i % 16, e, j % 16);
      } else {
        assert ss[j / 16] != ss[i / 16];
      }
    }
  }

  lemma Piece(w: Sector, p: nat, e: seq<byte>, q: nat)
    requires |w| == 512 && p < 16 && q < 16 && |e| == 32
    ensures Splice(w, p * 32, e)[q * 32..q * 32 + 32] == if p == q then e else w[q * 32..q * 32 + 32]
  {
  }

  /** A clean window aimed at a sector behind the tables and marked dirty stands for writing its content there. */
  lemma Arm(u: Vol, s: nat)
    requires u.Valid() && !u.wflag && u.geo.fatbase + u.geo.FatArea() <= s < |u.disk|
    ensures var v := u.(winsect := s, wflag := true);
      v.Valid() && v.Image() == u.Image()[s := u.win] && (u.Mirrored() ==> v.Mirrored())
  {
    hide Geometry.Valid, AllSectors;
    SectorOk(u, s);
    var v := u.(winsect := s, wflag := true);
    assert v.Valid();
    assert v.Image() == u.Image()[s := u.win];
  }

  /** A clean window may forget where it was and hold anything. */
  lemma Disarm(v: Vol, w: Sector)
    requires v.Valid() && !v.wflag && |w| == 512
    ensures var u := v.(winsect := 0, win := w);
      u.Valid() && u.Image() == v.Image() && u.Mirrored() == v.Mirrored()
  {
    hide Geometry.Valid, AllSectors;
    Holding(v);
  }

  lemma Holding(v: Vol)
    requires v.Valid()
    ensures 0 < |v.disk|
  {
  }

  /** A clean window may say where it is if that sector has its content. */
  lemma Rearm(u: Vol, s: nat)
    requires u.Valid() && !u.wflag && u.geo.fatbase + u.geo.FatArea() <= s < |u.disk| && u.Image()[s] == u.win
    ensures u.(winsect := s).Valid() && u.(winsect := s).Image() == u.Image()
    ensures u.(winsect := s).Mirrored() == u.Mirrored()
  {
    hide Geometry.Valid, AllSectors;
    SectorOk(u, s);
  }

  /** img2 is img with n sectors from b on zeroed. */
  ghost predicate Zeroed(img: seq<Sector>, img2: seq<Sector>, b: nat, n: nat) {
    && |img2| == |img| && b + n <= |img|
    && forall i :: 0 <= i < |img| ==> img2[i] == if b <= i < b + n then Zeros() else img[i]
  }

  lemma ZeroedStart(img: seq<Sector>, b: nat)
    requires b <= |img|
    ensures Zeroed(img, img, b, 0)
  {
  }

  lemma ZeroedNext(img: seq<Sector>, img2: seq<Sector>, b: nat, n: nat)
    requires Zeroed(img, img2, b, n) && b + n < |img|
    ensures Zeroed(img, img2[b + n := Zeros()], b, n + 1)
  {
  }

  /** Zeroing data sectors touches nothing else. */
  lemma ZeroedKept(was: Vol, v: Vol, b: nat, n: nat)
    requires was.Valid() && v.Valid() && v.geo == was.geo && was.geo.database <= b
    requires Zeroed(was.Image(), v.Image(), b, n)
    requires (was.lost ==> v.lost) && (!v.lost && was.Mirrored() ==> v.Mirrored())
    ensures Kept(was, v, Run(b, n)) && v.Table() == was.Table()
  {
    hide Blank, Vol.Mirrored, Vol.Image, Vol.Table;
    forall i | b <= i < b + n ensures i in Run(b, n) {
      assert Run(b, n)[i - b] == i;
    }
    SameTable(was, v);
  }

  /** A zeroed cluster appended to the chain appends never-used entries to the directory. */
  lemma ZeroedGrows(img: seq<Sector>, img2: seq<Sector>, ss: seq<nat>, b: nat, n: nat)
    requires AllSectors(img) && AllSectors(img2) && (forall k :: 0 <= k < |ss| ==> ss[k] < |img|)
    requires Zeroed(img, img2, b, n) && forall k :: 0 <= k < |ss| ==> !(b <= ss[k] < b + n)
    ensures Listing(img2, ss + Run(b, n)) == Listing(img, ss) + Nones(16 * n)
  {
    var all := ss + Run(b, n);
    var l, r := Listing(img2, all), Listing(img, ss) + Nones(16 * n);
    forall i | 0 <= i < |l| ensures l[i] == r[i] {
      if i >= 16 * |ss| {
        assert all[i / 16] == b + (i / 16 - |ss|);
      }
    }
  }

  /** Never-used entries. */
  function Nones(n: nat): (es: seq<seq<byte>>)
    ensures |es| == n && AllEntries(es) && forall i :: 0 <= i < n ==> es[i][0] == 0
  {
    seq(n, i => seq(32, j => 0))
  }

  /** The sectors of a directory: the root directory's own area, or the chain's. */
  function DirSects(geo: Geometry, ch: seq<nat>): seq<nat>
    requires Clusters(geo, ch)
  {
    if ch == [] then Run(geo.dirbase, geo.nRootdir / 16) else Sects(geo, ch)
  }

  lemma ChainQuotient(geo: Geometry, ch: seq<nat>, k: nat)
    requires Clusters(geo, ch) && geo.csize >= 1 && k < |Sects(geo, ch)|
    ensures Quotient(k, geo.csize) < |ch|
  {
    hide Sects;
    TimesIs(|ch|, geo.csize);
    QuotientIs(k, geo.csize);
    QuotBound(k, |ch|, geo.csize);
  }

  /** The cluster of entry i, 0 in the static root directory. */
  function DirClust(geo: Geometry, ch: seq<nat>, i: nat): nat
    requires Clusters(geo, ch) && geo.csize >= 1 && i / 16 < |DirSects(geo, ch)|
  {
    if ch == [] then 0 else
      ChainQuotient(geo, ch, i / 16);
      ch[Quotient(i / 16, geo.csize)]
  }

  /** First cluster of the table a directory object starts from. */
  function StartOf(geo: Geometry, sclust: nat): nat {
    if sclust == 0 && geo.fsType == FAT32 then geo.dirbase else sclust
  }

  /** A directory on a volume: the static root directory, or a chain among the others. */
  ghost predicate Present(v: Vol, sclust: nat, ch: seq<nat>, others: set<seq<nat>>) {
    && v.Valid() && v.geo.End() <= |v.disk|
    && sclust != 1 && sclust < v.geo.nFatent
    && (if ch == [] then sclust == 0 && v.geo.fsType != FAT32
        else Chained(v.Table(), others + {ch}) && ch !in others && ch[0] == StartOf(v.geo, sclust))
  }

  /** Only the root directory starts nowhere; FAT32 keeps it in a chain, from the cluster the boot record names. */
  lemma RootIs(v: Vol, sclust: nat, ch: seq<nat>, others: set<seq<nat>>)
    requires Present(v, sclust, ch, others)
    ensures ch == [] <==> sclust == 0 && v.geo.fsType != FAT32
    ensures ch != [] ==> ch[0] == if sclust == 0 then v.geo.dirbase else sclust
  {
    hide Vol.Table, Vol.Valid;
    if ch != [] {
      assert ch in others + {ch};
    }
  }

  lemma PresentIs(v: Vol, sclust: nat, ch: seq<nat>, others: set<seq<nat>>)
    requires Present(v, sclust, ch, others)
    ensures v.Valid() && Clusters(v.geo, ch) && v.geo.csize >= 1 && Housed(v, DirSects(v.geo, ch))
    ensures |v.Table()| == v.geo.nFatent
    ensures ch != [] ==> IsChain(v.Table(), ch) && Distinct(ch)
    ensures ch == [] ==> v.geo.nRootdir == 16 * |DirSects(v.geo, ch)| && v.geo.fsType != FAT32
  {
    hide Fat, Blank, Vol.Table, Base;
    if ch != [] {
      assert ch in others + {ch};
      ClustersOf(v.geo, v.Table(), ch);
      ChainDistinct(v.Table(), ch);
      SectsDistinct(v.geo, ch);
    } else {
      RootArea(v.geo);
    }
  }

  lemma ClustersOf(geo: Geometry, fat: seq<nat>, ch: seq<nat>)
    requires IsChain(fat, ch) && |fat| == geo.nFatent
    ensures Clusters(geo, ch)
  {
  }

  lemma RootArea(geo: Geometry)
    requires geo.Valid() && geo.fsType != FAT32
    ensures geo.nRootdir % 16 == 0 && geo.dirbase == geo.fatbase + geo.FatArea()
    ensures geo.dirbase + geo.nRootdir / 16 == geo.database
  {
  }

  /** The cursor of a directory object is at entry i. */
  ghost predicate AtEntry(geo: Geometry, ch: seq<nat>, i: nat, clust: nat, sect: nat) {
    && geo.csize >= 1 && Clusters(geo, ch) && i / 16 < |DirSects(geo, ch)|
    && sect == DirSects(geo, ch)[i / 16] && clust == DirClust(geo, ch, i)
  }

  lemma Succ(k: nat, m: nat)
    requires m >= 1
    ensures (k + 1) % m != 0 ==> (k + 1) / m == k / m && (k + 1) % m == k % m + 1
    ensures (k + 1) % m == 0 ==> (k + 1) / m == k / m + 1
  {
    DivParts(k, m);
    MulMono(0, k / m, m);
    SuccOf(k, k / m, k % m, m);
  }

  lemma SuccOf(k: nat, q: nat, r: nat, m: nat)
    requires k == q * m + r && r < m
    ensures r + 1 < m ==> (k + 1) / m == q && (k + 1) % m == r + 1
    ensures r + 1 == m ==> (k + 1) / m == q + 1 && (k + 1) % m == 0
  {
    if r + 1 < m {
      DivUnique(k + 1, q, r + 1, m);
    } else {
      MulSplit(q, 1, m);
      DivUnique(k + 1, q + 1, 0, m);
    }
  }

  lemma ChainPos(geo: Geometry, ch: seq<nat>, k: nat)
    requires Clusters(geo, ch) && geo.csize >= 1 && k < |Sects(geo, ch)|
    ensures k / geo.csize == Quotient(k, geo.csize) < |ch|
    ensures Sects(geo, ch)[k] == Base(geo, ch[Quotient(k, geo.csize)]) + k % geo.csize
  {
    hide Sects, Base;
    ChainQuotient(geo, ch, k);
    QuotientIs(k, geo.csize);
    DivParts(k, geo.csize);
    SectsAt(geo, ch, k / geo.csize, k % geo.csize);
  }

  lemma InSpace(geo: Geometry, ch: seq<nat>, k: nat)
    requires Clusters(geo, ch) && geo.csize >= 1 && k / geo.csize < |ch|
    ensures k < |Sects(geo, ch)|
  {
    hide Sects, Base;
    DivParts(k, geo.csize);
    SectsAt(geo, ch, k / geo.csize, k % geo.csize);
  }

  /** Within a sector. */
  lemma StepInSector(geo: Geometry, ch: seq<nat>, i: nat, clust: nat, sect: nat)
    requires AtEntry(geo, ch, i, clust, sect) && (i + 1) % 16 != 0
    ensures AtEntry(geo, ch, i + 1, clust, sect)
  {
    assert (i + 1) / 16 == i / 16;
  }

  /** To the next sector of the static table, or to its end. */
  lemma StepStatic(geo: Geometry, i: nat, sect: nat)
    requires AtEntry(geo, [], i, 0, sect) && (i + 1) % 16 == 0 && geo.nRootdir % 16 == 0
    ensures i + 1 < geo.nRootdir ==> AtEntry(geo, [], i + 1, 0, sect + 1)
    ensures i + 1 >= geo.nRootdir <==> i + 1 == 16 * |DirSects(geo, [])|
  {
    assert (i + 1) / 16 == i / 16 + 1;
  }

  /** Entry i, the first of its sector, is the first of its cluster. */
  predicate BeginsCluster(geo: Geometry, i: nat)
    requires geo.csize >= 1
  {
    Remainder(i / 16, geo.csize) == 0
  }

  /** The next entry begins a cluster. */
  predicate LeavesCluster(geo: Geometry, i: nat)
    requires geo.csize >= 1
  {
    (i + 1) % 16 == 0 && BeginsCluster(geo, i + 1)
  }

  /** To the next sector of a cluster. */
  lemma StepSector(geo: Geometry, ch: seq<nat>, i: nat, clust: nat, sect: nat)
    requires AtEntry(geo, ch, i, clust, sect) && ch != [] && (i + 1) % 16 == 0 && !BeginsCluster(geo, i + 1)
    ensures AtEntry(geo, ch, i + 1, clust, sect + 1)
  {
    hide Sects, Base;
    var k := i / 16;
    assert (i + 1) / 16 == k + 1;
    Succ(k, geo.csize);
    QuotientIs(k + 1, geo.csize);
    ChainPos(geo, ch, k);
    InSpace(geo, ch, k + 1);
    ChainPos(geo, ch, k + 1);
  }

  /** To the first sector of the next cluster, or to the end of the chain; q is the position of the current cluster. */
  lemma StepCluster(geo: Geometry, ch: seq<nat>, i: nat, clust: nat, sect: nat) returns (q: nat)
    requires AtEntry(geo, ch, i, clust, sect) && ch != [] && LeavesCluster(geo, i)
    ensures q < |ch| && clust == ch[q]
    ensures q + 1 < |ch| ==> AtEntry(geo, ch, i + 1, ch[q + 1], Base(geo, ch[q + 1])) && i + 1 < 16 * |Sects(geo, ch)|
    ensures q + 1 == |ch| ==> i + 1 == 16 * |Sects(geo, ch)|
  {
    hide Sects, Base;
    var k := i / 16;
    assert (i + 1) / 16 == k + 1;
    Succ(k, geo.csize);
    QuotientIs(k + 1, geo.csize);
    TimesIs(|ch|, geo.csize);
    ChainPos(geo, ch, k);
    q := k / geo.csize;
    if q + 1 < |ch| {
      InSpace(geo, ch, k + 1);
      ChainPos(geo, ch, k + 1);
    } else {
      DivParts(k + 1, geo.csize);
    }
  }

  /** The first entry of a cluster just appended. */
  lemma StepNew(geo: Geometry, ch: seq<nat>, c: nat, i: nat)
    requires Clusters(geo, ch) && geo.csize >= 1 && geo.IsCluster(c) && i == 16 * |Sects(geo, ch)|
    ensures AtEntry(geo, ch + [c], i, c, Base(geo, c))
  {
    var k := |Sects(geo, ch)|;
    SectsGrow(geo, ch, c);
    TimesIs(|ch|, geo.csize);
    QuotientIs(k, geo.csize);
    DivUnique(k, |ch|, 0, geo.csize);
    assert i / 16 == k;
  }

  /** Table accesses that change no entry of the table leave a directory present. */
  lemma PresentKept(v: Vol, v2: Vol, sclust: nat, ch: seq<nat>, others: set<seq<nat>>)
    requires Present(v, sclust, ch, others) && v2.Edited(v) && v2.Table() == v.Table()
    ensures Present(v2, sclust, ch, others)
    ensures Housed(v, DirSects(v.geo, ch)) && Housed(v2, DirSects(v.geo, ch))
    ensures Entries(v2, DirSects(v.geo, ch)) == Entries(v, DirSects(v.geo, ch))
  {
    hide Blank, Fat, Vol.Table, Chained;
    PresentIs(v, sclust, ch, others);
    EntriesKept(v, v2, DirSects(v.geo, ch));
  }

  lemma EditedGeo(v: Vol, was: Vol)
    requires was.Valid() && v.Edited(was)
    ensures v.Valid() && v.geo == was.geo && |v.disk| == |was.disk|
  {
  }

  /** Entry rem of cluster q. */
  lemma InCluster(geo: Geometry, ch: seq<nat>, q: nat, rem: nat)
    requires Clusters(geo, ch) && geo.csize >= 1 && q < |ch| && rem < 16 * geo.csize
    ensures var i := q * (16 * geo.csize) + rem;
      && AtEntry(geo, ch, i, ch[q], Base(geo, ch[q]) + rem / 16) && i % 16 == rem % 16 && i < 16 * |Sects(geo, ch)|
  {
    hide Sects, Base;
    var m := geo.csize;
    var k := q * m + rem / 16;
    Sixteen(q, m, rem);
    QuotientIs(k, m);
    DivUnique(k, q, rem / 16, m);
    SectsAt(geo, ch, q, rem / 16);
  }

  lemma Sixteen(q: nat, m: nat, rem: nat)
    ensures (q * (16 * m) + rem) / 16 == q * m + rem / 16 && (q * (16 * m) + rem) % 16 == rem % 16
  {
    assert q * (16 * m) == 16 * (q * m);
  }

  lemma AllOf(geo: Geometry, ch: seq<nat>)
    requires Clusters(geo, ch)
    ensures |ch| * (16 * geo.csize) == 16 * |Sects(geo, ch)|
  {
    TimesIs(|ch|, geo.csize);
    assert |ch| * (16 * geo.csize) == 16 * (|ch| * geo.csize);
  }

  /** Appending a free cluster to the directory's chain. */
  lemma GrowPresent(v: Vol, v1: Vol, sclust: nat, ch: seq<nat>, others: set<seq<nat>>, last: nat, ncl: nat, eoc: nat)
    requires Present(v, sclust, ch, others) && ch != [] && v1.Edited(v) && eoc >= v.geo.nFatent && ncl != 0
    requires Created(v.Table(), ch[|ch| - 1], last, eoc, ncl, v1.Table())
    requires Clusters(v.geo, ch) && v.Table()[ch[|ch| - 1]] >= v.geo.nFatent
    ensures v.geo.IsCluster(ncl) && Present(v1, sclust, ch + [ncl], others)
  {
    hide Fat, Blank, Vol.Table, Vol.Image, Vol.Mirrored, Created, Geometry.Valid;
    var fat, cs, ch' := v.Table(), others + {ch}, ch + [ncl];
    EditedGeo(v1, v);
    CreateKeepsChains(fat, cs, ch, last, eoc, ncl, v1.Table());
    assert cs - {ch} + {ch'} == others + {ch'};
    assert ch'[|ch|] == ncl;
    forall a | a in others ensures ncl !in a {
      assert a in cs;
      FreeIsOutside(fat, ncl, a);
    }
  }

  /** Zeroing the appended cluster appends never-used entries. */
  lemma GrowEntries(v: Vol, v1: Vol, v2: Vol, sclust: nat, ch: seq<nat>, others: set<seq<nat>>, ncl: nat)
    requires Present(v, sclust, ch, others) && ch != [] && v1.Edited(v) && v.geo.IsCluster(ncl)
    requires Present(v1, sclust, ch + [ncl], others)
    requires v2.Valid() && v2.geo == v1.geo && |v2.disk| == |v1.disk| && v2.Table() == v1.Table()
    requires Zeroed(v1.Image(), v2.Image(), Base(v.geo, ncl), v.geo.csize)
    requires Kept(v1, v2, Run(Base(v.geo, ncl), v.geo.csize))
    ensures Clusters(v.geo, ch) && Clusters(v.geo, ch + [ncl])
    ensures Present(v2, sclust, ch + [ncl], others) && Kept(v, v2, DirSects(v.geo, ch + [ncl]))
    ensures Housed(v, DirSects(v.geo, ch)) && Housed(v2, DirSects(v.geo, ch + [ncl]))
    ensures Entries(v2, DirSects(v.geo, ch + [ncl])) == Entries(v, DirSects(v.geo, ch)) + Nones(16 * v.geo.csize)
  {
    hide Fat, Blank, Vol.Table, Vol.Image, Vol.Mirrored, Geometry.Valid, Zeroed, Listing, Run, Base, Chained, Nones,
      Sects;
    PresentIs(v, sclust, ch, others);
    PresentIs(v1, sclust, ch + [ncl], others);
    EditedGeo(v1, v);
    SameEnd(v1, v2);
    PresentIs(v2, sclust, ch + [ncl], others);
    var b, n := Base(v.geo, ncl), v.geo.csize;
    var ss, ss' := Sects(v.geo, ch), Sects(v.geo, ch + [ncl]);
    SectsGrow(v.geo, ch, ncl);
    EntriesKept(v, v1, ss);
    ImageHolds(v1);
    ImageHolds(v2);
    Apart(ss, b, n);
    ZeroedGrows(v1.Image(), v2.Image(), ss, b, n);
    KeptSame(v, v1, ss);
    KeptMore(v1, v2, ss, Run(b, n));
    KeptTrans(v, v1, v2, ss, ss');
  }

  lemma SameEnd(v: Vol, v2: Vol)
    requires v2.geo == v.geo
    ensures v2.geo.End() == v.geo.End()
  {
  }

  lemma Apart(ss: seq<nat>, b: nat, n: nat)
    requires Distinct(ss + Run(b, n))
    ensures forall k :: 0 <= k < |ss| ==> !(b <= ss[k] < b + n)
  {
    forall k | 0 <= k < |ss| ensures !(b <= ss[k] < b + n) {
      if b <= ss[k] < b + n {
        ApartAt(ss, b, n, k, ss[k] - b);
      }
    }
  }

  lemma ApartAt(ss: seq<nat>, b: nat, n: nat, k: nat, j: nat)
    requires Distinct(ss + Run(b, n)) && k < |ss| && j < n
    ensures ss[k] != b + j
  {
    var all := ss + Run(b, n);
    assert all[k] == ss[k] && all[|ss| + j] == b + j;
  }

  lemma KeptMore(a: Vol, b: Vol, ss: seq<nat>, more: seq<nat>)
    requires a.Valid() && Kept(a, b, more)
    ensures Kept(a, b, ss + more)
  {
    hide Vol.Valid, Vol.Image, Vol.Mirrored;
  }
}

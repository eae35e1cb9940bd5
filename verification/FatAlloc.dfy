/** Taking and freeing clusters: create_chain and remove_chain over the cached table. */
module FatAlloc {
  import opened FatBytes
  import opened FatTable
  import opened FatVol
  import opened FatVolume
  import opened FatChain

  ghost predicate NoFree(fat: seq<nat>) {
    forall c: nat :: InRange(|fat|, c) ==> fat[c] != 0
  }

  /** Clusters a search that starts after scl meets before it reaches ncl. */
  predicate Before(n: nat, scl: nat, ncl: nat, c: nat) {
    InRange(n, c) && if scl < ncl then scl < c < ncl else scl < c || c < ncl
  }

  /** ncl is the first free cluster after scl, going round. */
  ghost predicate NextFree(fat: seq<nat>, scl: nat, ncl: nat) {
    && InRange(|fat|, ncl) && fat[ncl] == 0
    && forall c: nat :: Before(|fat|, scl, ncl, c) ==> fat[c] != 0
  }

  ghost predicate Broken(fat: seq<nat>) {
    exists c: nat :: InRange(|fat|, c) && fat[c] == 1
  }

  /** Where the search for a new chain starts. */
  function Hint(n: nat, last: nat): nat {
    if last == 0 || last >= n then 1 else last
  }

  /** What create_chain(clst) returns and leaves behind. */
  ghost predicate Created(fat: seq<nat>, clst: nat, last: nat, eoc: nat, ncl: nat, fat': seq<nat>) {
    if clst != 0 && (!InRange(|fat|, clst) || fat[clst] < 2) then ncl == 1 && fat' == fat
    else if clst != 0 && fat[clst] < |fat| then ncl == fat[clst] && fat' == fat
    else if ncl == 0 then NoFree(fat) && fat' == fat
    else if ncl == 1 then Broken(fat) && fat' == fat
    else
      && NextFree(fat, if clst == 0 then Hint(|fat|, last) else clst, ncl)
      && fat' == if clst == 0 then Started(fat, ncl, eoc) else Stretched(fat, clst, ncl, eoc)
  }

  /** A cluster was taken. */
  predicate Took(fat: seq<nat>, clst: nat, ncl: nat) {
    2 <= ncl < |fat| && (clst == 0 || (InRange(|fat|, clst) && fat[clst] >= |fat|))
  }

  /** Without broken entries, asking to extend fails for lack of space exactly when nothing is free. */
  lemma FullExactly(fat: seq<nat>, clst: nat, last: nat, eoc: nat, ncl: nat, fat': seq<nat>)
    requires Created(fat, clst, last, eoc, ncl, fat') && !Broken(fat)
    requires clst == 0 || (InRange(|fat|, clst) && fat[clst] >= |fat|)
    ensures ncl == 0 <==> NoFree(fat)
    ensures ncl == 0 <==> FreeCount(fat) == 0
    ensures ncl != 0 ==> Took(fat, clst, ncl)
  {
    SomeFree(fat, |fat|);
  }

  /** create_chain keeps the table a set of disjoint chains: it starts one, or grows the one that ended in clst. */
  lemma CreateKeepsChains(fat: seq<nat>, cs: set<seq<nat>>, ch: seq<nat>, last: nat, eoc: nat, ncl: nat, fat': seq<nat>)
    requires Chained(fat, cs) && IsEnd(|fat|, eoc)
    requires ch == [] || ch in cs
    requires Created(fat, if ch == [] then 0 else ch[|ch| - 1], last, eoc, ncl, fat')
    ensures ncl == 0 ==> fat' == fat
    ensures ncl != 0 ==> InRange(|fat|, ncl) && fat[ncl] == 0 && Chained(fat', cs - {ch} + {ch + [ncl]})
  {
    ghost var clst := if ch == [] then 0 else ch[|ch| - 1];
    assert !Broken(fat) by {
      ChainedNotBroken(fat, cs);
    }
    if ch != [] {
      assert IsChain(fat, ch);
    }
    if ncl != 0 {
      if ch == [] {
        StartKeeps(fat, cs, ncl, eoc);
        assert [] in cs ==> IsChain(fat, []);
        assert ch + [ncl] == [ncl];
        assert cs - {ch} == cs;
      } else {
        StretchKeeps(fat, cs, ch, ncl, eoc);
      }
    }
  }

  lemma ChainedNotBroken(fat: seq<nat>, cs: set<seq<nat>>)
    requires Chained(fat, cs)
    ensures !Broken(fat)
  {
    forall c: nat | InRange(|fat|, c) ensures fat[c] != 1 {
      if fat[c] != 0 {
        assert Covered(cs, c);
        var ch :| ch in cs && c in ch;
        var i :| 0 <= i < |ch| && ch[i] == c;
        Follows(fat, ch, i);
      }
    }
  }

  /** One cluster fewer is free after taking one. */
  lemma CreateCounts(fat: seq<nat>, clst: nat, last: nat, eoc: nat, ncl: nat, fat': seq<nat>)
    requires Created(fat, clst, last, eoc, ncl, fat') && eoc != 0
    ensures Took(fat, clst, ncl) ==> FreeCount(fat) > 0 && FreeCount(fat') == FreeCount(fat) - 1
    ensures !Took(fat, clst, ncl) ==> fat' == fat
  {
    if Took(fat, clst, ncl) {
      FreeBelowSet(fat, ncl, eoc, |fat|);
      if clst != 0 {
        FreeBelowSet(fat[ncl := eoc], clst, ncl, |fat|);
      }
    }
  }

  /** The cached number of free clusters, when known, is the number of free entries. */
  ghost predicate Counted(fat: seq<nat>, free: nat) {
    free == 0xFFFF_FFFF || free == FreeCount(fat)
  }

  /**
   * The cluster taken is the first free one after the cluster allocated last, or after the end of the chain, and only
   * if there is none up to the end of the volume, the first free one of all.
   */
  lemma SearchOrder(fat: seq<nat>, clst: nat, last: nat, eoc: nat, ncl: nat, fat': seq<nat>, c: nat)
    requires Created(fat, clst, last, eoc, ncl, fat') && Took(fat, clst, ncl) && 2 <= c < |fat| && fat[c] == 0
    ensures var from := if clst != 0 then clst else if 2 <= last < |fat| then last else 1;
      && (c > from ==> from < ncl <= c)
      && (ncl <= from ==> ncl <= c)
  {
    var from := if clst != 0 then clst else Hint(|fat|, last);
    assert !Before(|fat|, from, ncl, c);
  }

  /** Looks for a free cluster after scl, going round; 0: none, 1: broken entry, 0xFFFFFFFF: disk error. */
  method FindFree(fs: FatFs, scl: nat) returns (ncl: nat)
    requires fs.View().Valid() && 1 <= scl < fs.geo.nFatent
    modifies fs`winsect, fs`wflag, fs.win, fs.disk
    ensures fs.View().Same(old(fs.View())) && fs.View().Table() == old(fs.View().Table())
    ensures ncl != 0xFFFF_FFFF ==> fs.geo.InFat(fs.winsect)
    ensures fs.disk.failed == (old(fs.disk.failed) || ncl == 0xFFFF_FFFF)
    ensures ncl == 0 ==> NoFree(old(fs.View().Table()))
    ensures ncl == 1 ==> Broken(old(fs.View().Table()))
    ensures ncl > 1 && ncl != 0xFFFF_FFFF ==> NextFree(old(fs.View().Table()), scl, ncl)
  {
    hide Vol.Table, Vol.Image, Vol.Valid, Vol.Mirrored, Geometry.Valid;
    Bounds(fs.View());
    ghost var fat := fs.View().Table();
    var n := fs.geo.nFatent;
    ghost var wrapped := false;
    ncl := scl;
    while true
      invariant fs.View().Same(old(fs.View()))
      invariant ncl != scl || wrapped ==> fs.geo.InFat(fs.winsect)
      invariant fs.disk.failed == old(fs.disk.failed)
      invariant 1 <= ncl < n
      invariant if wrapped then 2 <= ncl < scl else scl <= ncl
      invariant fs.View().Table() == fat
      invariant forall c: nat :: scl < c < n && (wrapped || c <= ncl) ==> fat[c] != 0
      invariant forall c: nat :: wrapped && 2 <= c <= ncl ==> fat[c] != 0
      decreases if wrapped then scl - ncl else n + n - ncl
    {
      ncl := ncl + 1;
      if ncl >= n {
        ncl := 2;
        wrapped := true;
        if ncl > scl { return 0; }
      }
      var cs := fs.GetFat(ncl);
      assert InRange(|fat|, ncl);
      if cs == 0 { return; }
      assert cs == 1 ==> fat[ncl] == 1 && Broken(fat);
      if cs == 0xFFFF_FFFF || cs == 1 { return cs; }
      if ncl == scl { return 0; }
    }
  }

  /** The value put_fat leaves for the end mark 0x0FFFFFFF. */
  function EndMark(geo: Geometry): (r: nat)
    ensures r == geo.Width() - 1
  {
    0x0FFF_FFFF % geo.Width()
  }

  /** Marks ncl as last link and links it to clst, if any. */
  method Link(fs: FatFs, clst: nat, ncl: nat) returns (r: FResult)
    requires fs.View().Valid() && fs.geo.IsCluster(ncl) && (clst == 0 || fs.geo.IsCluster(clst))
    modifies fs`winsect, fs`wflag, fs.win, fs.disk
    ensures fs.disk.failed == (old(fs.disk.failed) || r == FR_DISK_ERR) && (r == FR_OK || r == FR_DISK_ERR)
    ensures r == FR_OK ==> fs.View().Edited(old(fs.View())) && fs.geo.InFat(fs.winsect)
    ensures r == FR_OK && clst == 0 ==>
      fs.View().Table() == Started(old(fs.View().Table()), ncl, EndMark(fs.geo))
    ensures r == FR_OK && clst != 0 ==>
      fs.View().Table() == Stretched(old(fs.View().Table()), clst, ncl, EndMark(fs.geo))
  {
    hide Vol.Table, Vol.Image, Vol.Valid, Vol.Mirrored, Fat, Geometry.Valid, Geometry.Width;
    Bounds(fs.View());
    r := fs.PutFat(ncl, 0x0FFF_FFFF);
    if r == FR_OK && clst != 0 {
      r := fs.PutFat(clst, ncl);
    }
  }

  /** The cached free count after taking a cluster. */
  function Fewer(free: nat): nat {
    if free == 0xFFFF_FFFF then free else Sub32(free, 1)
  }

  /** The cached free count after freeing a cluster. */
  function More(free: nat): nat {
    if free == 0xFFFF_FFFF then free else Add32(free, 1)
  }

  /** Takes the next free cluster after scl and links it to clst, if any. */
  method Take(fs: FatFs, clst: nat, scl: nat) returns (ncl: nat)
    requires fs.View().Valid() && 1 <= scl < fs.geo.nFatent && (clst == 0 || fs.geo.IsCluster(clst))
    modifies fs`winsect, fs`wflag, fs`lastClust, fs`freeClust, fs`fsiFlag, fs.win, fs.disk
    ensures fs.disk.failed == (old(fs.disk.failed) || ncl == 0xFFFF_FFFF)
    ensures ncl != 0xFFFF_FFFF ==> fs.View().Edited(old(fs.View()))
    ensures ncl != 0xFFFF_FFFF ==> fs.geo.InFat(fs.winsect)
    ensures ncl == 0 ==> NoFree(old(fs.View().Table()))
    ensures ncl == 1 ==> Broken(old(fs.View().Table()))
    ensures ncl < 2 ==>
      && fs.View().Table() == old(fs.View().Table())
      && fs.lastClust == old(fs.lastClust) && fs.freeClust == old(fs.freeClust)
    ensures ncl >= 2 && ncl != 0xFFFF_FFFF ==>
      NextFree(old(fs.View().Table()), scl, ncl) && fs.lastClust == ncl && fs.freeClust == Fewer(old(fs.freeClust))
    ensures ncl >= 2 && ncl != 0xFFFF_FFFF && clst == 0 ==>
      fs.View().Table() == Started(old(fs.View().Table()), ncl, EndMark(fs.geo))
    ensures ncl >= 2 && ncl != 0xFFFF_FFFF && clst != 0 ==>
      fs.View().Table() == Stretched(old(fs.View().Table()), clst, ncl, EndMark(fs.geo))
    ensures fs.fsiFlag <==> old(fs.fsiFlag) || fs.freeClust != old(fs.freeClust)
  {
    hide Vol.Table, Vol.Image, Vol.Valid, Vol.Mirrored, Fat, Geometry.Valid;
    Bounds(fs.View());
    ncl := FindFree(fs, scl);
    if ncl < 2 || ncl == 0xFFFF_FFFF { return; }
    var res := Link(fs, clst, ncl);
    if res != FR_OK { return 0xFFFF_FFFF; }
    fs.lastClust := ncl;
    if fs.freeClust != 0xFFFF_FFFF {
      fs.freeClust := Sub32(fs.freeClust, 1);
      fs.fsiFlag := true;
    }
  }

  /** create_chain: follows, stretches or starts a chain. */
  method CreateChain(fs: FatFs, clst: nat) returns (ncl: nat)
    requires fs.View().Valid()
    modifies fs`winsect, fs`wflag, fs`lastClust, fs`freeClust, fs`fsiFlag, fs.win, fs.disk
    ensures ncl == 0xFFFF_FFFF || old(fs.disk.failed) ==> fs.disk.failed
    ensures ncl != 0xFFFF_FFFF ==> fs.View().Edited(old(fs.View()))
    ensures ncl != 0xFFFF_FFFF ==> fs.winsect == old(fs.winsect) || fs.geo.InFat(fs.winsect)
    ensures 2 <= ncl && ncl != 0xFFFF_FFFF ==> fs.geo.IsCluster(ncl)
    ensures !fs.disk.failed ==>
      Created(old(fs.View().Table()), clst, old(fs.lastClust), EndMark(fs.geo), ncl, fs.View().Table())
    ensures !fs.disk.failed && Took(old(fs.View().Table()), clst, ncl) ==>
      fs.lastClust == ncl && fs.geo.InFat(fs.winsect)
    ensures ncl != 0xFFFF_FFFF && fs.disk.failed && !old(fs.disk.failed) ==> fs.geo.InFat(fs.winsect)
    ensures !fs.disk.failed ==>
      fs.freeClust == if Took(old(fs.View().Table()), clst, ncl) then Fewer(old(fs.freeClust)) else old(fs.freeClust)
    ensures !fs.disk.failed && !Took(old(fs.View().Table()), clst, ncl) ==> fs.lastClust == old(fs.lastClust)
    ensures fs.fsiFlag <==> old(fs.fsiFlag) || fs.freeClust != old(fs.freeClust)
  {
    hide Vol.Table, Vol.Image, Vol.Valid, Vol.Mirrored, Fat, Fewer, Geometry.Valid;
    Bounds(fs.View());
    var scl;
    if clst == 0 {
      scl := fs.lastClust;
      if scl == 0 || scl >= fs.geo.nFatent { scl := 1; }
    } else {
      var cs := fs.GetFat(clst);
      if cs < 2 { return 1; }
      if cs < fs.geo.nFatent { return cs; }
      scl := clst;
    }
    ncl := Take(fs, clst, scl);
  }

  /** Every error-free create_chain keeps the cached free count right. */
  lemma CreateKeepsCount(fat: seq<nat>, clst: nat, last: nat, eoc: nat, ncl: nat, fat': seq<nat>, free: nat)
    requires Created(fat, clst, last, eoc, ncl, fat') && eoc != 0
    requires Counted(fat, free) && |fat| < 0xFFFF_FFFF
    ensures Counted(fat', if Took(fat, clst, ncl) then Fewer(free) else free)
  {
    CreateCounts(fat, clst, last, eoc, ncl, fat');
  }

  /** Marks a cluster free. */
  method Release(fs: FatFs, clst: nat) returns (r: FResult)
    requires fs.View().Valid() && fs.geo.IsCluster(clst)
    modifies fs`winsect, fs`wflag, fs`freeClust, fs`fsiFlag, fs.win, fs.disk
    ensures fs.disk.failed == (old(fs.disk.failed) || r == FR_DISK_ERR) && (r == FR_OK || r == FR_DISK_ERR)
    ensures r == FR_OK ==> fs.View().Edited(old(fs.View())) && fs.geo.InFat(fs.winsect)
    ensures r == FR_OK ==> fs.View().Table() == old(fs.View().Table())[clst := 0]
    ensures fs.freeClust == if r == FR_OK then More(old(fs.freeClust)) else old(fs.freeClust)
    ensures fs.fsiFlag <==> old(fs.fsiFlag) || fs.freeClust != old(fs.freeClust)
  {
    hide Vol.Table, Vol.Image, Vol.Valid, Vol.Mirrored, Fat, Geometry.Valid, Geometry.Width;
    Bounds(fs.View());
    r := fs.PutFat(clst, 0);
    if r == FR_OK && fs.freeClust != 0xFFFF_FFFF {
      fs.freeClust := Add32(fs.freeClust, 1);
      fs.fsiFlag := true;
    }
  }

  /** The cached free count after freeing k clusters. */
  function MoreBy(free: nat, k: nat): nat
    decreases k
  {
    if k == 0 then free else MoreBy(More(free), k - 1)
  }

  lemma {:induction false} MoreByCounts(free: nat, k: nat)
    requires free == 0xFFFF_FFFF || free + k < 0xFFFF_FFFF
    ensures MoreBy(free, k) == if free == 0xFFFF_FFFF then free else free + k
    decreases k
  {
    if k > 0 {
      MoreByCounts(More(free), k - 1);
    }
  }

  /** remove_chain; it ends on any table because every round frees a cluster. */
  method RemoveChain(fs: FatFs, clst: nat) returns (r: FResult)
    requires fs.View().Valid()
    modifies fs`winsect, fs`wflag, fs`freeClust, fs`fsiFlag, fs.win, fs.disk
    ensures fs.disk.failed == (old(fs.disk.failed) || r == FR_DISK_ERR) && r in {FR_OK, FR_INT_ERR, FR_DISK_ERR}
    ensures !fs.geo.IsCluster(clst) ==>
      r == FR_INT_ERR && fs.View() == old(fs.View()) && fs.freeClust == old(fs.freeClust)
    ensures r != FR_DISK_ERR ==> fs.View().Edited(old(fs.View()))
    ensures r != FR_DISK_ERR ==> fs.winsect == old(fs.winsect) || fs.geo.InFat(fs.winsect)
    ensures r != FR_DISK_ERR ==> fs.View().Table() == Removed(old(fs.View().Table()), clst)
    ensures r != FR_DISK_ERR ==> fs.freeClust == MoreBy(old(fs.freeClust), |Walk(old(fs.View().Table()), clst)|)
    ensures old(fs.fsiFlag) || fs.freeClust != old(fs.freeClust) ==> fs.fsiFlag
    ensures old(fs.freeClust) == 0xFFFF_FFFF ==> fs.freeClust == 0xFFFF_FFFF && fs.fsiFlag == old(fs.fsiFlag)
    ensures fs.geo.IsCluster(clst) && r != FR_DISK_ERR ==>
      (r == FR_INT_ERR <==> HitsBroken(old(fs.View().Table()), clst))
  {
    hide Vol.Table, Vol.Image, Vol.Valid, Vol.Mirrored, Fat, Geometry.Valid, Geometry.Width;
    if clst < 2 || clst >= fs.geo.nFatent { return FR_INT_ERR; }
    ghost var fat, free := fs.View().Table(), fs.freeClust;
    ghost var now := fat;
    r := FR_OK;
    var cl := clst;
    while cl < fs.geo.nFatent
      invariant fs.View().Edited(old(fs.View())) && fs.View().Table() == now && |now| == |fat| == fs.geo.nFatent
      invariant fs.winsect == old(fs.winsect) || fs.geo.InFat(fs.winsect)
      invariant fs.disk.failed == old(fs.disk.failed)
      invariant r == FR_OK && 2 <= cl
      invariant old(fs.fsiFlag) || fs.freeClust != free ==> fs.fsiFlag
      invariant free == 0xFFFF_FFFF ==> fs.freeClust == 0xFFFF_FFFF && fs.fsiFlag == old(fs.fsiFlag)
      invariant Removed(now, cl) == Removed(fat, clst) && HitsBroken(now, cl) == HitsBroken(fat, clst)
      invariant MoreBy(fs.freeClust, |Walk(now, cl)|) == MoreBy(free, |Walk(fat, clst)|)
      decreases |fat| - FreeCount(now)
    {
      var nxt := fs.GetFat(cl);
      if nxt == 0 { break; }
      if nxt == 1 { r := FR_INT_ERR; break; }
      if nxt == 0xFFFF_FFFF { r := FR_DISK_ERR; break; }
      r := Release(fs, cl);
      if r != FR_OK { break; }
      FreeBelowSet(now, cl, 0, |now|);
      now := now[cl := 0];
      cl := nxt;
    }
  }

  /** Every error-free remove_chain keeps the cached free count right. */
  lemma RemoveKeepsCount(fat: seq<nat>, clst: nat, free: nat)
    requires Counted(fat, free) && |fat| < 0xFFFF_FFFF
    ensures Counted(Removed(fat, clst), MoreBy(free, |Walk(fat, clst)|))
  {
    RemovedIsFreed(fat, clst);
    assert FreeCount(Removed(fat, clst)) <= |fat|;
    MoreByCounts(free, |Walk(fat, clst)|);
  }
}

/** The cluster link map: building it by walking the chain, and looking clusters up in it. */
module FatLinkMap {
  import opened FatTable
  import opened FatVol
  import opened FatVolume
  import opened FatChain
  import opened FatLayout

  datatype MapResult = MAP_OK | MAP_DISK_ERR | MAP_INT_ERR | MAP_NOT_ENOUGH_CORE

  /** Length and first cluster of each fragment, ended by a zero length. */
  predicate Terminated(t: seq<nat>) {
    |t| > 0 && (t[0] == 0 || (|t| >= 3 && Terminated(t[2..])))
  }

  /** The chain a link map stands for. */
  function Unfold(t: seq<nat>): seq<nat>
    requires Terminated(t)
  {
    if t[0] == 0 then [] else Run(t[1], t[0]) + Unfold(t[2..])
  }

  /** The clusters listed by the pairs of a map under construction. */
  function Listed(t: seq<nat>): seq<nat> {
    if |t| < 2 then [] else Listed(t[..|t| - 2]) + Run(t[|t| - 1], t[|t| - 2])
  }

  predicate NoEmpty(t: seq<nat>) {
    |t| % 2 == 0 && forall i :: 0 <= i < |t| && i % 2 == 0 ==> t[i] != 0
  }

  /** Ending the list of pairs with a zero makes it a link map of the same clusters. */
  lemma {:induction false} ListedUnfolds(t: seq<nat>, rest: seq<nat>)
    requires NoEmpty(t) && Terminated(rest)
    ensures Terminated(t + rest) && Unfold(t + rest) == Listed(t) + Unfold(rest)
    decreases |t|
  {
    if t == [] {
      assert t + rest == rest;
    } else {
      var n := |t| - 2;
      var rest' := t[n..] + rest;
      assert t[n..] == [t[n], t[n + 1]] && rest'[2..] == rest;
      assert t + rest == t[..n] + rest';
      ListedUnfolds(t[..n], rest');
    }
  }

  /** Number of runs of consecutive clusters in a chain. */
  function Breaks(ch: seq<nat>): nat {
    if |ch| == 0 then 0
    else if |ch| == 1 then 1
    else Breaks(ch[..|ch| - 1]) + if ch[|ch| - 1] == ch[|ch| - 2] + 1 then 0 else 1
  }

  lemma BreaksNext(ch: seq<nat>, k: nat)
    requires 0 < k < |ch|
    ensures Breaks(ch[..k + 1]) == Breaks(ch[..k]) + if ch[k] == ch[k - 1] + 1 then 0 else 1
  {
    assert ch[..k + 1][..k] == ch[..k];
  }

  lemma BreaksStart(ch: seq<nat>, k: nat)
    requires k < |ch| && (k > 0 ==> ch[k] != ch[k - 1] + 1)
    ensures Breaks(ch[..k + 1]) == Breaks(ch[..k]) + 1
  {
    if k > 0 {
      BreaksNext(ch, k);
    }
  }

  lemma ChainStep(fat: seq<nat>, ch: seq<nat>, j: nat)
    requires IsChain(fat, ch) && j < |ch|
    ensures InRange(|fat|, ch[j]) && (j < |ch| - 1 ==> fat[ch[j]] == ch[j + 1] >= 2)
    ensures j == |ch| - 1 ==> fat[ch[j]] >= |fat|
  {
    FatChain.Follows(fat, ch, j);
  }

  /** The end mark of a chain happens to be the number after its last cluster. */
  predicate StrayEnd(fat: seq<nat>, ch: seq<nat>) {
    ch != [] && ch[|ch| - 1] < |fat| && fat[ch[|ch| - 1]] == ch[|ch| - 1] + 1
  }

  /** A proper end mark is never stray. */
  lemma EndNotStray(geo: Geometry, fat: seq<nat>, ch: seq<nat>)
    requires geo.Valid() && |fat| == geo.nFatent && IsChain(fat, ch) && fat[ch[|ch| - 1]] >= geo.Width() - 8
    ensures !StrayEnd(fat, ch)
  {
  }

  /** Walks one fragment from cl on: its length, and the entry that ends it. */
  method Fragment(fs: FatFs, tcl: nat, ghost ch: seq<nat>, ghost k: nat) returns (r: MapResult, ncl: nat, cl: nat)
    requires fs.View().Valid() && IsChain(fs.View().Table(), ch) && k < |ch| && tcl == ch[k]
    requires k > 0 ==> ch[k] != ch[k - 1] + 1
    modifies fs`winsect, fs`wflag, fs.win, fs.disk
    ensures fs.disk.failed == (old(fs.disk.failed) || r == MAP_DISK_ERR)
    ensures fs.View().Same(old(fs.View())) && fs.View().Table() == old(fs.View().Table())
    ensures r == MAP_OK || r == MAP_DISK_ERR || (r == MAP_INT_ERR && StrayEnd(fs.View().Table(), ch))
    ensures r == MAP_OK ==> 0 < ncl && k + ncl <= |ch| && Run(tcl, ncl) == ch[k..k + ncl]
    ensures r == MAP_OK ==> Breaks(ch[..k + ncl]) == Breaks(ch[..k]) + 1
    ensures r == MAP_OK && k + ncl < |ch| ==> cl == ch[k + ncl] && cl != ch[k + ncl - 1] + 1
    ensures r == MAP_OK && k + ncl == |ch| ==> cl >= fs.geo.nFatent && !StrayEnd(fs.View().Table(), ch)
  {
    hide Vol.Table, Vol.Image, Vol.Valid, Vol.Mirrored, Geometry.Valid, Breaks, IsChain;
    ghost var fat := fs.View().Table();
    Bounds(fs.View());
    cl, ncl, r := tcl, 0, MAP_OK;
    ghost var j := k;
    BreaksStart(ch, k);
    while true
      invariant k <= j <= |ch| && ncl == j - k && r == MAP_OK
      invariant if j < |ch| then cl == ch[j] else StrayEnd(fat, ch) && cl == fs.geo.nFatent
      invariant fs.View().Same(old(fs.View())) && fs.View().Table() == fat && |fat| == fs.geo.nFatent
      invariant fs.disk.failed == old(fs.disk.failed)
      invariant forall i :: k <= i <= j && i < |ch| ==> ch[i] == tcl + (i - k)
      invariant j < |ch| ==> Breaks(ch[..j + 1]) == Breaks(ch[..k]) + 1
      decreases |ch| - j
    {
      var pcl := cl;
      if j < |ch| {
        ChainStep(fat, ch, j);
      }
      ncl := ncl + 1;
      cl := fs.GetFat(cl);
      if cl <= 1 { return MAP_INT_ERR, ncl, cl; }
      if cl == 0xFFFF_FFFF { return MAP_DISK_ERR, ncl, cl; }
      j := j + 1;
      if j < |ch| {
        BreaksNext(ch, j);
      }
      if cl != pcl + 1 { break; }
    }
  }

  /** Two more cells at the end of the list are one more fragment. */
  lemma ListedNext(t: seq<nat>, n: nat, c: nat)
    requires NoEmpty(t) && n > 0
    ensures NoEmpty(t + [n, c]) && Listed(t + [n, c]) == Listed(t) + Run(c, n)
  {
    assert (t + [n, c])[..|t|] == t;
  }

  /** The map after its pairs, its total and its end mark have been written. */
  lemma MapDone(t: seq<nat>, w: nat, ch: seq<nat>)
    requires 1 <= w < |t| && NoEmpty(t[1..w]) && t[w] == 0 && Listed(t[1..w]) == ch
    ensures Terminated(t[1..]) && Unfold(t[1..]) == ch
  {
    ListedUnfolds(t[1..w], t[w..]);
    assert t[1..] == t[1..w] + t[w..];
  }

  /** Adds a fragment's length and first cluster at position w. */
  method Store(cltbl: array<nat>, w: nat, ncl: nat, tcl: nat)
    requires 1 <= w && w + 1 < cltbl.Length && NoEmpty(cltbl[1..w]) && ncl > 0
    modifies cltbl
    ensures NoEmpty(cltbl[1..w + 2]) && Listed(cltbl[1..w + 2]) == old(Listed(cltbl[1..w])) + Run(tcl, ncl)
  {
    hide NoEmpty, Listed, Run;
    ghost var was := cltbl[1..w];
    cltbl[w], cltbl[w + 1] := ncl, tcl;
    ListedNext(was, ncl, tcl);
    assert cltbl[1..w + 2] == was + [ncl, tcl];
  }

  /** Records the size needed and ends the map if it fits. */
  method Finish(cltbl: array<nat>, w: nat, ulen: nat, tlen: nat, ghost ch: seq<nat>) returns (r: MapResult)
    requires 1 <= w <= cltbl.Length && tlen <= cltbl.Length && 2 <= ulen
    requires ulen <= tlen ==> w == ulen - 1 && NoEmpty(cltbl[1..w]) && Listed(cltbl[1..w]) == ch
    modifies cltbl
    ensures cltbl[0] == ulen
    ensures r == if ulen <= tlen then MAP_OK else MAP_NOT_ENOUGH_CORE
    ensures r == MAP_OK ==> Terminated(cltbl[1..]) && Unfold(cltbl[1..]) == ch
  {
    hide NoEmpty, Listed, Unfold, Terminated;
    ghost var pairs := cltbl[1..w];
    cltbl[0] := ulen;
    if ulen <= tlen {
      cltbl[w] := 0;
      assert cltbl[1..w] == pairs == cltbl[..][1..w] && cltbl[1..] == cltbl[..][1..];
      MapDone(cltbl[..], w, ch);
      return MAP_OK;
    }
    return MAP_NOT_ENOUGH_CORE;
  }

  /** The part of f_lseek that fills the link map; cell 0 holds the table's size and then the size needed. */
  method CreateLinkMap(fs: FatFs, sclust: nat, cltbl: array<nat>, ghost ch: seq<nat>) returns (r: MapResult)
    requires fs.View().Valid() && cltbl.Length > 0 && cltbl[0] <= cltbl.Length
    requires (cltbl as object) != (fs.win as object)
    requires if ch == [] then sclust == 0 else sclust == ch[0] && IsChain(fs.View().Table(), ch)
    modifies fs`winsect, fs`wflag, fs.win, fs.disk, cltbl
    ensures fs.disk.failed == (old(fs.disk.failed) || r == MAP_DISK_ERR)
    ensures fs.View().Same(old(fs.View())) && fs.View().Table() == old(fs.View().Table())
    ensures r != MAP_DISK_ERR ==> (r == MAP_INT_ERR <==> StrayEnd(fs.View().Table(), ch))
    ensures r == MAP_OK || r == MAP_NOT_ENOUGH_CORE ==>
      cltbl[0] == 2 + 2 * Breaks(ch) && (r == MAP_OK <==> cltbl[0] <= old(cltbl[0]))
    ensures r == MAP_OK ==> Terminated(cltbl[1..]) && Unfold(cltbl[1..]) == ch
  {
    hide Vol.Table, Vol.Image, Vol.Valid, Vol.Mirrored, Geometry.Valid, Breaks, NoEmpty, Listed, Unfold, Terminated,
      Run,
      IsChain;
    Bounds(fs.View());
    ghost var fat := fs.View().Table();
    var tlen, ulen, w := cltbl[0], 2, 1;
    var cl := sclust;
    ghost var k := 0;
    ListedStart(ch);
    if ch != [] { ChainStep(fat, ch, 0); }
    assert cltbl[1..w] == [];
    if cl != 0 {
      while true
        invariant k < |ch| && cl == ch[k] && (k > 0 ==> ch[k] != ch[k - 1] + 1)
        invariant fs.View().Same(old(fs.View())) && fs.View().Table() == fat && |fat| == fs.geo.nFatent
        invariant fs.disk.failed == old(fs.disk.failed)
        invariant tlen <= cltbl.Length && ulen == 2 + 2 * Breaks(ch[..k]) && 1 <= w <= cltbl.Length
        invariant ulen <= tlen ==> w == ulen - 1 && NoEmpty(cltbl[1..w]) && Listed(cltbl[1..w]) == ch[..k]
        decreases |ch| - k
      {
        var tcl := cl;
        ulen := ulen + 2;
        var ncl;
        r, ncl, cl := Fragment(fs, tcl, ch, k);
        if r != MAP_OK { return; }
        if ulen <= tlen {
          Store(cltbl, w, ncl, tcl);
          assert ch[..k] + ch[k..k + ncl] == ch[..k + ncl];
          w := w + 2;
        }
        k := k + ncl;
        if k < |ch| { ChainStep(fat, ch, k); }
        if cl >= fs.geo.nFatent { break; }
      }
    }
    assert ch[..k] == ch;
    r := Finish(cltbl, w, ulen, tlen, ch);
  }

  lemma ListedStart(ch: seq<nat>)
    ensures NoEmpty([]) && Listed([]) == [] == ch[..0] && Breaks(ch[..0]) == 0
  {
  }

  /** clmt_clust: the cluster that holds byte ofs, 0 past the end of the map. */
  method ClmtClust(geo: Geometry, cltbl: array<nat>, ofs: nat) returns (clst: nat)
    requires geo.csize >= 1 && cltbl.Length > 0 && Terminated(cltbl[1..])
    ensures clst == if CluIdx(geo, ofs) < |Unfold(cltbl[1..])| then Unfold(cltbl[1..])[CluIdx(geo, ofs)] else 0
  {
    hide Run;
    ghost var q, all := CluIdx(geo, ofs), Unfold(cltbl[1..]);
    var cl := ofs / 512 / geo.csize;
    CluIs(geo, ofs);
    var j := 1;
    while true
      invariant 1 <= j < cltbl.Length && Terminated(cltbl[j..]) && cl >= 0
      invariant (q < |all|) == (cl < |Unfold(cltbl[j..])|)
      invariant q < |all| ==> all[q] == Unfold(cltbl[j..])[cl]
      decreases cltbl.Length - j
    {
      ghost var t := cltbl[j..];
      var ncl := cltbl[j];
      if ncl == 0 { return 0; }
      assert cltbl[j + 2..] == t[2..] && t[0] == ncl && t[1] == cltbl[j + 1];
      assert Unfold(t) == Run(t[1], t[0]) + Unfold(t[2..]);
      if cl < ncl { break; }
      cl, j := cl - ncl, j + 2;
    }
    return cl + cltbl[j + 1];
  }

  lemma MapIsChain(geo: Geometry, t: seq<nat>, ch: seq<nat>, ofs: nat)
    requires geo.csize >= 1 && Terminated(t) && Unfold(t) == ch && Clusters(geo, ch) && ofs < 512 * |Sects(geo, ch)|
    ensures CluIdx(geo, ofs) < |ch| && Unfold(t)[CluIdx(geo, ofs)] == ch[CluIdx(geo, ofs)] >= 2
  {
    CluIdxIn(geo, ch, ofs);
  }

  /** The walk f_read and f_lseek make without a map: n entries on from the first cluster of a chain. */
  method Walk(fs: FatFs, sclust: nat, n: nat, ghost ch: seq<nat>) returns (r: MapResult, clst: nat)
    requires fs.View().Valid() && IsChain(fs.View().Table(), ch) && n < |ch| && sclust == ch[0]
    modifies fs`winsect, fs`wflag, fs.win, fs.disk
    ensures fs.disk.failed == (old(fs.disk.failed) || r == MAP_DISK_ERR)
    ensures fs.View().Same(old(fs.View())) && fs.View().Table() == old(fs.View().Table())
    ensures r == MAP_OK || r == MAP_DISK_ERR
    ensures r == MAP_OK ==> clst == ch[n]
  {
    hide Vol.Table, Vol.Image, Vol.Valid, Vol.Mirrored, Geometry.Valid, IsChain;
    ghost var fat := fs.View().Table();
    Bounds(fs.View());
    r, clst := MAP_OK, sclust;
    for i := 0 to n
      invariant fs.View().Same(old(fs.View())) && fs.View().Table() == fat && |fat| == fs.geo.nFatent
      invariant fs.disk.failed == old(fs.disk.failed) && r == MAP_OK && clst == ch[i]
    {
      ChainStep(fat, ch, i);
      ChainStep(fat, ch, i + 1);
      clst := fs.GetFat(clst);
      if clst == 0xFFFF_FFFF { return MAP_DISK_ERR, clst; }
    }
  }

  /**
   * The map of a file is built, and the cluster of an offset looked up in it and found by walking the chain: for every
   * offset in the file's space the two are the same.
   */
  method TwoWays(fs: FatFs, cltbl: array<nat>, sclust: nat, ofs: nat, ghost ch: seq<nat>)
    returns (r: MapResult, mapped: nat, walked: nat)
    requires fs.View().Valid() && cltbl.Length > 0 && cltbl[0] <= cltbl.Length
    requires (cltbl as object) != (fs.win as object)
    requires ch != [] && sclust == ch[0] && IsChain(fs.View().Table(), ch)
    requires fs.geo.csize >= 1 && Clusters(fs.geo, ch) && ofs < 512 * |Sects(fs.geo, ch)|
    modifies fs`winsect, fs`wflag, fs.win, fs.disk, cltbl
    ensures fs.disk.failed == (old(fs.disk.failed) || r == MAP_DISK_ERR)
    ensures r == MAP_INT_ERR ==> StrayEnd(old(fs.View().Table()), ch)
    ensures r == MAP_NOT_ENOUGH_CORE ==> 2 + 2 * Breaks(ch) > old(cltbl[0])
    ensures r == MAP_OK ==> CluIdx(fs.geo, ofs) < |ch| && mapped == walked == ch[CluIdx(fs.geo, ofs)] >= 2
  {
    hide Vol.Table, Vol.Image, Vol.Valid, Vol.Mirrored, Geometry.Valid, IsChain, Sects, Breaks, CluIdx, Unfold,
      Terminated, Clusters;
    CluIdxIn(fs.geo, ch, ofs);
    CluIs(fs.geo, ofs);
    mapped, walked := 0, 0;
    r := CreateLinkMap(fs, sclust, cltbl, ch);
    if r == MAP_OK {
      mapped := ClmtClust(fs.geo, cltbl, ofs);
      MapIsChain(fs.geo, cltbl[1..], ch, ofs);
      r, walked := Walk(fs, sclust, ofs / 512 / fs.geo.csize, ch);
    }
  }
}

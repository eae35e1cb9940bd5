/** The steps of a seek, on the state. */
module FatSeek {
  import opened FatBytes
  import opened Arith
  import opened FatTable
  import opened FatVol
  import opened FatChain
  import opened FatLayout
  import opened FatCursor
  import opened FatAlloc
  import opened FatState

  function At(s: State, p: nat): State {
    s.(cur := s.cur.(fptr := p))
  }

  /** The cursor one cluster further on. */
  function Hop(s: State): State {
    At(s, s.cur.fptr + 512 * s.vol.geo.csize)
  }

  /** A seek stands at the start of a cluster, which is current. */
  ghost predicate OnCluster(s: State) {
    s.Sound() && s.OnByte() && s.vol.geo.csize >= 1 && AtBoundary(s)
  }

  lemma SizeOfCluster(s: State)
    requires s.Sound()
    ensures s.vol.geo.csize >= 1 && 512 * s.vol.geo.csize >= 512
  {
  }

  /** Rewinding. */
  lemma Rewind(s: State)
    requires s.Ready()
    ensures At(s, 0).Ready() && SameCore(s, At(s, 0)) && s.vol.geo.csize >= 1 && AtBoundary(At(s, 0))
    ensures NextIdx(At(s, 0)) == 0
  {
    hide State.Follows, State.Core, State.Bytes, Chained, Placed, Buffered, Vol.Valid, CluIdx, Sects;
    SizeOfCluster(s);
    Reach(s);
    Reseat(s, 0);
    DivUnique(0, 0, 0, s.vol.geo.csize);
  }

  lemma Reach(s: State)
    requires s.Sound()
    ensures Clusters(s.vol.geo, s.ch) && s.cur.fptr <= 512 * |Sects(s.vol.geo, s.ch)|
  {
  }

  /** From a place in the file back to the start of the current cluster. */
  lemma BackToCluster(s: State, bcs: nat)
    requires s.Ready() && s.cur.fptr > 0 && bcs == 512 * s.vol.geo.csize && bcs > 0
    ensures var p := RoundDown(s.cur.fptr - 1, bcs);
      p < s.cur.fptr && OnCluster(At(s, p)) && SameCore(s, At(s, p)) && s.cur.clust >= 2
  {
    hide State.Follows, State.Core, State.Bytes, Chained, Buffered, Vol.Valid, CluIdx, Sects, Vol.Image, Vol.Table;
    var geo, q := s.vol.geo, CluIdx(s.vol.geo, s.cur.fptr - 1);
    ByCluster(geo, s.cur.fptr - 1);
    DivParts(s.cur.fptr - 1, bcs);
    ClusterStart(geo, q);
    var p := q * bcs;
    EnterOn(geo, s.ch, p);
    Reseat(s, p);
  }

  /** A later or equal cluster number leaves something to go. */
  lemma StillToGo(ofs: nat, p: nat, bcs: nat)
    requires ofs > 0 && p > 0 && bcs > 0 && (ofs - 1) / bcs >= (p - 1) / bcs
    ensures RoundDown(p - 1, bcs) < ofs
  {
    MulMono((p - 1) / bcs, (ofs - 1) / bcs, bcs);
    DivParts(ofs - 1, bcs);
  }

  lemma WholeSectors(x: nat, m: nat)
    requires m > 0
    ensures RoundDown(x, 512 * m) % 512 == 0
  {
    Multiple(x / (512 * m), m);
  }

  lemma Multiple(q: nat, m: nat)
    ensures q * (512 * m) % 512 == 0
  {
    Regroup(q, m, 0);
    OfSector(q * m);
  }

  lemma OfSector(k: int)
    ensures 512 * k % 512 == 0
  {
  }

  /** At the start of a file the current cluster does not matter. */
  lemma NoCluster(s: State, c: nat)
    requires s.Ready() && s.cur.fptr == 0
    ensures var s' := s.(cur := s.cur.(clust := c)); s'.Ready() && SameCore(s, s')
  {
    hide Blank, Fat, Flat, Sects, Geometry.Width, FatCursor.View, Chained, CluIdx, Vol.Mirrored, Vol.Image, Vol.Table;
    var s' := s.(cur := s.cur.(clust := c));
    SpaceCur(s.vol.geo, s.vol.Image(), s.ch, s.cur, s'.cur);
    FollowsSelf(s);
    assert s'.Chains() == s.Chains();
  }

  /** Entering the first cluster of a chain that exists. */
  lemma EnterFirst(s: State)
    requires s.Ready() && s.cur.fptr == 0 && s.cur.sclust != 0
    ensures var s' := s.(cur := s.cur.(clust := s.cur.sclust)); OnCluster(s') && SameCore(s, s')
    ensures 2 <= s.cur.sclust
  {
    hide State.Sound, State.OnByte, State.Follows, State.Core, State.Bytes, State.Data, Vol.Valid, CluIdx, Vol.Edited,
      Vol.Table, Aimed;
    ValidOf(s);
    Rewind(s);
    assert At(s, 0) == s;
    StartIs(s);
    EditedSelf(s.vol);
    FollowNext(s, s.vol, s.cur.sclust);
    KeptCore(s, Advanced(s, s.vol, s.cur.sclust));
  }

  /** Creating the first cluster of a file that has none. */
  lemma CreateFirst(s: State, v: Vol, last: nat, ncl: nat, eoc: nat)
    requires s.Ready() && s.cur.fptr == 0 && s.cur.sclust == 0 && eoc >= s.vol.geo.nFatent
    requires v.Edited(s.vol) && (v.winsect == s.vol.winsect || v.geo.InFat(v.winsect))
    requires Created(s.vol.Table(), 0, last, eoc, ncl, v.Table())
    requires Took(s.vol.Table(), 0, ncl) ==> v.geo.InFat(v.winsect)
    ensures ncl == 0 ==> NoFree(v.Table()) && s.(vol := v).Ready() && SameCore(s, s.(vol := v))
    ensures ncl != 0 ==> 2 <= ncl < s.vol.geo.nFatent && s.vol.geo.csize >= 1
    ensures ncl != 0 ==> OnCluster(Advanced(s, v, ncl)) && SameCore(s, Advanced(s, v, ncl))
  {
    hide State.Sound, State.OnByte, State.Follows, State.Core, State.Bytes, State.Data, Vol.Valid, CluIdx, Vol.Edited,
      Vol.Table, Aimed, Created, Took, NoFree, NextIdx;
    ValidOf(s);
    Rewind(s);
    assert At(s, 0) == s;
    StartIs(s);
    EditedGeo(v, s.vol);
    CreateNext(s, v, last, ncl, eoc);
    if ncl == 0 {
      KeptCore(s, s.(vol := v));
    } else {
      KeptCore(s, Advanced(s, v, ncl));
    }
  }

  /** One round of the seek loop in write mode: follows the chain or stretches it. */
  lemma SeekCreate(s: State, v: Vol, last: nat, ncl: nat, eoc: nat)
    requires OnCluster(s) && eoc >= s.vol.geo.nFatent
    requires v.Edited(s.vol) && (v.winsect == s.vol.winsect || v.geo.InFat(v.winsect))
    requires Created(s.vol.Table(), s.cur.clust, last, eoc, ncl, v.Table())
    requires Took(s.vol.Table(), s.cur.clust, ncl) ==> v.geo.InFat(v.winsect)
    ensures ncl == 0 ==> NoFree(v.Table()) && OnCluster(s.(vol := v)) && SameCore(s, s.(vol := v))
    ensures ncl == 0 ==> Hop(s.(vol := v)).Ready()
    ensures ncl != 0 ==> 2 <= ncl < s.vol.geo.nFatent
    ensures ncl != 0 ==> OnCluster(Advanced(Hop(s), v, ncl)) && SameCore(s, Advanced(Hop(s), v, ncl))
    ensures s.cur.fptr + 512 * s.vol.geo.csize < s.cur.fsize ==> ncl != 0
  {
    hide State.Sound, State.Follows, State.Core, State.Bytes, State.Data, Vol.Valid, CluIdx, Vol.Edited,
      Vol.Table, Aimed, Created, Took, NoFree, NextIdx, Sects;
    SizeOfCluster(s);
    ValidOf(s);
    EditedGeo(v, s.vol);
    ClusterOn(s);
    var t := Hop(s);
    CreateNext(t, v, last, ncl, eoc);
    if t.cur.fptr < t.cur.fsize {
      Fits(t);
      ReadNext(t);
    }
    if ncl == 0 {
      KeptCore(t, t.(vol := v));
      Reach(t.(vol := v));
      Reseat(t.(vol := v), s.cur.fptr);
      SameCoreTrans(s, t, t.(vol := v));
      SameCoreTrans(s, t.(vol := v), s.(vol := v));
    } else {
      KeptCore(t, Advanced(t, v, ncl));
      SameCoreTrans(s, t, Advanced(t, v, ncl));
    }
  }

  lemma Fits(s: State)
    requires s.Sound()
    ensures Clusters(s.vol.geo, s.ch) && s.cur.fsize <= 512 * |Sects(s.vol.geo, s.ch)|
  {
  }

  /** One round of the seek loop in read mode. */
  lemma SeekFollow(s: State, v: Vol, ncl: nat)
    requires OnCluster(s) && s.cur.fptr + 512 * s.vol.geo.csize < s.cur.fsize
    requires v.Edited(s.vol) && v.Table() == s.vol.Table() && (v.winsect == s.vol.winsect || v.geo.InFat(v.winsect))
    requires s.vol.geo.IsCluster(s.cur.clust) ==> ncl == s.vol.Table()[s.cur.clust]
    ensures 2 <= ncl < s.vol.geo.nFatent
    ensures OnCluster(Advanced(Hop(s), v, ncl)) && SameCore(s, Advanced(Hop(s), v, ncl))
  {
    hide State.Sound, State.Follows, State.Core, State.Bytes, State.Data, Vol.Valid, CluIdx, Vol.Edited,
      Vol.Table, Aimed, NextIdx, Sects;
    SizeOfCluster(s);
    ValidOf(s);
    EditedGeo(v, s.vol);
    ClusterOn(s);
    var t := Hop(s);
    Fits(t);
    ReadNext(t);
    NextOf(t);
    assert s.vol.geo.IsCluster(t.ch[NextIdx(t)]);
    FollowNext(t, v, ncl);
    KeptCore(t, Advanced(t, v, ncl));
    SameCoreTrans(s, t, Advanced(t, v, ncl));
  }

  /** Position p + j of a file, where p begins a cluster and j lies in it. */
  lemma InCluster(geo: Geometry, p: nat, j: nat)
    requires geo.csize >= 1 && p % 512 == 0 && CluSect(geo, p) == 0 && j < 512 * geo.csize
    ensures CluIdx(geo, p + j) == CluIdx(geo, p) && (p + j) / 512 == p / 512 + j / 512
    ensures CluSect(geo, p + j) == j / 512 && (p + j) % 512 == j % 512
  {
    var k, m := p / 512, geo.csize;
    CluIs(geo, p);
    CluIs(geo, p + j);
    DivParts(k, m);
    DivUnique(k + j / 512, k / m, j / 512, m);
  }

  /** The last step goes to a byte of the current cluster, or to its end. */
  lemma Land(s: State, ofs: nat)
    requires OnCluster(s) && 0 < ofs <= 512 * s.vol.geo.csize
    ensures SameCore(s, At(s, s.cur.fptr + ofs)) && (s.cur.fptr + ofs) % 512 == ofs % 512
    ensures ofs % 512 == 0 ==> At(s, s.cur.fptr + ofs).Ready()
    ensures ofs % 512 != 0 ==>
      && At(s, s.cur.fptr + ofs).OnByte() && Clusters(s.vol.geo, s.ch)
      && (s.cur.fptr + ofs) / 512 < |Sects(s.vol.geo, s.ch)|
      && s.vol.geo.ClustToSect(s.cur.clust) != 0
      && s.vol.geo.ClustToSect(s.cur.clust) + ofs / 512 == Sects(s.vol.geo, s.ch)[(s.cur.fptr + ofs) / 512]
  {
    hide State.Follows, State.Core, State.Bytes, State.Data, Vol.Valid, CluIdx, Vol.Table, Vol.Image, Sects, Chained,
      Buffered, Owns;
    var p := s.cur.fptr;
    InCluster(s.vol.geo, p, ofs - 1);
    ClusterRoom(s.vol.geo, s.ch, p);
    Reseat(s, p + ofs);
    Whole(p, ofs);
    if ofs % 512 != 0 {
      NotWhole(ofs, s.vol.geo.csize);
      InCluster(s.vol.geo, p, ofs);
      Located(At(s, p + ofs));
    }
  }

  lemma Whole(p: nat, ofs: nat)
    requires p % 512 == 0
    ensures (p + ofs) % 512 == ofs % 512
  {
  }

  lemma NotWhole(ofs: nat, m: nat)
    requires ofs % 512 != 0 && ofs <= 512 * m
    ensures ofs < 512 * m
  {
  }

  /** With the right sector in the buffer, the cursor is in order. */
  lemma Landed(s: State)
    requires s.Sound() && s.OnByte() && s.cur.fptr % 512 != 0 && Clusters(s.vol.geo, s.ch)
    requires s.cur.fptr / 512 < |Sects(s.vol.geo, s.ch)| && s.cur.dsect == Sects(s.vol.geo, s.ch)[s.cur.fptr / 512]
    ensures s.Ready()
  {
    hide CluIdx, Vol.Table, Vol.Image, Sects, Chained, Buffered, Owns, Vol.Valid;
    SizeOfCluster(s);
    CluIdxBack(s.vol.geo, s.cur.fptr);
  }

  /** Moving the end of the file out to the cursor keeps what was there. */
  lemma Enlarge(s: State)
    requires s.Ready()
    ensures var s' := s.(cur := s.cur.(fsize := s.Hi()));
      s'.Ready() && s'.Follows(s) && s.Core() <= s'.Core() && s'.Core() == s'.Data()
  {
    hide Vol.Valid, Sects, Chained, FatCursor.View, Flat, CluIdx;
    var s' := s.(cur := s.cur.(fsize := s.Hi()));
    SpaceCur(s.vol.geo, s.vol.Image(), s.ch, s.cur, s'.cur);
    BytesSize(s);
    assert s'.Chains() == s.Chains();
  }

  /** A file whose cursor lies inside it ends where it says. */
  lemma CoreIsData(s: State)
    requires s.Sound() && s.cur.fptr <= s.cur.fsize
    ensures s.Core() == s.Data()
  {
  }

  /** A file without clusters is empty. */
  lemma NoChain(s: State)
    requires s.Sound() && s.cur.sclust == 0
    ensures s.cur.fsize == 0
  {
    StartIs(s);
  }

  /** Jumping straight to a position whose cluster is known. */
  function Jump(s: State, p: nat, c: nat): State {
    s.(cur := s.cur.(fptr := p, clust := c))
  }

  lemma JumpTo(s: State, p: nat)
    requires s.Ready() && 0 < p <= s.cur.fsize
    ensures s.vol.geo.csize >= 1 && Clusters(s.vol.geo, s.ch) && CluIdx(s.vol.geo, p - 1) < |s.ch|
    ensures p - 1 < 512 * |Sects(s.vol.geo, s.ch)|
    ensures var c := s.ch[CluIdx(s.vol.geo, p - 1)];
      && SameCore(s, Jump(s, p, c)) && s.vol.geo.ClustToSect(c) != 0
      && (p % 512 == 0 ==> Jump(s, p, c).Ready())
      && (p % 512 != 0 ==>
            && Jump(s, p, c).OnByte() && p / 512 < |Sects(s.vol.geo, s.ch)|
            && s.vol.geo.ClustToSect(c) + CluSect(s.vol.geo, p - 1) == Sects(s.vol.geo, s.ch)[p / 512])
  {
    hide State.Follows, State.Core, State.Bytes, State.Data, CluIdx, Vol.Table, Vol.Image, Sects, Chained, Owns,
      Geometry.ClustToSect, Base, Flat;
    var geo := s.vol.geo;
    SizeOfCluster(s);
    Fits(s);
    CluIdxIn(geo, s.ch, p - 1);
    var c := s.ch[CluIdx(geo, p - 1)];
    Reseat(s, p);
    JumpSound(At(s, p), c);
    SameCoreTrans(s, At(s, p), Jump(s, p, c));
    Cluster2(s.vol, c);
    if p % 512 != 0 {
      CluIdxBack(geo, p);
      assert p / 512 == (p - 1) / 512;
      Located(Jump(s, p, c));
    }
  }

  /** The current cluster is not part of what makes a state sound. */
  lemma JumpSound(s: State, c: nat)
    requires s.Sound()
    ensures SameCore(s, s.(cur := s.cur.(clust := c)))
  {
    hide Blank, Fat, Flat, Sects, Geometry.Width, FatCursor.View, Chained, CluIdx, Vol.Mirrored, Vol.Image, Vol.Table;
    var s' := s.(cur := s.cur.(clust := c));
    SpaceCur(s.vol.geo, s.vol.Image(), s.ch, s.cur, s'.cur);
    FollowsSelf(s);
    assert s'.Chains() == s.Chains();
  }

  lemma Cluster2(v: Vol, c: nat)
    requires v.Valid() && v.geo.IsCluster(c)
    ensures v.geo.ClustToSect(c) != 0
  {
    ClustToSectIsBase(v.geo, c);
    BasePositive(v.geo, c);
  }
}

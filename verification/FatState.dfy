/** A volume together with one open file, as a value, and the steps that reading and writing are made of. */
module FatState {
  import opened FatBytes
  import opened Octets
  import opened Arith
  import opened FatTable
  import opened FatVol
  import opened FatChain
  import opened FatLayout
  import opened FatCursor
  import opened FatBytesSpec
  import opened FatAlloc

  datatype State = State(vol: Vol, cur: Cur, ch: seq<nat>, others: set<seq<nat>>)
  {
    /** The chains of the volume: the file's, if it has one, and everybody else's. */
    ghost function Chains(): set<seq<nat>> {
      if ch == [] then others else others + {ch}
    }

    /** Table, layout, buffer and window agree; nothing is said yet about where the cursor is. */
    ghost predicate Sound() {
      && vol.Valid()
      && Chained(vol.Table(), Chains()) && ch !in others
      && Placed(vol.geo, vol.Image(), ch)
      && Buffered(vol.geo, vol.Image(), ch, cur)
      && !Owns(vol.geo, ch, vol.winsect)
      && (if ch == [] then cur.sclust == 0 else cur.sclust == ch[0])
      && cur.fptr <= 512 * |Sects(vol.geo, ch)| && cur.fsize <= 512 * |Sects(vol.geo, ch)|
    }

    /** The state between calls. */
    ghost predicate Ready() {
      Sound() && Aimed(vol.geo, ch, cur)
    }

    /** The cursor is at a place where the current cluster holds byte fptr itself. */
    ghost predicate OnByte()
      requires Sound()
    {
      && cur.fptr < 512 * |Sects(vol.geo, ch)|
      && CluIdx(vol.geo, cur.fptr) < |ch| && cur.clust == ch[CluIdx(vol.geo, cur.fptr)]
    }

    /** Every byte of the chain's space. */
    ghost function Bytes(): seq<byte>
      requires Sound()
    {
      Space(vol.geo, vol.Image(), ch, cur)
    }

    /** The bytes up to the recorded end of the file. */
    ghost function Core(): seq<byte>
      requires Sound()
    {
      Bytes()[..cur.fsize]
    }

    /** One past the last byte that matters: the end of the file, or the cursor when it has moved past it. */
    ghost function Hi(): nat {
      if cur.fptr > cur.fsize then cur.fptr else cur.fsize
    }

    /** The file's bytes, counting what has been written past its recorded end. */
    ghost function Data(): seq<byte>
      requires Sound()
    {
      Bytes()[..Hi()]
    }

    /** Going from was to here touched nothing but the table, the medium's copy of it, and the file's own sectors. */
    ghost predicate Follows(was: State)
      requires was.vol.Valid()
    {
      && vol.Valid() && vol.geo == was.vol.geo
      && was.ch <= ch && others == was.others && Clusters(vol.geo, ch)
      && |vol.Image()| == |was.vol.Image()|
      && (forall i :: 0 <= i < |vol.Image()| && !vol.geo.InFat(i) && !Owns(vol.geo, ch, i) ==>
            vol.Image()[i] == was.vol.Image()[i])
      && (was.vol.lost ==> vol.lost)
      && (!vol.lost && was.vol.Mirrored() ==> vol.Mirrored())
    }
  }

  lemma {:induction false} OwnsPrefix(geo: Geometry, a: seq<nat>, b: seq<nat>, s: nat)
    requires Clusters(geo, b) && a <= b && Clusters(geo, a) && Owns(geo, a, s)
    ensures Owns(geo, b, s)
  {
    if a != b {
      var n := |b| - 1;
      assert b == b[..n] + [b[n]];
      SectsGrow(geo, b[..n], b[n]);
      OwnsPrefix(geo, a, b[..n], s);
      var k :| 0 <= k < |Sects(geo, b[..n])| && Sects(geo, b[..n])[k] == s;
      assert Sects(geo, b)[k] == s;
    }
  }

  lemma FollowsTrans(a: State, b: State, c: State)
    requires a.vol.Valid() && b.Follows(a) && c.Follows(b)
    ensures c.Follows(a)
  {
    forall i | 0 <= i < |c.vol.Image()| && !c.vol.geo.InFat(i) && !Owns(c.vol.geo, c.ch, i)
      ensures c.vol.Image()[i] == a.vol.Image()[i]
    {
      if Owns(b.vol.geo, b.ch, i) {
        OwnsPrefix(b.vol.geo, b.ch, c.ch, i);
      }
    }
  }

  lemma FollowsSelf(a: State)
    requires a.Sound()
    ensures a.Follows(a)
  {
  }

  /** Writing data sectors the window does not hold writes them in the image. */
  lemma DataWrite(v: Vol, s: nat, d: seq<Sector>)
    requires v.Valid() && v.geo.database <= s && s + |d| <= |v.disk| && AllSectors(d)
    requires v.winsect < s || s + |d| <= v.winsect
    ensures var v' := v.(disk := Splice(v.disk, s, d));
      && v'.Valid() && v'.Image() == Splice(v.Image(), s, d)
      && (v.Mirrored() ==> v'.Mirrored())
  {
    hide Geometry.Width;
    var disk' := Splice(v.disk, s, d);
    forall i | 0 <= i < |v.disk| ensures disk'[i] == if s <= i < s + |d| then d[i - s] else v.disk[i] {
      SpliceAt(v.disk, s, d, i);
    }
    var v' := v.(disk := disk');
    assert v'.Valid();
    forall i | 0 <= i < |v.disk| ensures v'.Image()[i] == Splice(v.Image(), s, d)[i] {
      SpliceAt(v.Image(), s, d, i);
    }
  }

  /** The same, one sector, while the window is on the table. */
  lemma WrittenValid(v: Vol, s: nat, b: Sector)
    requires v.Valid() && v.geo.database <= s < |v.disk| && |b| == 512 && v.geo.InFat(v.winsect)
    ensures v.(disk := v.disk[s := b]).Valid()
  {
  }

  lemma WrittenRunValid(v: Vol, s: nat, d: seq<Sector>)
    requires v.Valid() && v.geo.database <= s && s + |d| <= |v.disk| && AllSectors(d) && v.geo.InFat(v.winsect)
    ensures Written(v, s, d).Valid()
  {
    hide Geometry.Width, Vol.Image;
    DataWrite(v, s, d);
  }

  /** The medium shows the image wherever the window is not. */
  lemma DataRead(v: Vol, s: nat, n: nat)
    requires v.Valid() && v.geo.database <= s && s + n <= |v.disk|
    requires v.winsect < s || s + n <= v.winsect
    ensures v.disk[s..s + n] == v.Image()[s..s + n]
  {
    forall i | s <= i < s + n ensures v.disk[i] == v.Image()[i] {
    }
  }

  lemma OwnsData(s: State, x: nat)
    requires s.vol.Valid() && Placed(s.vol.geo, s.vol.Image(), s.ch) && Owns(s.vol.geo, s.ch, x)
    ensures s.vol.geo.database <= x < |s.vol.Image()| && !s.vol.geo.InFat(x)
  {
  }

  /** No file owns a table sector. */
  lemma TableNotOwned(geo: Geometry, img: seq<Sector>, ch: seq<nat>)
    requires Placed(geo, img, ch)
    ensures forall x: nat {:trigger geo.InFat(x)} :: geo.InFat(x) ==> x < geo.database
    ensures forall x: nat {:trigger Owns(geo, ch, x)} :: Owns(geo, ch, x) ==> geo.database <= x < |img| && !geo.InFat(x)
  {
  }

  /** Reading the table, or rewriting it with the same entries, changes nothing but the window. */
  lemma TableStep(s: State, v: Vol)
    requires s.Sound() && v.Edited(s.vol) && v.Table() == s.vol.Table()
    requires v.winsect == s.vol.winsect || v.geo.InFat(v.winsect)
    ensures s.(vol := v).Sound() && s.(vol := v).Bytes() == s.Bytes() && s.(vol := v).Follows(s)
    ensures s.Ready() ==> s.(vol := v).Ready()
  {
    hide Blank, Fat, Flat, Sects, Chained, Geometry.Valid, FatCursor.View, Vol.Table;
    EditedElsewhere(s, v);
    TableNotOwned(v.geo, v.Image(), s.ch);
  }

  /** The chains of a volume whose file has just been given one more cluster. */
  lemma GrowChains(s: State, v: Vol, ncl: nat, eoc: nat)
    requires s.Sound() && v.Valid() && v.geo == s.vol.geo
    requires s.vol.geo.IsCluster(ncl) && s.vol.Table()[ncl] == 0 && eoc >= s.vol.geo.nFatent
    requires s.ch == [] ==> v.Table() == Started(s.vol.Table(), ncl, eoc)
    requires s.ch != [] ==> v.Table() == Stretched(s.vol.Table(), s.ch[|s.ch| - 1], ncl, eoc)
    ensures Chained(v.Table(), s.others + {s.ch + [ncl]}) && s.ch + [ncl] !in s.others
    ensures FatChain.Disjoint(s.ch, [ncl]) && FatLayout.Distinct(s.ch)
  {
    hide Blank, Fat, Flat, Sects, Geometry.Valid, FatCursor.View, Vol.Table;
    var fat := s.vol.Table();
    var ch' := s.ch + [ncl];
    if s.ch == [] {
      StartKeeps(fat, s.Chains(), ncl, eoc);
      assert ch' == [ncl];
    } else {
      assert s.ch in s.Chains() && IsChain(fat, s.ch);
      StretchKeeps(fat, s.Chains(), s.ch, ncl, eoc);
      FreeIsOutside(fat, ncl, s.ch);
      ChainDistinct(fat, s.ch);
      assert s.Chains() - {s.ch} == s.others;
    }
    assert ch'[|s.ch|] == ncl;
    forall a | a in s.others ensures ncl !in a {
      assert a in s.Chains();
      FreeIsOutside(fat, ncl, a);
    }
  }

  /** Giving the file one more cluster keeps its bytes and everybody else's. */
  lemma GrowStep(s: State, v: Vol, ncl: nat, eoc: nat)
    requires s.Sound() && v.Edited(s.vol) && v.geo.InFat(v.winsect)
    requires s.vol.geo.IsCluster(ncl) && s.vol.Table()[ncl] == 0 && eoc >= s.vol.geo.nFatent
    requires s.ch == [] ==> v.Table() == Started(s.vol.Table(), ncl, eoc)
    requires s.ch != [] ==> v.Table() == Stretched(s.vol.Table(), s.ch[|s.ch| - 1], ncl, eoc)
    ensures var s' := State(v, if s.ch == [] then s.cur.(sclust := ncl) else s.cur, s.ch + [ncl], s.others);
      s'.Sound() && s.Bytes() <= s'.Bytes() && s'.Follows(s)
  {
    hide Blank, Fat, Flat, Sects, Geometry.Valid, FatCursor.View, Vol.Table, Chained, Started, Stretched;
    var cur' := if s.ch == [] then s.cur.(sclust := ncl) else s.cur;
    var s' := State(v, cur', s.ch + [ncl], s.others);
    GrowChains(s, v, ncl, eoc);
    EditedElsewhere(s, v);
    FatCursor.GrowStep(v.geo, v.Image(), s.ch, cur', ncl);
    SpaceCur(v.geo, v.Image(), s.ch, s.cur, cur');
    TableNotOwned(v.geo, v.Image(), s'.ch);
  }

  /** The space depends only on the buffer part of the cursor. */
  lemma SpaceCur(geo: Geometry, img: seq<Sector>, ch: seq<nat>, cur: Cur, cur': Cur)
    requires Placed(geo, img, ch) && Buffered(geo, img, ch, cur)
    requires cur'.dsect == cur.dsect && cur'.buf == cur.buf && cur'.dirty == cur.dirty
    ensures Buffered(geo, img, ch, cur') && Space(geo, img, ch, cur') == Space(geo, img, ch, cur)
  {
    assert FatCursor.View(img, Sects(geo, ch), cur') == FatCursor.View(img, Sects(geo, ch), cur);
  }

  lemma EditedElsewhere(s: State, v: Vol)
    requires s.Sound() && v.Edited(s.vol)
    ensures Placed(v.geo, v.Image(), s.ch) && Buffered(v.geo, v.Image(), s.ch, s.cur)
    ensures Space(v.geo, v.Image(), s.ch, s.cur) == s.Bytes()
  {
    hide Blank, Fat, Flat, Sects, Geometry.Valid, FatCursor.View, Vol.Table, Chained;
    ImageHolds(v);
    TableNotOwned(v.geo, s.vol.Image(), s.ch);
    ElsewhereStep(v.geo, s.vol.Image(), v.Image(), s.ch, s.cur);
  }

  /** Writing back the buffer. */
  lemma FlushStep(s: State)
    requires s.Sound() && s.cur.dirty
    ensures s.cur.dsect < |s.vol.disk|
    ensures var s' := s.(vol := s.vol.(disk := s.vol.disk[s.cur.dsect := s.cur.buf]), cur := s.cur.(dirty := false));
      && s'.Sound() && s'.Bytes() == s.Bytes() && s'.Follows(s) && (s.Ready() ==> s'.Ready())
  {
    hide Blank, Fat, Flat, Sects, Geometry.Valid, FatCursor.View, Chained;
    var x := s.cur.dsect;
    OwnsData(s, x);
    DataWrite(s.vol, x, [s.cur.buf]);
    assert Splice(s.vol.disk, x, [s.cur.buf]) == s.vol.disk[x := s.cur.buf];
    assert Splice(s.vol.Image(), x, [s.cur.buf]) == s.vol.Image()[x := s.cur.buf];
    FatCursor.FlushStep(s.vol.geo, s.vol.Image(), s.ch, s.cur);
    DataKeepsTable(s.vol, s.vol.(disk := s.vol.disk[x := s.cur.buf]));
  }

  /** The table lies outside the data sectors. */
  lemma DataKeepsTable(v: Vol, v': Vol)
    requires v.Valid() && v'.Valid() && v'.geo == v.geo && |v'.Image()| == |v.Image()|
    requires forall i :: 0 <= i < v.geo.database ==> v'.Image()[i] == v.Image()[i]
    ensures v'.Table() == v.Table()
  {
    ImageHolds(v);
    ImageHolds(v');
    SameFat(v.geo, v.Image(), v'.Image());
  }

  /** Loading the current sector into a clean buffer. */
  lemma FillStep(s: State, k: nat)
    requires s.Sound() && !s.cur.dirty && k < |Sects(s.vol.geo, s.ch)|
    ensures var x := Sects(s.vol.geo, s.ch)[k];
      x < |s.vol.Image()| &&
      var s' := s.(cur := s.cur.(dsect := x, buf := s.vol.Image()[x]));
      s'.Sound() && s'.Bytes() == s.Bytes() && s'.Follows(s)
  {
    hide Blank, Fat, Flat, Sects, Geometry.Valid, FatCursor.View, Chained;
    SectPositive(s.vol.geo, s.vol.Image(), s.ch, k);
    FatCursor.FillStep(s.vol.geo, s.vol.Image(), s.ch, s.cur, k);
  }

  /** The cursor after copying e into the buffer, aimed at sector x. */
  function Copied(cur: Cur, x: nat, e: seq<byte>): Cur
    requires cur.fptr % 512 + |e| <= 512 && |cur.buf| == 512
  {
    cur.(dsect := x, buf := Splice(cur.buf, cur.fptr % 512, e), dirty := true, fptr := cur.fptr + |e|)
  }

  /** Copying e into the buffer at the cursor writes e to the file there. */
  lemma CopyStep(s: State, e: seq<byte>)
    requires s.Sound() && s.OnByte() && 0 < |e| && s.cur.fptr % 512 + |e| <= 512 && |s.cur.buf| == 512
    requires s.cur.fptr / 512 < |Sects(s.vol.geo, s.ch)|
    requires var x := Sects(s.vol.geo, s.ch)[s.cur.fptr / 512];
      s.cur.dsect == x || (!s.cur.dirty && s.cur.fptr % 512 == 0 && s.cur.fptr >= s.cur.fsize)
    ensures var s' := s.(cur := Copied(s.cur, Sects(s.vol.geo, s.ch)[s.cur.fptr / 512], e));
      s'.Ready() && s'.Follows(s) && Put(s.Bytes(), s'.Bytes(), s.cur.fptr, e, s.Hi())
  {
    hide Buffered, Space, Splice, Sects, Aimed, CluIdx, Placed, Vol.Valid, Vol.Image, Vol.Mirrored, Chained, Put;
    var geo, img := s.vol.geo, s.vol.Image();
    var k, o := s.cur.fptr / 512, s.cur.fptr % 512;
    FollowsSelf(s);
    BytesSize(s);
    CopySpace(geo, img, s.ch, s.cur, k, e);
    if s.cur.dsect == Sects(geo, s.ch)[k] {
      BufferShows(geo, img, s.ch, s.cur, k);
    }
    SplicePut(s.Bytes(), k, Splice(s.cur.buf, o, e), s.cur.buf, o, e, s.Hi());
    CopiedAimed(s, e);
  }

  /** Copying e into the buffer splices the sector it is aimed at into the chain's space. */
  lemma CopySpace(geo: Geometry, img: seq<Sector>, ch: seq<nat>, cur: Cur, k: nat, e: seq<byte>)
    requires Placed(geo, img, ch) && Buffered(geo, img, ch, cur) && k < |Sects(geo, ch)|
    requires cur.fptr % 512 + |e| <= 512 && |cur.buf| == 512 && (!cur.dirty || cur.dsect == Sects(geo, ch)[k])
    ensures var cur', buf := Copied(cur, Sects(geo, ch)[k], e), Splice(cur.buf, cur.fptr % 512, e);
      && |buf| == 512 && Buffered(geo, img, ch, cur')
      && Space(geo, img, ch, cur') == Splice(Space(geo, img, ch, cur), 512 * k, buf)
  {
    hide Buffered, Space, Splice, Sects;
    var x, buf := Sects(geo, ch)[k], Splice(cur.buf, cur.fptr % 512, e);
    PutStep(geo, img, ch, cur, k, buf);
    SpaceCur(geo, img, ch, cur.(dsect := x, buf := buf, dirty := true), Copied(cur, x, e));
  }

  /** After a copy the cursor is where it should be. */
  lemma CopiedAimed(s: State, e: seq<byte>)
    requires s.Sound() && s.OnByte() && 0 < |e| && s.cur.fptr % 512 + |e| <= 512 && |s.cur.buf| == 512
    requires s.cur.fptr / 512 < |Sects(s.vol.geo, s.ch)|
    ensures Aimed(s.vol.geo, s.ch, Copied(s.cur, Sects(s.vol.geo, s.ch)[s.cur.fptr / 512], e))
  {
    hide Blank, Fat, Flat, Sects, Geometry.Width, FatCursor.View, Chained, Splice, CluIdx;
    CluIdxStay(s.vol.geo, s.cur.fptr, |e|);
    SameSector(s.cur.fptr, |e|);
  }

  /** The state after n whole sectors go straight to the medium and the buffer is refilled if it held one of them. */
  function Direct(s: State, n: nat, e: seq<byte>): State
    requires |e| == 512 * n && Clusters(s.vol.geo, s.ch) && s.cur.fptr / 512 < |Sects(s.vol.geo, s.ch)|
    requires Sects(s.vol.geo, s.ch)[s.cur.fptr / 512] + n <= |s.vol.disk|
  {
    var x := Sects(s.vol.geo, s.ch)[s.cur.fptr / 512];
    State(Written(s.vol, x, Chop(e, n)), Refilled(s.cur, x, Chop(e, n)), s.ch, s.others)
  }

  function Written(v: Vol, x: nat, d: seq<Sector>): Vol
    requires x + |d| <= |v.disk|
  {
    v.(disk := Splice(v.disk, x, d))
  }

  /** The cursor after whole sectors d were written from sector x on. */
  function Refilled(cur: Cur, x: nat, d: seq<Sector>): Cur {
    (if x <= cur.dsect < x + |d| then cur.(buf := d[cur.dsect - x]) else cur).(fptr := cur.fptr + 512 * |d|)
  }

  lemma RunOwned(geo: Geometry, ch: seq<nat>, k: nat, n: nat, i: nat)
    requires Clusters(geo, ch) && k < |Sects(geo, ch)| && RunAt(Sects(geo, ch), k, n)
    requires Sects(geo, ch)[k] <= i < Sects(geo, ch)[k] + n
    ensures Owns(geo, ch, i)
  {
    hide Sects;
    var j := k + (i - Sects(geo, ch)[k]);
    assert Sects(geo, ch)[j] == i;
  }

  lemma DirectFits(s: State, n: nat)
    requires s.Sound() && s.OnByte() && CluSect(s.vol.geo, s.cur.fptr) + n <= s.vol.geo.csize
    ensures Clusters(s.vol.geo, s.ch) && s.vol.geo.csize >= 1
    ensures var k := s.cur.fptr / 512;
      k < |Sects(s.vol.geo, s.ch)| && k + n <= |Sects(s.vol.geo, s.ch)| &&
      var x := Sects(s.vol.geo, s.ch)[k];
      && x + n <= |s.vol.disk| && s.vol.geo.database <= x
      && RunAt(Sects(s.vol.geo, s.ch), k, n)
      && (s.vol.winsect < x || x + n <= s.vol.winsect)
      && x == Base(s.vol.geo, s.cur.clust) + CluSect(s.vol.geo, s.cur.fptr)
  {
    hide Blank, Fat, Flat, Sects, FatCursor.View, Chained, Base;
    var geo, ss, k := s.vol.geo, Sects(s.vol.geo, s.ch), s.cur.fptr / 512;
    CluIdxIn(geo, s.ch, s.cur.fptr);
    Contiguous(geo, s.ch, k, n);
    RunInside(ss, k, n, |s.vol.Image()|);
    if ss[k] <= s.vol.winsect < ss[k] + n {
      RunOwned(geo, s.ch, k, n, s.vol.winsect);
    }
  }

  /** Writing a run of the file's own sectors leaves everything else on the volume alone. */
  lemma WrittenElsewhere(s: State, k: nat, d: seq<Sector>)
    requires s.vol.Valid() && Clusters(s.vol.geo, s.ch) && AllSectors(d)
    requires k < |Sects(s.vol.geo, s.ch)| && RunAt(Sects(s.vol.geo, s.ch), k, |d|)
    requires Sects(s.vol.geo, s.ch)[k] + |d| <= |s.vol.disk| && s.vol.geo.database <= Sects(s.vol.geo, s.ch)[k]
    requires s.vol.winsect < Sects(s.vol.geo, s.ch)[k] || Sects(s.vol.geo, s.ch)[k] + |d| <= s.vol.winsect
    ensures var v := Written(s.vol, Sects(s.vol.geo, s.ch)[k], d);
      && v.Valid() && v.Table() == s.vol.Table() && v.Image() == Splice(s.vol.Image(), Sects(s.vol.geo, s.ch)[k], d)
      && s.(vol := v).Follows(s)
  {
    hide Blank, Fat, Flat, FatCursor.View, Chained, Splice, Sects, Geometry.Valid, Owns, Vol.Table;
    var x := Sects(s.vol.geo, s.ch)[k];
    DataWrite(s.vol, x, d);
    var v := Written(s.vol, x, d);
    forall i | 0 <= i < |v.Image()| && (i < s.vol.geo.database || !Owns(s.vol.geo, s.ch, i))
      ensures v.Image()[i] == s.vol.Image()[i]
    {
      SpliceAt(s.vol.Image(), x, d, i);
      if x <= i < x + |d| {
        RunOwned(s.vol.geo, s.ch, k, |d|, i);
      }
    }
    DataKeepsTable(s.vol, v);
  }

  /** A direct write of whole sectors at the cursor writes them to the file there. */
  lemma DirectStep(s: State, n: nat, e: seq<byte>)
    requires s.Sound() && s.OnByte() && !s.cur.dirty && s.cur.fptr % 512 == 0 && 0 < n && |e| == 512 * n
    requires CluSect(s.vol.geo, s.cur.fptr) + n <= s.vol.geo.csize
    requires s.cur.fptr / 512 < |Sects(s.vol.geo, s.ch)|
    requires Sects(s.vol.geo, s.ch)[s.cur.fptr / 512] + n <= |s.vol.disk|
    ensures var s' := Direct(s, n, e);
      s'.Ready() && s'.Follows(s) && Put(s.Bytes(), s'.Bytes(), s.cur.fptr, e, s.Hi())
  {
    hide Blank, Fat, Flat, Sects, FatCursor.View, Chained, Base, Splice, Chop, Owns, Vol.Image, Vol.Table, Vol.Valid,
      Geometry.Valid, Put, RunAt, CluIdx, Placed, Buffered, Space, Vol.Mirrored, Aimed;
    var k, d := s.cur.fptr / 512, Chop(e, n);
    DirectFits(s, n);
    var x := Sects(s.vol.geo, s.ch)[k];
    WrittenElsewhere(s, k, d);
    var img' := Written(s.vol, x, d).Image();
    var cur1 := Refilled(s.cur, x, d).(fptr := s.cur.fptr);
    FatCursor.DirectStep(s.vol.geo, s.vol.Image(), s.ch, s.cur, k, n, d);
    assert Buffered(s.vol.geo, img', s.ch, cur1);
    SpaceCur(s.vol.geo, img', s.ch, cur1, Refilled(s.cur, x, d));
    FlatChop(e, n);
    BytesSize(s);
    SpliceWhole(s.Bytes(), s.cur.fptr, e, s.Hi());
    DirectAimed(s, x, d);
  }

  lemma DirectAimed(s: State, x: nat, d: seq<Sector>)
    requires s.Sound() && s.OnByte() && s.cur.fptr % 512 == 0 && |d| > 0
    requires CluSect(s.vol.geo, s.cur.fptr) + |d| <= s.vol.geo.csize
    requires s.cur.fptr / 512 + |d| <= |Sects(s.vol.geo, s.ch)|
    ensures Refilled(s.cur, x, d).fptr <= 512 * |Sects(s.vol.geo, s.ch)|
    ensures Aimed(s.vol.geo, s.ch, Refilled(s.cur, x, d))
  {
    hide Blank, Fat, Flat, Sects, Geometry.Width, FatCursor.View, Chained, Splice, CluIdx;
    CluIdxStay(s.vol.geo, s.cur.fptr, 512 * |d|);
    SameSector(s.cur.fptr, 512 * |d|);
  }

  /** One write step, seen on the file's bytes. */
  lemma DataPut(s: State, s': State, e: seq<byte>)
    requires s.Sound() && s'.Sound() && Put(s.Bytes(), s'.Bytes(), s.cur.fptr, e, s.Hi())
    requires s'.cur.fptr == s.cur.fptr + |e| && s'.cur.fsize == s.cur.fsize
    ensures s.cur.fptr <= |s.Data()| && s'.Data() == Overwrite(s.Data(), s.cur.fptr, e)
  {
    hide Overwrite, Put, State.Sound, State.Bytes;
    BytesSize(s);
    BytesSize(s');
    PutIsOverwrite(s.Bytes(), s'.Bytes(), s.cur.fptr, e, s.Hi());
  }

  lemma BytesSize(s: State)
    requires s.Sound()
    ensures |s.Bytes()| == 512 * |Sects(s.vol.geo, s.ch)| && s.Hi() <= |s.Bytes()|
  {
  }

  /** Bytes added at the end of the space are not part of the file yet. */
  lemma KeepData(s: State, s': State)
    requires s.Sound() && s'.Sound() && s.Bytes() <= s'.Bytes()
    requires s'.cur.fptr == s.cur.fptr && s'.cur.fsize == s.cur.fsize
    ensures s'.Data() == s.Data()
  {
    hide State.Sound, State.Bytes;
    BytesSize(s);
    BytesSize(s');
  }

  /** At a cluster boundary, the position in the chain of the cluster that holds the next byte. */
  function NextIdx(s: State): nat
    requires s.vol.geo.csize >= 1
  {
    if s.cur.fptr == 0 then 0 else CluIdx(s.vol.geo, s.cur.fptr - 1) + 1
  }

  predicate AtBoundary(s: State)
    requires s.vol.geo.csize >= 1
  {
    s.cur.fptr % 512 == 0 && CluSect(s.vol.geo, s.cur.fptr) == 0
  }

  lemma NextIdxIs(s: State)
    requires s.vol.geo.csize >= 1 && AtBoundary(s)
    ensures NextIdx(s) == CluIdx(s.vol.geo, s.cur.fptr)
  {
    if s.cur.fptr == 0 {
      assert CluIdx(s.vol.geo, 0) == 0;
    } else {
      CluIdxBack(s.vol.geo, s.cur.fptr);
    }
  }

  lemma CsizePositive(s: State)
    requires s.Sound()
    ensures s.vol.geo.csize >= 1 && Clusters(s.vol.geo, s.ch) && s.vol.geo.database >= 1
  {
  }

  /** Making the next cluster of the chain current puts the cursor on its byte. */
  lemma Enter(s: State)
    requires s.Sound() && AtBoundary(s) && NextIdx(s) < |s.ch|
    ensures var s' := s.(cur := s.cur.(clust := s.ch[NextIdx(s)]));
      s'.Sound() && s'.OnByte() && s'.Bytes() == s.Bytes() && s'.Follows(s)
  {
    hide Blank, Fat, Flat, Sects, Chained, Geometry.Valid, FatCursor.View, Vol.Table, Vol.Image, CluIdx, NextIdx,
      Vol.Mirrored;
    CsizePositive(s);
    NextIdxIs(s);
    var i := NextIdx(s);
    var s' := s.(cur := s.cur.(clust := s.ch[i]));
    EnterOn(s.vol.geo, s.ch, s.cur.fptr);
    SpaceCur(s.vol.geo, s.vol.Image(), s.ch, s.cur, s'.cur);
    FollowsSelf(s);
    assert s'.Chains() == s.Chains();
  }

  lemma EnterOn(geo: Geometry, ch: seq<nat>, p: nat)
    requires Clusters(geo, ch) && geo.csize >= 1 && p % 512 == 0 && CluSect(geo, p) == 0 && CluIdx(geo, p) < |ch|
    ensures p < 512 * |Sects(geo, ch)|
  {
    hide Sects;
    CluIs(geo, p);
    DivParts(p / 512, geo.csize);
    SectsAt(geo, ch, CluIdx(geo, p), 0);
  }

  /** The state once ncl has become the current cluster: the next of the chain, or a new one at its end. */
  ghost function Advanced(s: State, v: Vol, ncl: nat): State
    requires s.vol.geo.csize >= 1
  {
    if NextIdx(s) < |s.ch| then State(v, s.cur.(clust := ncl), s.ch, s.others)
    else State(v, s.cur.(clust := ncl, sclust := if s.ch == [] then ncl else s.cur.sclust), s.ch + [ncl], s.others)
  }

  /** The same file content, and nothing else touched. */
  ghost predicate Kept(s: State, s': State)
    requires s.Sound()
  {
    s'.Sound() && s'.Data() == s.Data() && s'.Follows(s)
  }

  /** What moving on to the next cluster promises. */
  ghost predicate MovedOn(s: State, s': State)
    requires s.Sound()
  {
    Kept(s, s') && s'.OnByte()
  }

  lemma KeptTrans(a: State, b: State, c: State)
    requires a.Sound() && Kept(a, b) && Kept(b, c)
    ensures Kept(a, c)
  {
    hide State.Sound, State.Data, State.Bytes, State.Follows, Vol.Valid;
    ValidOf(a);
    FollowsTrans(a, b, c);
  }

  lemma KeptSelf(a: State)
    requires a.Sound()
    ensures Kept(a, a)
  {
    FollowsSelf(a);
  }

  /** How the first cluster is recorded. */
  lemma StartIs(s: State)
    requires s.Sound()
    ensures s.cur.sclust == 0 <==> s.ch == []
    ensures s.ch != [] ==> s.cur.sclust == s.ch[0] && s.vol.geo.IsCluster(s.ch[0])
    ensures s.Ready() && s.cur.fptr > 0 ==> s.ch != []
  {
  }

  lemma EditedGeo(v: Vol, w: Vol)
    requires w.Valid() && v.Edited(w)
    ensures v.Valid() && v.geo == w.geo
  {
  }

  lemma EditedSelf(v: Vol)
    requires v.Valid()
    ensures v.Edited(v)
  {
  }

  lemma FollowNext(s: State, v: Vol, ncl: nat)
    requires s.Sound() && AtBoundary(s) && NextIdx(s) < |s.ch| && ncl == s.ch[NextIdx(s)]
    requires v.Edited(s.vol) && v.Table() == s.vol.Table() && (v.winsect == s.vol.winsect || v.geo.InFat(v.winsect))
    ensures MovedOn(s, Advanced(s, v, ncl))
  {
    hide State.Sound, State.Bytes, State.OnByte, Vol.Valid, Vol.Image, Vol.Table, Vol.Mirrored, State.Follows,
      State.Data;
    TableStep(s, v);
    ValidOf(s);
    Enter(s.(vol := v));
    FollowsTrans(s, s.(vol := v), Advanced(s, v, ncl));
    KeepData(s, Advanced(s, v, ncl));
  }

  lemma ValidOf(s: State)
    requires s.Sound()
    ensures s.vol.Valid() && s.vol.geo.csize >= 1
  {
  }

  lemma StretchNext(s: State, v: Vol, ncl: nat, eoc: nat)
    requires s.Sound() && AtBoundary(s) && NextIdx(s) == |s.ch|
    requires v.Edited(s.vol) && v.geo.InFat(v.winsect)
    requires s.vol.geo.IsCluster(ncl) && s.vol.Table()[ncl] == 0 && eoc >= s.vol.geo.nFatent
    requires s.ch == [] ==> v.Table() == Started(s.vol.Table(), ncl, eoc)
    requires s.ch != [] ==> v.Table() == Stretched(s.vol.Table(), s.ch[|s.ch| - 1], ncl, eoc)
    ensures MovedOn(s, Advanced(s, v, ncl))
  {
    hide State.Sound, State.Bytes, State.OnByte, Vol.Valid, Vol.Image, Vol.Table, Vol.Mirrored, State.Follows,
      State.Data,
      Started, Stretched, Geometry.Valid;
    ValidOf(s);
    GrowStep(s, v, ncl, eoc);
    var s1 := State(v, if s.ch == [] then s.cur.(sclust := ncl) else s.cur, s.ch + [ncl], s.others);
    ValidOf(s1);
    Enter(s1);
    FollowsTrans(s, s1, Advanced(s, v, ncl));
    KeepData(s, Advanced(s, v, ncl));
  }

  /** Where the current cluster's entry leads. */
  lemma NextOf(s: State)
    requires s.Ready() && AtBoundary(s) && s.cur.fptr > 0
    ensures NextIdx(s) <= |s.ch| && s.vol.geo.IsCluster(s.cur.clust)
    ensures NextIdx(s) < |s.ch| ==> s.vol.Table()[s.cur.clust] == s.ch[NextIdx(s)]
    ensures NextIdx(s) == |s.ch| ==> s.vol.Table()[s.cur.clust] >= s.vol.geo.nFatent && s.cur.clust == s.ch[|s.ch| - 1]
    ensures forall i :: 0 <= i < |s.ch| ==> s.vol.geo.IsCluster(s.ch[i])
  {
    hide Blank, Fat, Flat, Sects, Geometry.Valid, FatCursor.View, Vol.Table, Vol.Image, CluIdx, Vol.Mirrored, Owns,
      Buffered;
    assert s.ch in s.Chains() && IsChain(s.vol.Table(), s.ch);
    FatChain.Follows(s.vol.Table(), s.ch, CluIdx(s.vol.geo, s.cur.fptr - 1));
  }

  /** create_chain at a cluster boundary, on the state. */
  lemma CreateNext(s: State, v: Vol, last: nat, ncl: nat, eoc: nat)
    requires s.Ready() && AtBoundary(s) && (s.cur.fptr == 0 ==> s.ch == []) && eoc >= s.vol.geo.nFatent
    requires v.Edited(s.vol) && (v.winsect == s.vol.winsect || v.geo.InFat(v.winsect))
    requires var clst := if s.cur.fptr == 0 then 0 else s.cur.clust;
      && Created(s.vol.Table(), clst, last, eoc, ncl, v.Table())
      && (Took(s.vol.Table(), clst, ncl) ==> v.geo.InFat(v.winsect))
    ensures ncl == 0 ==> NoFree(v.Table()) && Kept(s, s.(vol := v)) && s.(vol := v).Ready()
    ensures s.cur.fptr > 0 && NextIdx(s) < |s.ch| ==> ncl != 0
    ensures ncl != 0 ==> 2 <= ncl < s.vol.geo.nFatent && MovedOn(s, Advanced(s, v, ncl))
  {
    hide State.Bytes, State.OnByte, Vol.Valid, Vol.Image, Vol.Table, Vol.Mirrored, State.Follows, State.Data,
      Started, Stretched, Geometry.Valid, MovedOn, Placed, Buffered, Aimed, Chained, NoFree, Owns, Sects, Broken;
    ValidOf(s);
    ChainedNotBroken(s.vol.Table(), s.Chains());
    if ncl == 0 {
      TableStep(s, v);
      KeepData(s, s.(vol := v));
    }
    if s.cur.fptr > 0 {
      NextOf(s);
      if NextIdx(s) < |s.ch| {
        FollowNext(s, v, ncl);
      } else if ncl != 0 {
        StretchNext(s, v, ncl, eoc);
      }
    } else if ncl != 0 {
      StretchNext(s, v, ncl, eoc);
    }
  }

  lemma AdvancedIs(s: State, v: Vol, ncl: nat)
    requires s.vol.geo.csize >= 1
    ensures Advanced(s, v, ncl) == State(v,
      s.cur.(clust := ncl, sclust := if NextIdx(s) >= |s.ch| && s.ch == [] then ncl else s.cur.sclust),
      Advanced(s, v, ncl).ch, s.others)
  {
  }

  /** clust2sect and the sector offset in the cluster give the sector of the next byte. */
  lemma Located(s: State)
    requires s.Sound() && s.OnByte()
    ensures s.vol.geo.csize >= 1 && Clusters(s.vol.geo, s.ch)
    ensures s.vol.geo.ClustToSect(s.cur.clust) != 0 && s.cur.fptr / 512 < |Sects(s.vol.geo, s.ch)|
    ensures var x := s.vol.geo.ClustToSect(s.cur.clust) + CluSect(s.vol.geo, s.cur.fptr);
      && x == Sects(s.vol.geo, s.ch)[s.cur.fptr / 512]
      && s.vol.geo.database <= x < |s.vol.disk|
  {
    hide Blank, Fat, Flat, Sects, FatCursor.View, Chained, Base, CluIdx, Buffered, Vol.Mirrored, Vol.Table;
    CluIdxIn(s.vol.geo, s.ch, s.cur.fptr);
    ClustToSectIsBase(s.vol.geo, s.cur.clust);
    BasePositive(s.vol.geo, s.cur.clust);
  }

  lemma BasePositive(geo: Geometry, c: nat)
    requires geo.Valid() && c >= 2
    ensures Base(geo, c) >= geo.database >= 1
  {
    MulMono(0, c - 2, geo.csize);
  }

  /** Away from a cluster boundary the current cluster holds the next byte. */
  lemma MidCluster(s: State)
    requires s.Ready() && s.cur.fptr > 0 && !AtBoundary(s)
    requires s.cur.fptr % 512 != 0 || s.cur.fptr < 512 * |Sects(s.vol.geo, s.ch)|
    ensures s.OnByte()
    ensures s.cur.fptr % 512 != 0 ==>
      s.cur.fptr / 512 < |Sects(s.vol.geo, s.ch)| && s.cur.dsect == Sects(s.vol.geo, s.ch)[s.cur.fptr / 512]
  {
    hide Blank, Fat, Flat, Sects, FatCursor.View, Chained, Base, CluIdx, Buffered, Vol.Mirrored, Vol.Table, Vol.Image;
    CluIdxBack(s.vol.geo, s.cur.fptr);
  }

  /** The space ends at a cluster boundary. */
  lemma EndIsBoundary(s: State)
    requires s.Sound() && s.cur.fptr == 512 * |Sects(s.vol.geo, s.ch)|
    ensures AtBoundary(s)
  {
    hide Blank, Fat, Flat, FatCursor.View, Chained, Base, CluIdx, Buffered, Vol.Mirrored, Vol.Table, Vol.Image;
    CluIs(s.vol.geo, s.cur.fptr);
    TimesIs(|s.ch|, s.vol.geo.csize);
    DivUnique(|Sects(s.vol.geo, s.ch)|, |s.ch|, 0, s.vol.geo.csize);
  }

  /** The cursor has moved on by n bytes of the file and nothing a reader sees has changed. */
  ghost predicate Passed(s: State, s': State, n: nat)
    requires s.Sound()
  {
    && s'.Ready() && s'.Follows(s) && s'.Data() == s.Data()
    && s'.cur.fptr == s.cur.fptr + n && s'.cur.fsize == s.cur.fsize
  }

  lemma PassedTrans(a: State, b: State, c: State, m: nat, n: nat)
    requires a.Sound() && Passed(a, b, m) && Passed(b, c, n)
    ensures Passed(a, c, m + n)
  {
    hide State.Sound, State.Data, State.Bytes, State.Follows, Vol.Valid, Aimed;
    ValidOf(a);
    FollowsTrans(a, b, c);
  }

  lemma KeptPassed(a: State, b: State, c: State, n: nat)
    requires a.Sound() && Kept(a, b) && Passed(b, c, n) && b.cur.fptr == a.cur.fptr && b.cur.fsize == a.cur.fsize
    ensures Passed(a, c, n)
  {
    hide State.Sound, State.Data, State.Bytes, State.Follows, Vol.Valid, Aimed;
    ValidOf(a);
    FollowsTrans(a, b, c);
  }

  /** Moving on inside a sector the buffer holds, or over whole sectors of one cluster. */
  lemma Pass(s: State, n: nat)
    requires s.Sound() && s.OnByte() && 0 < n && s.cur.fptr + n <= s.cur.fsize
    requires
      || (s.cur.fptr % 512 + n <= 512 && s.cur.fptr / 512 < |Sects(s.vol.geo, s.ch)|
          && s.cur.dsect == Sects(s.vol.geo, s.ch)[s.cur.fptr / 512])
      || (s.cur.fptr % 512 == 0 && n % 512 == 0 && CluSect(s.vol.geo, s.cur.fptr) + n / 512 <= s.vol.geo.csize)
    ensures Passed(s, s.(cur := s.cur.(fptr := s.cur.fptr + n)), n)
  {
    hide Blank, Fat, Flat, Sects, Geometry.Width, FatCursor.View, Chained, CluIdx, Vol.Mirrored, Vol.Image, Vol.Table;
    var s' := s.(cur := s.cur.(fptr := s.cur.fptr + n));
    CluIdxStay(s.vol.geo, s.cur.fptr, n);
    SpaceCur(s.vol.geo, s.vol.Image(), s.ch, s.cur, s'.cur);
    FollowsSelf(s);
    assert s'.Chains() == s.Chains();
    SameSector(s.cur.fptr, n);
  }

  lemma SameSector(p: nat, n: nat)
    requires p % 512 + n <= 512 || (p % 512 == 0 && n % 512 == 0)
    ensures (p + n) % 512 != 0 ==> (p + n) / 512 == p / 512
  {
  }

  /** The buffer holds the file's bytes at the cursor. */
  lemma BufferRead(s: State, n: nat)
    requires s.Sound() && s.cur.fptr + n <= s.cur.fsize && s.cur.fptr % 512 + n <= 512
    requires Clusters(s.vol.geo, s.ch) && s.cur.fptr / 512 < |Sects(s.vol.geo, s.ch)|
    requires s.cur.dsect == Sects(s.vol.geo, s.ch)[s.cur.fptr / 512] && |s.cur.buf| == 512
    ensures s.cur.fptr + n <= |s.Data()|
    ensures s.cur.buf[s.cur.fptr % 512..s.cur.fptr % 512 + n] == s.Data()[s.cur.fptr..s.cur.fptr + n]
  {
    hide Blank, Fat, Flat, Sects, Geometry.Width, FatCursor.View, Chained, CluIdx, Vol.Mirrored, Vol.Image, Vol.Table;
    BytesSize(s);
    var k, o := s.cur.fptr / 512, s.cur.fptr % 512;
    BufferShows(s.vol.geo, s.vol.Image(), s.ch, s.cur, k);
    SliceShift(s.Bytes(), 512 * k, s.cur.buf, o, n, s.Hi());
  }

  lemma SliceShift(b: seq<byte>, at: nat, c: seq<byte>, o: nat, n: nat, hi: nat)
    requires at + |c| <= |b| && b[at..at + |c|] == c && o + n <= |c| && at + o + n <= hi <= |b|
    ensures c[o..o + n] == b[..hi][at + o..at + o + n]
  {
    var l, r := c[o..o + n], b[..hi][at + o..at + o + n];
    forall i | 0 <= i < n ensures l[i] == r[i] {
      assert b[at..at + |c|][o + i] == b[at + o + i];
    }
  }

  /** What a direct read of whole sectors delivers, once a waiting buffer among them is laid over it. */
  lemma DirectRead(s: State, n: nat)
    requires s.Sound() && s.OnByte() && s.cur.fptr % 512 == 0 && s.cur.fptr + 512 * n <= s.cur.fsize
    requires CluSect(s.vol.geo, s.cur.fptr) + n <= s.vol.geo.csize
    ensures Clusters(s.vol.geo, s.ch) && s.cur.fptr / 512 < |Sects(s.vol.geo, s.ch)|
    ensures s.cur.fptr + 512 * n <= |s.Data()|
    ensures var x := Sects(s.vol.geo, s.ch)[s.cur.fptr / 512];
      && x + n <= |s.vol.disk| && AllSectors(s.vol.disk[x..x + n]) && x + n < 0x1_0000_0000
      && (s.cur.dirty && x <= s.cur.dsect < x + n ==> |s.cur.buf| == 512)
      && s.Data()[s.cur.fptr..s.cur.fptr + 512 * n] ==
           if s.cur.dirty && x <= s.cur.dsect < x + n
           then Splice(Flat(s.vol.disk[x..x + n]), 512 * (s.cur.dsect - x), s.cur.buf) else Flat(s.vol.disk[x..x + n])
  {
    hide Blank, Fat, Flat, Sects, FatCursor.View, Chained, CluIdx, Vol.Mirrored, Vol.Image, Vol.Table, Splice, Base,
      RunAt, Geometry.Width, Owns, State.Sound, Placed, Buffered;
    SoundParts(s);
    DirectFits(s, n);
    BytesSize(s);
    var k := s.cur.fptr / 512;
    var x := Sects(s.vol.geo, s.ch)[k];
    DataRead(s.vol, x, n);
    DirectReadStep(s.vol.geo, s.vol.Image(), s.ch, s.cur, k, n);
    SliceTake(s.Bytes(), s.cur.fptr, s.cur.fptr + 512 * n, s.Hi());
  }

  lemma SoundParts(s: State)
    requires s.Sound()
    ensures s.vol.Valid() && Placed(s.vol.geo, s.vol.Image(), s.ch) && Buffered(s.vol.geo, s.vol.Image(), s.ch, s.cur)
    ensures Clusters(s.vol.geo, s.ch) && |s.cur.buf| == 512 && s.vol.geo.csize >= 1
    ensures |s.vol.disk| < 0x1_0000_0000
  {
  }

  lemma SliceTake(b: seq<byte>, i: nat, j: nat, hi: nat)
    requires i <= j <= hi <= |b|
    ensures b[..hi][i..j] == b[i..j]
  {
  }

  /** Reading on: the next cluster is in the chain. */
  lemma ReadNext(s: State)
    requires Clusters(s.vol.geo, s.ch) && s.vol.geo.csize >= 1 && AtBoundary(s)
    requires s.cur.fptr < 512 * |Sects(s.vol.geo, s.ch)|
    ensures NextIdx(s) < |s.ch|
  {
    hide Sects, CluIdx;
    NextIdxIs(s);
    CluIdxIn(s.vol.geo, s.ch, s.cur.fptr);
  }

  /** The recorded file is as it was, wherever the cursor has gone. */
  ghost predicate SameCore(s: State, s': State)
    requires s.Sound()
  {
    s'.Sound() && s'.Follows(s) && s'.cur.fsize == s.cur.fsize && s'.Core() == s.Core()
  }

  lemma SameCoreTrans(a: State, b: State, c: State)
    requires a.Sound() && SameCore(a, b) && SameCore(b, c)
    ensures SameCore(a, c)
  {
    hide State.Sound, State.Core, State.Bytes, State.Follows, Vol.Valid;
    ValidOf(a);
    FollowsTrans(a, b, c);
  }

  lemma KeptCore(a: State, b: State)
    requires a.Sound() && Kept(a, b) && b.cur.fsize == a.cur.fsize
    ensures SameCore(a, b)
  {
    hide State.Sound, State.Bytes, State.Follows, Vol.Valid;
    BytesSize(a);
    BytesSize(b);
    SliceTake(a.Bytes(), 0, a.cur.fsize, a.Hi());
    SliceTake(b.Bytes(), 0, b.cur.fsize, b.Hi());
    assert a.Core() == a.Data()[0..a.cur.fsize];
    assert b.Core() == b.Data()[0..b.cur.fsize];
  }

  /** Moving the cursor changes nothing else. */
  lemma Reseat(s: State, p: nat)
    requires s.Sound() && p <= 512 * |Sects(s.vol.geo, s.ch)|
    ensures SameCore(s, s.(cur := s.cur.(fptr := p)))
  {
    hide Blank, Fat, Flat, Sects, Geometry.Width, FatCursor.View, Chained, CluIdx, Vol.Mirrored, Vol.Image, Vol.Table;
    var s' := s.(cur := s.cur.(fptr := p));
    SpaceCur(s.vol.geo, s.vol.Image(), s.ch, s.cur, s'.cur);
    FollowsSelf(s);
    assert s'.Chains() == s.Chains();
  }

  /** Position p of a file begins cluster q of its chain. */
  lemma ClusterStart(geo: Geometry, q: nat)
    requires geo.csize >= 1
    ensures q * (512 * geo.csize) % 512 == 0 && q * (512 * geo.csize) / 512 == q * geo.csize
    ensures CluSect(geo, q * (512 * geo.csize)) == 0 && CluIdx(geo, q * (512 * geo.csize)) == q
  {
    CluIs(geo, q * (512 * geo.csize));
    DivUnique(q * geo.csize, q, 0, geo.csize);
    assert q * (512 * geo.csize) == 512 * (q * geo.csize);
  }

  /** The cluster of byte x in one division. */
  lemma ByCluster(geo: Geometry, x: nat)
    requires geo.csize >= 1
    ensures x / (512 * geo.csize) == CluIdx(geo, x)
  {
    var k, m := x / 512, geo.csize;
    CluIs(geo, x);
    DivParts(k, m);
    Regroup(k / m, m, k % m);
    DivUnique(x, k / m, 512 * (k % m) + x % 512, 512 * m);
  }

  lemma Regroup(q: nat, m: nat, r: nat)
    ensures 512 * (q * m + r) == q * (512 * m) + 512 * r
  {
  }

  /** A whole cluster further on, the cursor stands at the end of the current cluster. */
  lemma ClusterOn(s: State)
    requires s.Sound() && s.OnByte() && s.vol.geo.csize >= 1 && AtBoundary(s)
    ensures var t := s.(cur := s.cur.(fptr := s.cur.fptr + 512 * s.vol.geo.csize));
      t.Ready() && AtBoundary(t) && SameCore(s, t)
  {
    hide Blank, Fat, Flat, Sects, FatCursor.View, Chained, Vol.Mirrored, Vol.Image, Vol.Table, Buffered, Base, CluIdx;
    var geo, p := s.vol.geo, s.cur.fptr;
    var t := s.(cur := s.cur.(fptr := p + 512 * geo.csize));
    BoundaryOn(geo, p);
    CluIdxStay(geo, p, 512 * geo.csize);
    ClusterRoom(geo, s.ch, p);
    Reseat(s, p + 512 * geo.csize);
  }

  lemma BoundaryOn(geo: Geometry, p: nat)
    requires geo.csize >= 1 && p % 512 == 0 && CluSect(geo, p) == 0
    ensures (p + 512 * geo.csize) % 512 == 0 && CluSect(geo, p + 512 * geo.csize) == 0
    ensures 512 * geo.csize % 512 == 0 && 512 * geo.csize / 512 == geo.csize
  {
    var k, m := p / 512, geo.csize;
    CluIs(geo, p);
    CluIs(geo, p + 512 * m);
    DivParts(k, m);
    MulSplit(k / m, 1, m);
    DivUnique(k + m, k / m + 1, 0, m);
    assert (p + 512 * m) / 512 == k + m;
  }

  lemma ClusterRoom(geo: Geometry, ch: seq<nat>, p: nat)
    requires Clusters(geo, ch) && geo.csize >= 1 && p % 512 == 0 && CluSect(geo, p) == 0 && CluIdx(geo, p) < |ch|
    ensures p + 512 * geo.csize <= 512 * |Sects(geo, ch)|
  {
    hide Sects;
    CluIs(geo, p);
    DivParts(p / 512, geo.csize);
    SectsAt(geo, ch, CluIdx(geo, p), geo.csize - 1);
  }
}

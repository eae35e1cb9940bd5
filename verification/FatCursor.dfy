/** An open file as a value: its cursor, its private sector buffer, and the bytes they stand for. */
module FatCursor {
  import opened FatBytes
  import opened Octets
  import opened Arith
  import opened FatTable
  import opened FatChain
  import opened FatLayout

  datatype Cur = Cur(fptr: nat, fsize: nat, sclust: nat, clust: nat, dsect: nat, buf: Sector, dirty: bool)

  /** The file's sectors as a reader should see them: the medium overlaid by a dirty buffer. */
  function View(img: seq<Sector>, ss: seq<nat>, cur: Cur): (r: seq<Sector>)
    requires forall k :: 0 <= k < |ss| ==> ss[k] < |img|
    ensures |r| == |ss|
  {
    seq(|ss|, k requires 0 <= k < |ss| => if cur.dirty && ss[k] == cur.dsect then cur.buf else img[ss[k]])
  }

  /** Geometry and image are large enough for the chain. */
  ghost predicate Placed(geo: Geometry, img: seq<Sector>, ch: seq<nat>) {
    && geo.Valid() && geo.End() <= |img| && AllSectors(img)
    && Clusters(geo, ch) && Distinct(Sects(geo, ch))
    && forall k :: 0 <= k < |Sects(geo, ch)| ==> geo.database <= Sects(geo, ch)[k] < |img|
  }

  /** dsect is the k-th sector of the chain for some k. */
  ghost predicate Owns(geo: Geometry, ch: seq<nat>, s: nat)
    requires Clusters(geo, ch)
  {
    exists k :: 0 <= k < |Sects(geo, ch)| && Sects(geo, ch)[k] == s
  }

  /** The buffer shows the current content of its sector. */
  ghost predicate Buffered(geo: Geometry, img: seq<Sector>, ch: seq<nat>, cur: Cur)
    requires Placed(geo, img, ch)
  {
    && |cur.buf| == 512
    && (cur.dirty ==> cur.dsect != 0)
    && (cur.dsect != 0 ==> Owns(geo, ch, cur.dsect) && (cur.dirty || cur.buf == img[cur.dsect]))
  }

  /** clust holds byte fptr - 1, and dsect the current sector when fptr is inside one. */
  ghost predicate Aimed(geo: Geometry, ch: seq<nat>, cur: Cur)
    requires Clusters(geo, ch) && geo.csize >= 1
  {
    && (if ch == [] then cur.sclust == 0 else cur.sclust == ch[0])
    && cur.fptr <= 512 * |Sects(geo, ch)| && cur.fsize <= 512 * |Sects(geo, ch)|
    && (cur.fptr > 0 ==> CluIdx(geo, cur.fptr - 1) < |ch| && cur.clust == ch[CluIdx(geo, cur.fptr - 1)])
    && (cur.fptr % 512 != 0 ==> cur.fptr / 512 < |Sects(geo, ch)| && cur.dsect == Sects(geo, ch)[cur.fptr / 512])
  }

  ghost predicate Open(geo: Geometry, img: seq<Sector>, ch: seq<nat>, cur: Cur) {
    Placed(geo, img, ch) && Buffered(geo, img, ch, cur) && Aimed(geo, ch, cur)
  }

  lemma ViewSectors(geo: Geometry, img: seq<Sector>, ch: seq<nat>, cur: Cur)
    requires Placed(geo, img, ch) && Buffered(geo, img, ch, cur)
    ensures AllSectors(View(img, Sects(geo, ch), cur))
  {
  }

  /** Every byte of the chain's space, as the file shows it. */
  ghost function Space(geo: Geometry, img: seq<Sector>, ch: seq<nat>, cur: Cur): (r: seq<byte>)
    requires Placed(geo, img, ch) && Buffered(geo, img, ch, cur)
    ensures |r| == 512 * |Sects(geo, ch)|
  {
    ViewSectors(geo, img, ch, cur);
    Flat(View(img, Sects(geo, ch), cur))
  }

  /** The file's bytes. */
  ghost function Content(geo: Geometry, img: seq<Sector>, ch: seq<nat>, cur: Cur): (r: seq<byte>)
    requires Open(geo, img, ch, cur)
    ensures |r| == cur.fsize
  {
    Space(geo, img, ch, cur)[..cur.fsize]
  }

  lemma SectPositive(geo: Geometry, img: seq<Sector>, ch: seq<nat>, k: nat)
    requires Placed(geo, img, ch) && k < |Sects(geo, ch)|
    ensures Sects(geo, ch)[k] != 0 && Owns(geo, ch, Sects(geo, ch)[k])
  {
  }

  /** Writing back the buffer changes nothing a reader sees. */
  lemma FlushStep(geo: Geometry, img: seq<Sector>, ch: seq<nat>, cur: Cur)
    requires Placed(geo, img, ch) && Buffered(geo, img, ch, cur) && cur.dirty
    ensures cur.dsect < |img|
    ensures var img', cur' := img[cur.dsect := cur.buf], cur.(dirty := false);
      && Placed(geo, img', ch) && Buffered(geo, img', ch, cur')
      && Space(geo, img', ch, cur') == Space(geo, img, ch, cur)
  {
    var img', cur' := img[cur.dsect := cur.buf], cur.(dirty := false);
    assert View(img', Sects(geo, ch), cur') == View(img, Sects(geo, ch), cur);
  }

  /** Loading another sector of the file into a clean buffer changes nothing a reader sees. */
  lemma FillStep(geo: Geometry, img: seq<Sector>, ch: seq<nat>, cur: Cur, k: nat)
    requires Placed(geo, img, ch) && Buffered(geo, img, ch, cur) && !cur.dirty && k < |Sects(geo, ch)|
    ensures var s := Sects(geo, ch)[k];
      var cur' := cur.(dsect := s, buf := img[s]);
      && Buffered(geo, img, ch, cur')
      && Space(geo, img, ch, cur') == Space(geo, img, ch, cur)
  {
    SectPositive(geo, img, ch, k);
    var s := Sects(geo, ch)[k];
    var cur' := cur.(dsect := s, buf := img[s]);
    assert View(img, Sects(geo, ch), cur') == View(img, Sects(geo, ch), cur);
  }

  /** The buffer is what a reader sees of its sector. */
  lemma BufferShows(geo: Geometry, img: seq<Sector>, ch: seq<nat>, cur: Cur, k: nat)
    requires Placed(geo, img, ch) && Buffered(geo, img, ch, cur)
    requires k < |Sects(geo, ch)| && cur.dsect == Sects(geo, ch)[k]
    ensures Space(geo, img, ch, cur)[512 * k..512 * k + 512] == cur.buf
  {
    SectPositive(geo, img, ch, k);
    ViewSectors(geo, img, ch, cur);
    FlatAt(View(img, Sects(geo, ch), cur), k);
  }

  /** Aiming the buffer at sector k with new content makes that the sector's content. */
  lemma PutStep(geo: Geometry, img: seq<Sector>, ch: seq<nat>, cur: Cur, k: nat, buf: Sector)
    requires Placed(geo, img, ch) && Buffered(geo, img, ch, cur) && k < |Sects(geo, ch)| && |buf| == 512
    requires !cur.dirty || cur.dsect == Sects(geo, ch)[k]
    ensures var cur' := cur.(dsect := Sects(geo, ch)[k], buf := buf, dirty := true);
      && Buffered(geo, img, ch, cur')
      && Space(geo, img, ch, cur') == Splice(Space(geo, img, ch, cur), 512 * k, buf)
  {
    SectPositive(geo, img, ch, k);
    var ss := Sects(geo, ch);
    var cur' := cur.(dsect := ss[k], buf := buf, dirty := true);
    ViewSectors(geo, img, ch, cur);
    ViewPut(img, ss, cur, k, buf, cur');
  }

  lemma ViewPut(img: seq<Sector>, ss: seq<nat>, cur: Cur, k: nat, buf: Sector, cur': Cur)
    requires Distinct(ss) && k < |ss| && (forall j :: 0 <= j < |ss| ==> ss[j] < |img|)
    requires |buf| == 512 && AllSectors(View(img, ss, cur)) && AllSectors(View(img, ss, cur'))
    requires cur' == cur.(dsect := ss[k], buf := buf, dirty := true) && (!cur.dirty || cur.dsect == ss[k])
    ensures Flat(View(img, ss, cur')) == Splice(Flat(View(img, ss, cur)), 512 * k, buf)
  {
    hide Flat, View, Distinct;
    FlatOne(buf);
    FlatSplice(View(img, ss, cur), k, [buf]);
    ViewOne(img, ss, cur, k, buf, cur');
  }

  lemma ViewOne(img: seq<Sector>, ss: seq<nat>, cur: Cur, k: nat, buf: Sector, cur': Cur)
    requires Distinct(ss) && k < |ss| && (forall j :: 0 <= j < |ss| ==> ss[j] < |img|)
    requires cur' == cur.(dsect := ss[k], buf := buf, dirty := true) && (!cur.dirty || cur.dsect == ss[k])
    ensures View(img, ss, cur') == Splice(View(img, ss, cur), k, [buf])
  {
  }

  /** n entries from position k on are consecutive numbers. */
  predicate RunAt(ss: seq<nat>, k: nat, n: nat)
    requires k < |ss|
  {
    k + n <= |ss| && forall j {:trigger ss[j]} :: k <= j < k + n ==> ss[j] == ss[k] + (j - k)
  }

  /** The sectors of one cluster lie side by side on the medium. */
  lemma Contiguous(geo: Geometry, ch: seq<nat>, k: nat, n: nat)
    requires Clusters(geo, ch) && geo.csize >= 1 && k < |Sects(geo, ch)|
    requires Remainder(k, geo.csize) + n <= geo.csize
    ensures RunAt(Sects(geo, ch), k, n)
  {
    var ss := Sects(geo, ch);
    ContiguousAt(geo, ch, k, 0);
    if n > 0 {
      ContiguousAt(geo, ch, k, n - 1);
    }
    forall j | k <= j < k + n
      ensures ss[j] == ss[k] + (j - k)
    {
      ContiguousAt(geo, ch, k, j - k);
    }
  }

  lemma ContiguousAt(geo: Geometry, ch: seq<nat>, k: nat, i: nat)
    requires Clusters(geo, ch) && geo.csize >= 1 && k < |Sects(geo, ch)|
    requires Remainder(k, geo.csize) + i < geo.csize
    ensures k + i < |Sects(geo, ch)| && Sects(geo, ch)[k + i] == Sects(geo, ch)[k] + i
  {
    hide Sects, Base;
    QuotientIs(k, geo.csize);
    TimesIs(|ch|, geo.csize);
    DivParts(k, geo.csize);
    QuotBound(k, |ch|, geo.csize);
    SectsAt(geo, ch, k / geo.csize, k % geo.csize);
    SectsAt(geo, ch, k / geo.csize, k % geo.csize + i);
  }

  /** Writing a run of sectors, seen through the numbers of a list that contains the run. */
  lemma SplicedAt(img: seq<Sector>, ss: seq<nat>, k: nat, n: nat, d: seq<Sector>, j: nat)
    requires Distinct(ss) && k < |ss| && RunAt(ss, k, n) && |d| == n && ss[k] + n <= |img| && j < |ss| && ss[j] < |img|
    ensures Splice(img, ss[k], d)[ss[j]] == if k <= j < k + n then d[j - k] else img[ss[j]]
  {
    var s := ss[k];
    SpliceAt(img, s, d, ss[j]);
    if s <= ss[j] < s + n {
      var i := k + (ss[j] - s);
      assert ss[i] == ss[j];
      assert i == j;
    }
  }

  lemma RunInside(ss: seq<nat>, k: nat, n: nat, bound: nat)
    requires k < |ss| && RunAt(ss, k, n) && forall j :: 0 <= j < |ss| ==> ss[j] < bound
    ensures ss[k] + n <= bound
  {
    if n > 0 {
      assert ss[k + n - 1] == ss[k] + (n - 1);
    }
  }

  /** A direct write of n sectors past a clean buffer, refilling the buffer if it was overwritten. */
  lemma DirectStep(geo: Geometry, img: seq<Sector>, ch: seq<nat>, cur: Cur, k: nat, n: nat, d: seq<Sector>)
    requires Placed(geo, img, ch) && Buffered(geo, img, ch, cur) && !cur.dirty
    requires k < |Sects(geo, ch)| && Remainder(k, geo.csize) + n <= geo.csize && |d| == n && AllSectors(d)
    ensures Sects(geo, ch)[k] + n <= |img| && k + n <= |Sects(geo, ch)|
    ensures var s := Sects(geo, ch)[k];
      var img' := Splice(img, s, d);
      var cur' := if s <= cur.dsect < s + n then cur.(buf := d[cur.dsect - s]) else cur;
      && Placed(geo, img', ch) && Buffered(geo, img', ch, cur')
      && Space(geo, img', ch, cur') == Splice(Space(geo, img, ch, cur), 512 * k, Flat(d))
  {
    var ss := Sects(geo, ch);
    var s := ss[k];
    Contiguous(geo, ch, k, n);
    RunInside(ss, k, n, |img|);
    DirectPlaced(geo, img, ch, cur, k, n, d);
    var img' := Splice(img, s, d);
    var cur' := if s <= cur.dsect < s + n then cur.(buf := d[cur.dsect - s]) else cur;
    DirectView(img, ss, cur, k, n, d, cur');
    ViewSectors(geo, img, ch, cur);
    FlatSplice(View(img, ss, cur), k, d);
  }

  lemma DirectPlaced(geo: Geometry, img: seq<Sector>, ch: seq<nat>, cur: Cur, k: nat, n: nat, d: seq<Sector>)
    requires Placed(geo, img, ch) && Buffered(geo, img, ch, cur) && !cur.dirty
    requires k < |Sects(geo, ch)| && RunAt(Sects(geo, ch), k, n) && |d| == n && AllSectors(d)
    requires Sects(geo, ch)[k] + n <= |img|
    ensures var s := Sects(geo, ch)[k];
      var img' := Splice(img, s, d);
      var cur' := if s <= cur.dsect < s + n then cur.(buf := d[cur.dsect - s]) else cur;
      Placed(geo, img', ch) && Buffered(geo, img', ch, cur')
  {
    var s := Sects(geo, ch)[k];
    var img' := Splice(img, s, d);
    forall i | 0 <= i < |img| ensures img'[i] == if s <= i < s + n then d[i - s] else img[i] {
      SpliceAt(img, s, d, i);
    }
  }

  lemma DirectView(img: seq<Sector>, ss: seq<nat>, cur: Cur, k: nat, n: nat, d: seq<Sector>, cur': Cur)
    requires Distinct(ss) && (forall j :: 0 <= j < |ss| ==> ss[j] < |img|) && !cur.dirty && !cur'.dirty
    requires k < |ss| && RunAt(ss, k, n) && |d| == n && ss[k] + n <= |img|
    ensures View(Splice(img, ss[k], d), ss, cur') == Splice(View(img, ss, cur), k, d)
  {
    var v, v' := View(img, ss, cur), View(Splice(img, ss[k], d), ss, cur');
    forall j | 0 <= j < |ss| ensures v'[j] == Splice(v, k, d)[j] {
      SplicedAt(img, ss, k, n, d, j);
      SpliceAt(v, k, d, j);
    }
  }

  /** What the direct read of n sectors returns once a dirty buffer among them is laid over it. */
  lemma DirectReadStep(geo: Geometry, img: seq<Sector>, ch: seq<nat>, cur: Cur, k: nat, n: nat)
    requires Placed(geo, img, ch) && Buffered(geo, img, ch, cur)
    requires k < |Sects(geo, ch)| && Remainder(k, geo.csize) + n <= geo.csize
    ensures var s := Sects(geo, ch)[k];
      && k + n <= |Sects(geo, ch)| && s + n <= |img| && AllSectors(img[s..s + n])
      && Space(geo, img, ch, cur)[512 * k..512 * (k + n)] ==
           if cur.dirty && s <= cur.dsect < s + n
           then Splice(Flat(img[s..s + n]), 512 * (cur.dsect - s), cur.buf) else Flat(img[s..s + n])
  {
    hide Flat, Sects, Base, CluIdx;
    var ss := Sects(geo, ch);
    Contiguous(geo, ch, k, n);
    RunInside(ss, k, n, |img|);
    ViewSectors(geo, img, ch, cur);
    ReadBytes(img, ss, cur, k, n);
  }

  lemma ReadBytes(img: seq<Sector>, ss: seq<nat>, cur: Cur, k: nat, n: nat)
    requires AllSectors(img) && |cur.buf| == 512 && (forall j :: 0 <= j < |ss| ==> ss[j] < |img|)
    requires k < |ss| && RunAt(ss, k, n) && ss[k] + n <= |img| && AllSectors(View(img, ss, cur))
    ensures AllSectors(img[ss[k]..ss[k] + n])
    ensures Flat(View(img, ss, cur))[512 * k..512 * (k + n)] ==
      if cur.dirty && ss[k] <= cur.dsect < ss[k] + n
      then Splice(Flat(img[ss[k]..ss[k] + n]), 512 * (cur.dsect - ss[k]), cur.buf) else Flat(img[ss[k]..ss[k] + n])
  {
    hide Flat, View, RunAt, Splice;
    var a := img[ss[k]..ss[k] + n];
    RunSize(ss, k, n);
    FlatSlice(View(img, ss, cur), k, k + n);
    ReadView(img, ss, cur, k, n);
    if cur.dirty && ss[k] <= cur.dsect < ss[k] + n {
      FlatOne(cur.buf);
      FlatSplice(a, cur.dsect - ss[k], [cur.buf]);
    }
  }

  lemma ReadView(img: seq<Sector>, ss: seq<nat>, cur: Cur, k: nat, n: nat)
    requires (forall j :: 0 <= j < |ss| ==> ss[j] < |img|)
    requires k < |ss| && RunAt(ss, k, n) && ss[k] + n <= |img|
    ensures View(img, ss, cur)[k..k + n] ==
      if cur.dirty && ss[k] <= cur.dsect < ss[k] + n
      then Splice(img[ss[k]..ss[k] + n], cur.dsect - ss[k], [cur.buf]) else img[ss[k]..ss[k] + n]
  {
    hide RunAt, Splice;
    var s := ss[k];
    RunSize(ss, k, n);
    var a, v := img[s..s + n], View(img, ss, cur)[k..k + n];
    forall i | 0 <= i < n ensures v[i] == if cur.dirty && s + i == cur.dsect then cur.buf else a[i] {
      RunEntry(ss, k, n, i);
    }
    if cur.dirty && s <= cur.dsect < s + n {
      Overlaid(a, v, cur.dsect - s, cur.buf);
    } else {
      assert v == a;
    }
  }

  lemma RunEntry(ss: seq<nat>, k: nat, n: nat, i: nat)
    requires k < |ss| && RunAt(ss, k, n) && i < n
    ensures k + i < |ss| && ss[k + i] == ss[k] + i
  {
  }

  lemma RunSize(ss: seq<nat>, k: nat, n: nat)
    requires k < |ss| && RunAt(ss, k, n)
    ensures k + n <= |ss|
  {
  }

  lemma Overlaid(a: seq<Sector>, v: seq<Sector>, at: nat, x: Sector)
    requires at < |a| == |v| && forall i :: 0 <= i < |a| ==> v[i] == if i == at then x else a[i]
    ensures v == Splice(a, at, [x])
  {
  }

  /** Changes outside the file's sectors leave the file alone. */
  lemma ElsewhereStep(geo: Geometry, img: seq<Sector>, img': seq<Sector>, ch: seq<nat>, cur: Cur)
    requires Placed(geo, img, ch) && Buffered(geo, img, ch, cur)
    requires |img'| == |img| && AllSectors(img')
    requires forall k :: 0 <= k < |Sects(geo, ch)| ==> img'[Sects(geo, ch)[k]] == img[Sects(geo, ch)[k]]
    ensures Placed(geo, img', ch) && Buffered(geo, img', ch, cur)
    ensures Space(geo, img', ch, cur) == Space(geo, img, ch, cur)
  {
    assert View(img', Sects(geo, ch), cur) == View(img, Sects(geo, ch), cur);
  }

  /** Growing the chain by a cluster adds bytes at the end and moves none. */
  lemma GrowStep(geo: Geometry, img: seq<Sector>, ch: seq<nat>, cur: Cur, c: nat)
    requires Placed(geo, img, ch) && Buffered(geo, img, ch, cur)
    requires geo.IsCluster(c) && FatChain.Disjoint(ch, [c]) && FatLayout.Distinct(ch)
    ensures Placed(geo, img, ch + [c]) && Buffered(geo, img, ch + [c], cur)
    ensures |Sects(geo, ch)| <= |Sects(geo, ch + [c])|
    ensures Space(geo, img, ch, cur) <= Space(geo, img, ch + [c], cur)
  {
    var ch' := ch + [c];
    SectsGrow(geo, ch, c);
    forall i, j | 0 <= i < j < |ch'| ensures ch'[i] != ch'[j] {
      assert [c][0] == c;
    }
    SectsDistinct(geo, ch');
    var ss, ss' := Sects(geo, ch), Sects(geo, ch');
    assert ss <= ss';
    if cur.dsect != 0 {
      var k :| 0 <= k < |ss| && ss[k] == cur.dsect;
      assert ss'[k] == cur.dsect;
    }
    ViewSectors(geo, img, ch, cur);
    ViewSectors(geo, img, ch', cur);
    ViewGrow(img, ss, ss', cur);
  }

  lemma ViewGrow(img: seq<Sector>, ss: seq<nat>, ss': seq<nat>, cur: Cur)
    requires ss <= ss' && (forall j :: 0 <= j < |ss'| ==> ss'[j] < |img|)
    requires AllSectors(View(img, ss, cur)) && AllSectors(View(img, ss', cur))
    ensures Flat(View(img, ss, cur)) <= Flat(View(img, ss', cur))
  {
    var v, v' := View(img, ss, cur), View(img, ss', cur);
    assert v' == v + v'[|ss|..];
    FlatSplit(v, v'[|ss|..]);
  }
}

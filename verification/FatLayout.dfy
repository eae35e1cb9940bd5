/** Where the bytes of a file lie: the data sectors of its cluster chain, in file order. */
module FatLayout {
  import opened FatTable
  import opened Arith

  /** Consecutive sector numbers. */
  function Run(b: nat, n: nat): (r: seq<nat>)
    ensures |r| == n
    ensures forall i :: 0 <= i < n ==> r[i] == b + i
  {
    seq(n, i requires 0 <= i < n => b + i)
  }

  /** First sector of a cluster. */
  function Base(geo: Geometry, c: nat): nat
    requires c >= 2
  {
    geo.database + Times(c - 2, geo.csize)
  }

  predicate Clusters(geo: Geometry, ch: seq<nat>) {
    forall i :: 0 <= i < |ch| ==> geo.IsCluster(ch[i])
  }

  /** The data sectors of a chain in file order. */
  function Sects(geo: Geometry, ch: seq<nat>): (r: seq<nat>)
    requires Clusters(geo, ch)
    ensures |r| == Times(|ch|, geo.csize)
  {
    if ch == [] then [] else Sects(geo, ch[..|ch| - 1]) + Run(Base(geo, ch[|ch| - 1]), geo.csize)
  }

  lemma {:induction false} SectsGrow(geo: Geometry, ch: seq<nat>, c: nat)
    requires Clusters(geo, ch) && geo.IsCluster(c)
    ensures Clusters(geo, ch + [c])
    ensures Sects(geo, ch + [c]) == Sects(geo, ch) + Run(Base(geo, c), geo.csize)
  {
    assert (ch + [c])[..|ch + [c]| - 1] == ch;
  }

  /** Sector r of cluster q of the chain. */
  lemma {:induction false} SectsAt(geo: Geometry, ch: seq<nat>, q: nat, r: nat)
    requires Clusters(geo, ch) && q < |ch| && r < geo.csize
    ensures q * geo.csize + r < |Sects(geo, ch)|
    ensures Sects(geo, ch)[q * geo.csize + r] == Base(geo, ch[q]) + r
  {
    var n := |ch| - 1;
    TimesIs(n, geo.csize);
    MulMono(q, n, geo.csize);
    if q < n {
      SectsAt(geo, ch[..n], q, r);
    }
  }

  /** Every data sector lies in one cluster of the chain. */
  lemma {:induction false} SectsFrom(geo: Geometry, ch: seq<nat>, k: nat) returns (q: nat, r: nat)
    requires Clusters(geo, ch) && k < |Sects(geo, ch)|
    ensures q < |ch| && r < geo.csize && k == q * geo.csize + r
    ensures Sects(geo, ch)[k] == Base(geo, ch[q]) + r
  {
    var n := |ch| - 1;
    TimesIs(n, geo.csize);
    if k < n * geo.csize {
      q, r := SectsFrom(geo, ch[..n], k);
    } else {
      q, r := n, k - n * geo.csize;
    }
  }

  /** Different clusters have different sectors, all of them data sectors of the volume. */
  lemma BaseApart(geo: Geometry, c: nat, r: nat, d: nat, s: nat)
    requires geo.IsCluster(c) && geo.IsCluster(d) && r < geo.csize && s < geo.csize
    ensures geo.database <= Base(geo, c) + r < geo.End()
    ensures Base(geo, c) + r == Base(geo, d) + s ==> c == d && r == s
  {
    TimesIs(c - 2, geo.csize);
    TimesIs(d - 2, geo.csize);
    TimesIs(geo.nFatent - 2, geo.csize);
    MulMono(c - 2 + 1, geo.nFatent - 2, geo.csize);
    MulSplit(c - 2, 1, geo.csize);
    if c < d {
      MulMono(c - 2 + 1, d - 2, geo.csize);
    } else if d < c {
      MulMono(d - 2 + 1, c - 2, geo.csize);
      MulSplit(d - 2, 1, geo.csize);
    }
  }

  predicate Distinct(ss: seq<nat>) {
    forall i, j :: 0 <= i < j < |ss| ==> ss[i] != ss[j]
  }

  lemma SectsDistinct(geo: Geometry, ch: seq<nat>)
    requires Clusters(geo, ch) && Distinct(ch)
    ensures Distinct(Sects(geo, ch))
    ensures forall k :: 0 <= k < |Sects(geo, ch)| ==> geo.database <= Sects(geo, ch)[k] < geo.End()
  {
    forall k | 0 <= k < |Sects(geo, ch)|
      ensures geo.database <= Sects(geo, ch)[k] < geo.End()
    {
      var q, r := SectsFrom(geo, ch, k);
      BaseApart(geo, ch[q], r, ch[q], r);
    }
    forall i, j | 0 <= i < j < |Sects(geo, ch)|
      ensures Sects(geo, ch)[i] != Sects(geo, ch)[j]
    {
      var q, r := SectsFrom(geo, ch, i);
      var q', r' := SectsFrom(geo, ch, j);
      BaseApart(geo, ch[q], r, ch[q'], r');
    }
  }

  /** clust2sect agrees with the layout on every cluster number. */
  lemma ClustToSectIsBase(geo: Geometry, c: nat)
    requires geo.Valid() && c < 0x1_0000_0000
    ensures geo.ClustToSect(c) == if geo.IsCluster(c) then Base(geo, c) else 0
  {
    if c >= 2 {
      TimesIs(c - 2, geo.csize);
    }
  }

  /** The clusters lie one behind the other from the start of the data area on, the first being number 2. */
  lemma BaseIs(geo: Geometry, c: nat)
    requires c >= 2
    ensures Base(geo, c) == geo.database + (c - 2) * geo.csize
    ensures Base(geo, 2) == geo.database && Base(geo, c + 1) == Base(geo, c) + geo.csize
  {
    TimesIs(c - 2, geo.csize);
  }

  /** Position of the cluster that holds byte p in the chain. */
  function CluIdx(geo: Geometry, p: nat): nat
    requires geo.csize >= 1
  {
    Quotient(p / 512, geo.csize)
  }

  /** Sector of the cluster in which byte p lies. */
  function CluSect(geo: Geometry, p: nat): nat
    requires geo.csize >= 1
  {
    Remainder(p / 512, geo.csize)
  }

  lemma CluIs(geo: Geometry, p: nat)
    requires geo.csize >= 1
    ensures CluIdx(geo, p) == p / 512 / geo.csize && CluSect(geo, p) == p / 512 % geo.csize
  {
    QuotientIs(p / 512, geo.csize);
  }

  /** The cluster index moves on exactly at a cluster boundary. */
  lemma CluIdxBack(geo: Geometry, p: nat)
    requires geo.csize >= 1 && p > 0
    ensures p % 512 == 0 && CluSect(geo, p) == 0 ==> CluIdx(geo, p) == CluIdx(geo, p - 1) + 1
    ensures p % 512 != 0 || CluSect(geo, p) != 0 ==> CluIdx(geo, p) == CluIdx(geo, p - 1)
  {
    var k, k' := p / 512, (p - 1) / 512;
    CluIs(geo, p);
    CluIs(geo, p - 1);
    var m := geo.csize;
    DivParts(k, m);
    if p % 512 == 0 {
      assert k' == k - 1;
      if k % m == 0 {
        assert k / m >= 1;
        MulSplit(k / m - 1, 1, m);
        DivUnique(k', k / m - 1, m - 1, m);
      } else {
        DivUnique(k', k / m, k % m - 1, m);
      }
    } else {
      assert k' == k;
    }
  }

  /** Moving on by at most the rest of the cluster stays in it. */
  lemma CluIdxStay(geo: Geometry, p: nat, w: nat)
    requires geo.csize >= 1 && 0 < w
    requires p % 512 + w <= 512 || (p % 512 == 0 && w % 512 == 0 && CluSect(geo, p) + w / 512 <= geo.csize)
    ensures CluIdx(geo, p + w - 1) == CluIdx(geo, p)
  {
    var k, m := p / 512, geo.csize;
    CluIs(geo, p);
    CluIs(geo, p + w - 1);
    DivParts(k, m);
    if p % 512 + w <= 512 {
      assert (p + w - 1) / 512 == k;
    } else {
      var d := w / 512 - 1;
      assert (p + w - 1) / 512 == k + d;
      DivUnique(k + d, k / m, k % m + d, m);
    }
  }

  /** A byte inside the chain's space has its cluster and sector in the chain. */
  lemma CluIdxIn(geo: Geometry, ch: seq<nat>, p: nat)
    requires Clusters(geo, ch) && geo.csize >= 1 && p < 512 * |Sects(geo, ch)|
    ensures CluIdx(geo, p) < |ch| && p / 512 < |Sects(geo, ch)|
    ensures Sects(geo, ch)[p / 512] == Base(geo, ch[CluIdx(geo, p)]) + CluSect(geo, p)
  {
    var k, m := p / 512, geo.csize;
    CluIs(geo, p);
    TimesIs(|ch|, m);
    DivParts(k, m);
    QuotBound(k, |ch|, m);
    SectsAt(geo, ch, k / m, k % m);
  }
}

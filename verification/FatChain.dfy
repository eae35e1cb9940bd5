/** Cluster chains as a property of the table, and what allocating and freeing clusters does to them. */
module FatChain {

  /** What put_fat stores for "last link" after cutting it to the entry width, seen from n entries. */
  predicate IsEnd(n: nat, v: nat) {
    v >= n
  }

  predicate InRange(n: nat, c: nat) {
    2 <= c < n
  }

  /** ch is the chain that starts at ch[0]: each entry links to the next, the last one ends it. */
  ghost predicate IsChain(fat: seq<nat>, ch: seq<nat>) {
    && |ch| > 0
    && (forall i :: 0 <= i < |ch| ==> InRange(|fat|, ch[i]))
    && (forall i {:trigger fat[ch[i]]} :: 0 <= i < |ch| - 1 ==> fat[ch[i]] == ch[i + 1])
    && IsEnd(|fat|, fat[ch[|ch| - 1]])
  }

  /** An entry of a chain links on exactly when it is not the last. */
  lemma Follows(fat: seq<nat>, ch: seq<nat>, i: nat)
    requires IsChain(fat, ch) && i < |ch|
    ensures InRange(|fat|, fat[ch[i]]) <==> i < |ch| - 1
    ensures i < |ch| - 1 ==> fat[ch[i]] == ch[i + 1]
  {
  }

  /** Two positions of one chain that hold the same cluster are the same. */
  lemma {:induction false} ChainSuffix(fat: seq<nat>, ch: seq<nat>, i: nat, j: nat)
    requires IsChain(fat, ch) && i <= j < |ch| && ch[i] == ch[j]
    ensures i == j
    decreases |ch| - j
  {
    Follows(fat, ch, i);
    Follows(fat, ch, j);
    if j < |ch| - 1 {
      ChainSuffix(fat, ch, i + 1, j + 1);
    }
  }

  /** Chains are acyclic: no cluster appears twice. */
  lemma ChainDistinct(fat: seq<nat>, ch: seq<nat>)
    requires IsChain(fat, ch)
    ensures forall i, j :: 0 <= i < j < |ch| ==> ch[i] != ch[j]
  {
    forall i, j | 0 <= i < j < |ch| ensures ch[i] != ch[j] {
      if ch[i] == ch[j] {
        ChainSuffix(fat, ch, i, j);
      }
    }
  }

  /** A chain is determined by its first cluster. */
  lemma {:induction false} ChainUnique(fat: seq<nat>, a: seq<nat>, b: seq<nat>)
    requires IsChain(fat, a) && IsChain(fat, b) && a[0] == b[0]
    ensures a == b
  {
    Follows(fat, a, 0);
    Follows(fat, b, 0);
    if |a| == 1 {
      assert a == [a[0]] && b == [b[0]];
    } else {
      Tail(fat, a);
      Tail(fat, b);
      ChainUnique(fat, a[1..], b[1..]);
      assert a == [a[0]] + a[1..] && b == [b[0]] + b[1..];
    }
  }

  lemma Tail(fat: seq<nat>, ch: seq<nat>)
    requires IsChain(fat, ch) && |ch| > 1
    ensures IsChain(fat, ch[1..])
  {
    assert forall i :: 0 <= i < |ch| - 2 ==> fat[ch[1..][i]] == fat[ch[i + 1]];
  }

  /** A chain that avoids the changed entries is still a chain. */
  lemma ChainFrame(fat: seq<nat>, fat': seq<nat>, ch: seq<nat>)
    requires IsChain(fat, ch) && |fat'| == |fat|
    requires forall c :: c in ch && c < |fat| ==> fat'[c] == fat[c]
    ensures IsChain(fat', ch)
  {
  }

  ghost predicate Covered(cs: set<seq<nat>>, c: nat) {
    exists ch :: ch in cs && c in ch
  }

  /** The table is a set of disjoint chains and free entries, nothing else. */
  ghost predicate Chained(fat: seq<nat>, cs: set<seq<nat>>) {
    && (forall ch :: ch in cs ==> IsChain(fat, ch))
    && (forall a, b :: a in cs && b in cs && a != b ==> Disjoint(a, b))
    && (forall c: nat {:trigger Covered(cs, c)} :: InRange(|fat|, c) && fat[c] != 0 ==> Covered(cs, c))
  }

  predicate Disjoint(a: seq<nat>, b: seq<nat>) {
    forall i, j :: 0 <= i < |a| && 0 <= j < |b| ==> a[i] != b[j]
  }

  /** A free cluster is in no chain. */
  lemma FreeIsOutside(fat: seq<nat>, ncl: nat, ch: seq<nat>)
    requires IsChain(fat, ch) && InRange(|fat|, ncl) && fat[ncl] == 0
    ensures ncl !in ch
  {
    forall i | 0 <= i < |ch| ensures ch[i] != ncl {
      Follows(fat, ch, i);
    }
  }

  /** The table after taking ncl as a chain of its own. */
  function Started(fat: seq<nat>, ncl: nat, eoc: nat): (r: seq<nat>)
    requires ncl < |fat|
    ensures |r| == |fat|
  {
    fat[ncl := eoc]
  }

  /** The table after appending ncl to the chain that ends in clst. */
  function Stretched(fat: seq<nat>, clst: nat, ncl: nat, eoc: nat): (r: seq<nat>)
    requires ncl < |fat| && clst < |fat|
    ensures |r| == |fat|
  {
    fat[ncl := eoc][clst := ncl]
  }

  lemma StartKeeps(fat: seq<nat>, cs: set<seq<nat>>, ncl: nat, eoc: nat)
    requires Chained(fat, cs) && InRange(|fat|, ncl) && fat[ncl] == 0 && IsEnd(|fat|, eoc)
    ensures Chained(Started(fat, ncl, eoc), cs + {[ncl]})
  {
    var fat' := Started(fat, ncl, eoc);
    forall ch | ch in cs ensures IsChain(fat', ch) && Disjoint(ch, [ncl]) && Disjoint([ncl], ch) {
      FreeIsOutside(fat, ncl, ch);
      ChainFrame(fat, fat', ch);
    }
    forall c: nat | InRange(|fat'|, c) && fat'[c] != 0 ensures Covered(cs + {[ncl]}, c) {
      if c == ncl {
        assert [ncl] in cs + {[ncl]} && ncl in [ncl];
      } else {
        assert Covered(cs, c);
        var ch :| ch in cs && c in ch;
        assert ch in cs + {[ncl]};
      }
    }
  }

  /** Appending to one chain. */
  lemma StretchOne(fat: seq<nat>, ch: seq<nat>, ncl: nat, eoc: nat)
    requires IsChain(fat, ch) && InRange(|fat|, ncl) && ncl !in ch && IsEnd(|fat|, eoc)
    ensures IsChain(Stretched(fat, ch[|ch| - 1], ncl, eoc), ch + [ncl])
  {
    ChainDistinct(fat, ch);
    var fat', ch' := Stretched(fat, ch[|ch| - 1], ncl, eoc), ch + [ncl];
    forall i | 0 <= i < |ch'| - 1 ensures fat'[ch'[i]] == ch'[i + 1] {
      if i < |ch| - 1 {
        assert ch[i] != ch[|ch| - 1];
      }
    }
  }

  /** Appending to one chain leaves the others alone. */
  lemma StretchOther(fat: seq<nat>, cs: set<seq<nat>>, ch: seq<nat>, ncl: nat, eoc: nat, a: seq<nat>)
    requires Chained(fat, cs) && ch in cs && a in cs && a != ch
    requires InRange(|fat|, ncl) && fat[ncl] == 0 && IsEnd(|fat|, eoc)
    ensures IsChain(Stretched(fat, ch[|ch| - 1], ncl, eoc), a)
    ensures Disjoint(a, ch + [ncl]) && Disjoint(ch + [ncl], a)
  {
    FreeIsOutside(fat, ncl, a);
    assert Disjoint(a, ch) && Disjoint(ch, a);
    assert ch[|ch| - 1] !in a;
    ChainFrame(fat, Stretched(fat, ch[|ch| - 1], ncl, eoc), a);
  }

  lemma StretchCovers(fat: seq<nat>, cs: set<seq<nat>>, ch: seq<nat>, ncl: nat, eoc: nat, c: nat)
    requires Chained(fat, cs) && ch in cs && InRange(|fat|, ncl) && InRange(|fat|, c)
    requires Stretched(fat, ch[|ch| - 1], ncl, eoc)[c] != 0
    ensures Covered(cs - {ch} + {ch + [ncl]}, c)
  {
    var ch' := ch + [ncl];
    assert ch' in cs - {ch} + {ch'};
    if c == ncl {
      assert ch'[|ch|] == c;
    } else if c == ch[|ch| - 1] {
      assert ch'[|ch| - 1] == c;
    } else {
      assert Covered(cs, c);
      var a :| a in cs && c in a;
      assert a != ch ==> a in cs - {ch} + {ch'};
      if a == ch {
        var i :| 0 <= i < |ch| && ch[i] == c;
        assert ch'[i] == c;
      }
    }
  }

  lemma StretchKeeps(fat: seq<nat>, cs: set<seq<nat>>, ch: seq<nat>, ncl: nat, eoc: nat)
    requires Chained(fat, cs) && ch in cs && InRange(|fat|, ncl) && fat[ncl] == 0 && IsEnd(|fat|, eoc)
    ensures Chained(Stretched(fat, ch[|ch| - 1], ncl, eoc), cs - {ch} + {ch + [ncl]})
  {
    var fat', ch' := Stretched(fat, ch[|ch| - 1], ncl, eoc), ch + [ncl];
    FreeIsOutside(fat, ncl, ch);
    StretchOne(fat, ch, ncl, eoc);
    forall a | a in cs && a != ch ensures IsChain(fat', a) && Disjoint(a, ch') && Disjoint(ch', a) {
      StretchOther(fat, cs, ch, ncl, eoc, a);
    }
    forall c: nat | InRange(|fat'|, c) && fat'[c] != 0 ensures Covered(cs - {ch} + {ch'}, c) {
      StretchCovers(fat, cs, ch, ncl, eoc, c);
    }
  }

  /** The table with the clusters of ch freed. */
  function {:induction false} Freed(fat: seq<nat>, ch: seq<nat>): (r: seq<nat>)
    requires forall c :: c in ch ==> c < |fat|
    ensures |r| == |fat|
    ensures forall c :: 0 <= c < |fat| ==> r[c] == if c in ch then 0 else fat[c]
    decreases |ch|
  {
    if ch == [] then fat
    else
      assert ch[0] in ch && forall c :: c in ch[1..] ==> c in ch;
      Freed(fat[ch[0] := 0], ch[1..])
  }

  lemma FreeKeeps(fat: seq<nat>, cs: set<seq<nat>>, ch: seq<nat>)
    requires Chained(fat, cs) && ch in cs
    ensures forall c :: c in ch ==> c < |fat|
    ensures Chained(Freed(fat, ch), cs - {ch})
  {
    var fat' := Freed(fat, ch);
    forall a | a in cs && a != ch ensures IsChain(fat', a) {
      assert Disjoint(a, ch);
      ChainFrame(fat, fat', a);
    }
    forall c: nat | InRange(|fat'|, c) && fat'[c] != 0 ensures Covered(cs - {ch}, c) {
      assert Covered(cs, c);
      var a :| a in cs && c in a;
      assert a in cs - {ch};
    }
  }

  /** Number of free entries below position k. */
  function FreeBelow(fat: seq<nat>, k: nat): (r: nat)
    requires k <= |fat|
    ensures r <= k
  {
    if k <= 2 then 0 else FreeBelow(fat, k - 1) + if fat[k - 1] == 0 then 1 else 0
  }

  /** Number of free clusters. */
  function FreeCount(fat: seq<nat>): nat {
    FreeBelow(fat, |fat|)
  }

  lemma {:induction false} FreeBelowSet(fat: seq<nat>, c: nat, v: nat, k: nat)
    requires InRange(|fat|, c) && k <= |fat|
    ensures FreeBelow(fat[c := v], k) ==
      FreeBelow(fat, k) + if c < k && fat[c] != 0 && v == 0 then 1 else if c < k && fat[c] == 0 && v != 0 then -1 else 0
  {
    if k > 2 {
      FreeBelowSet(fat, c, v, k - 1);
    }
  }

  lemma {:induction false} SomeFree(fat: seq<nat>, k: nat)
    requires k <= |fat|
    ensures FreeBelow(fat, k) > 0 <==> exists c {:trigger fat[c]} :: 2 <= c < k && fat[c] == 0
  {
    if k > 2 {
      SomeFree(fat, k - 1);
    }
  }

  /** Clusters remove_chain(clst) frees, in order. */
  function Walk(fat: seq<nat>, clst: nat): (r: seq<nat>)
    ensures forall c :: c in r ==> c < |fat|
    decreases |fat| - FreeCount(fat)
  {
    if !InRange(|fat|, clst) || fat[clst] < 2 then []
    else
      FreeBelowSet(fat, clst, 0, |fat|);
      [clst] + Walk(fat[clst := 0], fat[clst])
  }

  /** The table remove_chain(clst) leaves; it stops at a free or broken entry, or past the end of the chain. */
  function Removed(fat: seq<nat>, clst: nat): (r: seq<nat>)
    ensures |r| == |fat|
    decreases |fat| - FreeCount(fat)
  {
    if !InRange(|fat|, clst) || fat[clst] < 2 then fat
    else
      FreeBelowSet(fat, clst, 0, |fat|);
      Removed(fat[clst := 0], fat[clst])
  }

  /** Whether the walk runs into an entry with the reserved value 1. */
  predicate HitsBroken(fat: seq<nat>, clst: nat)
    decreases |fat| - FreeCount(fat)
  {
    InRange(|fat|, clst) &&
    (fat[clst] == 1 || (fat[clst] >= 2 && (FreeBelowSet(fat, clst, 0, |fat|); HitsBroken(fat[clst := 0], fat[clst]))))
  }

  /** On any table at all, what is removed is what the walk visits, each cluster once. */
  lemma {:induction false} RemovedIsFreed(fat: seq<nat>, clst: nat)
    ensures Removed(fat, clst) == Freed(fat, Walk(fat, clst))
    ensures FreeCount(Removed(fat, clst)) == FreeCount(fat) + |Walk(fat, clst)|
    decreases |fat| - FreeCount(fat)
  {
    if InRange(|fat|, clst) && fat[clst] >= 2 {
      FreeBelowSet(fat, clst, 0, |fat|);
      RemovedIsFreed(fat[clst := 0], fat[clst]);
    }
  }

  /** From the head of a chain, exactly that chain is freed. */
  lemma {:induction false} WalkIsChain(fat: seq<nat>, ch: seq<nat>)
    requires IsChain(fat, ch)
    ensures Walk(fat, ch[0]) == ch && !HitsBroken(fat, ch[0])
    decreases |ch|
  {
    Follows(fat, ch, 0);
    var fat' := fat[ch[0] := 0];
    FreeBelowSet(fat, ch[0], 0, |fat|);
    if |ch| == 1 {
      assert ch == [ch[0]];
    } else {
      ChainDistinct(fat, ch);
      Tail(fat, ch);
      ChainFrame(fat, fat', ch[1..]);
      WalkIsChain(fat', ch[1..]);
      assert ch == [ch[0]] + ch[1..];
    }
  }

  /** remove_chain on the head of a chain drops that chain and keeps the rest. */
  lemma RemoveKeepsChains(fat: seq<nat>, cs: set<seq<nat>>, ch: seq<nat>)
    requires Chained(fat, cs) && ch in cs
    ensures Chained(Removed(fat, ch[0]), cs - {ch})
    ensures forall c :: 0 <= c < |fat| ==> Removed(fat, ch[0])[c] == if c in ch then 0 else fat[c]
  {
    WalkIsChain(fat, ch);
    RemovedIsFreed(fat, ch[0]);
    FreeKeeps(fat, cs, ch);
  }
}

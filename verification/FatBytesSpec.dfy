/** Reading and writing a file as operations on a byte string. */
module FatBytesSpec {
  import opened FatBytes
  import opened Octets

  /** c with d written at position p, growing if d reaches past the end. */
  function Overwrite(c: seq<byte>, p: nat, d: seq<byte>): (r: seq<byte>)
    requires p <= |c|
    ensures |r| == if p + |d| > |c| then p + |d| else |c|
  {
    c[..p] + d + if p + |d| < |c| then c[p + |d|..] else []
  }

  /** At most n bytes from position p on. */
  function Slice(c: seq<byte>, p: nat, n: nat): (r: seq<byte>)
    requires p <= |c|
    ensures |r| == if p + n > |c| then |c| - p else n
  {
    if p + n > |c| then c[p..] else c[p..p + n]
  }

  /** What was written is read back. */
  lemma ReadBack(c: seq<byte>, p: nat, d: seq<byte>)
    requires p <= |c|
    ensures Slice(Overwrite(c, p, d), p, |d|) == d
  {
  }

  /** Bytes before and after the written stretch keep their values. */
  lemma OverwriteFrame(c: seq<byte>, p: nat, d: seq<byte>, q: nat, n: nat)
    requires p <= |c| && q + n <= |c| && (q + n <= p || p + |d| <= q)
    ensures Slice(Overwrite(c, p, d), q, n) == Slice(c, q, n)
  {
  }

  /** Writing in two goes is writing at once. */
  lemma OverwriteTwice(c: seq<byte>, p: nat, d: seq<byte>, e: seq<byte>)
    requires p <= |c|
    ensures Overwrite(Overwrite(c, p, d), p + |d|, e) == Overwrite(c, p, d + e)
  {
  }

  /** The space b turned into b2 by putting e at position at; bytes from hi on are nobody's. */
  ghost predicate Put(b: seq<byte>, b2: seq<byte>, at: nat, e: seq<byte>, hi: nat) {
    && at <= hi <= |b| <= |b2| && at + |e| <= |b2|
    && b2[..at] == b[..at]
    && b2[at..at + |e|] == e
    && (at + |e| < hi ==> b2[at + |e|..hi] == b[at + |e|..hi])
  }

  lemma PutIsOverwrite(b: seq<byte>, b2: seq<byte>, at: nat, e: seq<byte>, hi: nat)
    requires Put(b, b2, at, e, hi)
    ensures b2[..if at + |e| > hi then at + |e| else hi] == Overwrite(b[..hi], at, e)
  {
    var hi' := if at + |e| > hi then at + |e| else hi;
    var w := Overwrite(b[..hi], at, e);
    forall i | 0 <= i < hi' ensures b2[i] == w[i] {
      if i < at {
        assert b2[..at][i] == b[..at][i];
      } else if i < at + |e| {
        assert b2[at..at + |e|][i - at] == e[i - at];
      } else {
        assert b2[at + |e|..hi][i - at - |e|] == b[at + |e|..hi][i - at - |e|];
      }
    }
  }

  /** Splicing a sector that has e at offset o puts e there, if the rest of the sector is as before or past hi. */
  lemma SplicePut(b: seq<byte>, k: nat, buf: Sector, was: Sector, o: nat, e: seq<byte>, hi: nat)
    requires 512 * k + 512 <= |b| && |buf| == 512 && |was| == 512 && o + |e| <= 512
    requires buf == Splice(was, o, e) && 512 * k + o <= hi <= |b|
    requires was == b[512 * k..512 * k + 512] || (o == 0 && hi <= 512 * k)
    ensures Put(b, Splice(b, 512 * k, buf), 512 * k + o, e, hi)
  {
    var at, b2 := 512 * k + o, Splice(b, 512 * k, buf);
    forall i | 0 <= i < |b| ensures b2[i] == if 512 * k <= i < 512 * k + 512 then buf[i - 512 * k] else b[i] {
      SpliceAt(b, 512 * k, buf, i);
    }
    forall j | 0 <= j < 512 ensures buf[j] == if o <= j < o + |e| then e[j - o] else was[j] {
      SpliceAt(was, o, e, j);
    }
    if was == b[512 * k..512 * k + 512] {
      assert forall j :: 0 <= j < 512 ==> was[j] == b[512 * k + j];
    }
  }

  /** Splicing whole sectors puts their bytes there. */
  lemma SpliceWhole(b: seq<byte>, at: nat, e: seq<byte>, hi: nat)
    requires at + |e| <= |b| && at <= hi <= |b|
    ensures Put(b, Splice(b, at, e), at, e, hi)
  {
  }
}

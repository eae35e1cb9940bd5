/** Sectors and little-endian words. */
module FatBytes {
  import opened Octets

  type Sector = seq<byte>

  predicate AllSectors(ss: seq<Sector>) {
    forall s :: 0 <= s < |ss| ==> |ss[s]| == 512
  }

  /** The concatenation of a run of sectors. */
  function Flat(ss: seq<Sector>): (r: seq<byte>)
    requires AllSectors(ss)
    ensures |r| == 512 * |ss|
  {
    if ss == [] then [] else Flat(ss[..|ss| - 1]) + ss[|ss| - 1]
  }

  /** The first n sectors of a byte string. */
  function Chop(b: seq<byte>, n: nat): (r: seq<Sector>)
    requires 512 * n <= |b|
    ensures |r| == n && AllSectors(r)
  {
    seq(n, i requires 0 <= i < n => b[512 * i..512 * i + 512])
  }

  lemma {:induction false} FlatChop(b: seq<byte>, n: nat)
    requires |b| == 512 * n
    ensures Flat(Chop(b, n)) == b
  {
    if n > 0 {
      var front := b[..512 * (n - 1)];
      FlatChop(front, n - 1);
      ChopFront(b, n);
    }
  }

  lemma ChopFront(b: seq<byte>, n: nat)
    requires |b| == 512 * n && n > 0
    ensures Chop(b, n)[..n - 1] == Chop(b[..512 * (n - 1)], n - 1)
    ensures b == b[..512 * (n - 1)] + Chop(b, n)[n - 1]
  {
    forall i | 0 <= i < n - 1 ensures Chop(b, n)[i] == Chop(b[..512 * (n - 1)], n - 1)[i] {
      assert b[..512 * (n - 1)][512 * i..512 * i + 512] == b[512 * i..512 * i + 512];
    }
  }

  lemma {:induction false} FlatSplit(a: seq<Sector>, b: seq<Sector>)
    requires AllSectors(a) && AllSectors(b)
    ensures AllSectors(a + b) && Flat(a + b) == Flat(a) + Flat(b)
  {
    if b == [] {
      assert a + b == a;
    } else {
      assert (a + b)[..|a + b| - 1] == a + b[..|b| - 1];
      FlatSplit(a, b[..|b| - 1]);
    }
  }

  /** Replacing whole sectors replaces the matching bytes. */
  lemma {:induction false} FlatSplice(ss: seq<Sector>, k: nat, d: seq<Sector>)
    requires AllSectors(ss) && AllSectors(d) && k + |d| <= |ss|
    ensures AllSectors(Splice(ss, k, d))
    ensures Flat(Splice(ss, k, d)) == Splice(Flat(ss), 512 * k, Flat(d))
  {
    hide Flat;
    var a, m, b := ss[..k], ss[k..k + |d|], ss[k + |d|..];
    ThreeParts(ss, k, d);
    FlatThree(a, d, b);
    FlatThree(a, m, b);
    SpliceMiddle(Flat(ss), Flat(a), Flat(m), Flat(b), Flat(d));
  }

  lemma ThreeParts<T>(s: seq<T>, k: nat, d: seq<T>)
    requires k + |d| <= |s|
    ensures s == s[..k] + (s[k..k + |d|] + s[k + |d|..])
    ensures Splice(s, k, d) == s[..k] + (d + s[k + |d|..])
  {
  }

  lemma {:induction false} FlatThree(a: seq<Sector>, m: seq<Sector>, b: seq<Sector>)
    requires AllSectors(a) && AllSectors(m) && AllSectors(b)
    ensures AllSectors(a + (m + b)) && Flat(a + (m + b)) == Flat(a) + (Flat(m) + Flat(b))
  {
    FlatSplit(a, m + b);
    FlatSplit(m, b);
  }

  lemma SpliceMiddle(s: seq<byte>, a: seq<byte>, m: seq<byte>, b: seq<byte>, d: seq<byte>)
    requires s == a + (m + b) && |d| == |m|
    ensures Splice(s, |a|, d) == a + (d + b)
  {
  }

  /** A run of whole sectors is the matching slice of the concatenation. */
  lemma {:induction false} FlatSlice(ss: seq<Sector>, i: nat, j: nat)
    requires AllSectors(ss) && i <= j <= |ss|
    ensures Flat(ss)[512 * i..512 * j] == Flat(ss[i..j])
  {
    FlatThree(ss[..i], ss[i..j], ss[j..]);
    assert ss == ss[..i] + (ss[i..j] + ss[j..]);
    SliceMiddle(Flat(ss), Flat(ss[..i]), Flat(ss[i..j]), Flat(ss[j..]), 512 * i, 512 * j);
  }

  lemma SliceMiddle(s: seq<byte>, a: seq<byte>, m: seq<byte>, b: seq<byte>, i: nat, j: nat)
    requires s == a + (m + b) && i == |a| && j == i + |m|
    ensures s[i..j] == m
  {
  }

  lemma {:induction false} FlatOne(s: Sector)
    requires |s| == 512
    ensures AllSectors([s]) && Flat([s]) == s
  {
    assert [s][..0] == [];
    assert Flat([s]) == Flat([s][..0]) + s;
  }

  /** Sector k is bytes [512k, 512k + 512) of the concatenation. */
  lemma {:induction false} FlatAt(ss: seq<Sector>, k: nat)
    requires AllSectors(ss) && k < |ss|
    ensures Flat(ss)[512 * k..512 * k + 512] == ss[k]
  {
    FlatSlice(ss, k, k + 1);
    FlatOne(ss[k]);
    assert ss[k..k + 1] == [ss[k]];
  }

  /** Byte j of sector i is byte 512i + j of the concatenation. */
  lemma {:induction false} FlatIndex(ss: seq<Sector>, i: nat, j: nat)
    requires AllSectors(ss) && i < |ss| && j < 512
    ensures Flat(ss)[512 * i + j] == ss[i][j]
  {
    if i < |ss| - 1 {
      FlatIndex(ss[..|ss| - 1], i, j);
    }
  }

  function SetByte(s: Sector, j: nat, b: byte): Sector
    requires j < |s|
  {
    s[j := b]
  }

  lemma {:induction false} FlatUpdate(ss: seq<Sector>, i: nat, j: nat, b: byte)
    requires AllSectors(ss) && i < |ss| && j < 512
    ensures AllSectors(ss[i := SetByte(ss[i], j, b)])
    ensures Flat(ss[i := SetByte(ss[i], j, b)]) == Flat(ss)[512 * i + j := b]
  {
    var ss' := ss[i := SetByte(ss[i], j, b)];
    var n := |ss| - 1;
    if i < n {
      assert ss'[..n] == ss[..n][i := SetByte(ss[i], j, b)];
      FlatUpdate(ss[..n], i, j, b);
    } else {
      assert ss'[..n] == ss[..n];
    }
  }

  /** s with the bytes from position at on replaced by d. */
  function Splice<T>(s: seq<T>, at: nat, d: seq<T>): (r: seq<T>)
    requires at + |d| <= |s|
    ensures |r| == |s|
  {
    s[..at] + d + s[at + |d|..]
  }

  lemma SpliceAt<T>(s: seq<T>, at: nat, d: seq<T>, i: nat)
    requires at + |d| <= |s| && i < |s|
    ensures Splice(s, at, d)[i] == if at <= i < at + |d| then d[i - at] else s[i]
  {
  }

  /** An empty sector. */
  function Zeros(): (s: Sector)
    ensures |s| == 512
  {
    seq(512, i => 0)
  }

  function LdWord(b0: byte, b1: byte): nat {
    b0 as int + 0x100 * (b1 as int)
  }

  function LdDword(b0: byte, b1: byte, b2: byte, b3: byte): nat {
    LdWord(b0, b1) + 0x1_0000 * LdWord(b2, b3)
  }

  /** Unsigned 32-bit subtraction. */
  function Sub32(a: nat, b: nat): nat {
    (a - b) % 0x1_0000_0000
  }

  /** Unsigned 32-bit addition. */
  function Add32(a: nat, b: nat): nat {
    (a + b) % 0x1_0000_0000
  }

  /** Bitwise OR of two naturals. */
  function BitOr(a: nat, b: nat): nat {
    if a == 0 && b == 0 then 0
    else (if a % 2 == 1 || b % 2 == 1 then 1 else 0) + 2 * BitOr(a / 2, b / 2)
  }

  lemma {:induction false} BitOrZero(b: nat)
    ensures BitOr(0, b) == b
  {
    if b != 0 {
      BitOrZero(b / 2);
    }
  }

  lemma {:induction false} BitOrBits(a: nat, b: nat, bound: nat)
    requires a < 2 * bound && b < 2 * bound
    requires forall x: nat, y: nat :: x < bound && y < bound ==> BitOr(x, y) < bound
    ensures BitOr(a, b) < 2 * bound
  {
  }

  lemma {:induction false} BitOrNibble(a: nat, b: nat)
    requires a < 16 && b < 16
    ensures BitOr(a, b) < 16
  {
    forall x: nat, y: nat | x < 1 && y < 1 ensures BitOr(x, y) < 1 { }
    forall x: nat, y: nat | x < 2 && y < 2 ensures BitOr(x, y) < 2 { BitOrBits(x, y, 1); }
    forall x: nat, y: nat | x < 4 && y < 4 ensures BitOr(x, y) < 4 { BitOrBits(x, y, 2); }
    forall x: nat, y: nat | x < 8 && y < 8 ensures BitOr(x, y) < 8 { BitOrBits(x, y, 4); }
    BitOrBits(a, b, 8);
  }
}

/** Turning a path segment into the 11 bytes of a directory entry, without long names and for ASCII only. */
module FatName {
  import opened Octets
  import opened FatEntries

  const DOT: byte := 0x2E
  const SPACE: byte := 0x20

  predicate IsSeparator(c: byte) {
    c == 0x2F || c == 0x5C
  }

  predicate EndsSegment(c: byte) {
    c <= SPACE || IsSeparator(c)
  }

  /** Characters that may not appear in a short name. */
  predicate IsIllegal(c: byte) {
    c == 0x22 || c == 0x2A || c == 0x2B || c == 0x2C || c == 0x3A || c == 0x3B || c == 0x3C || c == 0x3D || c == 0x3E
    || c == 0x3F || c == 0x5B || c == 0x5D || c == 0x7C || c == 0x7F
  }

  /** Characters that stand for themselves in a short name. */
  predicate IsGood(c: byte) {
    SPACE < c < 0x80 && c != DOT && !IsSeparator(c) && !IsIllegal(c)
  }

  function Upper(c: byte): byte {
    if 0x61 <= c <= 0x7A then c - 0x20 else c
  }

  /** s in capitals, filled up with spaces. */
  function Padded(s: seq<byte>, n: nat): (r: seq<byte>)
    requires |s| <= n
    ensures |r| == n
  {
    seq(n, i requires 0 <= i < n => if i < |s| then Upper(s[i]) else SPACE)
  }

  /** A zero-terminated string, read at any position. */
  function CharAt(path: seq<byte>, i: nat): byte {
    if i < |path| then path[i] else 0
  }

  function DotAt(seg: seq<byte>): (d: nat)
    ensures d <= |seg| && (d < |seg| ==> seg[d] == DOT) && forall i :: 0 <= i < d ==> seg[i] != DOT
  {
    if seg == [] || seg[0] == DOT then 0 else 1 + DotAt(seg[1..])
  }

  function Body(seg: seq<byte>): seq<byte> {
    seg[..DotAt(seg)]
  }

  function Extension(seg: seq<byte>): seq<byte> {
    if DotAt(seg) < |seg| then seg[DotAt(seg) + 1..] else []
  }

  predicate AllGood(s: seq<byte>) {
    forall i :: 0 <= i < |s| ==> IsGood(s[i])
  }

  /** A segment that has an 8.3 form. */
  predicate Legal(seg: seq<byte>) {
    seg != [] && |Body(seg)| <= 8 && |Extension(seg)| <= 3 && AllGood(Body(seg)) && AllGood(Extension(seg))
  }

  function ShortName(seg: seq<byte>): (r: seq<byte>)
    requires Legal(seg)
    ensures |r| == 11
  {
    Padded(Body(seg), 8) + Padded(Extension(seg), 3)
  }

  /** A short name never looks like an unused or deleted entry. */
  lemma ShortNameIsName(seg: seq<byte>)
    requires Legal(seg)
    ensures IsName(ShortName(seg))
  {
    assert ShortName(seg)[0] == Padded(Body(seg), 8)[0];
  }

  function Capitals(s: seq<byte>): seq<byte> {
    seq(|s|, i requires 0 <= i < |s| => Upper(s[i]))
  }

  /** Filling up with spaces hides no difference, as no good character is a space. */
  lemma SamePadded(a: seq<byte>, b: seq<byte>, n: nat)
    requires |a| <= n && |b| <= n && AllGood(a) && AllGood(b)
    ensures Padded(a, n) == Padded(b, n) <==> Capitals(a) == Capitals(b)
  {
    var x, y := Padded(a, n), Padded(b, n);
    if |a| < |b| {
      assert y[|a|] == Upper(b[|a|]) && IsGood(b[|a|]);
      assert x[|a|] == SPACE;
    } else if |b| < |a| {
      assert x[|b|] == Upper(a[|b|]) && IsGood(a[|b|]);
      assert y[|b|] == SPACE;
    } else {
      assert forall i :: 0 <= i < |a| ==> Capitals(a)[i] == x[i] && Capitals(b)[i] == y[i];
      if Capitals(a) == Capitals(b) {
        assert forall i :: 0 <= i < n ==> x[i] == y[i];
      }
    }
  }

  /**
   * Two legal segments have the same short name exactly when their bodies and their extensions differ in nothing but
   * case; a lone final dot makes no difference, as it is followed by an empty extension.
   */
  lemma SameShortName(a: seq<byte>, b: seq<byte>)
    requires Legal(a) && Legal(b)
    ensures ShortName(a) == ShortName(b) <==>
      Capitals(Body(a)) == Capitals(Body(b)) && Capitals(Extension(a)) == Capitals(Extension(b))
  {
    hide Padded, Capitals;
    assert ShortName(a)[..8] == Padded(Body(a), 8) && ShortName(a)[8..] == Padded(Extension(a), 3);
    assert ShortName(b)[..8] == Padded(Body(b), 8) && ShortName(b)[8..] == Padded(Extension(b), 3);
    SamePadded(Body(a), Body(b), 8);
    SamePadded(Extension(a), Extension(b), 3);
  }

  /** The characters of short names: letters, digits and sixteen others; and those that end a segment. */
  lemma GoodAre(c: byte)
    ensures IsGood(c) <==>
      || 'a' as int <= c <= 'z' as int || 'A' as int <= c <= 'Z' as int || '0' as int <= c <= '9' as int
      || c in [0x21, 0x23, 0x24, 0x25, 0x26, 0x27, 0x28, 0x29, 0x2D, 0x40, 0x5E, 0x5F, 0x60, 0x7B, 0x7D, 0x7E]
    ensures EndsSegment(c) <==> c <= ' ' as int || c == '/' as int || c == '\\' as int
    ensures IsSeparator(c) <==> EndsSegment(c) && c > ' ' as int
  {
  }

  /** Every byte of a name is a character of the segment, small letters made capitals, or a blank. */
  lemma NameBytes(seg: seq<byte>, i: nat)
    requires Legal(seg) && i < 11
    ensures var part, k := if i < 8 then Body(seg) else Extension(seg), if i < 8 then i else i - 8;
      ShortName(seg)[i] ==
        if k >= |part| then ' ' as int
        else if 'a' as int <= part[k] <= 'z' as int then part[k] - ('a' as int - 'A' as int) else part[k]
    ensures !('a' as int <= ShortName(seg)[i] <= 'z' as int)
  {
  }

  /** The same character, or the same letter. */
  predicate SameLetter(a: byte, b: byte) {
    || a == b
    || ('A' as int <= a <= 'Z' as int && b == a + 0x20)
    || ('A' as int <= b <= 'Z' as int && a == b + 0x20)
  }

  lemma SameCapital(a: byte, b: byte)
    ensures Upper(a) == Upper(b) <==> SameLetter(a, b)
  {
  }

  predicate SameLetters(a: seq<byte>, b: seq<byte>) {
    |a| == |b| && forall i :: 0 <= i < |a| ==> SameLetter(a[i], b[i])
  }

  lemma SameCapitals(a: seq<byte>, b: seq<byte>)
    ensures Capitals(a) == Capitals(b) <==> SameLetters(a, b)
  {
    hide Upper, SameLetter;
    forall i | 0 <= i < |a| && i < |b| ensures Upper(a[i]) == Upper(b[i]) <==> SameLetter(a[i], b[i]) {
      SameCapital(a[i], b[i]);
    }
    if Capitals(a) == Capitals(b) {
      assert |Capitals(a)| == |Capitals(b)|;
      forall i | 0 <= i < |a| ensures SameLetter(a[i], b[i]) {
        assert Capitals(a)[i] == Capitals(b)[i];
      }
    }
  }

  /** Segments of the same length get the same name exactly when they differ in the case of letters at most. */
  lemma SameName(a: seq<byte>, b: seq<byte>)
    requires Legal(a) && Legal(b) && |a| == |b|
    ensures ShortName(a) == ShortName(b) <==> SameLetters(a, b)
  {
    hide SameLetter, Capitals, ShortName;
    SameShortName(a, b);
    SameCapitals(Body(a), Body(b));
    SameCapitals(Extension(a), Extension(b));
    if SameLetters(a, b) {
      SameDot(a, b);
    } else if SameLetters(Body(a), Body(b)) && SameLetters(Extension(a), Extension(b)) {
      forall i | 0 <= i < |a| ensures SameLetter(a[i], b[i]) {
        SameAt(a, b, i);
      }
    }
  }

  lemma SameAt(a: seq<byte>, b: seq<byte>, i: nat)
    requires |a| == |b| && i < |a| && SameLetters(Body(a), Body(b)) && SameLetters(Extension(a), Extension(b))
    ensures SameLetter(a[i], b[i])
  {
    var d := DotAt(a);
    if i < d {
      assert SameLetter(Body(a)[i], Body(b)[i]);
    } else if i > d {
      assert SameLetter(Extension(a)[i - d - 1], Extension(b)[i - d - 1]);
    }
  }

  lemma SameDot(a: seq<byte>, b: seq<byte>)
    requires SameLetters(a, b)
    ensures SameLetters(Body(a), Body(b)) && SameLetters(Extension(a), Extension(b))
  {
    DotStays(a, b);
    DotStays(b, a);
  }

  lemma DotStays(a: seq<byte>, b: seq<byte>)
    requires SameLetters(a, b)
    ensures DotAt(a) <= DotAt(b)
  {
    var d := DotAt(b);
    if d < |b| {
      assert SameLetter(a[d], b[d]);
    }
  }

  /** seg is the segment of the path that starts at s. */
  ghost predicate Segment(path: seq<byte>, s: nat, seg: seq<byte>) {
    && EndsSegment(CharAt(path, s + |seg|))
    && forall i :: 0 <= i < |seg| ==> CharAt(path, s + i) == seg[i] && !EndsSegment(seg[i])
  }

  /** The characters up to the end of the segment. */
  function SegmentFrom(path: seq<byte>, s: nat): (seg: seq<byte>)
    decreases |path| - s
  {
    if s >= |path| || EndsSegment(path[s]) then [] else [path[s]] + SegmentFrom(path, s + 1)
  }

  lemma {:induction false} SegmentIs(path: seq<byte>, s: nat)
    ensures Segment(path, s, SegmentFrom(path, s))
    decreases |path| - s
  {
    var seg := SegmentFrom(path, s);
    if s < |path| && !EndsSegment(path[s]) {
      SegmentIs(path, s + 1);
      forall i | 0 <= i < |seg| ensures CharAt(path, s + i) == seg[i] && !EndsSegment(seg[i]) {
        if i > 0 {
          assert seg[i] == SegmentFrom(path, s + 1)[i - 1];
          assert CharAt(path, s + 1 + (i - 1)) == SegmentFrom(path, s + 1)[i - 1];
        }
      }
    }
  }

  /** The first position from start on that is not a separator. */
  function NameStart(path: seq<byte>, start: nat): (s: nat)
    requires start <= |path|
    ensures start <= s <= |path| && !IsSeparator(CharAt(path, s))
    ensures forall k :: start <= k < s ==> IsSeparator(CharAt(path, k))
    decreases |path| - start
  {
    if IsSeparator(CharAt(path, start)) then NameStart(path, start + 1) else start
  }

  /** How far a segment has been turned into sfn. */
  ghost predicate Turned(done: seq<byte>, sfn: seq<byte>, i: nat, ni: nat) {
    && |sfn| == 11
    && (ni == 8 ==> i == |done| <= 8 && AllGood(done) && sfn == Padded(done, 8) + Padded([], 3))
    && (ni != 8 ==>
          && ni == 11 && DotAt(done) < |done| && |Body(done)| <= 8 && |Extension(done)| <= 3
          && AllGood(Body(done)) && AllGood(Extension(done))
          && i == 8 + |Extension(done)| && sfn == Padded(Body(done), 8) + Padded(Extension(done), 3))
  }

  lemma DotOf(seg: seq<byte>, d: nat)
    requires d <= |seg| && (d < |seg| ==> seg[d] == DOT) && forall i :: 0 <= i < d ==> seg[i] != DOT
    ensures DotAt(seg) == d
  {
  }

  /** A good character extends what has been turned. */
  lemma TurnGood(done: seq<byte>, sfn: seq<byte>, i: nat, ni: nat, c: byte)
    requires Turned(done, sfn, i, ni) && i < ni && i < |sfn| && IsGood(c)
    ensures Turned(done + [c], sfn[i := Upper(c)], i + 1, ni)
  {
    hide IsGood, Upper;
    if ni == 8 {
      PadNext(done, 8, c);
      GoodNext(done, c);
    } else {
      GoodNoDot(c);
      ExtensionNext(done, c);
      PadNext(Extension(done), 3, c);
      GoodNext(Extension(done), c);
    }
  }

  lemma GoodNext(s: seq<byte>, c: byte)
    requires AllGood(s) && IsGood(c)
    ensures AllGood(s + [c])
  {
  }

  lemma GoodNoDot(c: byte)
    requires IsGood(c)
    ensures c != DOT
  {
  }

  lemma PadNext(s: seq<byte>, n: nat, c: byte)
    requires |s| < n
    ensures Padded(s + [c], n) == Padded(s, n)[|s| := Upper(c)]
  {
  }

  lemma ExtensionNext(done: seq<byte>, c: byte)
    requires DotAt(done) < |done|
    ensures DotAt(done + [c]) == DotAt(done) && Body(done + [c]) == Body(done)
    ensures Extension(done + [c]) == Extension(done) + [c]
  {
    hide DotAt;
    DotOf(done + [c], DotAt(done));
    Around(done, c, DotAt(done));
  }

  lemma Around(done: seq<byte>, c: byte, d: nat)
    requires d < |done|
    ensures (done + [c])[..d] == done[..d] && (done + [c])[d + 1..] == done[d + 1..] + [c] && (done + [c])[d] == done[d]
  {
  }

  /** The dot closes the body. */
  lemma TurnDot(done: seq<byte>, sfn: seq<byte>, i: nat)
    requires Turned(done, sfn, i, 8)
    ensures Turned(done + [DOT], sfn, 8, 11)
  {
    DotOf(done + [DOT], |done|);
    assert Body(done + [DOT]) == done && Extension(done + [DOT]) == [];
  }

  /** A character that fits nowhere makes the segment illegal. */
  lemma Stuck(done: seq<byte>, sfn: seq<byte>, i: nat, ni: nat, seg: seq<byte>)
    requires Turned(done, sfn, i, ni) && done < seg
    requires var c := seg[|done|];
      if c == DOT then ni != 8 else i >= ni || !IsGood(c)
    ensures !Legal(seg)
  {
    var k, d := |done|, DotAt(seg);
    assert seg[k] == seg[k..][0];
    if ni == 8 {
      assert forall j :: 0 <= j < k ==> seg[j] == done[j];
      assert d > k;
      assert Body(seg)[k] == seg[k];
    } else {
      DotOf(seg, DotAt(done));
      assert Extension(seg)[k - d - 1] == seg[k];
    }
  }

  /** Everything turned: the segment is legal unless it is empty. */
  lemma Finished(seg: seq<byte>, sfn: seq<byte>, i: nat, ni: nat)
    requires Turned(seg, sfn, i, ni)
    ensures Legal(seg) <==> i != 0
    ensures i != 0 ==> sfn == ShortName(seg)
  {
    if ni == 8 {
      DotOf(seg, |seg|);
      assert Body(seg) == seg;
    }
  }

  lemma SegmentAt(path: seq<byte>, s: nat, seg: seq<byte>, i: nat)
    requires Segment(path, s, seg) && i <= |seg|
    ensures EndsSegment(CharAt(path, s + i)) <==> i == |seg|
    ensures i < |seg| ==>
      CharAt(path, s + i) == seg[i] && seg[..i + 1] == seg[..i] + [seg[i]] && !IsSeparator(seg[i]) && seg[i] > SPACE
  {
  }

  /** Strips duplicated separators. */
  method SkipSeparators(path: seq<byte>, start: nat) returns (s: nat)
    requires start <= |path|
    ensures s == NameStart(path, start)
  {
    s := start;
    while IsSeparator(CharAt(path, s))
      invariant start <= s <= |path| && NameStart(path, s) == NameStart(path, start)
      decreases |path| - s
    {
      s := s + 1;
    }
  }

  /**
   * create_name from position start: strips separators, turns the segment it comes to, and says where the next begins
   * and whether it was the last.
   */
  method CreateName(path: seq<byte>, start: nat) returns (ok: bool, sfn: seq<byte>, next: nat, last: bool)
    requires start <= |path|
    ensures var s := NameStart(path, start);
      var seg := SegmentFrom(path, s);
      && (ok <==> Legal(seg))
      && (ok ==>
           && sfn == ShortName(seg) && IsName(sfn)
           && next == s + |seg| + 1 && (last <==> CharAt(path, s + |seg|) <= SPACE))
  {
    hide Turned, Legal, DotAt, Padded, Segment, IsSeparator, IsIllegal, CharAt, ShortName, SegmentFrom, NameStart;
    var p := SkipSeparators(path, start);
    ghost var seg := SegmentFrom(path, p);
    SegmentIs(path, p);
    sfn := seq(11, i => SPACE);
    ok, next, last := false, 0, false;
    var si, i, ni := 0, 0, 8;
    var c: byte := 0;
    TurnNone(sfn);
    while true
      invariant 0 <= si <= |seg| && 0 <= i && Turned(seg[..si], sfn, i, ni) && |sfn| == 11 && (ni == 8 || ni == 11)
      decreases |seg| - si
    {
      SegmentAt(path, p, seg, si);
      ghost var done := seg[..si];
      c := CharAt(path, p + si);
      si := si + 1;
      if EndsSegment(c) { break; }
      if c == DOT || i >= ni {
        if ni != 8 || c != DOT {
          Stuck(done, sfn, i, ni, seg);
          return;
        }
        TurnDot(done, sfn, i);
        i, ni := 8, 11;
      } else {
        if c >= 0x80 || IsIllegal(c) {
          Stuck(done, sfn, i, ni, seg);
          return;
        }
        TurnGood(done, sfn, i, ni, c);
        sfn := sfn[i := Upper(c)];
        i := i + 1;
      }
    }
    assert seg[..si - 1] == seg;
    Finished(seg, sfn, i, ni);
    next := p + si;
    last := c <= SPACE;
    if i == 0 { return; }
    ShortNameIsName(seg);
    sfn := Spared(sfn);
    ok := true;
  }

  /** A name must not begin with the deletion mark. */
  function Spared(sfn: seq<byte>): (r: seq<byte>)
    requires |sfn| == 11
    ensures |r| == 11 && r[0] != DDE && (sfn[0] != DDE ==> r == sfn)
  {
    if sfn[0] == DDE then sfn[0 := 0x05] else sfn
  }

  lemma TurnNone(sfn: seq<byte>)
    requires sfn == seq(11, i => SPACE)
    ensures Turned([], sfn, 0, 8)
  {
    assert sfn == Padded([], 8) + Padded([], 3);
  }
}

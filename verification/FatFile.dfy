/** An open file: reading, writing and moving about in it. */
module FatFile {
  import opened FatBytes
  import opened Octets
  import opened Arith
  import opened FatTable
  import opened FatVol
  import opened FatVolume
  import opened FatChain
  import opened FatAlloc
  import opened FatLayout
  import opened FatCursor
  import opened FatBytesSpec
  import opened FatState
  import opened FatSeek
  import opened FatLinkMap

  /** e has been written at the cursor. */
  ghost predicate Wrote(s: State, s': State, e: seq<byte>)
    requires s.Sound()
  {
    && s'.Ready() && s'.Follows(s)
    && s'.cur.fptr == s.cur.fptr + |e| && s'.cur.fsize == s.cur.fsize
    && s.cur.fptr <= |s.Data()| && s'.Data() == Overwrite(s.Data(), s.cur.fptr, e)
  }

  lemma SoundWeak(s: State)
    requires s.Sound()
    ensures s.vol.Valid() && (s.cur.dirty ==> s.vol.geo.database <= s.cur.dsect)
    ensures s.cur.dirty ==> s.cur.dsect < |s.vol.disk|
    ensures s.cur.dsect < 0x1_0000_0000 && |s.cur.buf| == 512
  {
  }

  /** An unsigned difference is small exactly when the first number lies in the run that starts at the second. */
  lemma InRun(a: nat, b: nat, n: nat)
    requires a < 0x1_0000_0000 && b + n < 0x1_0000_0000
    ensures Sub32(a, b) < n <==> b <= a < b + n
    ensures b <= a ==> Sub32(a, b) == a - b
  {
  }

  lemma FitsDisk(s: State, x: nat, n: nat)
    requires s.vol.Valid() && x + n <= |s.vol.disk|
    ensures x + n < 0x1_0000_0000
  {
  }

  lemma DirectWrote(s: State, n: nat, e: seq<byte>)
    requires s.Sound() && s.OnByte() && !s.cur.dirty && s.cur.fptr % 512 == 0 && 0 < n && |e| == 512 * n
    requires CluSect(s.vol.geo, s.cur.fptr) + n <= s.vol.geo.csize
    requires s.cur.fptr / 512 < |Sects(s.vol.geo, s.ch)|
    requires Sects(s.vol.geo, s.ch)[s.cur.fptr / 512] + n <= |s.vol.disk|
    ensures Direct(s, n, e).Sound() && Wrote(s, Direct(s, n, e), e)
  {
    hide State.Sound, State.OnByte, State.Data, State.Bytes, State.Follows, Sects, Chop, Splice, Put, Vol.Valid,
      State.Hi, Geometry.Valid;
    ValidOf(s);
    CsizePositive(s);
    FatState.DirectStep(s, n, e);
    DataPut(s, Direct(s, n, e), e);
  }

  lemma CopyWrote(s: State, e: seq<byte>)
    requires s.Sound() && s.OnByte() && 0 < |e| && s.cur.fptr % 512 + |e| <= 512 && |s.cur.buf| == 512
    requires s.cur.fptr / 512 < |Sects(s.vol.geo, s.ch)|
    requires var x := Sects(s.vol.geo, s.ch)[s.cur.fptr / 512];
      s.cur.dsect == x || (!s.cur.dirty && s.cur.fptr % 512 == 0 && s.cur.fptr >= s.cur.fsize)
    ensures var s' := s.(cur := Copied(s.cur, Sects(s.vol.geo, s.ch)[s.cur.fptr / 512], e));
      s'.Sound() && Wrote(s, s', e)
  {
    hide State.Sound, State.OnByte, State.Data, State.Bytes, State.Follows, Sects, Splice, Put, Vol.Valid, State.Hi,
      Geometry.Valid;
    ValidOf(s);
    CsizePositive(s);
    CopyStep(s, e);
    DataPut(s, s.(cur := Copied(s.cur, Sects(s.vol.geo, s.ch)[s.cur.fptr / 512], e)), e);
  }

  /** The medium shows a sector of the file that the buffer does not hold. */
  lemma SectorShown(s: State, k: nat)
    requires s.Sound() && k < |Sects(s.vol.geo, s.ch)|
    ensures var x := Sects(s.vol.geo, s.ch)[k];
      x < |s.vol.disk| && x < |s.vol.Image()| && s.vol.disk[x] == s.vol.Image()[x]
  {
    hide Fat, Flat, Sects, FatCursor.View, Chained;
    SectPositive(s.vol.geo, s.vol.Image(), s.ch, k);
    var x := Sects(s.vol.geo, s.ch)[k];
    DataRead(s.vol, x, 1);
    assert s.vol.disk[x..x + 1][0] == s.vol.Image()[x..x + 1][0];
  }

  lemma SectIsData(geo: Geometry, c: nat)
    requires geo.ClustToSect(c) != 0
    ensures geo.database <= geo.ClustToSect(c)
  {
  }

  lemma InsideCluster(s: State)
    requires s.Ready() && s.vol.geo.csize >= 1 && s.cur.fptr % 512 == 0 && CluSect(s.vol.geo, s.cur.fptr) != 0
    ensures s.OnByte()
  {
    hide State.Sound, State.OnByte, Aimed;
    Reach(s);
    if s.cur.fptr == 512 * |Sects(s.vol.geo, s.ch)| {
      EndIsBoundary(s);
    } else {
      MidCluster(s);
    }
  }

  lemma KeptWrote(a: State, b: State, c: State, e: seq<byte>)
    requires a.Sound() && Kept(a, b) && Wrote(b, c, e) && b.cur.fptr == a.cur.fptr && b.cur.fsize == a.cur.fsize
    ensures c.Sound() && Wrote(a, c, e)
  {
    hide State.Sound, State.Data, State.Bytes, State.Follows, Vol.Valid, Aimed, Overwrite;
    ValidOf(a);
    FollowsTrans(a, b, c);
  }

  lemma NothingWrote(a: State, b: State, rest: seq<byte>)
    requires a.Sound() && Kept(a, b) && b.Ready() && b.cur.fptr == a.cur.fptr && b.cur.fsize == a.cur.fsize
    ensures b.Sound() && Wrote(a, b, rest[..0])
  {
    hide State.Sound, State.Bytes, State.Follows, Vol.Valid, Aimed;
    BytesSize(a);
  }

  lemma InsideSector(s: State)
    requires s.Ready() && s.cur.fptr % 512 != 0
    ensures s.vol.geo.csize >= 1 && Clusters(s.vol.geo, s.ch) && s.OnByte()
    ensures s.cur.fptr / 512 < |Sects(s.vol.geo, s.ch)| && s.cur.dsect == Sects(s.vol.geo, s.ch)[s.cur.fptr / 512]
    ensures s.vol.geo.database <= s.cur.dsect
  {
    hide State.OnByte, Aimed, Buffered, Chained, Vol.Valid;
    CsizePositive(s);
    MidCluster(s);
  }

  lemma WroteTrans(a: State, b: State, c: State, data: seq<byte>, i: nat, n: nat, m: nat)
    requires i + m <= n <= |data|
    requires a.Sound() && Wrote(a, b, data[..i]) && b.Sound() && Wrote(b, c, data[i..n][..m])
    ensures Wrote(a, c, data[..i + m])
  {
    hide State.Sound, State.Data, State.Bytes, State.Follows, Vol.Valid, Aimed, Overwrite;
    ValidOf(a);
    FollowsTrans(a, b, c);
    OverwriteTwice(a.Data(), a.cur.fptr, data[..i], data[i..n][..m]);
    assert data[..i] + data[i..n][..m] == data[..i + m];
  }

  /** Recording the new end of the file. */
  lemma WroteClosed(a: State, b: State, e: seq<byte>)
    requires a.Sound() && Wrote(a, b, e)
    ensures var c := b.(cur := b.cur.(fsize := b.Hi()));
      c.Ready() && c.Follows(a) && c.Data() == Overwrite(a.Data(), a.cur.fptr, e)
  {
    hide Vol.Valid, Overwrite, Sects, Chained, FatCursor.View, Flat, CluIdx;
    var c := b.(cur := b.cur.(fsize := b.Hi()));
    SpaceCur(b.vol.geo, b.vol.Image(), b.ch, b.cur, c.cur);
    assert c.Chains() == b.Chains();
  }

  /** n bytes at the cursor have been delivered to position ofs of a reader's buffer. */
  ghost predicate Gave(s: State, s': State, n: nat, was: seq<byte>, now: seq<byte>, ofs: nat)
    requires s.Sound()
  {
    && Passed(s, s', n) && ofs + n <= |was| && s.cur.fptr + n <= |s.Data()|
    && now == Splice(was, ofs, s.Data()[s.cur.fptr..s.cur.fptr + n])
  }

  lemma Spliced(was: seq<byte>, at: nat, d: seq<byte>, now: seq<byte>)
    requires at + |d| <= |was| == |now|
    requires forall i :: 0 <= i < |d| ==> now[at + i] == d[i]
    requires forall i :: 0 <= i < |was| && !(at <= i < at + |d|) ==> now[i] == was[i]
    ensures now == Splice(was, at, d)
  {
    forall i | 0 <= i < |was| ensures now[i] == Splice(was, at, d)[i] {
      SpliceAt(was, at, d, i);
      if at <= i < at + |d| {
        assert now[at + (i - at)] == d[i - at];
      }
    }
  }

  lemma SpliceInner(was: seq<byte>, at: nat, f: seq<byte>, o: nat, d: seq<byte>)
    requires at + |f| <= |was| && o + |d| <= |f|
    ensures Splice(Splice(was, at, f), at + o, d) == Splice(was, at, Splice(f, o, d))
  {
  }

  lemma Leads(s: State)
    requires s.Ready() && s.vol.geo.csize >= 1 && AtBoundary(s) && NextIdx(s) < |s.ch|
    ensures s.cur.fptr == 0 ==> s.cur.sclust == s.ch[NextIdx(s)]
    ensures s.cur.fptr > 0 ==> s.vol.geo.IsCluster(s.cur.clust) && s.vol.Table()[s.cur.clust] == s.ch[NextIdx(s)]
    ensures 2 <= s.ch[NextIdx(s)] < 0xFFFF_FFFF
  {
    hide State.Sound, State.Data, State.Bytes, State.Follows, Aimed, Vol.Table, CluIdx, AtBoundary;
    ValidOf(s);
    Bounds(s.vol);
    CsizePositive(s);
    StartIs(s);
    assert s.vol.geo.IsCluster(s.ch[NextIdx(s)]);
    if s.cur.fptr > 0 {
      NextOf(s);
    }
  }

  lemma DirectGave(s: State, n: nat, was: seq<byte>, ofs: nat, x: nat, got: seq<byte>, now: seq<byte>)
    requires s.Sound() && s.OnByte() && 0 < n && s.cur.fptr % 512 == 0 && s.cur.fptr + 512 * n <= s.cur.fsize
    requires CluSect(s.vol.geo, s.cur.fptr) + n <= s.vol.geo.csize
    requires Clusters(s.vol.geo, s.ch) && s.cur.fptr / 512 < |Sects(s.vol.geo, s.ch)|
    requires x == Sects(s.vol.geo, s.ch)[s.cur.fptr / 512] && x + n <= |s.vol.disk|
    requires AllSectors(s.vol.disk) && ofs + 512 * n <= |was|
    requires got == Splice(was, ofs, Flat(s.vol.disk[x..x + n]))
    requires var d := Sub32(s.cur.dsect, x);
      now == if s.cur.dirty && d < n && |s.cur.buf| == 512 then Splice(got, ofs + 512 * d, s.cur.buf) else got
    ensures Gave(s, s.(cur := s.cur.(fptr := s.cur.fptr + 512 * n)), 512 * n, was, now, ofs)
  {
    hide State.Sound, State.OnByte, State.Data, State.Bytes, State.Follows, Sects, Splice, Flat, Sub32, Clusters,
      Passed, Vol.Valid;
    ValidOf(s);
    SoundWeak(s);
    DirectRead(s, n);
    InRun(s.cur.dsect, x, n);
    Pass(s, 512 * n);
    if s.cur.dirty && x <= s.cur.dsect < x + n {
      SpliceInner(was, ofs, Flat(s.vol.disk[x..x + n]), 512 * (s.cur.dsect - x), s.cur.buf);
    }
  }

  lemma BufferGave(s: State, n: nat)
    requires s.Sound() && s.OnByte() && 0 < n && s.cur.fptr + n <= s.cur.fsize && s.cur.fptr % 512 + n <= 512
    requires Clusters(s.vol.geo, s.ch) && s.cur.fptr / 512 < |Sects(s.vol.geo, s.ch)|
    requires s.cur.dsect == Sects(s.vol.geo, s.ch)[s.cur.fptr / 512] && |s.cur.buf| == 512
    ensures s.cur.fptr + n <= |s.Data()|
    ensures s.cur.buf[s.cur.fptr % 512..s.cur.fptr % 512 + n] == s.Data()[s.cur.fptr..s.cur.fptr + n]
    ensures Passed(s, s.(cur := s.cur.(fptr := s.cur.fptr + n)), n)
  {
    hide State.Sound, State.OnByte, State.Data, State.Bytes, State.Follows, Sects, Clusters, Passed, Vol.Valid;
    BufferRead(s, n);
    Pass(s, n);
  }

  lemma BelowEnd(s: State)
    requires s.Sound() && s.cur.fptr < s.cur.fsize
    ensures Clusters(s.vol.geo, s.ch) && s.cur.fptr < 512 * |Sects(s.vol.geo, s.ch)|
  {
  }

  lemma KeptGave(a: State, b: State, c: State, n: nat, was: seq<byte>, now: seq<byte>, ofs: nat)
    requires a.Sound() && Kept(a, b) && Gave(b, c, n, was, now, ofs)
    requires b.cur.fptr == a.cur.fptr && b.cur.fsize == a.cur.fsize
    ensures c.Sound() && Gave(a, c, n, was, now, ofs)
  {
    hide State.Sound, State.Data, State.Bytes, State.Follows, Aimed, Splice;
    KeptPassed(a, b, c, n);
  }

  lemma SomeChain(s: State)
    requires s.Sound() && s.OnByte()
    ensures s.ch != []
  {
  }

  lemma StartsSame(s: State)
    requires OnCluster(s)
    ensures s.Sound() && SameCore(s, s)
  {
    FollowsSelf(s);
  }

  /** The cursor has been moved to a target, or as far towards it as there is room, and the file extended to it. */
  ghost predicate Sought(s: State, t: State, target: nat)
    requires s.Sound()
  {
    && t.Ready() && t.Follows(s) && s.Data() <= t.Data()
    && t.cur.fptr <= target && (t.cur.fptr < target ==> NoFree(t.vol.Table()) && s.cur.fsize <= t.cur.fptr)
    && t.cur.fsize == if t.cur.fptr > s.cur.fsize then t.cur.fptr else s.cur.fsize
  }

  lemma SoughtMeans(s: State, t: State, target: nat)
    requires s.Sound() && Sought(s, t, target)
    ensures t.Ready() && t.Follows(s) && s.Data() <= t.Data()
    ensures t.cur.fptr <= target && t.vol.Valid()
    ensures (t.cur.fptr < target ==> NoFree(t.vol.Table()) && s.cur.fsize <= t.cur.fptr)
    ensures t.cur.fsize == if t.cur.fptr > s.cur.fsize then t.cur.fptr else s.cur.fsize
  {
  }

  /** The end of a seek: the file is extended to the cursor if that lies past its end. */
  lemma SeekEnds(s: State, t: State, target: nat)
    requires s.Sound() && s.cur.fptr <= s.cur.fsize && SameCore(s, t) && t.Ready()
    requires t.cur.fptr <= target && (t.cur.fptr < target ==> NoFree(t.vol.Table()) && t.cur.fsize <= t.cur.fptr)
    ensures Sought(s, t.(cur := t.cur.(fsize := t.Hi())), target)
  {
    hide State.Core, State.Bytes, State.Follows, State.Data, State.Sound, Aimed, NoFree;
    CoreIsData(s);
    Enlarge(t);
    ValidOf(s);
    FollowsTrans(s, t, t.(cur := t.cur.(fsize := t.Hi())));
  }

  lemma FastEnds(s: State, t: State)
    requires s.Sound() && s.cur.fptr <= s.cur.fsize && SameCore(s, t) && t.Ready() && t.cur.fptr <= t.cur.fsize
    ensures t.Follows(s) && t.Data() == s.Data()
  {
    hide State.Core, State.Bytes, State.Follows, State.Data, State.Sound, Aimed;
    CoreIsData(s);
    CoreIsData(t);
  }

  lemma NothingGave(s: State, was: seq<byte>)
    requires s.Ready()
    ensures Gave(s, s, 0, was, was, 0)
  {
    hide State.Bytes, State.Follows, Aimed;
    FollowsSelf(s);
    BytesSize(s);
  }

  lemma GaveIs(a: State, b: State, n: nat, was: seq<byte>, now: seq<byte>)
    requires a.Sound() && Gave(a, b, n, was, now, 0)
    ensures b.Ready() && b.cur.fptr == a.cur.fptr + n && b.cur.fsize == a.cur.fsize && b.Follows(a)
    ensures b.Data() == a.Data()
    ensures |now| == |was|
  {
    hide State.Sound, State.Data, State.Bytes, State.Follows, Aimed;
  }

  lemma GaveTrans(a: State, b: State, c: State, m: nat, n: nat, was: seq<byte>, mid: seq<byte>, now: seq<byte>)
    requires a.Sound() && Gave(a, b, m, was, mid, 0) && Gave(b, c, n, mid, now, m)
    ensures c.Sound() && Gave(a, c, m + n, was, now, 0)
  {
    hide State.Sound, State.Data, State.Bytes, State.Follows, Aimed, Splice;
    PassedTrans(a, b, c, m, n);
    SpliceRuns(was, a.Data(), a.cur.fptr, m, n);
  }

  lemma SpliceRuns(was: seq<byte>, d: seq<byte>, p: nat, m: nat, n: nat)
    requires m + n <= |was| && p + m + n <= |d|
    ensures Splice(Splice(was, 0, d[p..p + m]), m, d[p + m..p + m + n]) == Splice(was, 0, d[p..p + m + n])
  {
    assert d[p..p + m] + d[p + m..p + m + n] == d[p..p + m + n];
  }

  lemma GaveSlice(a: State, b: State, btr: nat, br: nat, was: seq<byte>, now: seq<byte>)
    requires a.Sound() && Gave(a, b, br, was, now, 0) && a.cur.fptr <= a.cur.fsize && |was| == |now|
    requires br == if btr > a.cur.fsize - a.cur.fptr then a.cur.fsize - a.cur.fptr else btr
    ensures br <= |was| && a.cur.fptr <= |a.Data()|
    ensures now[..br] == Slice(a.Data(), a.cur.fptr, btr) && now[br..] == was[br..]
  {
    hide State.Sound, State.Bytes, State.Follows, Aimed, Passed;
    BytesSize(a);
  }

  class File {
    const fs: FatFs
    const buf: array<byte>
    const canRead: bool
    const canWrite: bool
    var fptr: nat
    var fsize: nat
    var sclust: nat
    var clust: nat
    var dsect: nat
    var dirty: bool
    var written: bool
    var error: bool
    ghost var chain: seq<nat>
    ghost var others: set<seq<nat>>

    /** The state f_open leaves for a file whose directory entry names its first cluster and size. */
    constructor (volume: FatFs, start: nat, size: nat, read: bool, write: bool, ghost ch: seq<nat>,
      ghost rest: set<seq<nat>>)
      requires size < 0x1_0000_0000
      requires var cur := Cur(0, size, start, 0, 0, seq(512, i => 0), false);
        State(volume.View(), cur, ch, rest).Ready()
      ensures fs == volume && fresh(buf) && canRead == read && canWrite == write && !error && !written
      ensures St() == State(volume.View(), Cur(0, size, start, 0, 0, seq(512, i => 0), false), ch, rest)
    {
      fs, canRead, canWrite := volume, read, write;
      buf := new byte[512](i => 0);
      fptr, fsize, sclust, clust, dsect := 0, size, start, 0, 0;
      dirty, written, error := false, false, false;
      chain, others := ch, rest;
      new;
      assert buf[..] == seq(512, i => 0);
    }

    ghost function St(): State
      reads this, buf, fs, fs.win, fs.disk
    {
      State(fs.View(), Cur(fptr, fsize, sclust, clust, dsect, buf[..], dirty), chain, others)
    }

    /** What holds even while a disk error is being passed over. */
    ghost predicate Safe()
      reads this, buf, fs, fs.win, fs.disk
    {
      && buf.Length == 512 && buf != fs.win
      && fs.View().Valid()
      && (dirty ==> fs.geo.database <= dsect)
      && (fs.disk.failed ==> fs.geo.InFat(fs.winsect))
    }

    /** The same while the cursor does not leave its sector. */
    ghost predicate Weak()
      reads this, buf, fs, fs.win, fs.disk
    {
      Safe() && (fptr % 512 != 0 ==> fs.geo.database <= dsect)
    }

    /** Writes the private buffer back. */
    method Flush() returns (r: FResult)
      requires Safe() && (!fs.disk.failed ==> St().Sound())
      modifies this`dirty, fs.disk
      ensures fs.disk.failed == (old(fs.disk.failed) || r == FR_DISK_ERR) && (r == FR_OK || r == FR_DISK_ERR)
      ensures r == FR_OK ==> Safe() && !dirty
      ensures !fs.disk.failed ==> Kept(old(St()), St()) && (old(St().OnByte()) ==> St().OnByte())
    {
      hide Vol.Valid, Vol.Table, Vol.Image, Vol.Mirrored, State.Sound, State.Data, State.Bytes, State.Follows;
      ghost var s := St();
      if !fs.disk.failed {
        FollowsSelf(s);
      }
      if dirty {
        var ok := fs.disk.WriteOne(buf, dsect);
        if !ok { return FR_DISK_ERR; }
        dirty := false;
        if fs.disk.failed {
          WrittenValid(s.vol, s.cur.dsect, buf[..]);
        } else {
          FatState.FlushStep(s);
          KeepData(s, St());
          SoundWeak(St());
        }
      }
      return FR_OK;
    }
 
    /** Brings the cursor to the next cluster for writing, taking a new one at the end of the chain. */
    method NextToWrite() returns (r: FResult, full: bool)
      requires Weak() && (!fs.disk.failed ==> St().Ready() && St().vol.geo.csize >= 1 && AtBoundary(St()))
      modifies this`sclust, this`clust, this`chain, fs`winsect, fs`wflag, fs`lastClust, fs`freeClust, fs`fsiFlag,
        fs.win, fs.disk
      ensures old(fs.disk.failed) ==> fs.disk.failed
      ensures r == FR_DISK_ERR ==> fs.disk.failed
      ensures r == FR_OK ==> Weak()
      ensures !fs.disk.failed ==> r == FR_OK && Kept(old(St()), St())
      ensures !fs.disk.failed && full ==> St().Ready() && NoFree(fs.View().Table())
      ensures !fs.disk.failed && !full ==> St().OnByte()
    {
      hide Vol.Valid, Vol.Table, Vol.Image, Vol.Mirrored, State.Data, State.Bytes, State.Follows, Created, Took, Aimed,
        Advanced, NoFree, Placed, Buffered, Chained, Sects, Owns, EndMark, Geometry.Valid, Outside, State.Sound,
          State.OnByte;
      ghost var s, last := St(), fs.lastClust;
      Bounds(s.vol);
      if !fs.disk.failed {
        StartIs(s);
        SoundWeak(s);
      }
      full, r := false, FR_OK;
      var clst;
      if fptr == 0 {
        clst := sclust;
        if clst == 0 {
          clst := CreateChain(fs, 0);
          sclust := clst;
          if !fs.disk.failed {
            CreateNext(s, fs.View(), last, clst, EndMark(fs.geo));
          }
        } else if !fs.disk.failed {
          EditedSelf(s.vol);
          FollowNext(s, s.vol, clst);
        }
      } else {
        clst := CreateChain(fs, clust);
        if !fs.disk.failed {
          CreateNext(s, fs.View(), last, clst, EndMark(fs.geo));
        }
      }
      if clst == 0 { return FR_OK, true; }
      if clst == 1 { return FR_INT_ERR, false; }
      if clst == 0xFFFF_FFFF { return FR_DISK_ERR, false; }
      clust := clst;
      if !fs.disk.failed {
        chain := Advanced(s, fs.View(), clst).ch;
        AdvancedIs(s, fs.View(), clst);
        assert St() == Advanced(s, fs.View(), clst);
      }
    }
 
    /** Takes sector d of whole sectors e into the buffer. */
    method CopyIn(e: seq<byte>, d: nat, n: nat)
      requires buf.Length == 512 && |e| == 512 * n && d < n
      modifies buf
      ensures buf[..] == Chop(e, n)[d]
    {
      forall i | 0 <= i < 512 {
        buf[i] := e[512 * d + i];
      }
    }

    /** Sends whole sectors straight to the medium, refilling the buffer if it held one of them. */
    method PutDirect(e: seq<byte>, sect: nat, n: nat) returns (r: FResult)
      requires Weak() && !dirty && 0 < n && |e| == 512 * n && fs.geo.database <= sect && fptr % 512 == 0
      requires !fs.disk.failed ==>
        && St().Sound() && St().OnByte() && Clusters(fs.geo, chain) && fptr / 512 < |Sects(fs.geo, chain)|
        && fs.geo.csize >= 1 && CluSect(fs.geo, fptr) + n <= fs.geo.csize
        && sect == Sects(fs.geo, chain)[fptr / 512]
      modifies this`fptr, this`dirty, buf, fs.disk
      ensures fs.disk.failed == (old(fs.disk.failed) || r == FR_DISK_ERR) && (r == FR_OK || r == FR_DISK_ERR)
      ensures r == FR_OK ==> Weak() && fptr == old(fptr) + |e|
      ensures !fs.disk.failed ==> Wrote(old(St()), St(), e)
    {
      hide Vol.Valid, Vol.Table, Vol.Image, Vol.Mirrored, State.Sound, State.OnByte, State.Data, State.Bytes,
        State.Follows,
        State.Ready, Chop, Splice, Sects, Wrote, Sub32, State.Hi, Put, Geometry.Valid;
      ghost var s := St();
      var ok := fs.disk.Write(e, sect, n);
      if !ok { return FR_DISK_ERR; }
      var d := Sub32(dsect, sect);
      if d < n {
        CopyIn(e, d, n);
        dirty := false;
      } else {
        assert buf[..] == s.cur.buf;
      }
      fptr := fptr + 512 * n;
      if fs.disk.failed {
        WrittenRunValid(s.vol, sect, Chop(e, n));
      } else {
        FitsDisk(s, sect, n);
        SoundWeak(s);
        InRun(dsect, sect, n);
        DirectWrote(s, n, e);
        assert St() == Direct(s, n, e);
        SoundWeak(St());
      }
      return FR_OK;
    }

    /** Loads a sector of the file into the buffer. */
    method Fill(sect: nat) returns (r: FResult)
      requires Safe() && !dirty && fs.geo.database <= sect
      requires !fs.disk.failed ==>
        && St().Sound() && St().OnByte() && Clusters(fs.geo, chain) && fptr / 512 < |Sects(fs.geo, chain)|
        && sect == Sects(fs.geo, chain)[fptr / 512]
      modifies this`dsect, buf, fs.disk`failed
      ensures fs.disk.failed == (old(fs.disk.failed) || r == FR_DISK_ERR) && (r == FR_OK || r == FR_DISK_ERR)
      ensures r == FR_OK ==> Safe() && dsect == sect
      ensures !fs.disk.failed ==> Kept(old(St()), St()) && St().OnByte()
    {
      hide Vol.Table, Vol.Image, Vol.Mirrored, State.Sound, State.Data, State.Bytes, State.Follows,
        State.Ready, Chop, Splice, Sects, State.Hi, Put, Geometry.Valid;
      ghost var s := St();
      var ok := fs.disk.ReadOne(buf, sect);
      if !ok { return FR_DISK_ERR; }
      dsect := sect;
      if !fs.disk.failed {
        SectorShown(s, fptr / 512);
        FatState.FillStep(s, fptr / 512);
        KeepData(s, St());
      }
      return FR_OK;
    }

    /** Copies bytes into the buffer, which holds or is about to stand for a sector of the file. */
    method PutBuffer(e: seq<byte>, sect: nat)
      requires Weak() && 0 < |e| && fptr % 512 + |e| <= 512 && fs.geo.database <= sect
      requires !fs.disk.failed ==>
        && St().Sound() && St().OnByte() && Clusters(fs.geo, chain) && fptr / 512 < |Sects(fs.geo, chain)|
        && sect == Sects(fs.geo, chain)[fptr / 512]
        && (dsect == sect || (!dirty && fptr % 512 == 0 && fptr >= fsize))
      modifies this`dsect, this`dirty, this`fptr, buf
      ensures Weak() && fptr == old(fptr) + |e|
      ensures !fs.disk.failed ==> Wrote(old(St()), St(), e)
    {
      hide Vol.Valid, Vol.Table, Vol.Image, Vol.Mirrored, State.Sound, State.OnByte, State.Data, State.Bytes,
        State.Follows,
        State.Ready, Sects, Wrote, State.Hi, Put, Geometry.Valid;
      ghost var s := St();
      dsect := sect;
      var o := fptr % 512;
      forall i | 0 <= i < |e| {
        buf[o + i] := e[i];
      }
      assert buf[..] == Splice(s.cur.buf, o, e);
      dirty := true;
      fptr := fptr + |e|;
      if !fs.disk.failed {
        CopyWrote(s, e);
        assert St() == s.(cur := Copied(s.cur, sect, e));
        SoundWeak(St());
      }
    }
 
    /** At a sector boundary: finds the sector to write to, with nothing left waiting in the buffer. */
    method StartSector() returns (r: FResult, full: bool, sect: nat)
      requires Weak() && fptr % 512 == 0 && (!fs.disk.failed ==> St().Ready())
      modifies this`sclust, this`clust, this`chain, this`dirty,
        fs`winsect, fs`wflag, fs`lastClust, fs`freeClust, fs`fsiFlag, fs.win, fs.disk
      ensures old(fs.disk.failed) ==> fs.disk.failed
      ensures r == FR_DISK_ERR ==> fs.disk.failed
      ensures r == FR_OK ==> Weak() && (full || (!dirty && fs.geo.database <= sect))
      ensures !fs.disk.failed ==> r == FR_OK && Kept(old(St()), St())
      ensures !fs.disk.failed && full ==> St().Ready() && NoFree(fs.View().Table())
      ensures !fs.disk.failed && !full ==> St().OnByte() && At(sect)
    {
      hide Vol.Valid, Vol.Table, Vol.Image, Vol.Mirrored, State.Data, State.Bytes, State.Follows, State.Sound,
        State.OnByte,
        Aimed, NoFree, Sects, Geometry.Valid;
      ghost var s := St();
      r, full, sect := FR_OK, false, 0;
      PositiveCsize(fs.View());
      var csect := fptr / 512 % fs.geo.csize;
      CluIs(fs.geo, fptr);
      if csect == 0 {
        r, full := NextToWrite();
        if r != FR_OK || full { return; }
      } else if !fs.disk.failed {
        KeptSelf(s);
        InsideCluster(s);
      }
      ghost var s1 := St();
      r := Flush();
      if r != FR_OK { return; }
      if !fs.disk.failed {
        KeptTrans(s, s1, St());
        Located(St());
      }
      sect := fs.geo.ClustToSect(clust);
      if sect == 0 { return FR_INT_ERR, false, 0; }
      SectIsData(fs.geo, clust);
      sect := sect + csect;
    }

    /** sect is the file's sector under the cursor. */
    ghost predicate At(sect: nat)
      reads this
    {
      && Clusters(fs.geo, chain) && fptr / 512 < |Sects(fs.geo, chain)| && fs.geo.csize >= 1
      && sect == Sects(fs.geo, chain)[fptr / 512]
    }
 
    /** One round of the write loop. */
    method WriteSome(rest: seq<byte>) returns (r: FResult, wcnt: nat, full: bool)
      requires Weak() && |rest| > 0 && (!fs.disk.failed ==> St().Ready())
      modifies this`fptr, this`sclust, this`clust, this`chain, this`dsect, this`dirty, buf,
        fs`winsect, fs`wflag, fs`lastClust, fs`freeClust, fs`fsiFlag, fs.win, fs.disk
      ensures old(fs.disk.failed) ==> fs.disk.failed
      ensures r == FR_DISK_ERR ==> fs.disk.failed
      ensures r == FR_OK ==> Weak() && wcnt <= |rest| && (full <==> wcnt == 0) && fptr == old(fptr) + wcnt
      ensures !fs.disk.failed ==> r == FR_OK && Wrote(old(St()), St(), rest[..wcnt])
      ensures !fs.disk.failed && full ==> NoFree(fs.View().Table())
    {
      hide Vol.Valid, Vol.Table, Vol.Image, Vol.Mirrored, State.Data, State.Bytes, State.Follows, State.Sound,
        State.OnByte,
        Aimed, NoFree, Sects, Geometry.Valid, Wrote;
      ghost var s := St();
      PositiveCsize(s.vol);
      r, wcnt, full := FR_OK, 0, false;
      var sect := dsect;
      if fptr % 512 == 0 {
        r, full, sect := StartSector();
        if r != FR_OK { return; }
        if full {
          if !fs.disk.failed { NothingWrote(s, St(), rest); }
          return;
        }
        ghost var s1 := St();
        var cc := |rest| / 512;
        if cc > 0 {
          var csect := fptr / 512 % fs.geo.csize;
          CluIs(fs.geo, fptr);
          if csect + cc > fs.geo.csize {
            cc := fs.geo.csize - csect;
          }
          wcnt := 512 * cc;
          r := PutDirect(rest[..wcnt], sect, cc);
          if !fs.disk.failed { KeptWrote(s, s1, St(), rest[..wcnt]); }
          return;
        }
        if dsect != sect && fptr < fsize {
          r := Fill(sect);
          if r != FR_OK { return; }
          if !fs.disk.failed { KeptTrans(s, s1, St()); }
        }
      } else if !fs.disk.failed {
        InsideSector(s);
        KeptSelf(s);
      }
      wcnt := 512 - fptr % 512;
      if wcnt > |rest| { wcnt := |rest|; }
      ghost var s2 := St();
      PutBuffer(rest[..wcnt], sect);
      if !fs.disk.failed { KeptWrote(s, s2, St(), rest[..wcnt]); }
    }
 
    /**
     * The state between calls: an aborted file, or one whose cursor lies inside it and, if no disk call has failed,
     * in order.
     */
    ghost predicate Usable()
      reads this, buf, fs, fs.win, fs.disk
    {
      && buf.Length == 512 && buf != fs.win
      && (error || (Weak() && fptr <= fsize < 0x1_0000_0000 && (!fs.disk.failed ==> St().Ready())))
    }

    /** The file's bytes. */
    ghost function Content(): (c: seq<byte>)
      requires Usable() && !error && !fs.disk.failed
      reads this, buf, fs, fs.win, fs.disk
      ensures |c| == fsize
    {
      BytesSize(St());
      St().Data()
    }

    /** Writes the first btw bytes of data, as far as there is room. */
    method WriteAll(data: seq<byte>, btw: nat) returns (r: FResult, bw: nat)
      requires Weak() && btw <= |data| && (!fs.disk.failed ==> St().Ready())
      modifies this`fptr, this`sclust, this`clust, this`chain, this`dsect, this`dirty, buf,
        fs`winsect, fs`wflag, fs`lastClust, fs`freeClust, fs`fsiFlag, fs.win, fs.disk
      ensures (old(fs.disk.failed) ==> fs.disk.failed) && bw <= btw
      ensures r == FR_OK ==> Weak() && fptr == old(fptr) + bw
      ensures !fs.disk.failed ==> r == FR_OK && Wrote(old(St()), St(), data[..bw])
      ensures !fs.disk.failed && bw < btw ==> NoFree(fs.View().Table())
    {
      hide Vol.Valid, Vol.Table, Vol.Image, Vol.Mirrored, State.Data, State.Bytes, State.Follows, State.Sound,
        State.OnByte,
        Aimed, NoFree, Sects, Geometry.Valid, Overwrite;
      ghost var s := St();
      if !fs.disk.failed {
        KeptSelf(s);
        NothingWrote(s, s, data);
      }
      bw, r := 0, FR_OK;
      var full := false;
      while bw < btw
        invariant 0 <= bw <= btw && r == FR_OK && !full && Weak() && fptr == old(fptr) + bw
        invariant old(fs.disk.failed) ==> fs.disk.failed
        invariant !fs.disk.failed ==> Wrote(s, St(), data[..bw])
      {
        ghost var s1 := St();
        var wcnt;
        r, wcnt, full := WriteSome(data[bw..btw]);
        if r != FR_OK { return; }
        if !fs.disk.failed {
          WroteTrans(s, s1, St(), data, bw, btw, wcnt);
        }
        if full { break; }
        bw := bw + wcnt;
      }
    }

    /** f_write. */
    method Write(data: seq<byte>) returns (r: FResult, bw: nat)
      requires Usable() && |data| < 0x1_0000_0000
      modifies this, buf, fs, fs.win, fs.disk
      ensures old(error) ==> r == FR_INT_ERR
      ensures !old(error) && !canWrite ==> r == FR_DENIED
      ensures old(error) || !canWrite ==> bw == 0 && unchanged(this, buf, fs, fs.win, fs.disk)
      ensures Usable() && (old(fs.disk.failed) ==> fs.disk.failed)
      ensures canWrite ==> error == (r != FR_OK)
      ensures !old(error) && canWrite && !fs.disk.failed ==>
        && r == FR_OK && !error && written && St().Follows(old(St()))
        && bw <= |data| && fptr == old(fptr) + bw
        && Content() == Overwrite(old(Content()), old(fptr), data[..bw])
        && (bw < |data| ==> old(fsize) + |data| >= 0x1_0000_0000 || NoFree(fs.View().Table()))
        && (old(fsize) + |data| >= 0x1_0000_0000 ==> bw == 0)
    {
      hide Vol.Valid, Vol.Table, Vol.Image, Vol.Mirrored, State.Data, State.Bytes, State.Follows, State.Sound,
        State.OnByte,
        Aimed, NoFree, Sects, Geometry.Valid, Overwrite;
      bw := 0;
      if error { return FR_INT_ERR, 0; }
      if !canWrite { return FR_DENIED, 0; }
      ghost var s := St();
      var btw := if Add32(fsize, |data|) < fsize then 0 else |data|;
      r, bw := WriteAll(data, btw);
      if r != FR_OK { error := true; return; }
      ghost var s2 := St();
      if fptr > fsize { fsize := fptr; }
      written := true;
      if !fs.disk.failed {
        WroteClosed(s, s2, data[..bw]);
      }
    }
 
    /** Brings the cursor to the next cluster for reading. */
    method NextToRead() returns (r: FResult)
      requires Weak()
      requires !fs.disk.failed ==>
        St().Ready() && St().vol.geo.csize >= 1 && AtBoundary(St()) && NextIdx(St()) < |chain|
      modifies this`clust, fs`winsect, fs`wflag, fs.win, fs.disk
      ensures old(fs.disk.failed) || r == FR_DISK_ERR ==> fs.disk.failed
      ensures r == FR_OK ==> Weak()
      ensures !fs.disk.failed ==> r == FR_OK && MovedOn(old(St()), St())
    {
      hide Vol.Valid, Vol.Table, Vol.Image, Vol.Mirrored, State.Data, State.Bytes, State.Follows, Aimed,
        Placed, Buffered, Chained, Sects, Owns, Geometry.Valid, Outside, State.Sound, State.OnByte, NextIdx, AtBoundary;
      ghost var s := St();
      if !fs.disk.failed {
        Leads(s);
        EditedSelf(s.vol);
      }
      var clst;
      if fptr == 0 {
        clst := sclust;
      } else {
        clst := fs.GetFat(clust);
      }
      if clst < 2 { return FR_INT_ERR; }
      if clst == 0xFFFF_FFFF { return FR_DISK_ERR; }
      clust := clst;
      if !fs.disk.failed {
        FollowNext(s, fs.View(), clst);
      }
      return FR_OK;
    }

    /** Reads whole sectors straight from the medium, laying a waiting buffer over them. */
    method GetDirect(rbuff: array<byte>, ofs: nat, sect: nat, n: nat) returns (r: FResult)
      requires Weak() && rbuff != buf && rbuff != fs.win && 0 < n && ofs + 512 * n <= rbuff.Length && fptr % 512 == 0
      requires !fs.disk.failed ==>
        && St().Sound() && St().OnByte() && At(sect) && CluSect(fs.geo, fptr) + n <= fs.geo.csize
        && fptr + 512 * n <= fsize
      modifies this`fptr, fs.disk`failed, rbuff
      ensures fs.disk.failed == (old(fs.disk.failed) || r == FR_DISK_ERR) && (r == FR_OK || r == FR_DISK_ERR)
      ensures r == FR_OK ==> Weak() && fptr == old(fptr) + 512 * n
      ensures !fs.disk.failed ==> Gave(old(St()), St(), 512 * n, old(rbuff[..]), rbuff[..], ofs)
    {
      hide Vol.Table, Vol.Image, Vol.Mirrored, State.Sound, State.OnByte, State.Data, State.Bytes, State.Follows,
        State.Ready, Sects, Sub32, State.Hi, Geometry.Valid, Flat, Passed, Clusters, Splice;
      ghost var s, was := St(), rbuff[..];
      ValidGeo(s.vol);
      var ok := fs.disk.Read(rbuff, ofs, sect, n);
      if !ok { return FR_DISK_ERR; }
      ghost var got := rbuff[..];
      var d := Sub32(dsect, sect);
      if dirty && d < n {
        forall i | 0 <= i < 512 {
          rbuff[ofs + 512 * d + i] := buf[i];
        }
        assert rbuff[..] == Splice(got, ofs + 512 * d, s.cur.buf) by {
          Spliced(got, ofs + 512 * d, s.cur.buf, rbuff[..]);
        }
      }
      fptr := fptr + 512 * n;
      if !fs.disk.failed {
        DirectGave(s, n, was, ofs, sect, got, rbuff[..]);
        assert St() == s.(cur := s.cur.(fptr := s.cur.fptr + 512 * n));
      }
      return FR_OK;
    }

    /** Writes the buffer back and loads another sector. */
    method Refill(sect: nat) returns (r: FResult)
      requires Safe() && fs.geo.database <= sect && (!fs.disk.failed ==> St().Sound() && St().OnByte() && At(sect))
      modifies this`dsect, this`dirty, buf, fs.disk
      ensures old(fs.disk.failed) || r == FR_DISK_ERR ==> fs.disk.failed
      ensures r == FR_OK ==> Safe() && dsect == sect
      ensures !fs.disk.failed ==> r == FR_OK && Kept(old(St()), St()) && St().OnByte()
    {
      hide Vol.Valid, Vol.Table, Vol.Image, Vol.Mirrored, State.Data, State.Bytes, State.Follows, State.Sound,
        State.OnByte,
        Aimed, Sects, Geometry.Valid;
      ghost var s := St();
      r := Flush();
      if r != FR_OK { return; }
      ghost var s1 := St();
      r := Fill(sect);
      if !fs.disk.failed {
        KeptTrans(s, s1, St());
      }
    }

    /** Delivers bytes from the buffer. */
    method GetBuffer(rbuff: array<byte>, ofs: nat, n: nat)
      requires Weak() && rbuff != buf && rbuff != fs.win && 0 < n && ofs + n <= rbuff.Length && fptr % 512 + n <= 512
      requires fs.geo.database <= dsect
      requires !fs.disk.failed ==> St().Sound() && St().OnByte() && At(dsect) && fptr + n <= fsize
      modifies this`fptr, rbuff
      ensures Weak() && fptr == old(fptr) + n
      ensures !fs.disk.failed ==> Gave(old(St()), St(), n, old(rbuff[..]), rbuff[..], ofs)
    {
      hide Vol.Table, Vol.Image, Vol.Mirrored, State.Sound, State.OnByte, State.Data, State.Bytes, State.Follows,
        State.Ready, Sects, Sub32, State.Hi, Geometry.Valid, Flat, Passed, Clusters, Splice, Vol.Valid;
      ghost var s, was := St(), rbuff[..];
      var o := fptr % 512;
      forall i | 0 <= i < n {
        rbuff[ofs + i] := buf[o + i];
      }
      assert rbuff[..] == Splice(was, ofs, s.cur.buf[o..o + n]) by {
        Spliced(was, ofs, s.cur.buf[o..o + n], rbuff[..]);
      }
      fptr := fptr + n;
      if !fs.disk.failed {
        BufferGave(s, n);
        assert St() == s.(cur := s.cur.(fptr := s.cur.fptr + n));
      }
    }
 
    /** At a sector boundary: finds the sector to read from. */
    method SeekSector() returns (r: FResult, sect: nat)
      requires Weak() && fptr % 512 == 0 && (!fs.disk.failed ==> St().Ready() && fptr < fsize)
      modifies this`clust, fs`winsect, fs`wflag, fs.win, fs.disk
      ensures old(fs.disk.failed) || r == FR_DISK_ERR ==> fs.disk.failed
      ensures r == FR_OK ==> Weak() && fs.geo.database <= sect
      ensures !fs.disk.failed ==> r == FR_OK && Kept(old(St()), St()) && St().OnByte() && At(sect)
    {
      hide Vol.Valid, Vol.Table, Vol.Image, Vol.Mirrored, State.Data, State.Bytes, State.Follows, State.Sound,
        State.OnByte,
        Aimed, Sects, Geometry.Valid, NextIdx;
      ghost var s := St();
      r, sect := FR_OK, 0;
      PositiveCsize(fs.View());
      var csect := fptr / 512 % fs.geo.csize;
      CluIs(fs.geo, fptr);
      if csect == 0 {
        if !fs.disk.failed {
          BelowEnd(s);
          ReadNext(s);
        }
        r := NextToRead();
        if r != FR_OK { return; }
      } else if !fs.disk.failed {
        KeptSelf(s);
        InsideCluster(s);
      }
      if !fs.disk.failed {
        Located(St());
      }
      sect := fs.geo.ClustToSect(clust);
      if sect == 0 { return FR_INT_ERR, 0; }
      SectIsData(fs.geo, clust);
      sect := sect + csect;
    }

    /** One round of the read loop. */
    method ReadSome(rbuff: array<byte>, ofs: nat, btr: nat) returns (r: FResult, rcnt: nat)
      requires Weak() && rbuff != buf && rbuff != fs.win && 0 < btr && ofs + btr <= rbuff.Length
      requires !fs.disk.failed ==> St().Ready() && fptr + btr <= fsize
      modifies this`fptr, this`clust, this`dsect, this`dirty, buf, fs`winsect, fs`wflag, fs.win, fs.disk, rbuff
      ensures old(fs.disk.failed) || r == FR_DISK_ERR ==> fs.disk.failed
      ensures r == FR_OK ==> Weak() && 0 < rcnt <= btr && fptr == old(fptr) + rcnt
      ensures !fs.disk.failed ==> r == FR_OK && Gave(old(St()), St(), rcnt, old(rbuff[..]), rbuff[..], ofs)
    {
      hide Vol.Valid, Vol.Table, Vol.Image, Vol.Mirrored, State.Data, State.Bytes, State.Follows, State.Sound,
        State.OnByte,
        Aimed, Sects, Geometry.Valid, Gave, Clusters;
      ghost var s := St();
      PositiveCsize(s.vol);
      r, rcnt := FR_OK, 0;
      if fptr % 512 == 0 {
        var sect;
        r, sect := SeekSector();
        if r != FR_OK { return; }
        ghost var s1 := St();
        var cc := btr / 512;
        if cc > 0 {
          var csect := fptr / 512 % fs.geo.csize;
          CluIs(fs.geo, fptr);
          if csect + cc > fs.geo.csize {
            cc := fs.geo.csize - csect;
          }
          rcnt := 512 * cc;
          r := GetDirect(rbuff, ofs, sect, cc);
          if !fs.disk.failed { KeptGave(s, s1, St(), rcnt, old(rbuff[..]), rbuff[..], ofs); }
          return;
        }
        if dsect != sect {
          r := Refill(sect);
          if r != FR_OK { return; }
          if !fs.disk.failed { KeptTrans(s, s1, St()); }
        }
      } else if !fs.disk.failed {
        InsideSector(s);
        KeptSelf(s);
      }
      rcnt := 512 - fptr % 512;
      if rcnt > btr { rcnt := btr; }
      ghost var s2 := St();
      GetBuffer(rbuff, ofs, rcnt);
      if !fs.disk.failed { KeptGave(s, s2, St(), rcnt, old(rbuff[..]), rbuff[..], ofs); }
    }
 
    /** f_read into rbuff. */
    method Read(rbuff: array<byte>, btr: nat) returns (r: FResult, br: nat)
      requires Usable() && btr <= rbuff.Length && rbuff != buf && rbuff != fs.win
      modifies this, buf, fs, fs.win, fs.disk, rbuff
      ensures old(error) ==> r == FR_INT_ERR
      ensures !old(error) && !canRead ==> r == FR_DENIED
      ensures old(error) || !canRead ==> br == 0 && unchanged(this, buf, fs, fs.win, fs.disk, rbuff)
      ensures Usable() && (old(fs.disk.failed) ==> fs.disk.failed) && br <= btr
      ensures canRead ==> error == (r != FR_OK)
      ensures !old(error) && canRead && !fs.disk.failed ==>
        && r == FR_OK && !error && St().Follows(old(St()))
        && Content() == old(Content()) && fptr == old(fptr) + br
        && br == (if btr > old(fsize) - old(fptr) then old(fsize) - old(fptr) else btr)
        && br <= rbuff.Length && rbuff[..br] == Slice(old(Content()), old(fptr), btr)
        && rbuff[br..] == old(rbuff[..])[br..]
    {
      hide Vol.Valid, Vol.Table, Vol.Image, Vol.Mirrored, State.Data, State.Bytes, State.Follows, State.Sound,
        State.OnByte,
        Aimed, Sects, Geometry.Valid, Gave, Slice;
      br := 0;
      if error { return FR_INT_ERR, 0; }
      if !canRead { return FR_DENIED, 0; }
      ghost var s, was := St(), rbuff[..];
      if !fs.disk.failed { NothingGave(s, was); }
      var remain := fsize - fptr;
      var want := if btr > remain then remain else btr;
      r := FR_OK;
      while br < want
        invariant 0 <= br <= want && r == FR_OK && !error && Weak() && fptr == old(fptr) + br && fsize == old(fsize)
        invariant old(fs.disk.failed) ==> fs.disk.failed
        invariant !fs.disk.failed ==> Gave(s, St(), br, was, rbuff[..], 0)
      {
        ghost var s1, mid := St(), rbuff[..];
        if !fs.disk.failed { GaveIs(s, s1, br, was, mid); }
        var rcnt;
        r, rcnt := ReadSome(rbuff, br, want - br);
        if r != FR_OK { error := true; return; }
        if !fs.disk.failed {
          GaveTrans(s, s1, St(), br, rcnt, was, mid, rbuff[..]);
        }
        br := br + rcnt;
      }
      if !fs.disk.failed {
        GaveIs(s, St(), br, was, rbuff[..]);
        GaveSlice(s, St(), btr, br, was, rbuff[..]);
      }
    }
 
    /** Makes the first cluster of the file current, creating it if there is none; 0 when none is free. */
    method FirstCluster() returns (r: FResult, clst: nat)
      requires Safe() && fptr == 0 && (!fs.disk.failed ==> St().Ready())
      modifies this`sclust, this`clust, this`chain, fs`winsect, fs`wflag, fs`lastClust, fs`freeClust, fs`fsiFlag,
        fs.win, fs.disk
      ensures old(fs.disk.failed) || r == FR_DISK_ERR ==> fs.disk.failed
      ensures r == FR_OK ==> Safe()
      ensures !fs.disk.failed ==> r == FR_OK && SameCore(old(St()), St())
      ensures !fs.disk.failed && clst == 0 ==> St().Ready() && NoFree(fs.View().Table()) && old(sclust) == 0
      ensures !fs.disk.failed && clst != 0 ==> clst == clust && OnCluster(St())
    {
      hide Vol.Valid, Vol.Table, Vol.Image, Vol.Mirrored, State.Core, State.Bytes, State.Follows, Created, Took, Aimed,
        Advanced, NoFree, Placed, Buffered, Chained, Sects, Owns, EndMark, Geometry.Valid, Outside, State.Sound,
          State.OnByte,
        AtBoundary, SameCore;
      ghost var s, last := St(), fs.lastClust;
      Bounds(s.vol);
      PositiveCsize(s.vol);
      clst := sclust;
      if clst == 0 {
        clst := CreateChain(fs, 0);
        ghost var next := Advanced(s, fs.View(), clst);
        if !fs.disk.failed {
          CreateFirst(s, fs.View(), last, clst, EndMark(fs.geo));
          StartIs(s);
          AdvancedIs(s, fs.View(), clst);
        }
        if clst == 1 { return FR_INT_ERR, clst; }
        if clst == 0xFFFF_FFFF { return FR_DISK_ERR, clst; }
        sclust, clust := clst, clst;
        if !fs.disk.failed && clst != 0 {
          chain := next.ch;
          assert St() == next;
        }
        if !fs.disk.failed && clst == 0 {
          ghost var y := s.(vol := fs.View());
          NoCluster(y, 0);
          assert St() == y.(cur := y.cur.(clust := 0));
          SameCoreTrans(s, y, St());
        }
      } else {
        clust := clst;
        if !fs.disk.failed {
          EnterFirst(s);
        }
      }
      r := FR_OK;
    }

    /** Puts a seek at the start of the cluster it walks from; clst is 0 when there is no cluster and none is free. */
    method SeekFrom(ifptr: nat, ofs: nat) returns (r: FResult, clst: nat, rest: nat)
      requires Safe() && 0 < ofs && fptr == 0 && (!fs.disk.failed ==> FatSeek.At(St(), ifptr).Ready())
      modifies this`fptr, this`sclust, this`clust, this`chain, fs`winsect, fs`wflag, fs`lastClust, fs`freeClust,
        fs`fsiFlag, fs.win, fs.disk
      ensures old(fs.disk.failed) || r == FR_DISK_ERR ==> fs.disk.failed
      ensures r == FR_OK ==> Safe() && 0 < rest && fptr + rest == ofs && fptr % 512 == 0
      ensures !fs.disk.failed ==> r == FR_OK && SameCore(FatSeek.At(old(St()), ifptr), St())
      ensures !fs.disk.failed && clst == 0 ==>
        fptr == 0 && St().Ready() && NoFree(fs.View().Table()) && old(sclust) == 0
      ensures !fs.disk.failed && clst != 0 ==> clst == clust && OnCluster(St())
    {
      hide Vol.Valid, Vol.Table, Vol.Image, Vol.Mirrored, State.Core, State.Bytes, State.Follows, Aimed,
        NoFree, Placed, Buffered, Chained, Sects, Owns, Geometry.Valid, State.Sound, State.OnByte,
        RoundDown, AtBoundary, SameCore;
      ghost var z, s := St(), FatSeek.At(St(), ifptr);
      PositiveCsize(z.vol);
      var bcs := fs.geo.csize * 512;
      if ifptr > 0 && (ofs - 1) / bcs >= (ifptr - 1) / bcs {
        StillToGo(ofs, ifptr, bcs);
        WholeSectors(ifptr - 1, fs.geo.csize);
        fptr := RoundDown(ifptr - 1, bcs);
        if !fs.disk.failed { BackToCluster(s, bcs); }
        return FR_OK, clust, ofs - fptr;
      }
      if !fs.disk.failed {
        Rewind(s);
        assert FatSeek.At(s, 0) == z;
      }
      r, clst := FirstCluster();
      rest := ofs;
      if !fs.disk.failed {
        SameCoreTrans(s, z, St());
      }
    }
 
    /** One round of the seek loop; 0 when a cluster was wanted and none is free. */
    method SeekOn(clst: nat) returns (r: FResult, next: nat)
      requires Safe() && fptr % 512 == 0
      requires !fs.disk.failed ==> OnCluster(St()) && clst == clust && (canWrite || fptr + 512 * fs.geo.csize < fsize)
      modifies this`fptr, this`clust, this`chain, this`sclust, fs`winsect, fs`wflag, fs`lastClust, fs`freeClust,
        fs`fsiFlag, fs.win, fs.disk
      ensures old(fs.disk.failed) || r == FR_DISK_ERR ==> fs.disk.failed
      ensures r == FR_OK ==> Safe() && fptr % 512 == 0
      ensures r == FR_OK ==> fptr == if next == 0 then old(fptr) else old(fptr) + 512 * fs.geo.csize
      ensures !fs.disk.failed ==> r == FR_OK && SameCore(old(St()), St()) && OnCluster(St())
      ensures !fs.disk.failed && next != 0 ==> next == clust
      ensures !fs.disk.failed && next == 0 ==> NoFree(fs.View().Table()) && fsize <= fptr + 512 * fs.geo.csize
    {
      hide Vol.Valid, Vol.Table, Vol.Image, Vol.Mirrored, State.Core, State.Bytes, State.Follows, Created, Took, Aimed,
        Advanced, NoFree, Placed, Buffered, Chained, Sects, Owns, EndMark, Geometry.Valid, Outside, State.Sound,
          State.OnByte,
        AtBoundary, SameCore;
      ghost var s, last := St(), fs.lastClust;
      Bounds(s.vol);
      PositiveCsize(s.vol);
      if canWrite {
        next := CreateChain(fs, clst);
        if !fs.disk.failed { SeekCreate(s, fs.View(), last, next, EndMark(fs.geo)); }
        if next == 0 { return FR_OK, 0; }
      } else {
        next := fs.GetFat(clst);
        if !fs.disk.failed { SeekFollow(s, fs.View(), next); }
      }
      if next == 0xFFFF_FFFF { return FR_DISK_ERR, next; }
      if next <= 1 || next >= fs.geo.nFatent { return FR_INT_ERR, next; }
      ghost var after := Advanced(Hop(s), fs.View(), next);
      AdvancedIs(Hop(s), fs.View(), next);
      clust := next;
      fptr := fptr + 512 * fs.geo.csize;
      if !fs.disk.failed {
        SomeChain(s);
        chain := after.ch;
        assert St() == after;
      }
      r := FR_OK;
    }

    /** The last step of a seek, inside the current cluster or to its end. */
    method SeekLand(clst: nat, rest: nat) returns (r: FResult)
      requires Safe() && fptr % 512 == 0 && 0 < rest
      requires !fs.disk.failed ==> OnCluster(St()) && rest <= 512 * fs.geo.csize && (rest % 512 != 0 ==> clst == clust)
      modifies this`fptr, this`dsect, this`dirty, buf, fs.disk
      ensures old(fs.disk.failed) || r == FR_DISK_ERR ==> fs.disk.failed
      ensures r == FR_OK ==> Weak() && fptr == old(fptr) + rest
      ensures rest % 512 == 0 ==> fs.View() == old(fs.View())
      ensures !fs.disk.failed ==> r == FR_OK && SameCore(old(St()), St()) && St().Ready()
    {
      hide Vol.Valid, Vol.Table, Vol.Image, Vol.Mirrored, State.Core, State.Bytes, State.Follows, Aimed,
        Placed, Buffered, Chained, Sects, Owns, Geometry.Valid, Outside, State.Sound, State.OnByte,
        AtBoundary, State.Data;
      ghost var s := St();
      if !fs.disk.failed { Land(s, rest); }
      fptr := fptr + rest;
      ghost var t := St();
      if rest % 512 != 0 {
        var nsect := fs.geo.ClustToSect(clst);
        if nsect == 0 { return FR_INT_ERR; }
        SectIsData(fs.geo, clst);
        nsect := nsect + rest / 512;
        if nsect != dsect {
          if !fs.disk.failed { PositiveCsize(s.vol); }
          r := Refill(nsect);
          if r != FR_OK { return; }
          if !fs.disk.failed {
            KeptCore(t, St());
            SameCoreTrans(s, t, St());
          }
        }
        if !fs.disk.failed { Landed(St()); }
      }
      r := FR_OK;
    }

    /** Walks rest bytes on from the start of the current cluster. */
    method SeekWalk(start: nat, togo: nat) returns (r: FResult)
      requires Safe() && fptr % 512 == 0 && 0 < togo && start != 0
      requires !fs.disk.failed ==> OnCluster(St()) && start == clust && (canWrite || fptr + togo <= fsize)
      modifies this`fptr, this`clust, this`chain, this`sclust, this`dsect, this`dirty, buf,
        fs`winsect, fs`wflag, fs`lastClust, fs`freeClust, fs`fsiFlag, fs.win, fs.disk
      ensures old(fs.disk.failed) || r == FR_DISK_ERR ==> fs.disk.failed
      ensures !fs.disk.failed ==> r == FR_OK && SameCore(old(St()), St()) && St().Ready()
      ensures r == FR_OK ==> Weak() && fptr <= old(fptr) + togo
      ensures !fs.disk.failed && fptr < old(fptr) + togo ==> NoFree(fs.View().Table()) && fsize <= fptr
    {
      hide Vol.Valid, Vol.Table, Vol.Image, Vol.Mirrored, State.Core, State.Bytes, State.Follows, Aimed, NoFree,
        Placed, Buffered, Chained, Sects, Owns, Geometry.Valid, Outside, State.OnByte,
        AtBoundary, State.Data, OnCluster, SameCore, State.Sound;
      ghost var s, end := St(), fptr + togo;
      var clst, rest := start, togo;
      PositiveCsize(s.vol);
      var bcs := fs.geo.csize * 512;
      if !fs.disk.failed { StartsSame(s); }
      r := FR_OK;
      while rest > bcs
        invariant Safe() && fptr % 512 == 0 && fptr + rest == end && 0 < rest && r == FR_OK && clst != 0
        invariant old(fs.disk.failed) ==> fs.disk.failed
        invariant !fs.disk.failed ==> OnCluster(St()) && clst == clust && SameCore(s, St())
      {
        ghost var s1 := St();
        r, clst := SeekOn(clst);
        if r != FR_OK { return; }
        if !fs.disk.failed { SameCoreTrans(s, s1, St()); }
        if clst == 0 { rest := bcs; break; }
        rest := rest - bcs;
      }
      ghost var s2 := St();
      r := SeekLand(clst, rest);
      if !fs.disk.failed {
        SameCoreTrans(s, s2, St());
      }
    }

    /** Moves the cursor, which has been taken from ifptr to 0, to position ofs. */
    method SeekTo(ifptr: nat, ofs: nat) returns (r: FResult)
      requires Safe() && 0 < ofs && fptr == 0 && (canWrite || ofs <= fsize)
      requires !fs.disk.failed ==> FatSeek.At(St(), ifptr).Ready()
      modifies this`fptr, this`clust, this`chain, this`sclust, this`dsect, this`dirty, buf,
        fs`winsect, fs`wflag, fs`lastClust, fs`freeClust, fs`fsiFlag, fs.win, fs.disk
      ensures old(fs.disk.failed) ==> fs.disk.failed
      ensures r == FR_OK ==> Weak() && fptr <= ofs
      ensures !fs.disk.failed ==>
        && r == FR_OK && SameCore(FatSeek.At(old(St()), ifptr), St()) && St().Ready()
        && (fptr < ofs ==> NoFree(fs.View().Table()) && fsize <= fptr)
    {
      hide Vol.Valid, Vol.Table, Vol.Image, Vol.Mirrored, State.Core, State.Bytes, State.Follows, Aimed, NoFree,
        Placed, Buffered, Chained, Sects, Owns, Geometry.Valid, Outside, State.Sound, State.OnByte,
        AtBoundary, State.Data, OnCluster, SameCore;
      ghost var s := FatSeek.At(St(), ifptr);
      var clst, rest;
      r, clst, rest := SeekFrom(ifptr, ofs);
      if r != FR_OK { return; }
      ghost var s1 := St();
      if clst != 0 {
        r := SeekWalk(clst, rest);
        if !fs.disk.failed { SameCoreTrans(s, s1, St()); }
      } else if !fs.disk.failed {
        NoChain(s);
      }
    }

    /** Records the cursor as the end of the file if it lies past it. */
    method Extend()
      requires Weak()
      modifies this`fsize, this`written
      ensures Weak() && fsize == (if fptr > old(fsize) then fptr else old(fsize)) && (fptr > old(fsize) ==> written)
      ensures St() == old(St()).(cur := old(St()).cur.(fsize := old(St()).Hi()))
    {
      if fptr > fsize {
        fsize := fptr;
        written := true;
      }
    }

    /** Moves the cursor to position ofs by way of position 0. */
    method SeekMove(ofs: nat) returns (r: FResult)
      requires Weak() && fptr <= fsize && (canWrite || ofs <= fsize)
      requires !fs.disk.failed ==> St().Ready()
      modifies this`fptr, this`clust, this`chain, this`sclust, this`dsect, this`dirty, buf,
        fs`winsect, fs`wflag, fs`lastClust, fs`freeClust, fs`fsiFlag, fs.win, fs.disk
      ensures old(fs.disk.failed) ==> fs.disk.failed
      ensures r == FR_OK ==> Weak() && fptr <= ofs
      ensures !fs.disk.failed ==>
        && r == FR_OK && SameCore(old(St()), St()) && St().Ready()
        && (fptr < ofs ==> NoFree(fs.View().Table()) && fsize <= fptr)
    {
      hide Vol.Valid, Vol.Table, Vol.Image, Vol.Mirrored, State.Core, State.Bytes, State.Follows, Aimed, NoFree,
        Placed, Buffered, Chained, Sects, Owns, Geometry.Valid, Outside, State.Sound, State.OnByte,
        AtBoundary, State.Data, OnCluster, SameCore;
      ghost var s := St();
      if !fs.disk.failed { Rewind(s); }
      var ifptr := fptr;
      fptr := 0;
      assert FatSeek.At(s, 0) == St() && FatSeek.At(St(), ifptr) == s;
      r := FR_OK;
      if ofs > 0 {
        r := SeekTo(ifptr, ofs);
      }
    }

    /** f_lseek on a file whose last operation did not fail. */
    method SeekOpen(offset: nat) returns (r: FResult)
      requires Weak() && fptr <= fsize < 0x1_0000_0000 && offset < 0x1_0000_0000
      requires !fs.disk.failed ==> St().Ready()
      modifies this`fptr, this`clust, this`chain, this`sclust, this`dsect, this`dirty, this`fsize, this`written, buf,
        fs`winsect, fs`wflag, fs`lastClust, fs`freeClust, fs`fsiFlag, fs.win, fs.disk
      ensures old(fs.disk.failed) ==> fs.disk.failed
      ensures r == FR_OK ==> Weak() && fptr <= fsize < 0x1_0000_0000
      ensures !fs.disk.failed ==> r == FR_OK && (fptr > old(fsize) ==> written)
      ensures !fs.disk.failed ==>
        Sought(old(St()), St(), if offset > old(fsize) && !canWrite then old(fsize) else offset)
    {
      hide Vol.Valid, Vol.Table, Vol.Image, Vol.Mirrored, State.Core, State.Bytes, State.Follows, Aimed, NoFree,
        Placed, Buffered, Chained, Sects, Owns, Geometry.Valid, Outside, State.Sound, State.OnByte,
        AtBoundary, State.Data, OnCluster, SameCore, Sought;
      ghost var s := St();
      var ofs := if offset > fsize && !canWrite then fsize else offset;
      r := SeekMove(ofs);
      if r != FR_OK { return; }
      ghost var t := St();
      Extend();
      if !fs.disk.failed { SeekEnds(s, t, ofs); }
    }

    /** f_lseek without a link map. */
    method Seek(offset: nat) returns (r: FResult)
      requires Usable() && offset < 0x1_0000_0000
      modifies this, buf, fs, fs.win, fs.disk
      ensures old(error) ==> r == FR_INT_ERR && unchanged(this, buf, fs, fs.win, fs.disk)
      ensures Usable() && (old(fs.disk.failed) ==> fs.disk.failed)
      ensures !old(error) ==> error == (r != FR_OK)
      ensures !old(error) && !fs.disk.failed ==>
        var target := if offset > old(fsize) && !canWrite then old(fsize) else offset;
        && r == FR_OK && !error && St().Follows(old(St()))
        && fptr <= target && (fptr < target ==> NoFree(fs.View().Table()) && old(fsize) <= fptr)
        && fsize == (if fptr > old(fsize) then fptr else old(fsize)) && (fptr > old(fsize) ==> written)
        && old(Content()) <= Content()
    {
      hide Vol.Valid, Vol.Table, Vol.Image, Vol.Mirrored, State.Core, State.Bytes, State.Follows, Aimed, NoFree,
        Placed, Buffered, Chained, Sects, Owns, Geometry.Valid, Outside, State.Sound, State.OnByte,
        AtBoundary, State.Data, OnCluster, SameCore, Sought;
      if error { return FR_INT_ERR; }
      ghost var s := St();
      r := SeekOpen(offset);
      if r != FR_OK { error := true; }
      if !fs.disk.failed {
        SoughtMeans(s, St(), if offset > s.cur.fsize && !canWrite then s.cur.fsize else offset);
      }
    }

    /** Moves the cursor to position ofs, whose cluster the link map tells. */
    method FastTo(cltbl: array<nat>, ofs: nat) returns (r: FResult)
      requires Safe() && 0 < ofs && cltbl.Length > 0 && Terminated(cltbl[1..])
      requires !fs.disk.failed ==> St().Ready() && Unfold(cltbl[1..]) == chain && ofs <= fsize
      modifies this`fptr, this`clust, this`dsect, this`dirty, buf, fs.disk
      ensures old(fs.disk.failed) ==> fs.disk.failed
      ensures r == FR_OK ==> Weak() && fptr == ofs
      ensures !fs.disk.failed ==> r == FR_OK && SameCore(old(St()), St()) && St().Ready() && fptr == ofs
    {
      hide Vol.Valid, Vol.Table, Vol.Image, Vol.Mirrored, State.Core, State.Bytes, State.Follows, Aimed,
        Placed, Buffered, Chained, Sects, Owns, Geometry.Valid, Outside, State.Sound, State.OnByte,
        State.Data, Unfold, Terminated, CluIdx, Geometry.ClustToSect;
      ghost var s := St();
      PositiveCsize(s.vol);
      if !fs.disk.failed { JumpTo(s, ofs); }
      var c := ClmtClust(fs.geo, cltbl, ofs - 1);
      fptr, clust := ofs, c;
      ghost var t := St();
      var dsc := fs.geo.ClustToSect(clust);
      if dsc == 0 { return FR_INT_ERR; }
      SectIsData(fs.geo, clust);
      dsc := dsc + (ofs - 1) / 512 % fs.geo.csize;
      CluIs(fs.geo, ofs - 1);
      if fptr % 512 != 0 {
        if dsc != dsect {
          r := Refill(dsc);
          if r != FR_OK { return; }
          if !fs.disk.failed {
            KeptCore(t, St());
            SameCoreTrans(s, t, St());
          }
        }
        if !fs.disk.failed { Landed(St()); }
      }
      r := FR_OK;
    }

    /** f_lseek with a link map of the file: no walk over the chain, and the file is never extended. */
    method SeekFast(cltbl: array<nat>, offset: nat) returns (r: FResult)
      requires Usable() && offset < 0x1_0000_0000 && cltbl.Length > 0 && Terminated(cltbl[1..])
      requires !error && !fs.disk.failed ==> Unfold(cltbl[1..]) == chain
      modifies this, buf, fs, fs.win, fs.disk
      ensures old(error) ==> r == FR_INT_ERR && unchanged(this, buf, fs, fs.win, fs.disk)
      ensures Usable() && (old(fs.disk.failed) ==> fs.disk.failed)
      ensures !old(error) ==> error == (r != FR_OK)
      ensures !old(error) && !fs.disk.failed ==>
        && r == FR_OK && !error && St().Follows(old(St())) && Content() == old(Content())
        && fptr == (if offset > old(fsize) then old(fsize) else offset) && fsize == old(fsize) && chain == old(chain)
    {
      hide Vol.Valid, Vol.Table, Vol.Image, Vol.Mirrored, State.Core, State.Bytes, State.Follows, Aimed, NoFree,
        Placed, Buffered, Chained, Sects, Owns, Geometry.Valid, Outside, State.Sound, State.OnByte,
        AtBoundary, State.Data, OnCluster, SameCore, Unfold, Terminated, CluIdx, Geometry.ClustToSect;
      if error { return FR_INT_ERR; }
      ghost var s := St();
      if !fs.disk.failed { Rewind(s); }
      var ofs := if offset > fsize then fsize else offset;
      r := FR_OK;
      if ofs > 0 {
        r := FastTo(cltbl, ofs);
        if r != FR_OK { error := true; return; }
      } else {
        fptr := 0;
        assert St() == FatSeek.At(s, 0);
      }
      if !fs.disk.failed { FastEnds(s, St()); }
    }
  }
}

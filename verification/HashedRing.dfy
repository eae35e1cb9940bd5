/** Records on a memory card, found by the remainder of their index. */
module HashedRing {
  import opened Octets
  import opened Arith

  const BLOCK_SIZE := 512
  const MAX_OFFSET := 3850240 // 1880 MiB in sectors
  const START_OFFSET := 130
  const ACCESS_SIZE := 2
  const SLOTS := 1925055 // what lies between, in pairs of sectors

  /** Indices are 32-bit numbers. */
  type Index = i: nat | i < WIDE

  type Sector = s: seq<byte> | |s| == BLOCK_SIZE witness seq(BLOCK_SIZE, _ => 0)

  /** A record fills two sectors. */
  type Record = s: seq<byte> | |s| == ACCESS_SIZE * BLOCK_SIZE witness seq(ACCESS_SIZE * BLOCK_SIZE, _ => 0)

  function Pair(a: Sector, b: Sector): Record {
    var x: seq<byte>, y: seq<byte> := a, b;
    x + y
  }

  /** Where the record of an index begins. */
  function SdIndex(index: nat): nat {
    index % SLOTS * ACCESS_SIZE + START_OFFSET
  }

  /** The first slots, the last one, and the one after it. */
  lemma SlotsAre()
    ensures SdIndex(0) == 130 && SdIndex(1) == 132 && SdIndex(1925054) == 3850238 && SdIndex(1925055) == 130
  {
  }

  /** Past the end of the card. */
  predicate PassedMax(sdIndex: nat) {
    sdIndex > MAX_OFFSET
  }

  /** Records lie within the space set aside for them, so that none is ever refused for lying past its end. */
  lemma SlotInside(index: nat)
    ensures START_OFFSET <= SdIndex(index) && SdIndex(index) + ACCESS_SIZE <= MAX_OFFSET && !PassedMax(SdIndex(index))
  {
  }

  /** A sector of the record. */
  predicate Covers(index: nat, sector: nat) {
    SdIndex(index) <= sector < SdIndex(index) + ACCESS_SIZE
  }

  /** Two records share a sector exactly when their indices have the same remainder; then they share both. */
  lemma SlotsApart(i: nat, j: nat)
    ensures (exists s :: Covers(i, s) && Covers(j, s)) <==> i % SLOTS == j % SLOTS
    ensures i % SLOTS == j % SLOTS <==> SdIndex(i) == SdIndex(j)
  {
    if i % SLOTS == j % SLOTS {
      assert Covers(i, SdIndex(i)) && Covers(j, SdIndex(i));
    }
  }

  /** Indices that are closer to each other than there are slots lie in different ones. */
  lemma CloseApart(i: nat, j: nat)
    requires i < j < i + SLOTS
    ensures i % SLOTS != j % SLOTS
  {
    DivParts(i, SLOTS);
    DivParts(j, SLOTS);
  }

  /** A call of write_hashed_sd_buffer and its result. */
  datatype Write = Write(index: Index, data: Record, ok: bool)

  datatype Content = Nothing | Unknown | Known(data: Record)

  /**
   * What the record of an index is, after the writes: the last one to its slot decides; one that failed leaves it
   * open.
   */
  function Latest(log: seq<Write>, index: nat): Content {
    if log == [] then Nothing
    else
      var w := log[|log| - 1];
      if w.index % SLOTS == index % SLOTS then (if w.ok then Known(w.data) else Unknown)
      else Latest(log[..|log| - 1], index)
  }

  /** Writes of consecutive indices from first on, beginning anew at 0 after the last, that all succeeded. */
  predicate Consecutive(log: seq<Write>, first: Index) {
    forall k :: 0 <= k < |log| ==> log[k].ok && log[k].index == (first + k) % WIDE
  }

  /** How many consecutive writes later the slot of an index is used again. */
  function Life(index: Index): nat {
    if index + SLOTS < WIDE then SLOTS else WIDE - index + index % SLOTS
  }

  /**
   * A full round, but for the indices of the last two rounds before indices begin anew: those of the incomplete last
   * one live only as long as it is.
   */
  lemma LifeIs(index: Index)
    ensures Life(index) ==
      if index < 2230 * SLOTS + 169591 then SLOTS else if index < 2231 * SLOTS then SLOTS + 169591 else 169591
  {
    if index >= WIDE - SLOTS {
      DivUnique(index, if index < 2231 * SLOTS then 2230 else 2231, if index < 2231 * SLOTS then index - 2230 * SLOTS
        else index - 2231 * SLOTS, SLOTS);
    }
  }

  /** The first index of the incomplete round, and index 0, which follows 169591 writes later, share a slot. */
  lemma RoundCutShort()
    ensures SdIndex(2231 * SLOTS) == SdIndex(0) && (2231 * SLOTS + 169591) % WIDE == 0 && 169591 < SLOTS
  {
    DivUnique(2231 * SLOTS, 2231, 0, SLOTS);
  }

  /** The write m places later. */
  lemma LaterSlot(a: Index, m: nat)
    requires 0 < m <= Life(a)
    ensures (a + m) % WIDE % SLOTS == a % SLOTS <==> m == Life(a)
  {
    if a + m < WIDE {
      if m < SLOTS {
        CloseApart(a, a + m);
      }
    } else {
      assert (a + m) % WIDE == a + m - WIDE;
    }
  }

  /** The index written m places after place k. */
  lemma LaterIndex(log: seq<Write>, first: Index, k: nat, m: nat)
    requires Consecutive(log, first) && k + m < |log|
    ensures log[k + m].index == (log[k].index + m) % WIDE
  {
  }

  /** Nothing after place k of the log touches its slot. */
  lemma {:induction false} LatestIs(log: seq<Write>, k: nat)
    requires k < |log| && log[k].ok && forall j :: k < j < |log| ==> log[j].index % SLOTS != log[k].index % SLOTS
    ensures Latest(log, log[k].index) == Known(log[k].data)
    decreases |log|
  {
    if k < |log| - 1 {
      assert log[..|log| - 1][k] == log[k];
      LatestIs(log[..|log| - 1], k);
    }
  }

  /** The slot of an index is used again later in the log. */
  predicate Reused(log: seq<Write>, k: nat)
    requires k < |log|
  {
    exists j :: k < j < |log| && log[j].index % SLOTS == log[k].index % SLOTS
  }

  /** Of consecutive indices, exactly those are untouched whose life is not over. */
  lemma ReusedExactly(log: seq<Write>, first: Index, k: nat)
    requires Consecutive(log, first) && k < |log|
    ensures Reused(log, k) <==> k + Life(log[k].index) < |log|
  {
    hide Consecutive;
    var a := log[k].index;
    if k + Life(a) < |log| {
      LaterIndex(log, first, k, Life(a));
      LaterSlot(a, Life(a));
      assert log[k + Life(a)].index % SLOTS == a % SLOTS;
    } else {
      forall j | k < j < |log| ensures log[j].index % SLOTS != a % SLOTS {
        LaterIndex(log, first, k, j - k);
        LaterSlot(a, j - k);
      }
    }
  }

  /** And they are all still there, whatever was written before. */
  lemma Retained(before: seq<Write>, log: seq<Write>, first: Index, k: nat)
    requires Consecutive(log, first) && k < |log| <= k + Life(log[k].index)
    ensures Latest(before + log, log[k].index) == Known(log[k].data)
  {
    ReusedExactly(log, first, k);
    var all := before + log;
    assert all[|before| + k] == log[k];
    forall j | |before| + k < j < |all| ensures all[j].index % SLOTS != log[k].index % SLOTS {
      assert all[j] == log[j - |before|];
    }
    LatestIs(all, |before| + k);
  }

  /** One whose life is over has made way for the one that came then, as long as that one lives. */
  lemma MadeWay(before: seq<Write>, log: seq<Write>, first: Index, k: nat)
    requires Consecutive(log, first) && k < |log| && k + Life(log[k].index) < |log|
    requires |log| <= k + Life(log[k].index) + Life(log[k + Life(log[k].index)].index)
    ensures Latest(before + log, log[k].index) == Known(log[k + Life(log[k].index)].data)
  {
    var j := k + Life(log[k].index);
    LaterIndex(log, first, k, j - k);
    LaterSlot(log[k].index, j - k);
    Retained(before, log, first, j);
    LatestSame(before + log, log[k].index, log[j].index);
  }

  lemma {:induction false} LatestSame(log: seq<Write>, i: nat, j: nat)
    requires i % SLOTS == j % SLOTS
    ensures Latest(log, i) == Latest(log, j)
    decreases |log|
  {
    if log != [] {
      LatestSame(log[..|log| - 1], i, j);
    }
  }

  /** The card. */
  class Card {
    var sectors: seq<Sector>
    /** All writes of records so far. */
    ghost var log: seq<Write>

    /** Every record that is known is on the card. */
    ghost predicate Valid()
      reads this
    {
      && |sectors| >= MAX_OFFSET
      && forall i: nat {:trigger Latest(log, i)} :: Latest(log, i).Known? ==>
           Stored(sectors, SdIndex(i), Latest(log, i).data)
    }

    constructor (sectors: seq<Sector>)
      requires |sectors| >= MAX_OFFSET
      ensures Valid() && log == []
    {
      this.sectors := sectors;
      log := [];
    }

    /**
     * The driver writes two sectors; works says whether it succeeds, and if not, it may have written anything there.
     */
    method WriteData(at: nat, data: Record, works: bool) returns (ok: bool)
      requires at + ACCESS_SIZE <= |sectors|
      modifies this`sectors
      ensures |sectors| == |old(sectors)| && SameBut(old(sectors), sectors, at)
      ensures ok == works && (ok ==> Stored(sectors, at, data))
    {
      ok := works;
      if ok {
        sectors := sectors[at := data[..BLOCK_SIZE]][at + 1 := data[BLOCK_SIZE..]];
      } else {
        var a: Sector, b: Sector := *, *;
        sectors := sectors[at := a][at + 1 := b];
      }
    }

    /** The driver reads two sectors. */
    method ReadData(at: nat, works: bool) returns (ok: bool, data: Record)
      requires at + ACCESS_SIZE <= |sectors|
      ensures ok == works && (ok ==> Stored(sectors, at, data))
    {
      ok := works;
      data := Pair(sectors[at], sectors[at + 1]);
    }

    /** write_hashed_sd_buffer: it succeeds exactly when the driver does. */
    method WriteHashed(data: Record, index: Index, works: bool) returns (ok: bool)
      requires Valid()
      modifies this
      ensures Valid() && ok == works && log == old(log) + [Write(index, data, ok)]
    {
      hide PassedMax, SdIndex, Latest, Stored, SameBut;
      var sdIndex := SdIndex(index);
      SlotInside(index);
      ghost var was, before := sectors, log;
      SameItself(sectors, sdIndex);
      ok := false;
      if !PassedMax(sdIndex) {
        ok := WriteData(sdIndex, data, works);
      }
      log := log + [Write(index, data, ok)];
      forall i: nat | Latest(log, i).Known? ensures Stored(sectors, SdIndex(i), Latest(log, i).data) {
        StillStored(was, sectors, before, Write(index, data, ok), i);
      }
    }

    /** read_hashed_sd_buffer: what is read is what was last written to the slot, if that succeeded. */
    method ReadHashed(index: Index, works: bool) returns (ok: bool, data: Record)
      requires Valid()
      ensures ok == works
      ensures ok && Latest(log, index).Known? ==> data == Latest(log, index).data
    {
      hide PassedMax, SdIndex, Latest;
      var sdIndex := SdIndex(index);
      SlotInside(index);
      ok, data := false, Pair(sectors[0], sectors[0]);
      if !PassedMax(sdIndex) {
        ok, data := ReadData(sdIndex, works);
      }
    }
  }

  lemma SameItself(s: seq<Sector>, at: nat)
    ensures SameBut(s, s, at)
  {
  }

  /** One more write leaves the records of other slots alone. */
  lemma StillStored(was: seq<Sector>, now: seq<Sector>, log: seq<Write>, w: Write, i: nat)
    requires SameBut(was, now, SdIndex(w.index)) && (w.ok ==> Stored(now, SdIndex(w.index), w.data))
    requires Latest(log, i).Known? ==> Stored(was, SdIndex(i), Latest(log, i).data)
    ensures Latest(log + [w], i).Known? ==> Stored(now, SdIndex(i), Latest(log + [w], i).data)
  {
    hide SdIndex;
    SlotsApart(i, w.index);
    assert (log + [w])[..|log|] == log;
    if i % SLOTS != w.index % SLOTS {
      DifferentSectors(i, w.index);
    }
  }

  lemma DifferentSectors(i: nat, j: nat)
    requires i % SLOTS != j % SLOTS
    ensures SdIndex(i) + ACCESS_SIZE <= SdIndex(j) || SdIndex(j) + ACCESS_SIZE <= SdIndex(i)
  {
  }

  /** The two sectors hold the record. */
  predicate Stored(sectors: seq<Sector>, at: nat, data: Record) {
    at + ACCESS_SIZE <= |sectors| && Pair(sectors[at], sectors[at + 1]) == data
  }

  predicate SameBut(a: seq<Sector>, b: seq<Sector>, at: nat) {
    |a| == |b| && forall i :: 0 <= i < |a| && !(at <= i < at + ACCESS_SIZE) ==> b[i] == a[i]
  }
}

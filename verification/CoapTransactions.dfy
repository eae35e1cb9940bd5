/** Transactions: messages kept until they are acknowledged, and sent again when their timer expires. */
module CoapTransactions {
  import opened Octets
  import opened ContikiTimer
  import opened ContikiList
  import opened ContikiMemb
  import opened Arith

  const MAX_RETRANSMIT := 4
  const CLOCK_SECOND := 100
  const TIMEOUT_TICKS := CLOCK_SECOND * 2
  /** CLOCK_SECOND * 2 * (1.5 - 1) + 1.5, cut to an integer. */
  const BACKOFF_MASK := 101

  /**
   * A transaction. Its timer is armed while it runs, and not once it has expired. Besides what coap_transaction_t
   * holds, it records the times at which its message was sent and the first interval.
   */
  datatype Trans = Trans(
    mid: nat, peer: nat, counter: nat, timer: Timer, armed: bool, packet: seq<byte>, sent: seq<nat>, first: nat)

  predicate Confirmable(packet: seq<byte>) {
    packet != [] && packet[0] / 16 % 4 == 0
  }

  /** Sending number i + 1 comes after sending number i by the first interval doubled i times at least. */
  predicate Spaced(sent: seq<nat>, first: nat) {
    forall i :: 0 <= i < |sent| - 1 ==> sent[i + 1] >= sent[i] + first * Pow2(i)
  }

  predicate FirstInterval(first: nat) {
    200 <= first <= 300
  }

  function Last(s: seq<nat>): nat
    requires s != []
  {
    s[|s| - 1]
  }

  /** A transaction that is open at the given time. */
  predicate Open(v: Trans, clock: nat) {
    if v.sent == [] then v.counter == 0 && !v.armed
    else
      && v.counter == |v.sent| - 1 && |v.sent| <= MAX_RETRANSMIT && Confirmable(v.packet)
      && FirstInterval(v.first) && Spaced(v.sent, v.first) && Last(v.sent) <= clock
      && v.timer == Timer(Last(v.sent) % WIDE, v.first * Pow2(v.counter))
      && (!v.armed ==> clock >= Last(v.sent) + v.timer.interval)
  }

  /** One that is about to be sent, for the first time or again. */
  predicate Ready(v: Trans, clock: nat) {
    && v.counter == |v.sent| <= MAX_RETRANSMIT && !v.armed && v.packet != []
    && (v.sent != [] ==> Open(v.(counter := v.counter - 1), clock))
  }

  lemma PowersTo(k: nat)
    requires k <= 4
    ensures Pow2(k) == if k == 0 then 1 else if k == 1 then 2 else if k == 2 then 4 else if k == 3 then 8 else 16
  {
    assert Pow2(1) == 2 * Pow2(0) && Pow2(2) == 2 * Pow2(1) && Pow2(3) == 2 * Pow2(2) && Pow2(4) == 2 * Pow2(3);
  }

  /** When the timer of a transaction that has been sent expires. */
  function Expiry(v: Trans): nat
    requires v.sent != []
  {
    Last(v.sent) + v.first * Pow2(|v.sent| - 1)
  }

  /** Each sending came at most late ticks after the timer expired. */
  predicate Prompt(v: Trans, late: nat) {
    |v.sent| <= 1 ||
    (FirstInterval(v.first) &&
     forall i :: 0 <= i < |v.sent| - 1 ==> v.sent[i + 1] <= v.sent[i] + v.first * Pow2(i) + late)
  }

  lemma OncePrompt(v: Trans, late: nat)
    requires |v.sent| <= 1
    ensures Prompt(v, late)
  {
  }

  lemma PromptAgain(was: Trans, now: Trans, time: nat, late: nat)
    requires was.sent != [] && FirstInterval(was.first) && Prompt(was, late) && time <= Expiry(was) + late
    requires now.sent == was.sent + [time] && now.first == was.first
    ensures Prompt(now, late)
  {
    hide Pow2;
    forall i | 0 <= i < |now.sent| - 1 ensures now.sent[i + 1] <= now.sent[i] + now.first * Pow2(i) + late {
      if i < |was.sent| - 1 {
        assert now.sent[i + 1] == was.sent[i + 1];
      }
    }
  }

  /** All sendings come within 4500 ticks and four delays of the first. */
  predicate Within(v: Trans, late: nat) {
    0 < |v.sent| <= MAX_RETRANSMIT + 1 && Last(v.sent) <= v.sent[0] + 4500 + 4 * late
  }

  lemma PromptWithin(v: Trans, late: nat)
    requires 0 < |v.sent| <= MAX_RETRANSMIT + 1 && Prompt(v, late)
    ensures Within(v, late)
  {
    if |v.sent| > 1 {
      SpanBounded(v.sent, v.first, late);
    }
  }

  lemma SpanBounded(sent: seq<nat>, first: nat, late: nat)
    requires 0 < |sent| <= MAX_RETRANSMIT + 1 && FirstInterval(first)
    requires forall i :: 0 <= i < |sent| - 1 ==> sent[i + 1] <= sent[i] + first * Pow2(i) + late
    ensures Last(sent) <= sent[0] + 4500 + 4 * late
  {
    PowersTo(0);
    PowersTo(1);
    PowersTo(2);
    PowersTo(3);
    if |sent| > 1 { assert sent[1] <= sent[0] + first * Pow2(0) + late; }
    if |sent| > 2 { assert sent[2] <= sent[1] + first * Pow2(1) + late; }
    if |sent| > 3 { assert sent[3] <= sent[2] + first * Pow2(2) + late; }
    if |sent| > 4 { assert sent[4] <= sent[3] + first * Pow2(3) + late; }
  }

  /** What the interval of the next timer is. */
  function NextInterval(v: Trans, rand: nat): nat {
    if v.counter == 0 then TIMEOUT_TICKS + rand % BACKOFF_MASK else v.timer.interval * 2 % WIDE
  }

  /** The transaction after its message has been sent and its timer restarted. */
  function Kept(v: Trans, time: nat, rand: nat): Trans {
    var i := NextInterval(v, rand);
    v.(sent := v.sent + [time], timer := Timer(time % WIDE, i), armed := true,
      first := if v.counter == 0 then i else v.first)
  }

  /** Sent for the first to the fourth time, it stays open. */
  lemma KeptOpen(v: Trans, clock: nat, time: nat, rand: nat)
    requires Ready(v, clock) && clock <= time && v.counter < MAX_RETRANSMIT && Confirmable(v.packet)
    ensures Open(Kept(v, time, rand), time)
  {
    hide Pow2, Spaced;
    var r := Kept(v, time, rand);
    PowersTo(v.counter);
    NothingSpaced(time, r.first);
    if v.sent != [] {
      PowersTo(v.counter - 1);
      SpacedMore(v.sent, v.first, time);
    }
  }

  lemma NothingSpaced(time: nat, first: nat)
    ensures Spaced([] + [time], first)
  {
  }

  /** The last sending, too, keeps the distance. */
  lemma SpacedMore(sent: seq<nat>, first: nat, time: nat)
    requires sent != [] && Spaced(sent, first) && time >= Last(sent) + first * Pow2(|sent| - 1)
    ensures Spaced(sent + [time], first)
  {
    hide Pow2;
    var s := sent + [time];
    forall i | 0 <= i < |s| - 1 ensures s[i + 1] >= s[i] + first * Pow2(i) {
      if i < |sent| - 1 {
        assert s[i + 1] == sent[i + 1];
      }
    }
  }

  /** A transaction that is due, sent once more, keeps the distance. */
  lemma ReadyFacts(v: Trans, clock: nat, time: nat)
    requires Ready(v, clock) && clock <= time
    ensures v.counter == |v.sent| <= MAX_RETRANSMIT && !v.armed && v.packet != []
    ensures v.sent != [] ==> Confirmable(v.packet) && FirstInterval(v.first) && Spaced(v.sent + [time], v.first)
  {
    hide Pow2;
    if v.sent != [] {
      PowersTo(v.counter - 1);
      SpacedMore(v.sent, v.first, time);
    }
  }

  lemma OpenFacts(v: Trans, clock: nat)
    requires Open(v, clock) && v.sent != []
    ensures v.counter == |v.sent| - 1 && |v.sent| <= MAX_RETRANSMIT && Confirmable(v.packet)
    ensures FirstInterval(v.first) && Spaced(v.sent, v.first)
  {
  }

  lemma OpenLater(v: Trans, clock: nat, time: nat)
    requires Open(v, clock) && clock <= time
    ensures Open(v, time)
  {
  }

  lemma ArmedSent(v: Trans, clock: nat)
    requires Open(v, clock) && v.armed
    ensures v.sent != []
  {
  }

  /** An open transaction whose timer has expired is ready to be sent again. */
  lemma Due(v: Trans, clock: nat)
    requires Open(v, clock) && v.sent != [] && !v.armed
    ensures Ready(v.(counter := v.counter + 1), clock)
  {
    hide Pow2, Spaced;
    assert v.(counter := v.counter + 1).(counter := v.counter) == v;
  }

  lemma NewReady(v: Trans, clock: nat)
    requires Open(v, clock) && v.sent == [] && v.packet != []
    ensures Ready(v, clock)
  {
  }

  lemma NewOpen(v: Trans, clock: nat)
    requires v.sent == [] && v.counter == 0 && !v.armed
    ensures Open(v, clock)
  {
  }

  /** The timer expires only when its interval has passed. */
  lemma ExpiredLate(v: Trans, clock: nat, time: nat)
    requires Open(v, clock) && v.armed && v.sent != [] && clock <= time && Expired(v.timer, time % WIDE)
    ensures Open(v.(armed := false), time)
  {
    hide Pow2;
    PowersTo(v.counter);
    if time < Last(v.sent) + WIDE {
      ExpiredExactly(Last(v.sent), time, v.timer.interval);
    }
  }

  /** What can happen to transactions. */
  datatype Event =
    | Request(mid: nat, peer: nat, packet: seq<byte>, rand: nat) // a message is put into a new transaction and sent
    | Fires(mid: nat)                                            // the timer of a transaction, if it has expired
    | Service                                                    // coap_check_transactions
    | Answered(mid: nat)                                         // an acknowledgement closes the transaction

  class Transactions {
    const memb: Memb<Trans>
    const list: List<Trans>
    /** A time up to which nothing is still to come; ticks are counted without wrapping. */
    ghost var clock: nat

    /**
     * A block of the pool is in use exactly when it is on the list, and every transaction on the list, but for t, is
     * open.
     */
    ghost predicate ValidBut(t: Node?<Trans>)
      reads this, memb, memb.count, memb.mem, list, list.items
    {
      && memb.Valid() && list.Valid()
      && (forall k :: 0 <= k < |list.items| ==> list.items[k] in memb.mem)
      && (forall k :: 0 <= k < |list.items| && list.items[k] != t ==> Open(list.items[k].value, clock))
      && InUse(memb.mem, memb.count[..], list.items)
      && forall i {:trigger memb.mem[i]} :: 0 <= i < |memb.mem| && memb.mem[i] !in list.items ==>
           !memb.mem[i].value.armed
    }

    ghost predicate Valid()
      reads this, memb, memb.count, memb.mem, list, list.items
    {
      ValidBut(null)
    }

    /** The pool and the list as they are declared, in memory that begins as zeros. */
    constructor (mem: seq<Node<Trans>>)
      requires Distinct(mem) && forall n :: n in mem ==> !n.value.armed
      ensures Valid() && memb.mem == mem && list.items == [] && clock == 0
    {
      memb := new Memb<Trans>(mem);
      list := new List<Trans>();
      clock := 0;
    }

    /** coap_new_transaction: nothing only if all blocks are on the list. */
    method NewTransaction(mid: nat, peer: nat) returns (t: Node?<Trans>)
      requires Valid()
      modifies list, memb.count, memb.mem
      ensures Valid()
      ensures t == null <==> forall n :: n in memb.mem ==> n in old(list.items)
      ensures t == null ==> list.items == old(list.items)
      ensures t != null ==> t in memb.mem && t !in old(list.items) && list.items == old(list.items) + [t]
      ensures t != null ==> t.value == old(t.value).(mid := mid, peer := peer, counter := 0, sent := [])
      ensures forall n :: n in old(list.items) ==> n.value == old(n.value)
    {
      hide Linked, Open, Without, InUse;
      ghost var i;
      t, i := memb.Alloc();
      if t == null {
        AllInUse(memb.mem, memb.count[..], list.items);
      } else {
        FreeIsOff(memb.mem, old(memb.count[..]), list.items, i);
        WithoutAbsent(list.items, t);
        t.value := t.value.(mid := mid, peer := peer, counter := 0, sent := []);
        NewOpen(t.value, clock);
        list.Add(t);
        TakenIsOn(memb.mem, old(memb.count[..]), old(list.items), i);
      }
    }

    /** The message is put into the transaction's buffer. */
    method Store(t: Node<Trans>, packet: seq<byte>)
      requires Valid() && t in list.items && t.value.sent == []
      modifies t
      ensures Valid() && t.value == old(t.value).(packet := packet)
    {
      hide Linked, InUse;
      t.value := t.value.(packet := packet);
    }

    /** coap_clear_transaction: clearing twice is harmless. */
    method ClearTransaction(t: Node<Trans>)
      requires ValidBut(t) && t in memb.mem
      modifies list, memb.count, memb.mem
      ensures Valid() && list.items == Without(old(list.items), t) && t !in list.items
      ensures t.value == old(t.value).(armed := false) && (t in old(list.items) ==> t.next == null)
      ensures forall n :: n in list.items ==> n in old(list.items) && n.value == old(n.value)
    {
      hide Linked, Open, Without, InUse;
      LinkedDistinct(list.head, list.items);
      WithoutKeeps(list.items, t);
      ghost var i;
      ghost var was := list.items;
      OnlyFrom(was, Without(was, t), t);
      t.value := t.value.(armed := false);
      list.Remove(t);
      var left;
      left, i := memb.Free(t);
      FreedIsOff(memb.mem, old(memb.count[..]), was, i);
    }

    /**
     * coap_send_transaction, where the random number only matters the first time. A confirmable message is sent at
     * most five times, and with the fifth its transaction is closed; others are closed when sent.
     */
    method SendTransaction(t: Node<Trans>, time: nat, rand: nat)
      requires ValidBut(t) && t in list.items && Ready(t.value, clock) && clock <= time
      modifies this, list, memb.count, memb.mem
      ensures Valid() && clock == time
      ensures t.value.sent == old(t.value.sent) + [time] && |t.value.sent| <= MAX_RETRANSMIT + 1
      ensures Confirmable(t.value.packet) ==> FirstInterval(t.value.first) && Spaced(t.value.sent, t.value.first)
      ensures t.value.packet == old(t.value.packet)
      ensures t.value.mid == old(t.value.mid) && t.value.peer == old(t.value.peer)
      ensures old(t.value.counter) > 0 ==> t.value.first == old(t.value.first)
      ensures Confirmable(t.value.packet) && |t.value.sent| <= MAX_RETRANSMIT <==> t in list.items
      ensures list.items == if t in list.items then old(list.items) else Without(old(list.items), t)
      ensures if t in list.items then t.value.armed else t.next == null
      ensures forall n :: n in list.items && n != t ==> n in old(list.items) && n.value == old(n.value)
    {
      hide Linked, Open, Without, InUse, Spaced, Ready;
      ghost var v := t.value;
      ReadyFacts(v, clock, time);
      forall k | 0 <= k < |list.items| && list.items[k] != t ensures Open(list.items[k].value, time) {
        OpenLater(list.items[k].value, clock, time);
      }
      clock := time;
      t.value := t.value.(sent := t.value.sent + [time]);
      if Confirmable(t.value.packet) && t.value.counter < MAX_RETRANSMIT {
        var interval := NextInterval(t.value, rand);
        t.value := t.value.(timer := t.value.timer.(interval := interval));
        t.value := t.value.(first := if t.value.counter == 0 then interval else t.value.first);
        t.value := t.value.(timer := ContikiTimer.Restart(t.value.timer, time % WIDE), armed := true);
        assert t.value == Kept(v, time, rand);
        KeptOpen(v, old(clock), time, rand);
        OpenFacts(t.value, time);
      } else {
        ClearTransaction(t);
      }
    }

    /** The timer of an open transaction expires: its process is told, and it no longer runs. */
    method TimerExpires(t: Node<Trans>, time: nat)
      requires Valid() && t in list.items && t.value.armed && clock <= time && Expired(t.value.timer, time % WIDE)
      modifies this, t
      ensures Valid() && clock == time && t.value == old(t.value).(armed := false)
    {
      hide Linked, InUse, Open;
      ArmedSent(t.value, clock);
      ExpiredLate(t.value, clock, time);
      forall k | 0 <= k < |list.items| && list.items[k] != t ensures Open(list.items[k].value, time) {
        OpenLater(list.items[k].value, clock, time);
      }
      clock := time;
      t.value := t.value.(armed := false);
    }

    /** coap_get_transaction_by_mid. */
    method GetTransactionByMid(mid: nat) returns (t: Node?<Trans>)
      requires Valid()
      ensures t == null ==> forall n :: n in list.items ==> n.value.mid != mid
      ensures t != null ==> t in list.items && t.value.mid == mid
    {
      t := list.head;
      ghost var i := 0;
      while t != null
        invariant 0 <= i <= |list.items| && t == At(list.items, i) && forall j :: 0 <= j < i ==>
          list.items[j].value.mid != mid
        decreases |list.items| - i
      {
        if t.value.mid == mid {
          return;
        }
        t := t.next;
        i := i + 1;
      }
    }

    /** One pass of the loop over the transactions: one whose timer has expired is sent once more. */
    method CheckOne(t: Node<Trans>, time: nat)
      requires Valid() && t in list.items && clock <= time && t.value.sent != []
      modifies this, list, memb.count, memb.mem
      ensures Valid() && clock <= time
      ensures old(t.value.armed) ==> t.value == old(t.value)
      ensures !old(t.value.armed) ==> t.value.sent == old(t.value.sent) + [time]
      ensures if t in list.items then list.items == old(list.items) && t.value.armed
        else list.items == Without(old(list.items), t) && t.next == null && |t.value.sent| == MAX_RETRANSMIT + 1
      ensures t.value.first == old(t.value.first) && (t !in list.items ==> !old(t.value.armed))
      ensures forall n :: n in list.items && n != t ==> n in old(list.items) && n.value == old(n.value)
    {
      hide Linked, InUse, Open, Ready, Without;
      if !t.value.armed {
        OpenFacts(t.value, clock);
        Due(t.value, clock);
        t.value := t.value.(counter := t.value.counter + 1);
        SendTransaction(t, time, 0);
      }
    }

    /**
     * coap_check_transactions, every transaction on the list having been sent: those whose timer has expired are sent
     * once more, up to the first that is closed, with which the loop ends.
     */
    method CheckTransactions(time: nat) returns (ghost closed: Node?<Trans>)
      requires Valid() && clock <= time && forall n :: n in list.items ==> n.value.sent != []
      modifies this, list, memb.count, memb.mem
      ensures Valid() && clock <= time
      ensures closed == null ==> list.items == old(list.items) && forall n :: n in list.items ==> n.value.armed
      ensures closed != null ==>
        && closed in old(list.items) && list.items == Without(old(list.items), closed)
        && |closed.value.sent| == MAX_RETRANSMIT + 1 && Closed(old(closed.value), closed.value, time)
      ensures forall n :: n in list.items ==>
        n in old(list.items) && (n.value == old(n.value) || SentAgain(old(n.value), n.value, time))
    {
      hide Linked, InUse, Open, Without;
      var t := list.head;
      ghost var i := 0;
      closed := null;
      HeadOf(list.head, list.items);
      while t != null
        invariant Valid() && clock <= time
        invariant closed == null ==> list.items == old(list.items) && i <= |list.items| && t == At(list.items, i)
        invariant closed == null ==> forall j :: 0 <= j < i ==> list.items[j].value.armed
        invariant closed == null ==> forall j :: i <= j < |list.items| ==>
          list.items[j].value == old(list.items[j].value)
        invariant closed != null ==>
          && t == null && closed in old(list.items) && list.items == Without(old(list.items), closed)
          && |closed.value.sent| == MAX_RETRANSMIT + 1 && Closed(old(closed.value), closed.value, time)
        invariant forall n :: n in list.items ==>
          n in old(list.items) && (n.value == old(n.value) || SentAgain(old(n.value), n.value, time))
        decreases t != null, |list.items| - i
      {
        LinkedDistinct(list.head, list.items);
        CheckOne(t, time);
        if t in list.items {
          NextOf(list.head, list.items, i);
        } else {
          closed := t;
        }
        t := t.next;
        i := i + 1;
      }
    }

    /** Everything on the list has been sent, and each time at most late ticks after its timer expired. */
    ghost predicate Serving(now: nat, late: nat)
      reads this, memb, memb.count, memb.mem, list, list.items
    {
      && Valid() && clock <= now
      && forall k :: 0 <= k < |list.items| ==> list.items[k].value.sent != [] && Prompt(list.items[k].value, late)
    }

    /** A message is put into a new transaction, if there is one, and sent. */
    method Send(now: nat, mid: nat, peer: nat, packet: seq<byte>, rand: nat, ghost late: nat)
      requires Serving(now, late) && packet != []
      modifies this, list, memb.count, memb.mem
      ensures Serving(now, late)
    {
      hide Linked, Open, Without, InUse, Spaced, Prompt, Ready, FirstInterval;
      var t := NewTransaction(mid, peer);
      if t != null {
        Store(t, packet);
        NewReady(t.value, clock);
        SendTransaction(t, now, rand);
        OncePrompt(t.value, late);
      }
    }

    /** The timer of a transaction fires, if it has expired. */
    method Fire(now: nat, mid: nat, ghost late: nat)
      requires Serving(now, late)
      modifies this, memb.mem
      ensures Serving(now, late)
    {
      hide Linked, Open, InUse, Spaced, Pow2;
      var t := GetTransactionByMid(mid);
      if t != null && t.value.armed && Expired(t.value.timer, now % WIDE) {
        TimerExpires(t, now);
      }
    }

    /** A transaction is answered. */
    method Answer(now: nat, mid: nat, ghost late: nat)
      requires Serving(now, late)
      modifies list, memb.count, memb.mem
      ensures Serving(now, late)
    {
      hide Linked, Open, Without, InUse, Spaced, Pow2;
      var t := GetTransactionByMid(mid);
      if t != null {
        ClearTransaction(t);
      }
    }

    /** Whether no expired timer has waited longer than late ticks. */
    method InTime(now: nat, late: nat) returns (inTime: bool)
      requires Serving(now, late)
      ensures inTime ==> forall k :: 0 <= k < |list.items| && !list.items[k].value.armed ==>
        now <= Expiry(list.items[k].value) + late
    {
      hide Open, InUse, Spaced, Pow2;
      var t := list.head;
      ghost var i := 0;
      while t != null
        invariant i <= |list.items| && t == At(list.items, i)
        invariant forall k :: 0 <= k < i && !list.items[k].value.armed ==> now <= Expiry(list.items[k].value) + late
        decreases |list.items| - i
      {
        if !t.value.armed && now > Expiry(t.value) + late {
          return false;
        }
        t := t.next;
        i := i + 1;
      }
      inTime := true;
    }

    /** The transactions are looked at, in time. */
    method Serve(now: nat, ghost late: nat) returns (ghost closed: Node?<Trans>)
      requires Serving(now, late)
      requires forall k :: 0 <= k < |list.items| && !list.items[k].value.armed ==>
        now <= Expiry(list.items[k].value) + late
      modifies this, list, memb.count, memb.mem
      ensures Serving(now, late)
      ensures closed != null ==> Within(closed.value, late)
    {
      hide Linked, Open, Without, InUse, Spaced, Expiry, Prompt, Within, FirstInterval;
      ghost var was := list.items;
      forall k | 0 <= k < |was| ensures FirstInterval(was[k].value.first) && |was[k].value.sent| <= MAX_RETRANSMIT {
        OpenFacts(was[k].value, clock);
      }
      closed := CheckTransactions(now);
      forall k | 0 <= k < |list.items|
        ensures list.items[k].value.sent != [] && Prompt(list.items[k].value, late)
      {
        var n := list.items[k];
        assert n in was;
        if n.value != old(n.value) {
          assert SentAgain(old(n.value), n.value, now);
          PromptAgain(old(n.value), n.value, now, late);
        }
      }
      if closed != null {
        assert closed in was;
        PromptAgain(old(closed.value), closed.value, now, late);
        PromptWithin(closed.value, late);
      }
    }

    /**
     * Any run of events at any times, as long as no expired timer has to wait more than late ticks: every message is
     * sent for the last time within 4500 ticks and four delays of the first.
     */
    method Run(run: seq<(nat, Event)>, start: nat, late: nat) returns (inTime: bool, ghost closed: seq<Trans>)
      requires Serving(start, late)
      modifies this, list, memb.count, memb.mem
      ensures Valid()
      ensures inTime ==> forall k :: 0 <= k < |list.items| ==> Within(list.items[k].value, late)
      ensures forall k :: 0 <= k < |closed| ==> Within(closed[k], late)
    {
      hide Linked, Open, Without, InUse, Spaced, Expiry, Prompt, Within;
      closed := [];
      var now := start;
      for i := 0 to |run|
        invariant Serving(now, late) && forall k :: 0 <= k < |closed| ==> Within(closed[k], late)
      {
        now := now + run[i].0;
        match run[i].1 {
          case Request(mid, peer, packet, rand) => if packet != [] { Send(now, mid, peer, packet, rand, late); }
          case Fires(mid) => Fire(now, mid, late);
          case Service =>
            inTime := InTime(now, late);
            if !inTime { return; }
            ghost var c;
            c := Serve(now, late);
            if c != null { closed := closed + [c.value]; }
          case Answered(mid) => Answer(now, mid, late);
        }
      }
      forall k | 0 <= k < |list.items| ensures Within(list.items[k].value, late) {
        OpenFacts(list.items[k].value, clock);
        PromptWithin(list.items[k].value, late);
      }
      inTime := true;
    }
  }

  /** Blocks are counted as used exactly when they are on the list. */
  ghost predicate InUse(mem: seq<Node<Trans>>, count: seq<nat>, items: seq<Node<Trans>>) {
    |mem| == |count| && forall i {:trigger mem[i]} :: 0 <= i < |mem| ==> count[i] == if mem[i] in items then 1 else 0
  }

  /** Elements of a shorter list are elements of the list, by their places. */
  lemma OnlyFrom(s: seq<Node<Trans>>, r: seq<Node<Trans>>, t: Node<Trans>)
    requires forall y :: y in r <==> y in s && y != t
    ensures forall k :: 0 <= k < |r| ==> r[k] in s && r[k] != t && exists j :: 0 <= j < |s| && s[j] == r[k]
  {
    forall k | 0 <= k < |r| ensures r[k] in s && r[k] != t {
      assert r[k] in r;
    }
  }

  /** Unchanged while its timer runs; otherwise sent once more, its timer running again. */
  predicate SentAgain(was: Trans, now: Trans, time: nat) {
    if was.armed then now == was else now.sent == was.sent + [time] && now.first == was.first && now.armed
  }

  /** Its timer had expired, and it was sent for the last time. */
  predicate Closed(was: Trans, now: Trans, time: nat) {
    !was.armed && now.sent == was.sent + [time] && now.first == was.first
  }

  lemma AllInUse(mem: seq<Node<Trans>>, count: seq<nat>, items: seq<Node<Trans>>)
    requires InUse(mem, count, items) && forall j :: 0 <= j < |mem| ==> count[j] != 0
    ensures forall n :: n in mem ==> n in items
  {
  }

  lemma FreeIsOff(mem: seq<Node<Trans>>, count: seq<nat>, items: seq<Node<Trans>>, i: nat)
    requires InUse(mem, count, items) && i < |mem| && count[i] == 0
    ensures mem[i] !in items && mem[i] in mem
  {
  }

  lemma TakenIsOn(mem: seq<Node<Trans>>, count: seq<nat>, items: seq<Node<Trans>>, i: nat)
    requires InUse(mem, count, items) && i < |mem| && Distinct(mem)
    ensures InUse(mem, count[i := 1], items + [mem[i]])
  {
  }

  lemma FreedIsOff(mem: seq<Node<Trans>>, count: seq<nat>, items: seq<Node<Trans>>, i: nat)
    requires InUse(mem, count, items) && i < |mem| && Distinct(mem) && Distinct(items)
    ensures InUse(mem, count[i := 0], Without(items, mem[i])) && count[i] <= 1
  {
    WithoutKeeps(items, mem[i]);
  }
}

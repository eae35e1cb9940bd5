/** Event timers: the list of timers that run, and the process that posts an event when one has expired. */
module ContikiEtimer {
  import opened Arith
  import opened ContikiList
  import opened ContikiEvents
  import opened ContikiTimer

  const NONE := 0
  const EVENT_TIMER := 0x88

  /** A timer and the process that set it; no process once it has expired. */
  datatype Etimer = Etimer(timer: Timer, p: nat)

  type Node = ContikiList.Node<Etimer>

  /** How far ahead of now the timer expires, on the wrapping clock. */
  ghost function Ahead(n: Node, now: nat): nat
    reads n`value
  {
    Remaining(n.value.timer, now)
  }

  /** No timer of s expires before the i-th. */
  ghost predicate IsFirst(s: seq<Node>, now: nat, i: nat)
    requires i < |s|
    reads s`value
  {
    forall j :: 0 <= j < |s| ==> Ahead(s[i], now) <= Ahead(s[j], now)
  }

  /** next is when the first of the timers to expire does so. */
  ghost predicate IsNext(s: seq<Node>, now: nat, next: nat)
    reads s`value
  {
    if s == [] then next == 0
    else
      exists i :: 0 <= i < |s| && next == (now + Ahead(s[i], now)) % WIDE && IsFirst(s, now, i)
  }

  /** The timers of s that have expired. */
  ghost function Late(s: seq<Node>, now: nat): set<Node>
    reads s`value
  {
    set n | n in s && Expired(n.value.timer, now)
  }

  /** The elements of s that lie in a set. */
  ghost function Among(s: seq<Node>, a: set<Node>): seq<Node> {
    if s == [] then [] else (if s[0] in a then [s[0]] else []) + Among(s[1..], a)
  }

  /** The timers of processes other than p. */
  ghost function Others(s: seq<Node>, p: nat): seq<Node>
    reads s`value
  {
    Among(s, set n | n in s && n.value.p != p)
  }

  lemma {:induction false} AmongKeeps(s: seq<Node>, a: set<Node>)
    requires Distinct(s)
    ensures Distinct(Among(s, a)) && forall n :: n in Among(s, a) <==> n in s && n in a
  {
    if s != [] {
      var r := Among(s[1..], a);
      AmongKeeps(s[1..], a);
      assert forall n :: n in s <==> n == s[0] || n in s[1..];
      assert s[0] !in s[1..];
      if s[0] in a {
        assert forall j :: 0 < j < |[s[0]] + r| ==> ([s[0]] + r)[j] == r[j - 1];
      }
    }
  }

  lemma {:induction false} AmongSplit(s: seq<Node>, k: nat, a: set<Node>)
    requires k <= |s|
    ensures Among(s, a) == Among(s[..k], a) + Among(s[k..], a)
  {
    if k == 0 {
      assert s[..0] == [] && s[0..] == s;
    } else {
      AmongSplit(s[1..], k - 1, a);
      assert s[1..][..k - 1] == s[..k][1..] && s[1..][k - 1..] == s[k..] && s[..k][0] == s[0];
    }
  }

  lemma {:induction false} AmongNone(s: seq<Node>, a: set<Node>)
    requires forall i :: 0 <= i < |s| ==> s[i] !in a
    ensures Among(s, a) == []
  {
    if s != [] {
      AmongNone(s[1..], a);
    }
  }

  /** Taking out an element that is not selected, or the first that is. */
  lemma AmongOut(s: seq<Node>, k: nat, a: set<Node>)
    requires k < |s|
    ensures s[k] !in a ==> Among(s[..k] + s[k + 1..], a) == Among(s, a)
    ensures s[k] in a && (forall i :: 0 <= i < k ==> s[i] !in a) ==>
      Among(s, a) == [s[k]] + Among(s[..k] + s[k + 1..], a)
  {
    var r := s[..k] + s[k + 1..];
    AmongSplit(s, k, a);
    AmongSplit(s[k..], 1, a);
    AmongSplit(r, k, a);
    assert r[..k] == s[..k] && r[k..] == s[k + 1..] && s[k..][..1] == [s[k]] && s[k..][1..] == s[k + 1..];
    assert [s[k]][1..] == [];
    if forall i :: 0 <= i < k ==> s[i] !in a {
      AmongNone(s[..k], a);
    }
  }

  lemma {:induction false} AmongAll(s: seq<Node>, a: set<Node>)
    requires forall i :: 0 <= i < |s| ==> s[i] in a
    ensures Among(s, a) == s
  {
    if s != [] {
      AmongAll(s[1..], a);
    }
  }

  class Timers {
    var timerlist: ContikiList.Node?<Etimer>
    var nextExpiration: nat
    var polled: bool
    ghost var items: seq<Node>

    /** The list is free of cycles and repetitions, and a timer without process is not on it. */
    ghost predicate Valid()
      reads this, items
    {
      Linked(timerlist, items) && forall n :: n in items ==> n.value.p != NONE
    }

    constructor ()
      ensures Valid() && items == []
    {
      timerlist, nextExpiration, polled, items := null, 0, false, [];
    }

    /** update_time. */
    method UpdateTime(now: nat)
      requires Valid()
      modifies this`nextExpiration
      ensures Valid() && IsNext(items, now, nextExpiration)
    {
      hide Remaining;
      if timerlist == null {
        nextExpiration := 0;
      } else {
        var t := timerlist;
        var tdist := Remaining(t.value.timer, now);
        ghost var best, i := 0, 1;
        t := t.next;
        while t != null
          invariant 1 <= i <= |items| && t == At(items, i) && 0 <= best < i
          invariant tdist == Ahead(items[best], now) && forall j :: 0 <= j < i ==> tdist <= Ahead(items[j], now)
          decreases |items| - i
        {
          if Remaining(t.value.timer, now) < tdist {
            tdist := Remaining(t.value.timer, now);
            best := i;
          }
          t := t.next;
          i := i + 1;
        }
        nextExpiration := (now + tdist) % WIDE;
      }
    }

    /** add_timer. */
    method AddTimer(timer: Node, now: nat, current: nat)
      requires Valid() && current != NONE
      modifies this, timer
      ensures Valid() && items == if timer in old(items) then old(items) else [timer] + old(items)
      ensures timer.value == old(timer.value).(p := current) && polled && IsNext(items, now, nextExpiration)
    {
      polled := true;
      if timer.value.p != NONE {
        var t := timerlist;
        ghost var i := 0;
        while t != null
          invariant 0 <= i <= |items| && t == At(items, i) && timer !in items[..i]
          decreases |items| - i
        {
          if t == timer {
            timer.value := timer.value.(p := current);
            UpdateTime(now);
            return;
          }
          t := t.next;
          i := i + 1;
        }
      }
      timer.value := timer.value.(p := current);
      timer.next := timerlist;
      timerlist := timer;
      items := [timer] + items;
      UpdateTime(now);
    }

    /** etimer_set. */
    method Set(et: Node, interval: nat, now: nat, current: nat)
      requires Valid() && current != NONE
      modifies this, et
      ensures Valid() && items == if et in old(items) then old(items) else [et] + old(items)
      ensures et.value == Etimer(Timer(now, interval), current) && polled && IsNext(items, now, nextExpiration)
    {
      et.value := et.value.(timer := ContikiTimer.Set(interval, now));
      AddTimer(et, now, current);
    }

    /** etimer_reset. */
    method Reset(et: Node, now: nat, current: nat)
      requires Valid() && current != NONE
      modifies this, et
      ensures Valid() && items == if et in old(items) then old(items) else [et] + old(items)
      ensures et.value == Etimer(ContikiTimer.Reset(old(et.value.timer)), current) && polled
      ensures IsNext(items, now, nextExpiration)
    {
      et.value := et.value.(timer := ContikiTimer.Reset(et.value.timer));
      AddTimer(et, now, current);
    }

    /** etimer_restart. */
    method Restart(et: Node, now: nat, current: nat)
      requires Valid() && current != NONE
      modifies this, et
      ensures Valid() && items == if et in old(items) then old(items) else [et] + old(items)
      ensures et.value == Etimer(Timer(now, old(et.value.timer.interval)), current) && polled
      ensures IsNext(items, now, nextExpiration)
    {
      et.value := et.value.(timer := ContikiTimer.Restart(et.value.timer, now));
      AddTimer(et, now, current);
    }

    /** Taking a timer out of the list. */
    method Unlink(et: Node) returns (found: bool)
      requires Valid()
      modifies this`timerlist, this`items, items`next
      ensures Valid() && items == Without(old(items), et) && et !in items && (found <==> et in old(items))
    {
      WithoutKeeps(items, et);
      if et == timerlist {
        WithoutAt(items, 0);
        timerlist := timerlist.next;
        items := items[1..];
        return true;
      }
      var t := timerlist;
      ghost var i := 0;
      while t != null && t.next != et
        invariant 0 <= i <= |items| && t == At(items, i) && et !in items[..i] && (t != null ==> et != t)
        decreases |items| - i
      {
        t := t.next;
        i := i + 1;
      }
      if t != null {
        WithoutAt(items, i + 1);
        assert et == items[i + 1] && et.next == At(items, i + 2);
        t.next := et.next;
        items := items[..i + 1] + items[i + 2..];
        assert forall j :: 0 <= j < |items| ==> items[j].next == At(items, j + 1);
        return true;
      }
      WithoutAbsent(items, et);
      return false;
    }

    /** etimer_stop. */
    method Stop(et: Node, now: nat)
      requires Valid()
      modifies this, items`next, et
      ensures Valid() && items == Without(old(items), et) && et !in items && et.next == null
      ensures et.value == old(et.value).(p := NONE)
      ensures if et in old(items) then IsNext(items, now, nextExpiration) else nextExpiration == old(nextExpiration)
      ensures polled == old(polled)
    {
      var found := Unlink(et);
      et.next := null;
      et.value := et.value.(p := NONE);
      if found {
        UpdateTime(now);
      }
    }

    /** The timers at the head of the list that belong to p. */
    method DropHead(p: nat, ghost stay: set<Node>)
      requires Valid() && stay == set n | n in items && n.value.p != p
      modifies this`timerlist, this`items
      ensures Valid() && Among(items, stay) == old(Among(items, stay)) && (items != [] ==> items[0] in stay)
      ensures forall k :: 0 <= k < |items| ==> items[k] in old(items)
    {
      while timerlist != null && timerlist.value.p == p
        invariant Valid() && Among(items, stay) == old(Among(items, stay))
        invariant forall k :: 0 <= k < |items| ==> items[k] in old(items)
        decreases |items|
      {
        AmongOut(items, 0, stay);
        assert items[..0] + items[1..] == items[1..];
        timerlist := timerlist.next;
        items := items[1..];
      }
    }

    /** The timer t in place i is taken out behind u. */
    method Cut(u: ContikiList.Node?<Etimer>, t: Node, ghost i: nat)
      requires Valid() && i < |items| && items[i] == t && u == (if i == 0 then null else items[i - 1])
      modifies this`timerlist, this`items, items`next
      ensures Valid() && items == old(items[..i] + items[i + 1..]) && t.next == old(t.next)
      ensures items == Without(old(items), t) && t !in items
    {
      WithoutAt(items, i);
      WithoutKeeps(items, t);
      if u != null {
        u.next := t.next;
      } else {
        timerlist := t.next;
      }
      items := items[..i] + items[i + 1..];
    }

    /** The timers after the head that belong to p. */
    method DropRest(p: nat, ghost stay: set<Node>)
      requires Valid() && items != [] && items[0] in stay && forall n :: n in items ==> (n in stay <==> n.value.p != p)
      modifies this`timerlist, this`items, items`next
      ensures Valid() && items == Among(old(items), stay)
    {
      hide Among, Without;
      ghost var was := items;
      var t := timerlist;
      ghost var i := 0;
      while t.next != null
        invariant 0 <= i < |items| && t == items[i] && Valid() && Among(items, stay) == Among(was, stay)
        invariant forall j :: 0 <= j <= i ==> items[j] in stay
        invariant forall j :: 0 <= j < |items| ==> items[j] in was
        decreases |items| - i
      {
        assert t.next == items[i + 1] && items[i + 1] in was;
        if t.next.value.p == p {
          AmongOut(items, i + 1, stay);
          Cut(t, t.next, i + 1);
        } else {
          t := t.next;
          i := i + 1;
        }
      }
      AmongAll(items, stay);
    }

    /** What etimer_process does when a process has exited. */
    method Exited(p: nat)
      requires Valid()
      modifies this`timerlist, this`items, items`next
      ensures Valid() && items == old(Others(items, p))
    {
      ghost var stay := set n | n in items && n.value.p != p;
      DropHead(p, stay);
      if timerlist != null {
        DropRest(p, stay);
      }
    }

    /** The expired timer t in place i, whose event has been posted, is taken out. */
    method Release(u: ContikiList.Node?<Etimer>, t: Node, ghost i: nat, now: nat)
      requires Valid() && i < |items| && items[i] == t && u == (if i == 0 then null else items[i - 1])
      modifies this, items`next, t
      ensures Valid() && items == old(items[..i] + items[i + 1..]) && items == Without(old(items), t) && t !in items
      ensures t.next == null && t.value == old(t.value).(p := NONE) && IsNext(items, now, nextExpiration)
      ensures polled == old(polled)
    {
      hide IsNext, Without;
      Cut(u, t, i);
      t.value := t.value.(p := NONE);
      t.next := null;
      UpdateTime(now);
    }

    /** One pass over the list: the first timer that has expired, if its event can be posted, is taken out. */
    method Pass(queue: EventQueue<Node>, now: nat, ghost late: set<Node>) returns (removed: ContikiList.Node?<Etimer>)
      requires Valid() && queue.Valid() && late == Late(items, now)
      modifies this, items, queue, queue.events
      ensures Valid() && queue.Valid()
      ensures removed == null ==> items == old(items) && queue.Pending() == old(queue.Pending())
      ensures removed == null && late != {} ==> |queue.Pending()| == NUM_EVENTS && polled
      ensures removed != null ==> removed in late && Among(old(items), late) == [removed] + Among(items, late)
      ensures removed != null ==> items == Without(old(items), removed) && removed !in items
      ensures removed != null ==> removed.next == null && removed.value == old(removed.value).(p := NONE)
      ensures removed != null ==>
        queue.Pending() == old(queue.Pending()) + [Event(EVENT_TIMER, removed, old(removed.value.p))]
      ensures removed != null ==> IsNext(items, now, nextExpiration) && polled == old(polled)
      ensures removed == null ==> nextExpiration == old(nextExpiration) && (late == {} ==> polled == old(polled))
      ensures forall n :: n in items ==> n in old(items) && n.value == old(n.value)
    {
      hide Expired, IsNext, Among, Without, Late;
      var u: ContikiList.Node?<Etimer> := null;
      var t := timerlist;
      ghost var i := 0;
      while t != null
        invariant Valid() && queue.Valid() && items == old(items) && queue.Pending() == old(queue.Pending())
        invariant 0 <= i <= |items| && t == At(items, i) && u == (if i == 0 then null else items[i - 1])
        invariant forall n :: n in items ==> n.value == old(n.value)
        invariant nextExpiration == old(nextExpiration) && (polled == old(polled) || late != {})
        invariant (forall j :: 0 <= j < i ==> items[j] !in late) || (|queue.Pending()| == NUM_EVENTS && polled)
        invariant |queue.Pending()| < NUM_EVENTS ==> polled == old(polled)
        decreases |items| - i
      {
        LateIs(items, now, i);
        if Expired(t.value.timer, now) {
          var ok := queue.Post(t.value.p, EVENT_TIMER, t);
          if ok {
            AmongOut(items, i, late);
            Release(u, t, i, now);
            WithoutKeeps(old(items), t);
            return t;
          }
          polled := true;
        }
        u := t;
        t := t.next;
        i := i + 1;
      }
      if forall j :: 0 <= j < i ==> items[j] !in late {
        NoneLate(items, now);
      }
      return null;
    }

    /** Between two passes: which timers are gone, with an event for each, and that the others are as they were. */
    ghost predicate Between(queue: EventQueue<Node>, now: nat, start: seq<Node>, was: map<Node, Etimer>,
      first: seq<Event<Node>>, gone: seq<Node>)
      reads this, items, queue, queue.events, gone
    {
      && Valid() && queue.Valid() && items == Minus(start, gone) && IsKept(items, was)
      && IsGone(gone, was) && (forall i :: 0 <= i < |gone| ==> gone[i] !in items)
      && Posted(first, queue.Pending(), gone, was)
    }

    /** One more pass. */
    method Again(queue: EventQueue<Node>, now: nat, ghost start: seq<Node>, ghost was: map<Node, Etimer>,
      ghost first: seq<Event<Node>>, ghost gone: seq<Node>)
      returns (again: bool, ghost more: seq<Node>)
      requires Between(queue, now, start, was, first, gone)
      modifies this, items, queue, queue.events
      ensures Between(queue, now, start, was, first, more) && (forall k :: 0 <= k < |items| ==> items[k] in old(items))
      ensures more + Among(items, Late(items, now)) == gone + old(Among(items, Late(items, now)))
      ensures if again then |items| < |old(items)| else
        items == old(items) && (Late(items, now) != {} ==> |queue.Pending()| == NUM_EVENTS && polled)
      ensures if again then IsNext(items, now, nextExpiration) && polled == old(polled) && more != [] else
        && more == gone && nextExpiration == old(nextExpiration) && (Late(items, now) == {} ==> polled == old(polled))
        && (old(IsNext(items, now, nextExpiration)) ==> IsNext(items, now, nextExpiration))
    {
      hide Late, Among, Without, Linked, IsNext, IsNextIn, Minus, Posted, IsKept, IsGone;
      ghost var late, s := Late(items, now), items;
      ghost var pending := queue.Pending();
      LateMeans(items, now);
      KeptMeans(items, was);
      GoneMeans(gone, was);
      NextMeans(items, was, now, nextExpiration);
      var removed := Pass(queue, now, late);
      KeptStill(items, was);
      GoneStill(gone, was);
      again, more := removed != null, gone;
      AmongLate(items, now, late);
      if removed != null {
        WithoutLess(s, removed);
        more := gone + [removed];
        MinusMore(start, gone, removed);
        PostedMore(first, pending, gone, was, removed);
        GoneMore(gone, was, removed);
      } else {
        NextMeans(items, was, now, nextExpiration);
      }
    }

    /**
     * What etimer_process does when it is polled, the clock standing still: the expired timers are taken out in the
     * order of the list, an event posted for each, as long as the queue has room.
     */
    method HandlePoll(queue: EventQueue<Node>, now: nat) returns (ghost gone: seq<Node>)
      requires Valid() && queue.Valid()
      modifies this, items, queue, queue.events
      ensures Valid() && queue.Valid() && items == Minus(old(items), gone)
      ensures old(Among(items, Late(items, now))) == gone + Among(items, Late(items, now))
      ensures Posted(old(queue.Pending()), queue.Pending(), gone, old(Values(items)))
      ensures Late(items, now) != {} ==> |queue.Pending()| == NUM_EVENTS && polled
      ensures IsGone(gone, old(Values(items))) && IsKept(items, old(Values(items)))
      ensures Late(items, now) == {} ==> polled == old(polled)
      ensures if gone == [] then nextExpiration == old(nextExpiration) else IsNext(items, now, nextExpiration)
    {
      hide Late, Among, Without, Linked, Minus, IsNext;
      ghost var start, was, first := items, Values(items), queue.Pending();
      gone := [];
      MinusNone(items);
      ghost var due := Among(items, Late(items, now));
      var again := true;
      while again
        invariant Between(queue, now, start, was, first, gone) && due == gone + Among(items, Late(items, now))
        invariant !again && Late(items, now) != {} ==> |queue.Pending()| == NUM_EVENTS && polled
        invariant forall k :: 0 <= k < |items| ==> items[k] in start
        invariant again || Late(items, now) == {} ==> polled == old(polled)
        invariant if gone == [] then nextExpiration == old(nextExpiration) else IsNext(items, now, nextExpiration)
        decreases |items|, again
      {
        again, gone := Again(queue, now, start, was, first, gone);
      }
    }
  }

  /** The same of timers that hold what the map says. */
  ghost predicate IsNextIn(s: seq<Node>, m: map<Node, Etimer>, now: nat, next: nat)
    requires forall i :: 0 <= i < |s| ==> s[i] in m
  {
    if s == [] then next == 0
    else
      exists i :: 0 <= i < |s| && next == (now + Remaining(m[s[i]].timer, now)) % WIDE &&
        forall j :: 0 <= j < |s| ==> Remaining(m[s[i]].timer, now) <= Remaining(m[s[j]].timer, now)
  }

  lemma NextMeans(s: seq<Node>, m: map<Node, Etimer>, now: nat, next: nat)
    requires forall n :: n in s ==> n in m && n.value == m[n]
    ensures IsNext(s, now, next) <==> IsNextIn(s, m, now, next)
  {
    hide Remaining;
    if s != [] && IsNext(s, now, next) {
      var i :| 0 <= i < |s| && next == (now + Ahead(s[i], now)) % WIDE && IsFirst(s, now, i);
      assert forall j :: 0 <= j < |s| ==> Ahead(s[j], now) == Remaining(m[s[j]].timer, now);
      assert IsNextIn(s, m, now, next);
    }
    if s != [] && IsNextIn(s, m, now, next) {
      var i :| 0 <= i < |s| && next == (now + Remaining(m[s[i]].timer, now)) % WIDE &&
        forall j :: 0 <= j < |s| ==> Remaining(m[s[i]].timer, now) <= Remaining(m[s[j]].timer, now);
      assert forall j :: 0 <= j < |s| ==> Ahead(s[j], now) == Remaining(m[s[j]].timer, now);
      assert IsFirst(s, now, i);
    }
  }

  /** What the timers of s hold. */
  ghost function Values(s: seq<Node>): map<Node, Etimer>
    reads s`value
  {
    map n | n in s :: n.value
  }

  ghost predicate IsKept(s: seq<Node>, was: map<Node, Etimer>)
    reads s`value
  {
    forall i :: 0 <= i < |s| ==> s[i] in was && s[i].value == was[s[i]]
  }

  /** Timers that are marked as expired and off the list. */
  ghost predicate IsGone(s: seq<Node>, was: map<Node, Etimer>)
    reads s
  {
    forall i :: 0 <= i < |s| ==> s[i] in was && s[i].next == null && s[i].value == was[s[i]].(p := NONE)
  }

  lemma MinusNone(s: seq<Node>)
    ensures Minus(s, []) == s
  {
  }

  /** s without the elements of g, one after the other. */
  ghost function Minus(s: seq<Node>, g: seq<Node>): seq<Node> {
    if g == [] then s else Without(Minus(s, g[..|g| - 1]), g[|g| - 1])
  }

  /** For each element of g, in its order, an event to the process whose timer it was. */
  ghost predicate Posted(before: seq<Event<Node>>, now: seq<Event<Node>>, g: seq<Node>, was: map<Node, Etimer>) {
    && |now| == |before| + |g| && before <= now
    && forall i :: 0 <= i < |g| ==> g[i] in was && now[|before| + i] == Event(EVENT_TIMER, g[i], was[g[i]].p)
  }

  lemma MinusMore(s: seq<Node>, g: seq<Node>, x: Node)
    ensures Minus(s, g + [x]) == Without(Minus(s, g), x)
  {
    assert (g + [x])[..|g|] == g;
  }

  lemma PostedMore(before: seq<Event<Node>>, now: seq<Event<Node>>, g: seq<Node>, was: map<Node, Etimer>, x: Node)
    requires Posted(before, now, g, was) && x in was
    ensures Posted(before, now + [Event(EVENT_TIMER, x, was[x].p)], g + [x], was)
  {
  }

  lemma KeptMeans(s: seq<Node>, was: map<Node, Etimer>)
    requires IsKept(s, was)
    ensures forall n :: n in s ==> n in was && n.value == was[n]
  {
  }

  lemma KeptStill(s: seq<Node>, was: map<Node, Etimer>)
    requires forall n :: n in s ==> n in was && n.value == was[n]
    ensures IsKept(s, was)
  {
  }

  lemma GoneMeans(s: seq<Node>, was: map<Node, Etimer>)
    requires IsGone(s, was)
    ensures forall i :: 0 <= i < |s| ==> s[i] in was && s[i].next == null && s[i].value == was[s[i]].(p := NONE)
  {
  }

  lemma GoneStill(s: seq<Node>, was: map<Node, Etimer>)
    requires forall i :: 0 <= i < |s| ==> s[i] in was && s[i].next == null && s[i].value == was[s[i]].(p := NONE)
    ensures IsGone(s, was)
  {
  }

  lemma GoneMore(s: seq<Node>, was: map<Node, Etimer>, x: Node)
    requires IsGone(s, was) && x in was && x.next == null && x.value == was[x].(p := NONE)
    ensures IsGone(s + [x], was)
  {
  }

  lemma LateMeans(s: seq<Node>, now: nat)
    ensures forall n :: n in s ==> (n in Late(s, now) <==> Expired(n.value.timer, now))
    ensures forall n :: n in Late(s, now) ==> n in s
  {
  }

  lemma AmongLate(s: seq<Node>, now: nat, late: set<Node>)
    requires forall n :: n in s ==> (n in late <==> Expired(n.value.timer, now))
    ensures Among(s, late) == Among(s, Late(s, now))
  {
    AmongSame(s, late, Late(s, now));
  }

  lemma {:induction false} AmongSame(s: seq<Node>, a: set<Node>, b: set<Node>)
    requires forall n :: n in s ==> (n in a <==> n in b)
    ensures Among(s, a) == Among(s, b)
  {
    if s != [] {
      AmongSame(s[1..], a, b);
    }
  }

  lemma {:induction false} WithoutLess(s: seq<Node>, x: Node)
    requires x in s
    ensures |Without(s, x)| < |s|
  {
    if s[0] != x {
      WithoutLess(s[1..], x);
    }
  }

  lemma LateIs(s: seq<Node>, now: nat, i: nat)
    requires i < |s|
    ensures s[i] in Late(s, now) <==> Expired(s[i].value.timer, now)
  {
  }

  lemma NoneLate(s: seq<Node>, now: nat)
    requires forall j :: 0 <= j < |s| ==> s[j] !in Late(s, now)
    ensures Late(s, now) == {}
  {
  }
}

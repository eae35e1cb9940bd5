/** The queue of events that processes are yet to be told of. */
module ContikiEvents {
  const NUM_EVENTS := 32

  /** An event; it is broadcast when it names no process. */
  datatype Event<D> = Event(ev: nat, data: D, p: nat)

  /** The i-th place from the first one. */
  function Slot(first: nat, i: nat): (k: nat)
    ensures k < NUM_EVENTS
  {
    (first + i) % NUM_EVENTS
  }

  /** The n events from the first place on. */
  function Waiting<D>(slots: seq<Event<D>>, first: nat, n: nat): (s: seq<Event<D>>)
    requires |slots| == NUM_EVENTS
    ensures |s| == n
  {
    seq(n, i requires 0 <= i < n => slots[Slot(first, i)])
  }

  lemma WaitingFirst<D>(slots: seq<Event<D>>, first: nat, n: nat)
    requires |slots| == NUM_EVENTS && first < NUM_EVENTS && n > 0
    ensures Waiting(slots, first, n) == [slots[first]] + Waiting(slots, Slot(first, 1), n - 1)
  {
    hide Slot;
    OneOn(first, 0);
    var s, r := Waiting(slots, first, n), [slots[first]] + Waiting(slots, Slot(first, 1), n - 1);
    forall i | 0 <= i < n ensures s[i] == r[i] {
      if i > 0 {
        OneOn(first, i - 1);
      }
    }
  }

  lemma WaitingLast<D>(slots: seq<Event<D>>, first: nat, n: nat, e: Event<D>)
    requires |slots| == NUM_EVENTS && n < NUM_EVENTS
    ensures Waiting(slots[Slot(first, n) := e], first, n + 1) == Waiting(slots, first, n) + [e]
  {
    hide Slot;
    forall i | 0 <= i < n ensures Slot(first, i) != Slot(first, n) {
      Apart(first, i, n);
    }
  }

  /** Different places of the ring. */
  lemma Apart(first: nat, i: nat, j: nat)
    requires i < j < NUM_EVENTS
    ensures Slot(first, i) != Slot(first, j)
  {
  }

  lemma OneOn(first: nat, i: nat)
    ensures Slot(Slot(first, 1), i) == Slot(first, i + 1)
    ensures first < NUM_EVENTS ==> Slot(first, 0) == first
  {
  }

  /** A ring of fixed size. */
  class EventQueue<D> {
    const events: array<Event<D>>
    var nevents: nat
    var fevent: nat
    /** Every event ever accepted, and every event ever taken out. */
    ghost var posted: seq<Event<D>>
    ghost var taken: seq<Event<D>>

    ghost predicate Valid()
      reads this, events
    {
      && events.Length == NUM_EVENTS && nevents <= NUM_EVENTS && fevent < NUM_EVENTS
      && posted == taken + Pending()
    }

    /** The events that wait, in the order in which they will be delivered. */
    ghost function Pending(): (s: seq<Event<D>>)
      requires events.Length == NUM_EVENTS && nevents <= NUM_EVENTS && fevent < NUM_EVENTS
      reads this, events
      ensures |s| == nevents
    {
      Waiting(events[..], fevent, nevents)
    }

    /** process_init, as far as the queue goes. */
    constructor (none: Event<D>)
      ensures Valid() && fresh(events) && Pending() == [] && posted == []
    {
      events := new Event<D>[NUM_EVENTS](_ => none);
      nevents, fevent := 0, 0;
      posted, taken := [], [];
    }

    /** process_post: refused exactly when the queue is full. */
    method Post(p: nat, ev: nat, data: D) returns (ok: bool)
      requires Valid()
      modifies this, events
      ensures Valid() && (ok <==> |old(Pending())| < NUM_EVENTS) && taken == old(taken)
      ensures Pending() == if ok then old(Pending()) + [Event(ev, data, p)] else old(Pending())
    {
      hide Slot, Waiting;
      if nevents == NUM_EVENTS {
        return false;
      }
      var snum := Slot(fevent, nevents);
      WaitingLast(events[..], fevent, nevents, Event(ev, data, p));
      ghost var was := events[..];
      events[snum] := Event(ev, data, p);
      assert events[..] == was[snum := Event(ev, data, p)];
      nevents := nevents + 1;
      posted := posted + [Event(ev, data, p)];
      return true;
    }

    /** The first part of do_event: the event that has waited longest is taken out. */
    method Take() returns (e: Event<D>)
      requires Valid() && Pending() != []
      modifies this
      ensures Valid() && old(Pending()) == [e] + Pending() && taken == old(taken) + [e] && posted == old(posted)
    {
      hide Slot, Waiting;
      WaitingFirst(events[..], fevent, nevents);
      e := events[fevent];
      fevent := Slot(fevent, 1);
      nevents := nevents - 1;
      taken := taken + [e];
      assert posted == taken + Pending();
    }
  }
}

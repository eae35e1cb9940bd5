/** Timers on a 32-bit clock that wraps. */
module ContikiTimer {
  import opened Arith

  datatype Timer = Timer(start: nat, interval: nat)

  predicate Valid(t: Timer) {
    t.start < WIDE && t.interval < WIDE
  }

  /** timer_set. */
  function Set(interval: nat, now: nat): Timer {
    Timer(now, interval)
  }

  /** timer_reset. */
  function Reset(t: Timer): Timer {
    t.(start := (t.start + t.interval) % WIDE)
  }

  /** timer_restart. */
  function Restart(t: Timer, now: nat): Timer {
    t.(start := now)
  }

  /** timer_expired. */
  predicate Expired(t: Timer, now: nat) {
    t.interval < ((now - t.start) % WIDE + 1) % WIDE
  }

  /** timer_remaining. */
  function Remaining(t: Timer, now: nat): nat {
    (t.start + t.interval - now) % WIDE
  }

  /**
   * A timer started when the real time was started, looked at before the clock has gone round, has expired exactly
   * when its interval has passed, but for the last tick of the round, at which it seems not to have.
   */
  lemma ExpiredExactly(started: nat, time: nat, interval: nat)
    requires started <= time < started + WIDE && interval < WIDE
    ensures Expired(Timer(started % WIDE, interval), time % WIDE) <==> interval <= time - started < WIDE - 1
    ensures time - started <= interval ==>
      Remaining(Timer(started % WIDE, interval), time % WIDE) == interval - (time - started)
  {
    var e := time - started;
    Congruent(time, started);
    assert e % WIDE == e;
    Congruent3(started, interval, time);
  }

  lemma Congruent(a: int, b: int)
    ensures (a % WIDE - b % WIDE) % WIDE == (a - b) % WIDE
  {
    Shift(a % WIDE - b % WIDE, a / WIDE - b / WIDE);
  }

  lemma Congruent3(a: int, b: int, c: int)
    ensures (a % WIDE + b - c % WIDE) % WIDE == (a + b - c) % WIDE
  {
    Shift(a % WIDE + b - c % WIDE, a / WIDE - c / WIDE);
  }

  lemma Shift(x: int, k: int)
    ensures (x + k * WIDE) % WIDE == x % WIDE
  {
  }

  /** Reset from expiry to expiry, a timer does not drift: after k resets it expires k intervals later. */
  lemma {:induction false} ResetsDoNotDrift(started: nat, interval: nat, k: nat)
    requires interval < WIDE
    ensures Resets(Timer(started % WIDE, interval), k) == Timer((started + k * interval) % WIDE, interval)
  {
    if k > 0 {
      ResetsDoNotDrift(started, interval, k - 1);
      var x := started + (k - 1) * interval;
      assert x + interval == started + k * interval;
      Shift(x % WIDE + interval, x / WIDE);
    }
  }

  function Resets(t: Timer, k: nat): Timer {
    if k == 0 then t else Reset(Resets(t, k - 1))
  }
}

/**
 * Processes calling each other: no thread is entered while it is active, so calls nest no deeper than there are
 * processes.
 */
module ContikiProcess {
  datatype Life = NONE | RUNNING | CALLED

  /**
   * A call under way: of a thread by call_process, of exit_process telling the others, of a thread told to exit by
   * exit_process.
   */
  datatype Frame = Thread(p: nat) | Leaving(p: nat, tell: bool) | Parting(p: nat)

  /** Per process its state and whether a poll is due; the process list; the calls under way, the innermost last. */
  datatype Kernel = Kernel(life: seq<Life>, polls: seq<bool>, list: seq<nat>, stack: seq<Frame>)

  datatype Step =
    | Call(p: nat)      // call_process: an event delivered, posted synchronously, or telling of an exit
    | Yield             // the thread returns and will be called again
    | End               // the thread returns for good
    | Exit(p: nat)      // process_exit, by the thread that is running
    | Told              // exit_process has told all other processes
    | Parted            // the thread that was told to exit returns
    | Start(p: nat)     // process_start
    | Poll(p: nat)      // process_poll
    | ServePoll(p: nat) // do_poll reaches p
    | Init(p: nat)      // do_event delivers a posted initialization event

  function Top(k: Kernel): Frame
    requires k.stack != []
  {
    k.stack[|k.stack| - 1]
  }

  function Pop(k: Kernel): Kernel
    requires k.stack != []
  {
    k.(stack := k.stack[..|k.stack| - 1])
  }

  function Push(k: Kernel, f: Frame): Kernel {
    k.(stack := k.stack + [f])
  }

  function WithLife(k: Kernel, p: nat, l: Life): Kernel
    requires p < |k.life|
  {
    k.(life := k.life[p := l])
  }

  function Without(s: seq<nat>, p: nat): seq<nat> {
    if s == [] then [] else if s[0] == p then s[1..] else [s[0]] + Without(s[1..], p)
  }

  /** A thread is running, and may call the kernel. */
  predicate InThread(k: Kernel) {
    k.stack != [] && !Top(k).Leaving?
  }

  /** The kernel can take the step. */
  predicate Enabled(k: Kernel, s: Step) {
    match s
    case Call(p) => p < |k.life| && (k.stack == [] || !Top(k).Leaving? || Top(k).p != p)
    case Yield => k.stack != [] && Top(k).Thread? && Top(k).p < |k.life|
    case End => k.stack != [] && Top(k).Thread? && Top(k).p < |k.life|
    case Exit(p) => p < |k.life| && InThread(k)
    case Told => k.stack != [] && Top(k).Leaving?
    case Parted => k.stack != [] && Top(k).Parting?
    case Start(p) => p < |k.life| && (k.stack == [] || InThread(k))
    case Poll(p) => p < |k.life| && p < |k.polls|
    case ServePoll(p) => p < |k.life| && p < |k.polls| && k.stack == [] && p in k.list && k.polls[p]
    case Init(p) => p < |k.life| && k.stack == []
  }

  /** call_process up to the entry of the thread. */
  function Called(k: Kernel, p: nat): Kernel
    requires p < |k.life|
  {
    if k.life[p] == RUNNING then Push(WithLife(k, p, CALLED), Thread(p)) else k
  }

  /** exit_process up to the first process it tells. */
  function Exited(k: Kernel, p: nat, tell: bool): Kernel
    requires p < |k.life|
  {
    if p !in k.list then k
    else if k.life[p] != NONE then Push(WithLife(k, p, NONE), Leaving(p, tell))
    else k.(list := Without(k.list, p))
  }

  function Do(k: Kernel, s: Step): Kernel
    requires Enabled(k, s)
  {
    match s
    case Call(p) => Called(k, p)
    case Yield => WithLife(Pop(k), Top(k).p, RUNNING)
    case End => Exited(Pop(k), Top(k).p, false)
    case Exit(p) => Exited(k, p, p != Top(k).p)
    case Told => if Top(k).tell then Push(Pop(k), Parting(Top(k).p)) else Pop(k).(list := Without(k.list, Top(k).p))
    case Parted => Pop(k).(list := Without(k.list, Top(k).p))
    case Start(p) => if p in k.list then k else Called(WithLife(k, p, RUNNING).(list := [p] + k.list), p)
    case Poll(p) => if k.life[p] != NONE then k.(polls := k.polls[p := true]) else k
    case ServePoll(p) => Called(WithLife(k, p, RUNNING).(polls := k.polls[p := false]), p)
    case Init(p) => Called(WithLife(k, p, RUNNING), p)
  }

  /** The step enters p's thread. */
  predicate Enters(k: Kernel, s: Step, p: nat)
    requires Enabled(k, s)
  {
    var r := Do(k, s);
    r.stack != [] && !Top(r).Leaving? && Top(r).p == p && (|r.stack| > |k.stack| || (s == Told && Top(k).tell))
  }

  /** p's thread is under way, or p is exiting. */
  predicate Active(k: Kernel, p: nat) {
    exists i :: 0 <= i < |k.stack| && k.stack[i].p == p
  }

  /** p's thread is under way. */
  predicate InUse(k: Kernel, p: nat) {
    exists i :: 0 <= i < |k.stack| && !k.stack[i].Leaving? && k.stack[i].p == p
  }

  /**
   * Threads exit only processes that are not active, and initialization events are posted only to started processes.
   */
  predicate Proper(k: Kernel, s: Step) {
    && (s.Exit? ==> !Active(k, s.p))
    && (s.Init? ==> s.p in k.list)
  }

  predicate DistinctNumbers(s: seq<nat>) {
    forall i, j :: 0 <= i < j < |s| ==> s[i] != s[j]
  }

  /** The state of a process that is active in a frame. */
  function Status(f: Frame): Life {
    if f.Thread? then CALLED else NONE
  }

  predicate Valid(k: Kernel) {
    && (forall i, j :: 0 <= i < j < |k.stack| ==> k.stack[i].p != k.stack[j].p)
    && (forall i :: 0 <= i < |k.stack| ==>
          k.stack[i].p < |k.life| && k.stack[i].p in k.list && k.life[k.stack[i].p] == Status(k.stack[i]))
    && DistinctNumbers(k.list)
    && (forall p: nat :: p < |k.life| && !Active(k, p) ==> k.life[p] == if p in k.list then RUNNING else NONE)
  }

  /** process_init. */
  function Initial(n: nat): Kernel {
    Kernel(seq(n, _ => NONE), seq(n, _ => false), [], [])
  }

  lemma InitialValid(n: nat)
    ensures Valid(Initial(n))
  {
  }

  lemma {:induction false} WithoutKeeps(s: seq<nat>, p: nat)
    requires DistinctNumbers(s)
    ensures DistinctNumbers(Without(s, p)) && forall q :: q in Without(s, p) <==> q in s && q != p
  {
    if s != [] {
      var r := Without(s[1..], p);
      WithoutKeeps(s[1..], p);
      assert forall y :: y in s <==> y == s[0] || y in s[1..];
      assert s[0] !in s[1..];
      if s[0] != p {
        assert forall j :: 0 < j < |[s[0]] + r| ==> ([s[0]] + r)[j] == r[j - 1];
      }
    }
  }

  lemma SameActive(k: Kernel, r: Kernel)
    requires |k.stack| <= |r.stack| && forall i :: 0 <= i < |k.stack| ==> r.stack[i].p == k.stack[i].p
    ensures forall q: nat :: Active(k, q) ==> Active(r, q)
  {
    forall q: nat, i | 0 <= i < |k.stack| && k.stack[i].p == q ensures Active(r, q) {
      assert r.stack[i].p == q;
    }
  }

  /** p is called: it was running, and nothing else was entered for it. */
  lemma CalledKeeps(k: Kernel, p: nat)
    requires Valid(k) && p < |k.life|
    ensures Valid(Called(k, p)) && (k.life[p] == RUNNING ==> !Active(k, p))
  {
    if k.life[p] == RUNNING {
      assert !Active(k, p) && p in k.list;
      Pushed(k, WithLife(k, p, CALLED), Thread(p));
    }
  }

  /** A frame of a process that was not active. */
  lemma Pushed(k: Kernel, m: Kernel, f: Frame)
    requires Valid(k) && f.p < |k.life| && !Active(k, f.p) && f.p in k.list
    requires m.stack == k.stack && m.list == k.list && |m.life| == |k.life| && m.life[f.p] == Status(f)
    requires forall q :: 0 <= q < |k.life| && q != f.p ==> m.life[q] == k.life[q]
    ensures Valid(Push(m, f))
  {
    var r := Push(m, f);
    assert r.stack[|k.stack|] == f && forall i :: 0 <= i < |k.stack| ==> r.stack[i] == k.stack[i];
    SameActive(k, r);
  }

  /** The process of the innermost frame is done with, and stays or is removed. */
  lemma Popped(k: Kernel, r: Kernel)
    requires Valid(k) && k.stack != [] && r.stack == Pop(k).stack && |r.life| == |k.life|
    requires DistinctNumbers(r.list) && forall q :: q != Top(k).p ==> (q in r.list <==> q in k.list)
    requires forall q :: 0 <= q < |k.life| && q != Top(k).p ==> r.life[q] == k.life[q]
    requires r.life[Top(k).p] == if Top(k).p in r.list then RUNNING else NONE
    ensures Valid(r)
  {
    forall q: nat, i | q != Top(k).p && 0 <= i < |k.stack| && k.stack[i].p == q ensures Active(r, q) {
      assert r.stack[i].p == q;
    }
    assert forall q: nat :: q != Top(k).p && Active(k, q) ==> Active(r, q);
  }

  /** The innermost frame is replaced by another one of the same process. */
  lemma Replaced(k: Kernel, r: Kernel, f: Frame)
    requires Valid(k) && k.stack != [] && f.p == Top(k).p && r.stack == Pop(k).stack + [f] && r.list == k.list
    requires |r.life| == |k.life| && r.life[f.p] == Status(f)
    requires forall q :: 0 <= q < |k.life| && q != f.p ==> r.life[q] == k.life[q]
    ensures Valid(r)
  {
    assert |r.stack| == |k.stack| && r.stack[|k.stack| - 1] == f;
    assert forall i :: 0 <= i < |k.stack| - 1 ==> r.stack[i] == k.stack[i];
    SameActive(k, r);
  }

  /** A process not on the list is put there, running. */
  lemma Listed(k: Kernel, p: nat)
    requires Valid(k) && p < |k.life| && p !in k.list
    ensures Valid(WithLife(k, p, RUNNING).(list := [p] + k.list))
  {
    var r := WithLife(k, p, RUNNING).(list := [p] + k.list);
    assert forall q :: q in r.list <==> q == p || q in k.list;
    SameActive(k, r);
    SameActive(r, k);
  }

  /** Outside of all calls, processes on the list are running already. */
  lemma IdleRunning(k: Kernel, p: nat)
    requires Valid(k) && k.stack == [] && p < |k.life| && p in k.list
    ensures k.life[p] == RUNNING && WithLife(k, p, RUNNING) == k
  {
    assert !Active(k, p);
  }

  lemma PollsKeep(k: Kernel, polls: seq<bool>)
    requires Valid(k)
    ensures Valid(k.(polls := polls))
  {
    SameActive(k, k.(polls := polls));
    SameActive(k.(polls := polls), k);
  }

  lemma TopActive(k: Kernel)
    requires Valid(k) && k.stack != []
    ensures Top(k).p < |k.life| && Top(k).p in k.list && Active(k, Top(k).p) && k.life[Top(k).p] == Status(Top(k))
  {
    assert k.stack[|k.stack| - 1].p == Top(k).p;
  }

  /** Removing the process of the innermost frame. */
  lemma RemovedKeeps(k: Kernel)
    requires Valid(k) && k.stack != [] && !Top(k).Thread?
    ensures Valid(Pop(k).(list := Without(k.list, Top(k).p)))
  {
    TopActive(k);
    WithoutKeeps(k.list, Top(k).p);
    Popped(k, Pop(k).(list := Without(k.list, Top(k).p)));
  }

  lemma EndKeeps(k: Kernel)
    requires Valid(k) && Enabled(k, End)
    ensures Valid(Do(k, End))
  {
    var p := Top(k).p;
    TopActive(k);
    Replaced(k, Do(k, End), Leaving(p, false));
  }

  lemma ExitKeeps(k: Kernel, p: nat)
    requires Valid(k) && Enabled(k, Exit(p)) && Proper(k, Exit(p))
    ensures Valid(Do(k, Exit(p)))
  {
    if p in k.list {
      Pushed(k, WithLife(k, p, NONE), Leaving(p, p != Top(k).p));
    }
  }

  /** Every proper step keeps the kernel valid. */
  lemma StepKeeps(k: Kernel, s: Step)
    requires Valid(k) && Enabled(k, s) && Proper(k, s)
    ensures Valid(Do(k, s)) && |Do(k, s).life| == |k.life|
  {
    hide Valid, Active, Without;
    match s
    case Call(p) => CalledKeeps(k, p);
    case Yield =>
      TopActive(k);
      YieldKeeps(k);
    case End => EndKeeps(k);
    case Exit(p) => ExitKeeps(k, p);
    case Told =>
      RemovedKeeps(k);
      if Top(k).tell {
        TopActive(k);
        Replaced(k, Do(k, Told), Parting(Top(k).p));
      }
    case Parted => RemovedKeeps(k);
    case Start(p) =>
      if p !in k.list {
        Listed(k, p);
        CalledKeeps(WithLife(k, p, RUNNING).(list := [p] + k.list), p);
      }
    case Poll(p) => PollsKeep(k, k.polls[p := true]);
    case ServePoll(p) =>
      IdleRunning(k, p);
      PollsKeep(k, k.polls[p := false]);
      CalledKeeps(k.(polls := k.polls[p := false]), p);
    case Init(p) =>
      IdleRunning(k, p);
      CalledKeeps(k, p);
  }

  lemma YieldKeeps(k: Kernel)
    requires Valid(k) && Enabled(k, Yield)
    ensures Valid(Do(k, Yield))
  {
    TopActive(k);
    Popped(k, Do(k, Yield));
  }

  /** No proper step enters a thread that is under way. */
  lemma EntersOnce(k: Kernel, s: Step, p: nat)
    requires Valid(k) && Enabled(k, s) && Proper(k, s) && Enters(k, s, p)
    ensures !InUse(k, p)
  {
    match s
    case Told => assert forall i :: 0 <= i < |k.stack| && k.stack[i].p == p ==> i == |k.stack| - 1;
    case Start(q) => assert q !in k.list;
    case ServePoll(q) =>
    case Init(q) =>
    case _ => CalledKeeps(k, p);
  }

  /** Calls nest no deeper than there are processes. */
  lemma DepthBounded(k: Kernel)
    requires Valid(k)
    ensures |k.stack| <= |k.life|
  {
    var ps := seq(|k.stack|, i requires 0 <= i < |k.stack| => k.stack[i].p);
    Pigeonhole(ps, |k.life|);
  }

  lemma {:induction false} Pigeonhole(ps: seq<nat>, n: nat)
    requires DistinctNumbers(ps) && forall i :: 0 <= i < |ps| ==> ps[i] < n
    ensures |ps| <= n
    decreases n
  {
    if ps != [] {
      assert ps[0] < n;
      var rest := Without(ps, n - 1);
      WithoutKeeps(ps, n - 1);
      WithoutSize(ps, n - 1);
      forall i | 0 <= i < |rest| ensures rest[i] < n - 1 {
        assert rest[i] in rest;
      }
      Pigeonhole(rest, n - 1);
    }
  }

  lemma {:induction false} WithoutSize(s: seq<nat>, p: nat)
    ensures |Without(s, p)| >= |s| - 1
  {
    if s != [] {
      WithoutSize(s[1..], p);
    }
  }

  /** Which processes are on the list after a step: starting puts one on it, and the end of an exit takes it off. */
  lemma ListedAfter(k: Kernel, s: Step, p: nat)
    requires Valid(k) && Enabled(k, s) && Proper(k, s)
    ensures p in Do(k, s).list <==>
      (s == Start(p) || p in k.list) && !(EndsExit(k, s) && p == Top(k).p)
  {
    if EndsExit(k, s) {
      WithoutKeeps(k.list, Top(k).p);
    }
  }

  /** The last step of exit_process. */
  predicate EndsExit(k: Kernel, s: Step)
    requires Enabled(k, s)
  {
    s == Parted || (s == Told && !Top(k).tell)
  }

  /** Exiting a process on the list marks it as not running before anybody is told, and leads to its removal. */
  lemma ExitLeads(k: Kernel, p: nat)
    requires Valid(k) && Enabled(k, Exit(p)) && Proper(k, Exit(p)) && p in k.list
    ensures var r := Do(k, Exit(p));
      && r.life[p] == NONE && p in r.list && Enabled(r, Told) && Top(r) == Leaving(p, true)
      && Enabled(Do(r, Told), Parted) && p !in Do(Do(r, Told), Parted).list
      && Do(Do(r, Told), Parted).stack == k.stack
  {
    assert !Active(k, p);
    assert Top(k).p != p by {
      assert k.stack[|k.stack| - 1].p == Top(k).p;
    }
    WithoutKeeps(k.list, p);
    assert (k.stack + [Leaving(p, true)])[..|k.stack|] == k.stack;
    assert (k.stack + [Parting(p)])[..|k.stack|] == k.stack;
  }

  /** An event reaches a thread exactly if its process is on the list and not active. */
  lemma CallEnters(k: Kernel, p: nat)
    requires Valid(k) && Enabled(k, Call(p))
    ensures Enters(k, Call(p), p) <==> p in k.list && !Active(k, p)
    ensures !(p in k.list && !Active(k, p)) ==> Do(k, Call(p)) == k
  {
    if Active(k, p) {
      var i :| 0 <= i < |k.stack| && k.stack[i].p == p;
      assert k.life[p] == Status(k.stack[i]);
    }
  }

  /** Starting a process that is not on the list enters its thread; starting it again does nothing. */
  lemma StartEnters(k: Kernel, p: nat)
    requires Valid(k) && Enabled(k, Start(p))
    ensures Enters(k, Start(p), p) <==> p !in k.list
    ensures p in k.list ==> Do(k, Start(p)) == k
    ensures p !in k.list ==> Do(k, Start(p)).list == [p] + k.list && Do(k, Start(p)).life[p] == CALLED
  {
  }

  /** A process on the list that is not exiting can be polled, and none that is not on the list. */
  lemma PollAsks(k: Kernel, p: nat)
    requires Valid(k) && Enabled(k, Poll(p))
    ensures p in k.list && !(exists i :: 0 <= i < |k.stack| && k.stack[i].p == p && !k.stack[i].Thread?) ==>
      Do(k, Poll(p)) == k.(polls := k.polls[p := true])
    ensures p !in k.list ==> Do(k, Poll(p)) == k
  {
    if Active(k, p) {
      var i :| 0 <= i < |k.stack| && k.stack[i].p == p;
      assert k.life[p] == Status(k.stack[i]) && k.stack[i].p in k.list;
    }
  }

  /** A poll is not forgotten before it is served, and nothing is polled that did not ask for it. */
  lemma PollWaits(k: Kernel, s: Step, p: nat)
    requires Enabled(k, s) && p < |k.polls|
    ensures |Do(k, s).polls| == |k.polls|
    ensures s != ServePoll(p) && k.polls[p] ==> Do(k, s).polls[p]
    ensures s != Poll(p) && !k.polls[p] ==> !Do(k, s).polls[p]
  {
  }

  /** Once no call is under way, a poll that waits can be served; that enters the thread and settles the poll. */
  lemma PollServed(k: Kernel, p: nat)
    requires Valid(k) && p < |k.life| && p < |k.polls|
    ensures Enabled(k, ServePoll(p)) <==> k.stack == [] && p in k.list && k.polls[p]
    ensures Enabled(k, ServePoll(p)) ==>
      Enters(k, ServePoll(p), p) && Do(k, ServePoll(p)).polls == k.polls[p := false]
  {
  }

  /** A run: each step is possible and proper. */
  predicate Run(k: Kernel, steps: seq<Step>)
    decreases |steps|
  {
    steps == [] || (Enabled(k, steps[0]) && Proper(k, steps[0]) && Run(Do(k, steps[0]), steps[1..]))
  }

  function After(k: Kernel, steps: seq<Step>): Kernel
    requires Run(k, steps)
    decreases |steps|
  {
    if steps == [] then k else After(Do(k, steps[0]), steps[1..])
  }

  /**
   * In every run from the start, calls never nest deeper than there are processes, and whatever proper step comes
   * next enters no thread that is under way.
   */
  lemma {:induction false} RunsAreSafe(n: nat, k: Kernel, steps: seq<Step>)
    requires Valid(k) && |k.life| == n && Run(k, steps)
    ensures Valid(After(k, steps)) && |After(k, steps).stack| <= n
    ensures forall s, p ::
      Enabled(After(k, steps), s) && Proper(After(k, steps), s) && Enters(After(k, steps), s, p) ==>
      !InUse(After(k, steps), p)
    decreases |steps|
  {
    hide Valid, Do, Enters, InUse, Proper;
    if steps == [] {
      DepthBounded(k);
      forall s, p | Enabled(k, s) && Proper(k, s) && Enters(k, s, p) ensures !InUse(k, p) {
        EntersOnce(k, s, p);
      }
    } else {
      StepKeeps(k, steps[0]);
      RunsAreSafe(n, Do(k, steps[0]), steps[1..]);
    }
  }

  /** In every run from the start, only those are polled for whom somebody asked. */
  lemma NoneUnasked(n: nat, steps: seq<Step>, p: nat)
    requires p < n && Run(Initial(n), steps) && Enabled(After(Initial(n), steps), ServePoll(p))
    ensures Poll(p) in steps
  {
    if Poll(p) !in steps {
      NotAsked(Initial(n), steps, p);
    }
  }

  lemma {:induction false} NotAsked(k: Kernel, steps: seq<Step>, p: nat)
    requires Run(k, steps) && Poll(p) !in steps && p < |k.polls| && !k.polls[p]
    ensures |After(k, steps).polls| == |k.polls| && !After(k, steps).polls[p]
    decreases |steps|
  {
    hide Do, Proper, Enabled;
    if steps == [] {
    } else {
      PollWaits(k, steps[0], p);
      NotAsked(Do(k, steps[0]), steps[1..], p);
    }
  }

  /** A run in two parts. */
  lemma {:induction false} RunInTwo(k: Kernel, a: seq<Step>, b: seq<Step>)
    requires Run(k, a) && Run(After(k, a), b)
    ensures Run(k, a + b) && After(k, a + b) == After(After(k, a), b)
    decreases |a|
  {
    hide Do, Proper, Enabled;
    if a == [] {
      assert a + b == b;
    } else {
      assert (a + b)[0] == a[0] && (a + b)[1..] == a[1..] + b;
      RunInTwo(Do(k, a[0]), a[1..], b);
    }
  }

  lemma OneStep(k: Kernel, s: Step)
    requires Enabled(k, s) && Proper(k, s)
    ensures Run(k, [s]) && After(k, [s]) == Do(k, s)
  {
    hide Do, Proper, Enabled;
    assert [s][1..] == [];
  }

  /** After this run of proper steps from k, the next one enters p's thread while it is under way. */
  predicate Reenters(k: Kernel, steps: seq<Step>, next: Step, p: nat) {
    && Run(k, steps) && Enabled(After(k, steps), next) && Proper(After(k, steps), next)
    && Enters(After(k, steps), next, p) && InUse(After(k, steps), p)
  }

  lemma ReentersLater(k: Kernel, a: seq<Step>, b: seq<Step>, next: Step, p: nat)
    requires Run(k, a) && Reenters(After(k, a), b, next, p)
    ensures Reenters(k, a + b, next, p)
  {
    RunInTwo(k, a, b);
  }

  lemma ReentersNow(k: Kernel, next: Step, p: nat, i: nat)
    requires Enabled(k, next) && Proper(k, next) && Enters(k, next, p)
    requires i < |k.stack| && !k.stack[i].Leaving? && k.stack[i].p == p
    ensures Reenters(k, [], next, p)
  {
  }

  /** A thread under way that is off the list is entered again when it is started. */
  lemma StartReenters(k: Kernel, p: nat, i: nat)
    requires p < |k.life| && p !in k.list && InThread(k)
    requires i < |k.stack| && !k.stack[i].Leaving? && k.stack[i].p == p
    ensures Reenters(k, [], Start(p), p)
  {
    var r := Do(k, Start(p));
    assert r.stack == k.stack + [Thread(p)];
    ReentersNow(k, Start(p), p, i);
  }

  /** Somewhere below, exit_process is telling others of p, which nevertheless runs. */
  predicate Loose(k: Kernel, i: nat, p: nat) {
    && i < |k.stack| && k.stack[i].Leaving? && k.stack[i].p == p && p < |k.life| && k.life[p] == RUNNING
    && DistinctNumbers(k.list)
    && forall j :: 0 <= j < |k.stack| && j != i ==> k.stack[j].p != p && k.stack[j].p < |k.life|
  }

  /** The calls above that return. */
  lemma {:induction false} Unwound(k: Kernel, i: nat, p: nat) returns (steps: seq<Step>)
    requires Loose(k, i, p)
    ensures Run(k, steps) && Loose(After(k, steps), i, p) && After(k, steps).stack == k.stack[..i + 1]
    decreases |k.stack|, Top(k).Leaving? && Top(k).tell
  {
    steps := [];
    if i + 1 < |k.stack| {
      var s := if Top(k).Thread? then Yield else if Top(k).Leaving? then Told else Parted;
      WithoutKeeps(k.list, Top(k).p);
      OneStep(k, s);
      var r := Do(k, s);
      assert forall j :: 0 <= j < |k.stack| - 1 ==> r.stack[j] == k.stack[j];
      assert r.stack[..i + 1] == k.stack[..i + 1];
      steps := Unwound(r, i, p);
      RunInTwo(k, [s], steps);
      steps := [s] + steps;
    } else {
      assert k.stack[..i + 1] == k.stack;
    }
  }

  /** Once they have, p can be entered while it is under way. */
  lemma LooseReenters(k: Kernel, i: nat, p: nat) returns (steps: seq<Step>, next: Step)
    requires Loose(k, i, p) && i + 1 == |k.stack|
    ensures Reenters(k, steps, next, p)
  {
    var r := Do(k, Told);
    OneStep(k, Told);
    if Top(k).tell {
      assert r.stack == k.stack[..i] + [Parting(p)];
      ReentersNow(r, Call(p), p, i);
      ReentersLater(k, [Told], [], Call(p), p);
      return [Told] + [], Call(p);
    } else {
      WithoutKeeps(k.list, p);
      var t := Do(r, Call(p));
      OneStep(r, Call(p));
      assert t.stack == k.stack[..i] + [Thread(p)];
      StartReenters(t, p, i);
      ReentersLater(r, [Call(p)], [], Start(p), p);
      ReentersLater(k, [Told], [Call(p)] + [], Start(p), p);
      return [Told] + ([Call(p)] + []), Start(p);
    }
  }

  /** A process of which others are being told is removed and started anew. */
  lemma LeavingReenters(k: Kernel, p: nat, i: nat) returns (steps: seq<Step>, next: Step)
    requires Valid(k) && Enabled(k, Exit(p)) && i < |k.stack| && k.stack[i].p == p && k.stack[i].Leaving?
    ensures Reenters(Do(k, Exit(p)), steps, next, p)
  {
    var k1 := Do(k, Exit(p));
    WithoutKeeps(k.list, p);
    var k2 := Do(k1, Start(p));
    OneStep(k1, Start(p));
    var k3 := Do(k2, Yield);
    OneStep(k2, Yield);
    assert k3.stack == k.stack;
    var up := Unwound(k3, i, p);
    steps, next := LooseReenters(After(k3, up), i, p);
    ReentersLater(k3, up, steps, next, p);
    ReentersLater(k2, [Yield], up + steps, next, p);
    ReentersLater(k1, [Start(p)], [Yield] + (up + steps), next, p);
    steps := [Start(p)] + ([Yield] + (up + steps));
  }

  /** A process whose thread is under way exits. */
  lemma InUseReenters(k: Kernel, p: nat, i: nat) returns (steps: seq<Step>, next: Step)
    requires Valid(k) && Enabled(k, Exit(p)) && i < |k.stack| && k.stack[i].p == p && !k.stack[i].Leaving?
    ensures Reenters(Do(k, Exit(p)), steps, next, p)
  {
    var r := Do(k, Exit(p));
    WithoutKeeps(k.list, p);
    if k.stack[i].Parting? {
      StartReenters(r, p, i);
      return [], Start(p);
    }
    assert r.stack == k.stack + [Leaving(p, p != Top(k).p)];
    if p == Top(k).p {
      var t := Do(r, Told);
      OneStep(r, Told);
      assert t.stack == k.stack;
      StartReenters(t, p, i);
      ReentersLater(r, [Told], [], Start(p), p);
      return [Told] + [], Start(p);
    } else {
      assert Do(r, Told).stack == k.stack + [Parting(p)];
      ReentersNow(r, Told, p, i);
      return [], Told;
    }
  }

  /** After any step that is not proper, proper steps lead to a thread being entered while it is under way. */
  lemma ImproperReenters(k: Kernel, s: Step) returns (steps: seq<Step>, next: Step, p: nat)
    requires Valid(k) && Enabled(k, s) && !Proper(k, s)
    ensures Reenters(Do(k, s), steps, next, p)
  {
    p := s.p;
    if s.Init? {
      assert Do(k, s).stack == [Thread(p)];
      StartReenters(Do(k, s), p, 0);
      return [], Start(p), p;
    } else {
      var i :| 0 <= i < |k.stack| && k.stack[i].p == p;
      if k.stack[i].Leaving? {
        steps, next := LeavingReenters(k, p, i);
      } else {
        steps, next := InUseReenters(k, p, i);
      }
    }
  }

  /** From k on, no run of proper steps enters a thread that is under way. */
  ghost predicate Safe(k: Kernel) {
    forall steps, next, p :: !Reenters(k, steps, next, p)
  }

  /** A step of a valid kernel is proper exactly when the kernel is safe after it. */
  lemma ProperExactly(k: Kernel, s: Step)
    requires Valid(k) && Enabled(k, s)
    ensures Proper(k, s) <==> Safe(Do(k, s))
  {
    hide Valid, Do, Proper, Reenters;
    if Proper(k, s) {
      StepKeeps(k, s);
      forall steps, next, p ensures !Reenters(Do(k, s), steps, next, p) {
        NeverReenters(Do(k, s), steps, next, p);
      }
    } else {
      var steps, next, p := ImproperReenters(k, s);
      assert Reenters(Do(k, s), steps, next, p);
    }
  }

  lemma NeverReenters(k: Kernel, steps: seq<Step>, next: Step, p: nat)
    requires Valid(k)
    ensures !Reenters(k, steps, next, p)
  {
    hide Valid, Do, Enters, InUse, Proper, Enabled;
    if Run(k, steps) {
      RunsAreSafe(|k.life|, k, steps);
    }
  }

  /**
   * An initialization event posted to a process that was never started lets its thread be entered while it is under
   * way.
   */
  lemma PostedInitReenters()
    ensures var k := Do(Initial(1), Init(0));
      Enabled(k, Start(0)) && Enters(k, Start(0), 0) && InUse(k, 0)
  {
    var k := Do(Initial(1), Init(0));
    assert k.stack == [Thread(0)] && k.stack[0].p == 0;
  }

  /** So does a thread that exits the process which called it. */
  lemma ExitedCallerReenters()
    ensures var k0 := Kernel([CALLED, CALLED], [false, false], [1, 0], [Thread(0), Thread(1)]);
      && Valid(k0) && Enabled(k0, Exit(0)) && Enabled(Do(k0, Exit(0)), Told)
      && Enters(Do(k0, Exit(0)), Told, 0) && InUse(Do(k0, Exit(0)), 0)
  {
    var k0 := Kernel([CALLED, CALLED], [false, false], [1, 0], [Thread(0), Thread(1)]);
    assert k0.stack[0].p == 0 && k0.stack[1].p == 1;
    assert Active(k0, 0) && Active(k0, 1);
    var k := Do(k0, Exit(0));
    assert k.stack == [Thread(0), Thread(1), Leaving(0, true)] && k.stack[0].p == 0;
  }
}

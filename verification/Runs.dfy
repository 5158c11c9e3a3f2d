/** What holds over every run of the scheduler, whatever the interleaving of its steps. */
module Runs {
  import opened Scheduler
  import opened Sequences
  import opened SchedulerSteps
  import opened Timer

  /** One kernel section. */
  datatype Step<!T(==), !S(==)> =
    | Reschedule                        // the time slice of the running thread is up
    | Block(t: T, to: nat)
    | Sleep(until: nat)                 // nsleep_until by the running thread, for a time still to come
    | Unblock(t: T)
    | Tick(nsec: nat)
    | Spawn(t: T, until: nat)
    | Reap
    | NewSem(s: S, max: nat)
    | DropSem(s: S)
    | Lock(s: S)
    | TryLock(s: S)
    | Unlock(s: S)
    | Dismiss(s: S)                     // one turn of reset_destroy

  /** Who may do what: idle never blocks, and a thread that waits on a semaphore is only
      moved by that semaphore. */
  ghost predicate Legal<T, S>(m: Machine<T, S>, step: Step<T, S>) {
    match step
    case Reschedule => true
    case Block(t, to) => t in m.state && m.state[t] < T_LISTED && t != m.idle && (to == T_READY || to == T_DESTROY)
    case Sleep(until) => m.cur != m.idle
    case Unblock(t) => t in m.state && m.state[t] < T_LISTED && t != m.cur
    case Tick(_) => true
    case Spawn(t, _) => t !in m.state
    case Reap => |m.lists| == T_LISTS && m.lists[T_DESTROY] != []
    case NewSem(s, max) => s !in m.sems
    case DropSem(s) => s in m.sems && m.sems[s].waiting == []
    case Lock(s) => s in m.sems && (m.sems[s].thr < m.sems[s].max || m.cur != m.idle)
    case TryLock(s) => s in m.sems
    case Unlock(s) => s in m.sems
    case Dismiss(s) => s in m.sems && m.sems[s].waiting != []
  }

  function Slept<T(==), S(==)>(m: Machine<T, S>, until: nat): Machine<T, S> {
    m.(deadline := m.deadline[m.cur := until])
  }

  ghost function Next<T, S>(m: Machine<T, S>, step: Step<T, S>): Machine<T, S>
    requires Inv(m) && Legal(m, step)
  {
    ListedState(m, T_RUNNING, m.cur);
    KnownThreads(m, m.cur);
    match step
    case Reschedule => Scheduled(m)
    case Block(t, to) => KnownThreads(m, t); Blocked(m, t, to)
    case Sleep(until) => Blocked(Slept(m, until), m.cur, T_SLEEP)
    case Unblock(t) => KnownThreads(m, t); Unblocked(m, t)
    case Tick(nsec) => Ticked(m, nsec)
    case Spawn(t, until) => Spawned(m, t, until)
    case Reap => Reaped(m)
    case NewSem(s, max) => m.(sems := m.sems[s := Sem(max, 0, [])])
    case DropSem(s) => m.(sems := m.sems - {s})
    case Lock(s) => Locked(m, s)
    case TryLock(s) => TryLocked(m, s)
    case Unlock(s) => UnlockInv(m, s); Unlocked(m, s)
    case Dismiss(s) => Waiter(m, s); Dismissed(m, s)
  }

  lemma SleptInv<T, S>(m: Machine<T, S>, until: nat)
    requires Inv(m)
    ensures Inv(Slept(m, until))
  {
    hide ListsRight, SemsRight;
  }

  lemma SemsInv<T, S>(m: Machine<T, S>, s: S, max: nat)
    requires Inv(m)
    ensures s !in m.sems ==> Inv(m.(sems := m.sems[s := Sem(max, 0, [])]))
    ensures s in m.sems && m.sems[s].waiting == [] ==> Inv(m.(sems := m.sems - {s}))
  {
    SemPlaced(m, s, max);
    hide Placed;
  }

  lemma TryLockInv<T, S>(m: Machine<T, S>, s: S)
    requires Inv(m) && s in m.sems
    ensures Inv(TryLocked(m, s))
    ensures TryLocked(m, s) == if m.sems[s].thr < m.sems[s].max
      then m.(sems := m.sems[s := Sem(m.sems[s].max, m.sems[s].thr + 1, [])]) else m
    ensures m.sems[s].thr < m.sems[s].max ==> m.sems[s].waiting == []
  {
    hide Placed;
    if m.sems[s].thr < m.sems[s].max { TakePermit(m, s); }
  }

  /** Every step of every run keeps the invariant: each thread is in exactly one place, its
      state says which, RUNNING is exactly the running thread, and idle is READY whenever
      it does not run. */
  lemma StepInv<T, S>(m: Machine<T, S>, step: Step<T, S>)
    requires Inv(m) && Legal(m, step)
    ensures Inv(Next(m, step))
  {
    hide Inv, Placed, Scheduled, Blocked, Unblocked, Locked, Unlocked, Ticked, Spawned, Reaped, Dismissed, TryLocked;
    match step
    case Reschedule => ScheduleInv(m);
    case Block(t, to) => BlockInv(m, t, to);
    case Sleep(until) => SleepInv(m, until);
    case Unblock(t) => UnblockInv(m, t);
    case Tick(nsec) => TickInv(m, nsec);
    case Spawn(t, until) => SpawnInv(m, t, until);
    case Reap => ReapInv(m);
    case NewSem(s, max) => SemsInv(m, s, max);
    case DropSem(s) => SemsInv(m, s, 0);
    case Lock(s) => LockInv(m, s);
    case TryLock(s) => TryLockInv(m, s);
    case Unlock(s) => UnlockInv(m, s);
    case Dismiss(s) => DismissInv(m, s);
  }

  lemma SleepInv<T, S>(m: Machine<T, S>, until: nat)
    requires Inv(m) && m.cur != m.idle
    ensures var n := Slept(m, until);
      Known(n, m.cur) && Known(n, n.cur) && Inv(Blocked(n, m.cur, T_SLEEP)) && Blocked(n, m.cur, T_SLEEP).sems == m.sems
      && m.lists[T_READY] != [] && Blocked(n, m.cur, T_SLEEP).cur == m.lists[T_READY][0] != m.cur
      && Blocked(n, m.cur, T_SLEEP).lists[T_READY] == m.lists[T_READY][1..] + []
      && Blocked(n, m.cur, T_SLEEP).lists[T_SLEEP] == m.lists[T_SLEEP] + [m.cur]
      && Elsewhere(n, Blocked(n, m.cur, T_SLEEP), {T_RUNNING, T_READY, T_SLEEP})
      && Blocked(n, m.cur, T_SLEEP).state == m.state[m.cur := T_SLEEP][m.lists[T_READY][0] := T_RUNNING]
  {
    SleptInv(m, until);
    ListedState(m, T_RUNNING, m.cur);
    BlockInv(Slept(m, until), m.cur, T_SLEEP);
  }

  // ---------------------------------------------------------------- runs

  /** m to n by a legal step. A step is only defined where the invariant holds; that it always
      does is RunInv. */
  ghost predicate IsStep<T, S>(m: Machine<T, S>, step: Step<T, S>, n: Machine<T, S>) {
    Inv(m) ==> Legal(m, step) && n == Next(m, step)
  }

  lemma StepsOf<T, S>(m: Machine<T, S>)
    requires Known(m, m.cur)
    ensures IsStep(m, Reschedule, Scheduled(m))
    ensures forall nsec | Inv(m) :: IsStep(m, Tick(nsec), Ticked(m, nsec))
    ensures m.cur != m.idle ==>
      forall until :: var n := Slept(m, until); Known(n, m.cur) && IsStep(m, Sleep(until), Blocked(n, m.cur, T_SLEEP))
  {
    hide Inv, Scheduled, Ticked, Blocked;
  }

  lemma StepsOfThread<T, S>(m: Machine<T, S>, t: T, to: nat)
    requires Known(m, m.cur) && Known(m, t) && m.state[t] < T_LISTED
    ensures t != m.idle && (to == T_READY || to == T_DESTROY) ==> IsStep(m, Step.Block(t, to), Blocked(m, t, to))
    ensures t != m.cur ==> IsStep(m, Step.Unblock(t), Unblocked(m, t))
  {
    hide Inv, Blocked, Unblocked;
  }

  lemma StepsOfSem<T, S>(m: Machine<T, S>, s: S)
    requires Known(m, m.cur) && s in m.sems && (m.sems[s].waiting != [] ==> Known(m, m.sems[s].waiting[0]))
    ensures m.sems[s].thr < m.sems[s].max || m.cur != m.idle ==> IsStep(m, Step.Lock(s), Locked(m, s))
    ensures IsStep(m, Step.Unlock(s), Unlocked(m, s))
    ensures m.sems[s].waiting != [] ==> IsStep(m, Dismiss(s), Dismissed(m, s))
  {
    hide Inv, Locked, Unlocked, Dismissed;
  }

  /** ms[0], ms[1], ... by legal steps, from a machine that satisfies the invariant. */
  ghost predicate IsRun<T, S>(ms: seq<Machine<T, S>>, steps: seq<Step<T, S>>) {
    && |ms| == |steps| + 1
    && Inv(ms[0])
    && forall i :: 0 <= i < |steps| ==> IsStep(ms[i], steps[i], ms[i + 1])
  }

  /** Every machine of every run satisfies the invariant. */
  lemma {:induction false} RunInv<T, S>(ms: seq<Machine<T, S>>, steps: seq<Step<T, S>>, i: nat)
    requires IsRun(ms, steps) && i < |ms|
    ensures Inv(ms[i])
  {
    hide Inv, Legal, Next;
    if i > 0 {
      RunInv(ms, steps, i - 1);
      assert IsStep(ms[i - 1], steps[i - 1], ms[i]);
      StepInv(ms[i - 1], steps[i - 1]);
    }
  }

  /** So every step of a run is a legal one. */
  lemma RunSteps<T, S>(ms: seq<Machine<T, S>>, steps: seq<Step<T, S>>, i: nat)
    requires IsRun(ms, steps) && i < |steps|
    ensures Inv(ms[i]) && Legal(ms[i], steps[i]) && ms[i + 1] == Next(ms[i], steps[i])
  {
    hide Inv, Legal, Next;
    RunInv(ms, steps, i);
    assert IsStep(ms[i], steps[i], ms[i + 1]);
  }

  lemma RunPrefix<T, S>(ms: seq<Machine<T, S>>, steps: seq<Step<T, S>>)
    requires IsRun(ms, steps) && steps != []
    ensures IsRun(ms[..|ms| - 1], steps[..|steps| - 1])
  {
    hide Inv, Legal, Next;
  }

  /** Context switches along a run: schedule calls that had an effect. */
  ghost function Switches<T, S>(ms: seq<Machine<T, S>>): nat {
    if |ms| <= 1 then 0
    else Switches(ms[..|ms| - 1]) + if ms[|ms| - 1].cur != ms[|ms| - 2].cur then 1 else 0
  }

  function IndexOf<T(==)>(l: seq<T>, t: T): nat {
    if l == [] || l[0] == t then 0 else 1 + IndexOf(l[1..], t)
  }

  lemma IndexAppend<T>(l: seq<T>, u: seq<T>, t: T)
    requires t in l
    ensures IndexOf(l + u, t) == IndexOf(l, t)
  {
    if l[0] != t {
      assert (l + u)[1..] == l[1..] + u;
      IndexAppend(l[1..], u, t);
    }
  }

  lemma IndexTail<T>(l: seq<T>, t: T)
    requires l != [] && t in l && t != l[0]
    ensures t in l[1..] && IndexOf(l[1..], t) + 1 == IndexOf(l, t)
  {
  }

  lemma IndexWithout<T>(l: seq<T>, x: T, t: T)
    requires t in l && t != x
    ensures t in Without(l, x) && IndexOf(Without(l, x), t) <= IndexOf(l, t)
  {
    if l[0] != t && l[0] != x {
      IndexWithout(l[1..], x, t);
      assert Without(l, x)[1..] == Without(l[1..], x);
    } else if l[0] == x {
      IndexTail(l, t);
    }
  }

  /** The place in READY never gets worse, and every switch improves it. */
  ghost predicate Advances<T>(r: seq<T>, r': seq<T>, switched: bool) {
    forall t :: t in r && t in r' ==> IndexOf(r', t) + (if switched then 1 else 0) <= IndexOf(r, t)
  }

  /** READY after a step: grown at the end, shrunk somewhere, or with its head gone. */
  lemma Grows<T>(r: seq<T>, u: seq<T>)
    ensures Advances(r, r + u, false)
  {
    forall t | t in r ensures IndexOf(r + u, t) <= IndexOf(r, t) { IndexAppend(r, u, t); }
  }

  lemma Loses<T>(r: seq<T>, x: T)
    requires x !in Without(r, x)
    ensures Advances(r, Without(r, x), false)
  {
    forall t | t in r && t in Without(r, x) ensures IndexOf(Without(r, x), t) <= IndexOf(r, t) {
      IndexWithout(r, x, t);
    }
  }

  lemma Hands<T>(r: seq<T>, u: seq<T>)
    requires r != [] && Distinct(r) && r[0] !in u
    ensures Advances(r, r[1..] + u, true)
  {
    assert r[0] !in r[1..];
    forall t | t in r && t in r[1..] + u ensures IndexOf(r[1..] + u, t) + 1 <= IndexOf(r, t) {
      IndexTail(r, t);
      IndexAppend(r[1..], u, t);
    }
  }

  /** READY of the machine before and after, and whether the step switched. */
  ghost predicate StepAdvances<T, S>(m: Machine<T, S>, n: Machine<T, S>) {
    |m.lists| == T_LISTS && |n.lists| == T_LISTS && Advances(m.lists[T_READY], n.lists[T_READY], n.cur != m.cur)
  }

  lemma HandsOver<T, S>(m: Machine<T, S>, n: Machine<T, S>, u: seq<T>)
    requires Inv(m) && |n.lists| == T_LISTS && m.lists[T_READY] != [] && n.cur != m.cur
    requires n.lists[T_READY] == m.lists[T_READY][1..] + u && (u == [] || u == [m.cur])
    ensures StepAdvances(m, n)
  {
    ListedState(m, T_RUNNING, m.cur);
    ListedState(m, T_READY, m.lists[T_READY][0]);
    hide Inv, Advances;
    Hands(m.lists[T_READY], u);
  }

  lemma KeepsOn<T, S>(m: Machine<T, S>, n: Machine<T, S>, u: seq<T>)
    requires |m.lists| == T_LISTS && |n.lists| == T_LISTS && n.lists[T_READY] == m.lists[T_READY] + u
    requires n.cur == m.cur || m.lists[T_READY] == []
    ensures StepAdvances(m, n)
  {
    Grows(m.lists[T_READY], u);
  }

  lemma MoveAdvances<T, S>(m: Machine<T, S>, t: T, to: nat)
    requires Inv(m) && t in m.state && m.state[t] < T_LISTED && to < T_LISTED
    ensures Known(m, t) && StepAdvances(m, Moved(m, t, to))
  {
    ListedState(m, T_READY, t);
    KnownThreads(m, t);
    MovePlaced(m, t, to);
    MovedKeeps(m, t, to);
    hide Inv, Placed, Moved, Advances;
    var r := m.lists[T_READY];
    assert r + [] == r;
    if m.state[t] == to {
      MovedNowhere(m, t, to);
      KeepsOn(m, Moved(m, t, to), []);
    } else if m.state[t] == T_READY {
      WithoutIs(r, t);
      Loses(r, t);
    } else {
      KeepsOn(m, Moved(m, t, to), if to == T_READY then [t] else []);
    }
  }

  lemma MovedNowhere<T, S>(m: Machine<T, S>, t: T, to: nat)
    requires Known(m, t) && to < T_LISTED && m.state[t] == to
    ensures Moved(m, t, to) == m
  {
  }

  /** No step moves a thread back in READY, and every switch moves all of them forward. */
  lemma ReadyAdvances<T, S>(m: Machine<T, S>, step: Step<T, S>)
    requires Inv(m) && Legal(m, step)
    ensures StepAdvances(m, Next(m, step))
  {
    StepInv(m, step);
    var n := Next(m, step);
    assert |m.lists| == T_LISTS && |n.lists| == T_LISTS by { ListedState(m, 0, m.cur); ListedState(n, 0, n.cur); }
    if step.Lock? || step.TryLock? || step.Unlock? || step.Dismiss? || step.NewSem? || step.DropSem? {
      SemaphoreAdvances(m, step);
    } else {
      ThreadAdvances(m, step);
    }
  }

  lemma ThreadAdvances<T, S>(m: Machine<T, S>, step: Step<T, S>)
    requires Inv(m) && Legal(m, step) && |m.lists| == T_LISTS && |Next(m, step).lists| == T_LISTS
    requires step.Reschedule? || step.Block? || step.Sleep? || step.Unblock? || step.Tick? || step.Spawn? || step.Reap?
    ensures StepAdvances(m, Next(m, step))
  {
    hide Inv, Placed, Scheduled, Blocked, Unblocked, Ticked, StepAdvances;
    var n, r := Next(m, step), m.lists[T_READY];
    assert r + [] == r;
    match step
    case Reschedule =>
      ScheduleInv(m);
      if r == [] { KeepsOn(m, n, []); } else { HandsOver(m, n, [m.cur]); }
    case Block(t, to) =>
      BlockInv(m, t, to);
      if t == m.cur { HandsOver(m, n, if to == T_READY then [t] else []); } else { MoveAdvances(m, t, to); }
    case Sleep(until) =>
      SleepInv(m, until);
      HandsOver(m, n, []);
    case Unblock(t) =>
      UnblockInv(m, t);
      if n.cur == m.cur { KeepsOn(m, n, if m.state[t] == T_READY then [] else [t]); }
      else if r == [] { KeepsOn(m, n, [m.cur]); }
      else { HandsOver(m, n, [m.cur]); }
    case Tick(nsec) =>
      TickInv(m, nsec);
      KeepsOn(m, n, if n.cur == m.cur then Due(m, m.lists[T_SLEEP], nsec) else n.lists[T_READY]);
    case Spawn(t, _) => KeepsOn(m, n, [t]);
    case Reap => KeepsOn(m, n, []);
  }

  lemma SemaphoreAdvances<T, S>(m: Machine<T, S>, step: Step<T, S>)
    requires Inv(m) && Legal(m, step) && |m.lists| == T_LISTS && |Next(m, step).lists| == T_LISTS
    requires step.Lock? || step.TryLock? || step.Unlock? || step.Dismiss? || step.NewSem? || step.DropSem?
    ensures StepAdvances(m, Next(m, step))
  {
    hide Inv, Placed, Locked, Unlocked, Dismissed, StepAdvances;
    var n, r := Next(m, step), m.lists[T_READY];
    assert r + [] == r;
    match step
    case Lock(s) =>
      LockInv(m, s);
      if m.sems[s].thr < m.sems[s].max { KeepsOn(m, n, []); } else { FullLock(m, s); HandsOver(m, n, []); }
    case Unlock(s) =>
      UnlockInv(m, s);
      KeepsOn(m, n, if n.cur != m.cur then n.lists[T_READY]
        else if m.sems[s].waiting != [] then [m.sems[s].waiting[0]] else []);
    case Dismiss(s) =>
      DismissInv(m, s);
      KeepsOn(m, n, []);
    case _ => KeepsOn(m, n, []);
  }

  lemma FullLock<T, S>(m: Machine<T, S>, s: S)
    requires Inv(m) && s in m.sems && m.sems[s].thr >= m.sems[s].max
    ensures m.sems[s].thr == m.sems[s].max
  {
    assert Counted(m.sems[s]);
  }

  /** Bounded wait: while a thread stays in READY, there are at most as many context switches
      as there were threads ahead of it. */
  lemma {:induction false} BoundedWait<T, S>(ms: seq<Machine<T, S>>, steps: seq<Step<T, S>>, t: T)
    requires IsRun(ms, steps)
    requires forall i :: 0 <= i < |ms| ==> |ms[i].lists| == T_LISTS && t in ms[i].lists[T_READY]
    ensures Switches(ms) + IndexOf(ms[|ms| - 1].lists[T_READY], t) <= IndexOf(ms[0].lists[T_READY], t)
    decreases |ms|
  {
    var k := |ms| - 1;
    if k > 0 {
      RunPrefix(ms, steps);
      hide Inv, Legal, Next, IsRun;
      BoundedWait(ms[..k], steps[..k - 1], t);
      LastStep(ms, steps);
      assert StepAdvances(ms[k - 1], ms[k]);
      assert ms[..k][k - 1] == ms[k - 1] && ms[..k][0] == ms[0];
    }
  }

  lemma LastStep<T, S>(ms: seq<Machine<T, S>>, steps: seq<Step<T, S>>)
    requires IsRun(ms, steps) && steps != []
    ensures StepAdvances(ms[|ms| - 2], ms[|ms| - 1])
  {
    hide Inv, Legal, Next;
    RunSteps(ms, steps, |steps| - 1);
    ReadyAdvances(ms[|ms| - 2], steps[|steps| - 1]);
  }

  lemma {:induction false} RunTake<T, S>(ms: seq<Machine<T, S>>, steps: seq<Step<T, S>>, n: nat)
    requires IsRun(ms, steps) && n <= |steps|
    ensures IsRun(ms[..n + 1], steps[..n])
    decreases |steps| - n
  {
    hide Inv, Legal, Next;
    if n < |steps| {
      RunTake(ms, steps, n + 1);
      RunPrefix(ms[..n + 2], steps[..n + 1]);
      assert ms[..n + 2][..n + 1] == ms[..n + 1] && steps[..n + 1][..n] == steps[..n];
    } else {
      assert ms[..n + 1] == ms && steps[..n] == steps;
    }
  }

  /** A thread leaves READY only to run, or because it is blocked by name. */
  lemma LeavesReady<T, S>(m: Machine<T, S>, step: Step<T, S>, t: T)
    requires Inv(m) && Legal(m, step) && |m.lists| == T_LISTS && t in m.lists[T_READY]
    ensures |Next(m, step).lists| == T_LISTS && m.cur != t
    ensures t in Next(m, step).lists[T_READY] || Next(m, step).cur == t || (step.Block? && step.t == t)
  {
    hide Inv, Placed, Scheduled, Blocked, Unblocked, Locked, Unlocked, Ticked, Dismissed, Distinct;
    RunningIs(m);
    ListedState(m, T_READY, t);
    var r := m.lists[T_READY];
    assert r == [r[0]] + r[1..];
    match step {
      case Reschedule => ScheduleInv(m);
      case Block(u, to) =>
        BlockInv(m, u, to);
        if u != m.cur && u != t && m.state[u] == T_READY && to != T_READY { InWithout(r, u, t); }
      case Sleep(until) => SleepInv(m, until);
      case Unblock(u) => UnblockInv(m, u);
      case Tick(nsec) => TickInv(m, nsec);
      case Spawn(u, until) => SpawnInv(m, u, until);
      case Reap => ReapInv(m);
      case Lock(s) =>
        LockInv(m, s);
        if m.sems[s].thr >= m.sems[s].max { FullLock(m, s); }
      case Unlock(s) => UnlockInv(m, s);
      case Dismiss(s) => DismissInv(m, s);
      case _ =>
    }
  }

  lemma RunningIs<T, S>(m: Machine<T, S>)
    requires Inv(m)
    ensures Placed(m) && |m.lists| == T_LISTS && m.lists[T_RUNNING] == [m.cur]
    ensures m.cur in m.state && m.state[m.cur] == T_RUNNING
  {
    ListedState(m, T_RUNNING, m.cur);
  }

  /** Every thread in READY runs within one switch more than there are threads ahead of it, unless
      it is blocked by name before: in a run with more switches than that there is a first step i
      after which it is not READY, and that is one of the two. */
  lemma ReadyRuns<T, S>(ms: seq<Machine<T, S>>, steps: seq<Step<T, S>>, t: T) returns (i: nat)
    requires IsRun(ms, steps) && |ms[0].lists| == T_LISTS && t in ms[0].lists[T_READY]
    requires Switches(ms) > IndexOf(ms[0].lists[T_READY], t)
    ensures 0 < i < |ms| && Switches(ms[..i + 1]) <= IndexOf(ms[0].lists[T_READY], t) + 1
    ensures forall j :: 0 <= j < i ==> |ms[j].lists| == T_LISTS && t in ms[j].lists[T_READY]
    ensures ms[i].cur == t || (steps[i - 1].Block? && steps[i - 1].t == t)
  {
    hide Inv, Legal, Next, IndexOf, Switches;
    i := 0;
    while i < |steps| && t in ms[i].lists[T_READY]
      invariant i <= |steps| && |ms[i].lists| == T_LISTS
      invariant forall j :: 0 <= j < i ==> |ms[j].lists| == T_LISTS && t in ms[j].lists[T_READY]
      invariant i > 0 ==>
        t in ms[i].lists[T_READY] || ms[i].cur == t || (steps[i - 1].Block? && steps[i - 1].t == t)
    {
      RunSteps(ms, steps, i);
      LeavesReady(ms[i], steps[i], t);
      i := i + 1;
    }
    if t in ms[i].lists[T_READY] {
      assert ms[..i + 1] == ms;
      BoundedWait(ms, steps, t);
      assert false;
    }
    RunTake(ms, steps, i - 1);
    BoundedWait(ms[..i], steps[..i - 1], t);
    SwitchesMore(ms, i);
  }

  lemma SwitchesMore<T, S>(ms: seq<Machine<T, S>>, i: nat)
    requires 0 < i < |ms|
    ensures Switches(ms[..i + 1]) <= Switches(ms[..i]) + 1
  {
    assert ms[..i + 1][..i] == ms[..i];
  }

  /** A new thread, behind p others in READY, runs within p + 1 switches unless it is blocked by
      name before. */
  lemma SpawnedRuns<T, S>(m: Machine<T, S>, t: T, until: nat, ms: seq<Machine<T, S>>, steps: seq<Step<T, S>>)
    returns (i: nat)
    requires Inv(m) && Legal(m, Spawn(t, until)) && IsRun(ms, steps) && ms[0] == Next(m, Spawn(t, until))
    requires |m.lists| == T_LISTS && Switches(ms) > |m.lists[T_READY]|
    ensures 0 < i < |ms| && Switches(ms[..i + 1]) <= |m.lists[T_READY]| + 1
    ensures ms[i].cur == t || (steps[i - 1].Block? && steps[i - 1].t == t)
  {
    SpawnInv(m, t, until);
    ListedState(m, T_READY, t);
    IndexLast(m.lists[T_READY], t);
    hide Inv, IsRun, Switches;
    i := ReadyRuns(ms, steps, t);
  }

  lemma IndexLast<T>(l: seq<T>, t: T)
    requires t !in l
    ensures IndexOf(l + [t], t) == |l|
  {
    if l != [] {
      assert (l + [t])[1..] == l[1..] + [t];
      IndexLast(l[1..], t);
    }
  }

  // ---------------------------------------------------------------- sleepers over runs

  /** The steps that end a sleep until a given time: a tick at that time or later, and being
      unblocked or blocked by name. */
  predicate Rouses<T(==), S(==)>(step: Step<T, S>, t: T, until: nat) {
    match step
    case Tick(nsec) => nsec >= until
    case Unblock(u) => u == t
    case Block(u, _) => u == t
    case _ => false
  }

  ghost predicate SleepsTill<T, S>(m: Machine<T, S>, t: T, until: nat) {
    |m.lists| == T_LISTS && t in m.lists[T_SLEEP] && t in m.deadline && m.deadline[t] == until
  }

  /** A sleeper sleeps on until one of these, and a tick makes it READY, or lets it run if idle ran
      alone. */
  lemma SleeperStep<T, S>(m: Machine<T, S>, step: Step<T, S>, t: T, until: nat)
    requires Inv(m) && Legal(m, step) && SleepsTill(m, t, until)
    ensures !Rouses(step, t, until) ==> SleepsTill(Next(m, step), t, until)
    ensures Rouses(step, t, until) && !step.Block? ==>
      |Next(m, step).lists| == T_LISTS && (t in Next(m, step).lists[T_READY] || Next(m, step).cur == t)
  {
    hide Inv, Placed, Scheduled, Blocked, Unblocked, Locked, Unlocked, Ticked, Dismissed, Distinct;
    RunningIs(m);
    ListedState(m, T_SLEEP, t);
    match step {
      case Reschedule => ScheduleInv(m);
      case Block(u, to) =>
        BlockInv(m, u, to);
        if u != m.cur && u != t && m.state[u] == T_SLEEP { InWithout(m.lists[T_SLEEP], u, t); }
      case Sleep(to) => SleepInv(m, to);
      case Unblock(u) =>
        UnblockInv(m, u);
        if u != t && m.state[u] == T_SLEEP { InWithout(m.lists[T_SLEEP], u, t); }
      case Tick(nsec) =>
        TickInv(m, nsec);
        DueHas(m, m.lists[T_SLEEP], nsec, t);
        if t in Due(m, m.lists[T_SLEEP], nsec) { HeadOrTail(Due(m, m.lists[T_SLEEP], nsec), t); }
      case Spawn(u, to) => SpawnInv(m, u, to);
      case Reap =>
        ReapInv(m);
        ListedState(m, T_DESTROY, m.lists[T_DESTROY][0]);
      case Lock(s) =>
        LockInv(m, s);
        if m.sems[s].thr >= m.sems[s].max { FullLock(m, s); }
      case Unlock(s) => UnlockInv(m, s);
      case Dismiss(s) => DismissInv(m, s);
      case _ =>
    }
  }

  lemma HeadOrTail<T>(l: seq<T>, t: T)
    requires t in l
    ensures t == l[0] || t in l[1..]
  {
  }

  /** A thread that goes to sleep until a time sleeps, over every run, up to the first step that
      rouses it, and a tick at that time or later makes it READY, or lets it run. */
  lemma {:induction false} SleepsUntil<T, S>(m: Machine<T, S>, until: nat, ms: seq<Machine<T, S>>,
      steps: seq<Step<T, S>>, n: nat)
    requires Inv(m) && m.cur != m.idle && IsRun(ms, steps) && ms[0] == Next(m, Sleep(until)) && n < |ms|
    requires forall i :: 0 <= i < n ==> !Rouses(steps[i], m.cur, until)
    ensures SleepsTill(ms[n], m.cur, until)
    ensures n < |steps| && steps[n].Tick? && steps[n].nsec >= until ==>
      |ms[n + 1].lists| == T_LISTS && (m.cur in ms[n + 1].lists[T_READY] || ms[n + 1].cur == m.cur)
    decreases n
  {
    hide Inv, Legal, Next, Rouses, SleepsTill;
    if n > 0 {
      SleepsUntil(m, until, ms, steps, n - 1);
      RunSteps(ms, steps, n - 1);
      SleeperStep(ms[n - 1], steps[n - 1], m.cur, until);
    } else {
      FallsAsleep(m, until);
    }
    if n < |steps| { WokenNext(ms, steps, n, m.cur, until); }
  }

  lemma FallsAsleep<T, S>(m: Machine<T, S>, until: nat)
    requires Inv(m) && m.cur != m.idle
    ensures Legal(m, Sleep(until)) && SleepsTill(Next(m, Sleep(until)), m.cur, until)
  {
    hide Inv, Blocked;
    SleepInv(m, until);
  }

  lemma WokenNext<T, S>(ms: seq<Machine<T, S>>, steps: seq<Step<T, S>>, n: nat, t: T, until: nat)
    requires IsRun(ms, steps) && n < |steps| && SleepsTill(ms[n], t, until)
    ensures steps[n].Tick? && steps[n].nsec >= until ==>
      |ms[n + 1].lists| == T_LISTS && (t in ms[n + 1].lists[T_READY] || ms[n + 1].cur == t)
  {
    hide Inv, Legal, Next, SleepsTill;
    RunSteps(ms, steps, n);
    SleeperStep(ms[n], steps[n], t, until);
  }

  // ---------------------------------------------------------------- semaphores over runs

  /** The semaphores after a step, with nothing said about threads. */
  ghost function SemsNext<T, S>(m: Machine<T, S>, step: Step<T, S>): map<S, Sem<T>>
    requires Legal(m, step)
  {
    match step
    case NewSem(s, max) => m.sems[s := Sem(max, 0, [])]
    case DropSem(s) => m.sems - {s}
    case Lock(s) =>
      var sem := m.sems[s];
      m.sems[s := if sem.thr < sem.max then sem.(thr := sem.thr + 1) else sem.(waiting := sem.waiting + [m.cur])]
    case TryLock(s) =>
      var sem := m.sems[s];
      m.sems[s := if sem.thr < sem.max then sem.(thr := sem.thr + 1) else sem]
    case Unlock(s) =>
      var sem := m.sems[s];
      m.sems[s := if sem.waiting != [] then sem.(waiting := sem.waiting[1..])
                  else if sem.thr != 0 then sem.(thr := sem.thr - 1)
                  else sem]
    case Dismiss(s) => m.sems[s := m.sems[s].(waiting := m.sems[s].waiting[1..])]
    case _ => m.sems
  }

  /** Semaphores see nothing but the calls made on them. */
  lemma StepSems<T, S>(m: Machine<T, S>, step: Step<T, S>)
    requires Inv(m) && Legal(m, step)
    ensures Next(m, step).sems == SemsNext(m, step)
  {
    hide Inv, Placed, Scheduled, Blocked, Unblocked, Locked, Unlocked, Ticked, Dismissed;
    match step
    case Reschedule => ScheduleInv(m);
    case Block(t, to) => BlockInv(m, t, to);
    case Sleep(until) => SleepInv(m, until);
    case Unblock(t) => UnblockInv(m, t);
    case Tick(nsec) => TickInv(m, nsec);
    case Lock(s) =>
      LockInv(m, s);
      if m.sems[s].thr >= m.sems[s].max { FullLock(m, s); }
    case Unlock(s) =>
      UnlockInv(m, s);
      assert m.sems[s := m.sems[s]] == m.sems;
    case TryLock(s) => assert m.sems[s := m.sems[s]] == m.sems;
    case Dismiss(s) => DismissInv(m, s);
    case _ =>
  }

  lemma CountedSem<T, S>(m: Machine<T, S>, s: S)
    requires Inv(m) && s in m.sems
    ensures Counted(m.sems[s])
  {
  }

  /** Who joins the queue of s in a step. */
  ghost function Joins<T, S>(m: Machine<T, S>, step: Step<T, S>, s: S): seq<T>
    requires s in m.sems
  {
    if step == Step.Lock(s) && m.sems[s].thr >= m.sems[s].max then [m.cur] else []
  }

  /** Who leaves the queue of s in a step. */
  ghost function Leaves<T, S>(m: Machine<T, S>, step: Step<T, S>, s: S): seq<T>
    requires s in m.sems
  {
    if (step == Step.Unlock(s) || step == Step.Dismiss(s)) && m.sems[s].waiting != [] then [m.sems[s].waiting[0]]
      else []
  }

  /** A step changes the queue only by a thread joining at the end or the first one leaving. */
  lemma QueueStep<T, S>(m: Machine<T, S>, step: Step<T, S>, s: S)
    requires Inv(m) && Legal(m, step) && s in m.sems && step != DropSem(s)
    ensures s in Next(m, step).sems && Next(m, step).sems[s].max == m.sems[s].max
    ensures m.sems[s].waiting + Joins(m, step, s) == Leaves(m, step, s) + Next(m, step).sems[s].waiting
  {
    hide Inv, Next;
    StepSems(m, step);
    var w := m.sems[s].waiting;
    assert w != [] ==> [w[0]] + w[1..] == w;
  }

  ghost predicate Lives<T, S>(ms: seq<Machine<T, S>>, s: S) {
    forall i :: 0 <= i < |ms| ==> s in ms[i].sems
  }

  ghost function AllJoins<T, S>(ms: seq<Machine<T, S>>, steps: seq<Step<T, S>>, n: nat, s: S): seq<T>
    requires Lives(ms, s) && n <= |steps| <= |ms|
  {
    if n == 0 then [] else AllJoins(ms, steps, n - 1, s) + Joins(ms[n - 1], steps[n - 1], s)
  }

  ghost function AllLeaves<T, S>(ms: seq<Machine<T, S>>, steps: seq<Step<T, S>>, n: nat, s: S): seq<T>
    requires Lives(ms, s) && n <= |steps| <= |ms|
  {
    if n == 0 then [] else AllLeaves(ms, steps, n - 1, s) + Leaves(ms[n - 1], steps[n - 1], s)
  }

  lemma RunStep<T, S>(ms: seq<Machine<T, S>>, steps: seq<Step<T, S>>, s: S, i: nat)
    requires IsRun(ms, steps) && Lives(ms, s) && i < |steps|
    ensures Inv(ms[i]) && Legal(ms[i], steps[i]) && ms[i + 1] == Next(ms[i], steps[i]) && steps[i] != DropSem(s)
  {
    hide Inv;
    RunSteps(ms, steps, i);
    assert s in ms[i + 1].sems;
  }

  /** First come, first served, over every run in which s exists throughout: those that waited
      at the start followed by those that joined are, in this order, those that left followed
      by those still waiting. */
  lemma {:induction false} FirstComeFirstServed<T, S>(ms: seq<Machine<T, S>>, steps: seq<Step<T, S>>, n: nat, s: S)
    requires IsRun(ms, steps) && Lives(ms, s) && n <= |steps| < |ms|
    ensures ms[0].sems[s].waiting + AllJoins(ms, steps, n, s) == AllLeaves(ms, steps, n, s) + ms[n].sems[s].waiting
    decreases n
  {
    hide Inv, Legal, Next, IsRun, Joins, Leaves;
    if n > 0 {
      FirstComeFirstServed(ms, steps, n - 1, s);
      RunStep(ms, steps, s, n - 1);
      QueueStep(ms[n - 1], steps[n - 1], s);
      Queued(ms[0].sems[s].waiting, AllJoins(ms, steps, n - 1, s), Joins(ms[n - 1], steps[n - 1], s),
             AllLeaves(ms, steps, n - 1, s), Leaves(ms[n - 1], steps[n - 1], s),
             ms[n - 1].sems[s].waiting, ms[n].sems[s].waiting);
    }
  }

  lemma Queued<T>(w: seq<T>, js: seq<T>, j: seq<T>, ls: seq<T>, l: seq<T>, v: seq<T>, v': seq<T>)
    requires w + js == ls + v && v + j == l + v'
    ensures w + (js + j) == (ls + l) + v'
  {
    assert w + (js + j) == (w + js) + j;
    assert (ls + v) + j == ls + (v + j);
    assert ls + (l + v') == (ls + l) + v';
  }

  /** Nobody overtakes: a permit is taken by lock or try_lock only while the queue is empty. */
  lemma NoOvertaking<T, S>(m: Machine<T, S>, step: Step<T, S>, s: S)
    requires Inv(m) && Legal(m, step) && s in m.sems && step != DropSem(s)
    requires s in Next(m, step).sems && Next(m, step).sems[s].thr > m.sems[s].thr
    ensures m.sems[s].waiting == [] && (step == Step.Lock(s) || step == Step.TryLock(s))
    ensures Next(m, step).sems[s].thr == m.sems[s].thr + 1 <= m.sems[s].max
  {
    hide Inv, Next;
    StepSems(m, step);
    CountedSem(m, s);
  }

  /** The holders of s after a step: lock and try_lock add the running thread when they take
      a permit, unlock takes it away and passes the permit to the first waiter. */
  ghost function HoldersNext<T, S>(m: Machine<T, S>, step: Step<T, S>, s: S, h: multiset<T>): multiset<T>
    requires s in m.sems
  {
    if (step == Step.Lock(s) || step == Step.TryLock(s)) && m.sems[s].thr < m.sems[s].max then h + multiset{m.cur}
    else if step == Step.Unlock(s) then h - multiset{m.cur} + multiset(Leaves(m, step, s))
    else h
  }

  /** As long as only holders unlock, thr_c is the number of holders. */
  lemma HoldersCounted<T, S>(m: Machine<T, S>, step: Step<T, S>, s: S, h: multiset<T>)
    requires Inv(m) && Legal(m, step) && s in m.sems && step != DropSem(s)
    requires |h| == m.sems[s].thr && (step == Step.Unlock(s) ==> m.cur in h)
    ensures s in Next(m, step).sems && |HoldersNext(m, step, s, h)| == Next(m, step).sems[s].thr <= m.sems[s].max
  {
    hide Inv, Next;
    StepSems(m, step);
    CountedSem(m, s);
  }

  /** The same over a whole run: the holders after n steps. */
  ghost function Holders<T, S>(ms: seq<Machine<T, S>>, steps: seq<Step<T, S>>, n: nat, s: S,
      h: multiset<T>): multiset<T>
    requires Lives(ms, s) && n <= |steps| <= |ms|
  {
    if n == 0 then h else HoldersNext(ms[n - 1], steps[n - 1], s, Holders(ms, steps, n - 1, s, h))
  }

  /** Over every run in which only holders unlock s, thr_c is the number of its holders. */
  lemma {:induction false} RunHolders<T, S>(ms: seq<Machine<T, S>>, steps: seq<Step<T, S>>, n: nat, s: S,
      h: multiset<T>)
    requires IsRun(ms, steps) && Lives(ms, s) && n <= |steps| < |ms|
    requires |h| == ms[0].sems[s].thr
    requires forall i :: 0 <= i < n && steps[i] == Step.Unlock(s) ==> ms[i].cur in Holders(ms, steps, i, s, h)
    ensures |Holders(ms, steps, n, s, h)| == ms[n].sems[s].thr <= ms[0].sems[s].max == ms[n].sems[s].max
    decreases n
  {
    hide Inv, Legal, Next, IsRun, HoldersNext, Joins, Leaves;
    if n > 0 {
      RunHolders(ms, steps, n - 1, s, h);
      RunStep(ms, steps, s, n - 1);
      HoldersCounted(ms[n - 1], steps[n - 1], s, Holders(ms, steps, n - 1, s, h));
      QueueStep(ms[n - 1], steps[n - 1], s);
    } else {
      FirstCounted(ms, steps, s);
    }
  }

  lemma FirstCounted<T, S>(ms: seq<Machine<T, S>>, steps: seq<Step<T, S>>, s: S)
    requires IsRun(ms, steps) && Lives(ms, s)
    ensures ms[0].sems[s].thr <= ms[0].sems[s].max
  {
    assert s in ms[0].sems;
    CountedSem(ms[0], s);
  }

  /** While a thread other than idle runs, unlocking never switches; a switch by unlock means
      that idle ran alone and handed over to the thread it woke. */
  lemma UnlockSwitches<T, S>(m: Machine<T, S>, s: S)
    requires Inv(m) && s in m.sems
    ensures Next(m, Step.Unlock(s)).cur != m.cur <==> m.sems[s].waiting != [] && m.lists[T_READY] == []
    ensures m.cur != m.idle ==> Next(m, Step.Unlock(s)).cur == m.cur
  {
    UnlockInv(m, s);
  }
}

/** Threads, semaphores and the scheduler's globals, updated in place; every public method is
    one step of the machine of module Runs. */
module Kernel {
  import opened Bits
  import opened Scheduler
  import opened Sequences
  import opened SchedulerSteps
  import opened Timer
  import opened Runs

  const THREAD_TIME_SLICE: nat := 5000000

  class Thread {
    var state: nat
    var sleepTime: nat

    /** thread::init for the very first thread, idle: it runs. */
    constructor Idle()
      ensures state == T_RUNNING
    {
      state := T_RUNNING;
    }

    /** thread::init from then on: the new thread is READY. */
    constructor Init(k: Globals)
      requires k.Valid() && Inv(k.m)
      modifies k
      ensures k.Valid() && Inv(k.m) && fresh(this) && k.nsecLast == old(k.nsecLast)
      ensures this !in old(k.m.state) && |old(k.tList)| == T_LISTS && k.m == Spawned(old(k.m), this, this.sleepTime)
      ensures state == T_READY && k.tList == old(k.tList)[T_READY := old(k.tList)[T_READY] + [this]]
      ensures k.threadC == old(k.threadC) && IsStep(old(k.m), Spawn(this, this.sleepTime), k.m)
    {
      hide Inv, Placed, Linked;
      state := T_READY;
      new;
      SpawnInv(k.m, this, sleepTime);
      k.tList := k.tList[T_READY := k.tList[T_READY] + [this]];
      k.m := Spawned(k.m, this, sleepTime);
      ListedKnown(k.m);
    }

    method MoveTo(k: Globals, to: nat)
      requires k.Valid() && Known(k.m, this) && (to < T_LISTS || to == T_SEMAPHORE_WAIT)
      modifies this`state, k`tList, k`m
      ensures k.Valid() && k.m == Moved(old(k.m), this, to)
    {
      hide Without, Linked;
      LinkedMoved(k.m, this, to);
      if state == to {
        return;
      }
      if state != T_SEMAPHORE_WAIT {
        k.tList := k.tList[state := Without(k.tList[state], this)];
      }
      state := to;
      if to != T_SEMAPHORE_WAIT {
        k.tList := k.tList[to := k.tList[to] + [this]];
      }
      k.m := Moved(k.m, this, to);
    }

    /** thread::block, at time now */
    method Block(k: Globals, to: nat, now: nat)
      requires k.Valid() && Known(k.m, this) && Known(k.m, k.threadC) && to < T_LISTED
      modifies k, k.Threads()
      ensures k.Valid() && k.m == Blocked(old(k.m), this, to) && k.Threads() == old(k.Threads())
      ensures old(Inv(k.m)) && this == old(k.threadC) != old(k.m.idle) && (to == T_DESTROY || to == T_SLEEP) ==>
        GaveWay(k, old(k.tList), this, to)
      ensures old(state) < T_LISTED && this != old(k.m.idle) && (to == T_READY || to == T_DESTROY) ==>
        IsStep(old(k.m), Step.Block(this, to), k.m)
    {
      hide Inv, Placed, Linked, IsStep, Scheduled, Moved;
      if Inv(k.m) && this == k.threadC != k.m.idle && (to == T_DESTROY || to == T_SLEEP) { GivesWay(k.m, to); }
      if state < T_LISTED { StepsOfThread(k.m, this, to); }
      StillKnown(k.m, this, to);
      MoveTo(k, to);
      if this == k.threadC {
        k.Schedule(now);
      }
    }

    method Unblock(k: Globals, now: nat)
      requires k.Valid() && Known(k.m, this) && Known(k.m, k.threadC)
      modifies k, k.Threads()
      ensures k.Valid() && k.m == Unblocked(old(k.m), this) && k.Threads() == old(k.Threads())
      ensures old(state) < T_LISTED && this != old(k.threadC) ==> IsStep(old(k.m), Step.Unblock(this), k.m)
    {
      hide Inv, Placed, Linked, IsStep, Scheduled, Moved;
      if state < T_LISTED { StepsOfThread(k.m, this, T_READY); }
      StillKnown(k.m, this, T_READY);
      MoveTo(k, T_READY);
      if |k.tList[T_READY]| == 1 {
        k.Schedule(now);
      }
    }

    /** nsleep_until by the running thread, at time now */
    method NsleepUntil(k: Globals, time: nat, now: nat)
      requires k.Valid() && Inv(k.m) && this == k.threadC != k.m.idle
      modifies k, k.Threads()
      ensures k.Valid() && Inv(k.m)
      ensures Known(Slept(old(k.m), time), this)
      ensures k.m == if time <= now then old(k.m) else Blocked(Slept(old(k.m), time), this, T_SLEEP)
      ensures time > now ==> GaveWay(k, old(k.tList), this, T_SLEEP) && sleepTime == time
      ensures time > now ==> IsStep(old(k.m), Sleep(time), k.m)
    {
      hide Inv, Placed, Linked, IsStep, Blocked, GaveWay;
      SleptInv(k.m, time);
      SleepInv(k.m, time);
      StepsOf(k.m);
      if time <= now {
        return;
      }
      sleepTime := time;
      k.m := Slept(k.m, time);
      Block(k, T_SLEEP, now);
    }
  }

  /** The thread, which ran, has gone to the end of a list, and the head of READY runs. */
  ghost predicate GaveWay(k: Globals, was: seq<seq<Thread>>, t: Thread, to: nat)
    reads k, t
  {
    t.state == to && Handed(was, k.tList, k.threadC, t, to)
  }

  ghost predicate Handed<T>(was: seq<seq<T>>, now: seq<seq<T>>, cur: T, t: T, to: nat) {
    && |now| == |was| == T_LISTS && to < T_LISTS && was[T_READY] != []
    && now[to] == was[to] + [t] && now[T_READY] == was[T_READY][1..] && cur == was[T_READY][0] &&
      now[T_RUNNING] == [cur]
  }

  lemma StillKnown<T, S>(m: Machine<T, S>, t: T, to: nat)
    requires Known(m, t) && Known(m, m.cur) && to < T_LISTED
    ensures var n := Moved(m, t, to); Known(n, n.cur) && n.cur == m.cur && n.state.Keys == m.state.Keys
  {
  }

  lemma GivesWay<T, S>(m: Machine<T, S>, to: nat)
    requires Inv(m) && m.cur != m.idle && (to == T_DESTROY || to == T_SLEEP)
    ensures Known(m, m.cur) && m.cur in Blocked(m, m.cur, to).state && Blocked(m, m.cur, to).state[m.cur] == to
    ensures Handed(m.lists, Blocked(m, m.cur, to).lists, Blocked(m, m.cur, to).cur, m.cur, to)
  {
    RunningIs(m);
    hide Placed, Blocked;
    BlockInv(m, m.cur, to);
    assert m.lists[T_READY][1..] + [] == m.lists[T_READY][1..];
  }

  /** The lists hold known threads only. */
  ghost predicate Linked<T>(lists: seq<seq<T>>, known: set<T>) {
    forall i, t :: 0 <= i < |lists| && t in lists[i] ==> t in known
  }

  lemma LinkedMoved<T, S>(m: Machine<T, S>, t: T, to: nat)
    requires Linked(m.lists, m.state.Keys) && Known(m, t) && (to < T_LISTS || to == T_SEMAPHORE_WAIT)
    ensures Moved(m, t, to).state.Keys == m.state.Keys && Linked(Moved(m, t, to).lists, m.state.Keys)
  {
    if m.state[t] < T_LISTS { WithoutIn(m.lists[m.state[t]], t); }
    hide Without;
  }

  lemma LinkedPopped<T, S>(m: Machine<T, S>)
    requires Linked(m.lists, m.state.Keys) && |m.lists| == T_LISTS && m.lists[T_READY] != []
    ensures m.lists[T_READY][0] in m.state && Popped(m).state.Keys == m.state.Keys &&
      Linked(Popped(m).lists, m.state.Keys)
    ensures var t := m.lists[T_READY][0]; var l := m.lists[T_READY := m.lists[T_READY][1..]];
      && Popped(m) == m.(cur := t, state := m.state[t := T_RUNNING], lists := l[T_RUNNING := l[T_RUNNING] + [t]])
  {
    assert m.lists[T_READY][0] in m.lists[T_READY];
  }

  lemma WithoutIn<T>(l: seq<T>, t: T)
    ensures forall u: T :: u in Without(l, t) ==> u in l
  {
  }

  lemma ListedKnown<T, S>(m: Machine<T, S>)
    requires Inv(m)
    ensures Linked(m.lists, m.state.Keys)
  {
  }

  class Globals {
    var tList: seq<seq<Thread>>
    var threadC: Thread
    var threadPostC: nat
    var threadPostFlag: bool
    var nsecLast: nat
    /** The machine these globals and objects make up. */
    ghost var m: Machine<Thread, Semaphore>

    ghost function Threads(): set<Thread>
      reads this
    {
      m.state.Keys
    }

    ghost function Sems(): set<Semaphore>
      reads this
    {
      m.sems.Keys
    }

    ghost predicate Valid()
      reads this, Threads(), Sems()
    {
      && |tList| == T_LISTS && m.lists == tList && m.cur == threadC && m.post == threadPostC && m.flag == threadPostFlag
      && m.deadline.Keys == m.state.Keys
      && Linked(m.lists, m.state.Keys)
      && (forall t :: t in m.state ==> m.state[t] == t.state && m.deadline[t] == t.sleepTime)
      && (forall s :: s in m.sems ==> m.sems[s] == Sem(s.maxThrC, s.thrC, s.waiting))
    }

    /** The state once the idle thread has been created. */
    constructor (first: Thread)
      requires first.state == T_RUNNING
      ensures Valid() && Inv(m) && m.cur == m.idle == first && Threads() == {first} && Sems() == {}
    {
      var l: seq<seq<Thread>> := seq(T_LISTS, i => if i == T_RUNNING then [first] else []);
      ghost var states: map<Thread, nat> := map t: Thread | t in {first} :: t.state;
      ghost var sleeps: map<Thread, nat> := map t: Thread | t in {first} :: t.sleepTime;
      tList, threadC := l, first;
      threadPostC, threadPostFlag, nsecLast := 0, false, 0;
      m := Machine<Thread, Semaphore>.Machine(l, first, first, states, sleeps, map[], 0, false);
    }

    /** schedule, at time now; an effective call starts a new time slice. */
    method Schedule(now: nat)
      requires Valid() && Known(m, threadC)
      modifies this, Threads()
      ensures Valid() && m == Scheduled(old(m)) && Threads() == old(Threads())
      ensures nsecLast == if old(threadPostC == 0 && tList[T_READY] != []) then now else old(nsecLast)
    {
      if threadPostC != 0 {
        threadPostFlag := true;
        m := m.(flag := true);
        return;
      }
      if |tList[T_READY]| != 0 {
        nsecLast := now;
        if threadC.state == T_RUNNING {
          threadC.MoveTo(this, T_READY);
        }
        Pop();
      }
    }

    method Pop()
      requires Valid() && tList[T_READY] != []
      modifies this, tList[T_READY][0]
      ensures Valid() && m == Popped(old(m)) && Threads() == old(Threads())
      ensures nsecLast == old(nsecLast)
    {
      hide Linked, Popped;
      LinkedPopped(m);
      threadC := tList[T_READY][0];
      tList := tList[T_READY := tList[T_READY][1..]];
      tList := tList[T_RUNNING := tList[T_RUNNING] + [threadC]];
      threadC.state := T_RUNNING;
      m := m.(cur := threadC, state := m.state[threadC := T_RUNNING], lists := tList);
    }

    /** The scan of the timer handler with the scheduler held. The index is a machine word
        and i-- wraps at 0. */
    method ScanSleepers(nsec: nat, now: nat)
      requires Valid() && Placed(m) && m.cur in m.state && m.post > 0 && |tList[T_SLEEP]| < WORD
      modifies this, Threads()
      ensures Valid() && Threads() == old(Threads()) && Known(m, threadC)
      ensures m == Scan(old(m), 0, nsec)
    {
      hide Placed, Linked, Scan, Unblocked, OnlyWoke, Woke, IsStep;
      var i := 0;
      while i < |tList[T_SLEEP]|
        invariant 0 <= i && Valid() && Threads() == old(Threads())
        invariant Placed(m) && m.cur in m.state && m.post > 0 && i <= |m.lists[T_SLEEP]| < WORD
        invariant Scan(m, i, nsec) == Scan(old(m), 0, nsec)
        decreases |m.lists[T_SLEEP]| - i
      {
        var temp := tList[T_SLEEP][i];
        WakeStep(m, i);
        ScanStep(m, i, nsec);
        if temp.sleepTime <= nsec {
          temp.Unblock(this, now);
          i := (i + WORD - 1) % WORD;
        }
        i := (i + 1) % WORD;
      }
      ScanStep(m, i, nsec);
      StateListed(m, m.cur);
    }

    method UnlockAll(now: nat)
      requires Valid() && Known(m, threadC)
      modifies this, Threads()
      ensures Valid() && m == Resumed(old(m)) && Threads() == old(Threads())
    {
      hide Scheduled;
      threadPostC := (if threadPostC > 1 then threadPostC else 1) - 1;
      m := m.(post := threadPostC);
      if threadPostC == 0 && threadPostFlag {
        threadPostFlag := false;
        m := m.(flag := false);
        Schedule(now);
      }
    }

    /** The timer handler up to unlock_all, for a clock reading of nsec; a deferred switch
        happens at time now. */
    method WakeSleepers(nsec: nat, now: nat)
      requires Valid() && Inv(m) && |tList[T_SLEEP]| < WORD
      modifies this, Threads()
      ensures Valid() && Inv(m) && m == Ticked(old(m), nsec) && IsStep(old(m), Tick(nsec), m)
    {
      hide Inv, Placed, Linked, Scan, Resumed, Distinct, Due, NotDue, IsStep;
      ScheduleInv(m);
      StepsOf(m);
      TickInv(m, nsec);
      TickKnown(m);
      FlagPlaced(m);
      threadPostC := threadPostC + 1;
      m := m.(post := m.post + 1);
      ScanSleepers(nsec, now);
      UnlockAll(now);
    }

    /** The rest of the timer handler: a switch once the slice, measured modulo 2^64, is over. */
    method EndSlice(nsec: nat, now: nat)
      requires Valid() && Inv(m)
      modifies this, Threads()
      ensures Valid() && Inv(m)
      ensures Known(old(m), old(threadC))
      ensures m == if (nsec - old(nsecLast)) % WORD >= THREAD_TIME_SLICE then Scheduled(old(m)) else old(m)
      ensures (nsec - old(nsecLast)) % WORD >= THREAD_TIME_SLICE ==> IsStep(old(m), Reschedule, m)
    {
      hide Inv, Placed, Linked, IsStep, Scheduled;
      ScheduleInv(m);
      StepsOf(m);
      if (nsec - nsecLast) % WORD >= THREAD_TIME_SLICE {
        Schedule(now);
      }
    }

    /** One turn of thread_cleaner's inner loop. */
    method Reap() returns (temp: Thread)
      requires Valid() && Inv(m) && tList[T_DESTROY] != []
      modifies this
      ensures |old(tList)| == T_LISTS && Valid() && Inv(m) && m == Reaped(old(m))
      ensures temp == old(tList[T_DESTROY][0]) && Threads() == old(Threads()) - {temp}
      ensures IsStep(old(m), Step.Reap, m)
    {
      hide Inv, Placed, Linked;
      ReapInv(m);
      temp := tList[T_DESTROY][0];
      tList := tList[T_DESTROY := tList[T_DESTROY][1..]];
      m := Reaped(m);
      ListedKnown(m);
    }
  }

  /** The lists with w appended to list i. */
  ghost predicate Extended<T>(l: seq<seq<T>>, l': seq<seq<T>>, i: nat, w: seq<T>) {
    i < |l| && l' == l[i := l[i] + w]
  }

  lemma ExtendedNot<T>(l: seq<seq<T>>, i: nat)
    ensures i < |l| ==> Extended(l, l, i, [])
  {
    if i < |l| { assert l[i] + [] == l[i]; }
  }

  lemma ExtendedOnce<T>(l: seq<seq<T>>, l': seq<seq<T>>, l'': seq<seq<T>>, i: nat, w: seq<T>, t: T)
    requires Extended(l, l', i, w) && Extended(l', l'', i, [t])
    ensures Extended(l, l'', i, w + [t])
  {
    assert (l[i] + w) + [t] == l[i] + (w + [t]);
  }

  lemma Requeue<T>(done: seq<T>, w: seq<T>)
    requires w != []
    ensures done + w == (done + [w[0]]) + w[1..]
  {
  }

  class Semaphore {
    const maxThrC: nat
    var thrC: nat
    var waiting: seq<Thread>

    constructor (k: Globals, n: nat)
      requires k.Valid() && Inv(k.m)
      modifies k
      ensures k.Valid() && Inv(k.m) && fresh(this)
      ensures this !in old(k.m.sems) && k.m == old(k.m).(sems := old(k.m.sems)[this := Sem(n, 0, [])])
      ensures IsStep(old(k.m), NewSem(this, n), k.m)
    {
      hide Inv, Placed, Linked;
      maxThrC, thrC, waiting := n, 0, [];
      new;
      SemsInv(k.m, this, n);
      k.m := k.m.(sems := k.m.sems[this := Sem(n, 0, [])]);
    }

    method Lock(k: Globals, now: nat)
      requires k.Valid() && Inv(k.m) && this in k.Sems() && (thrC < maxThrC || k.threadC != k.m.idle)
      modifies this, k, k.Threads()
      ensures k.Valid() && Inv(k.m) && Known(old(k.m), old(k.threadC)) && k.m == Locked(old(k.m), this)
      ensures IsStep(old(k.m), Step.Lock(this), k.m)
    {
      hide Inv, Placed, Linked, IsStep;
      LockInv(k.m, this);
      UnlockInv(k.m, this);
      StepsOfSem(k.m, this);
      if thrC < maxThrC {
        thrC := thrC + 1;
        k.m := WithCount(k.m, this, thrC);
        return;
      }
      Park(k);
      k.Schedule(now);
    }

    method Park(k: Globals)
      requires k.Valid() && this in k.Sems() && Known(k.m, k.threadC)
      modifies this`waiting, k, k.threadC
      ensures k.Valid() && k.threadC == old(k.threadC) && k.Threads() == old(k.Threads())
      ensures k.m == WithWaiting(Moved(old(k.m), k.threadC, T_SEMAPHORE_WAIT), this, old(waiting) + [k.threadC])
    {
      k.threadC.MoveTo(k, T_SEMAPHORE_WAIT);
      waiting := waiting + [k.threadC];
      k.m := WithWaiting(k.m, this, waiting);
    }

    method TryLock(k: Globals) returns (taken: bool)
      requires k.Valid() && Inv(k.m) && this in k.Sems()
      modifies this, k`m
      ensures k.Valid() && Inv(k.m) && k.m == TryLocked(old(k.m), this)
      ensures taken <==> old(thrC) < maxThrC
      ensures IsStep(old(k.m), Step.TryLock(this), k.m)
    {
      hide Inv, Placed, Linked;
      TryLockInv(k.m, this);
      taken := thrC < maxThrC;
      if taken {
        thrC := thrC + 1;
        k.m := WithCount(k.m, this, thrC);
      }
    }

    method Unlock(k: Globals, now: nat)
      requires k.Valid() && Inv(k.m) && this in k.Sems()
      modifies this, k, k.Threads()
      ensures k.Valid() && Inv(k.m) && Known(old(k.m), old(k.threadC))
      ensures old(waiting) != [] ==> Known(old(k.m), old(waiting)[0])
      ensures k.m == Unlocked(old(k.m), this) && IsStep(old(k.m), Step.Unlock(this), k.m)
    {
      hide Inv, Placed, Linked, IsStep, Unblocked;
      UnlockInv(k.m, this);
      StepsOfSem(k.m, this);
      if |waiting| != 0 {
        Grant(k, now);
      } else if thrC != 0 {
        thrC := thrC - 1;
        k.m := WithCount(k.m, this, thrC);
      }
    }

    /** The first waiter is taken off the list and woken. */
    method Grant(k: Globals, now: nat)
      requires k.Valid() && this in k.Sems() && waiting != [] && Known(k.m, waiting[0]) && Known(k.m, k.threadC)
      modifies this, k, k.Threads()
      ensures k.Valid() && waiting == old(waiting)[1..] && k.Threads() == old(k.Threads())
      ensures Known(WithWaiting(old(k.m), this, old(waiting)[1..]), old(waiting)[0])
      ensures Known(WithWaiting(old(k.m), this, old(waiting)[1..]), old(k.threadC))
      ensures k.m == Unblocked(WithWaiting(old(k.m), this, old(waiting)[1..]), old(waiting)[0])
    {
      hide Inv, Placed, Linked, IsStep, Unblocked;
      var t := waiting[0];
      waiting := waiting[1..];
      k.m := WithWaiting(k.m, this, waiting);
      t.Unblock(k, now);
    }

    /** All waiters to READY, then the semaphore is deleted; never called by idle. */
    method ResetReady(k: Globals, now: nat)
      requires k.Valid() && Inv(k.m) && this in k.Sems() && k.threadC != k.m.idle
      modifies this, k, k.Threads()
      ensures k.Valid() && Inv(k.m) && k.threadC == old(k.threadC)
      ensures Extended(old(k.tList), k.tList, T_READY, old(waiting)) && k.m.sems == old(k.m.sems) - {this}
    {
      hide Inv, Placed, Linked, Extended;
      ExtendedNot(k.tList, T_READY);
      ghost var done := [];
      while |waiting| != 0
        invariant k.Valid() && Inv(k.m) && this in k.Sems() && k.threadC == old(k.threadC) != k.m.idle
        invariant k.Threads() == old(k.Threads()) && k.m.sems - {this} == old(k.m.sems) - {this}
        invariant done + waiting == old(waiting) && Extended(old(k.tList), k.tList, T_READY, done)
        decreases |waiting|
      {
        ghost var l, w := k.tList, waiting;
        WakeFirst(k, now);
        ExtendedOnce(old(k.tList), l, k.tList, T_READY, done, w[0]);
        Requeue(done, w);
        done := done + [w[0]];
      }
      assert done + waiting == done;
      Delete(k);
    }

    method WakeFirst(k: Globals, now: nat)
      requires k.Valid() && Inv(k.m) && this in k.Sems() && k.threadC != k.m.idle && waiting != []
      modifies this, k, k.Threads()
      ensures k.Valid() && Inv(k.m) && k.threadC == old(k.threadC) && k.m.idle == old(k.m.idle)
      ensures k.Threads() == old(k.Threads()) && this in k.Sems() && k.m.sems - {this} == old(k.m.sems) - {this}
      ensures waiting == old(waiting[1..]) && Extended(old(k.tList), k.tList, T_READY, [old(waiting[0])])
      ensures IsStep(old(k.m), Step.Unlock(this), k.m)
    {
      hide Inv, Placed, Linked, Unblocked, IsStep;
      GrantQueues(k.m, this);
      UnlockInv(k.m, this);
      StepsOfSem(k.m, this);
      Grant(k, now);
    }

    /** All waiters to DESTROY, then the semaphore is deleted. */
    method ResetDestroy(k: Globals)
      requires k.Valid() && Inv(k.m) && this in k.Sems()
      modifies this, k, k.Threads()
      ensures k.Valid() && Inv(k.m) && k.threadC == old(k.threadC)
      ensures Extended(old(k.tList), k.tList, T_DESTROY, old(waiting)) && k.m.sems == old(k.m.sems) - {this}
    {
      hide Inv, Placed, Linked, Extended;
      ExtendedNot(k.tList, T_DESTROY);
      ghost var done := [];
      while |waiting| != 0
        invariant k.Valid() && Inv(k.m) && this in k.Sems() && k.threadC == old(k.threadC)
        invariant k.Threads() == old(k.Threads()) && k.m.sems - {this} == old(k.m.sems) - {this}
        invariant done + waiting == old(waiting) && Extended(old(k.tList), k.tList, T_DESTROY, done)
        decreases |waiting|
      {
        ghost var l, w := k.tList, waiting;
        DismissFirst(k);
        ExtendedOnce(old(k.tList), l, k.tList, T_DESTROY, done, w[0]);
        Requeue(done, w);
        done := done + [w[0]];
      }
      assert done + waiting == done;
      Delete(k);
    }

    method DismissFirst(k: Globals)
      requires k.Valid() && Inv(k.m) && this in k.Sems() && waiting != []
      modifies this, k, k.Threads()
      ensures k.Valid() && Inv(k.m) && k.threadC == old(k.threadC)
      ensures k.Threads() == old(k.Threads()) && this in k.Sems() && k.m.sems - {this} == old(k.m.sems) - {this}
      ensures waiting == old(waiting[1..]) && Extended(old(k.tList), k.tList, T_DESTROY, [old(waiting[0])])
      ensures IsStep(old(k.m), Dismiss(this), k.m)
    {
      hide Inv, Placed, Linked, Moved, IsStep;
      DismissInv(k.m, this);
      UnlockInv(k.m, this);
      StepsOfSem(k.m, this);
      var t := waiting[0];
      waiting := waiting[1..];
      k.m := WithWaiting(k.m, this, waiting);
      MovedKeeps(k.m, t, T_DESTROY);
      t.MoveTo(k, T_DESTROY);
    }

    /** delete this, which nobody waits on any more. */
    ghost method Delete(k: Globals)
      requires k.Valid() && Inv(k.m) && this in k.Sems() && waiting == []
      modifies k`m
      ensures k.Valid() && Inv(k.m) && k.m == old(k.m).(sems := old(k.m.sems) - {this})
      ensures IsStep(old(k.m), DropSem(this), k.m)
    {
      hide Inv, Linked;
      SemsInv(k.m, this, 0);
      k.m := k.m.(sems := k.m.sems - {this});
    }
  }
}

/** The steps of the scheduler keep its invariant. */
module SchedulerSteps {
  import opened Scheduler
  import opened Sequences

  // ---------------------------------------------------------------- what a step leaves alone

  /** Only the lists named differ; idle and the times to sleep until are as before. */
  ghost predicate Elsewhere<T, S>(m: Machine<T, S>, n: Machine<T, S>, ks: set<nat>) {
    && |m.lists| == T_LISTS && |n.lists| == T_LISTS
    && (forall k :: 0 <= k < T_LISTS && k !in ks ==> n.lists[k] == m.lists[k])
    && n.idle == m.idle && n.deadline == m.deadline
  }

  /** The lists and the semaphores say which threads there are and in what state. */
  lemma StateDetermined<T, S>(m: Machine<T, S>, n: Machine<T, S>)
    requires Placed(m) && Placed(n) && m.lists == n.lists && m.sems == n.sems
    ensures m.state == n.state
  {
    forall t | t in m.state ensures t in n.state && n.state[t] == m.state[t] { StateFrom(m, n, t); }
    forall t | t in n.state ensures t in m.state { StateFrom(n, m, t); }
  }

  lemma StateFrom<T, S>(m: Machine<T, S>, n: Machine<T, S>, t: T)
    requires Placed(m) && Placed(n) && m.lists == n.lists && m.sems == n.sems && t in m.state
    ensures t in n.state && n.state[t] == m.state[t]
  {
    if m.state[t] < T_LISTED {
      assert t in n.lists[m.state[t]];
    } else {
      assert Waits(m.sems, t);
    }
  }

  // ---------------------------------------------------------------- switches

  lemma KnownThreads<T, S>(m: Machine<T, S>, t: T)
    requires Placed(m) && t in m.state
    ensures Known(m, t)
  {
  }

  lemma ListedState<T, S>(m: Machine<T, S>, k: nat, t: T)
    requires Placed(m) && k < T_LISTS
    ensures |m.lists| == T_LISTS && Distinct(m.lists[k])
    ensures t in m.lists[k] ==> t in m.state && m.state[t] == k
  {
  }

  lemma StateListed<T, S>(m: Machine<T, S>, t: T)
    requires Placed(m) && t in m.state
    ensures |m.lists| == T_LISTS && (m.state[t] < T_LISTED || m.state[t] == T_SEMAPHORE_WAIT)
    ensures m.state[t] < T_LISTED ==> t in m.lists[m.state[t]]
  {
  }

  /** Some other thread is READY, so schedule hands over to its first. */
  lemma PopFromGap<T, S>(m: Machine<T, S>)
    requires Gap(m) && m.cur in m.state
    ensures Known(m, m.cur) && Scheduled(m) == Popped(m) && Inv(Popped(m))
    ensures Popped(m).cur == m.lists[T_READY][0]
  {
    PopPlaced(m);
    var r := m.lists[T_READY];
    assert r == [r[0]] + r[1..];
    hide Distinct;
  }

  lemma ScheduleInv<T, S>(m: Machine<T, S>)
    requires Inv(m)
    ensures Known(m, m.cur) && Inv(Scheduled(m))
    ensures m.lists[T_READY] == [] ==> Scheduled(m) == m
    ensures m.lists[T_READY] != [] ==> Scheduled(m).cur == m.lists[T_READY][0] != m.cur
    ensures m.lists[T_READY] != [] ==> Scheduled(m).lists[T_READY] == m.lists[T_READY][1..] + [m.cur]
    ensures m.lists[T_READY] != [] ==> Scheduled(m).state == m.state[m.cur := T_READY][m.lists[T_READY][0] := T_RUNNING]
    ensures Scheduled(m).sems == m.sems && Elsewhere(m, Scheduled(m), {T_RUNNING, T_READY})
  {
    hide Placed, Distinct;
    ListedState(m, T_RUNNING, m.cur);
    if m.lists[T_READY] != [] {
      ListedState(m, T_READY, m.lists[T_READY][0]);
      var n := Moved(m, m.cur, T_READY);
      MovePlaced(m, m.cur, T_READY);
      OnlyOne(m.lists[T_RUNNING], m.cur);
      PopFromGap(n);
      PopPlaced(n);
    }
  }

  lemma OnlyOne<T>(l: seq<T>, t: T)
    requires l == [t]
    ensures Without(l, t) == []
  {
  }

  lemma InWithout<T>(l: seq<T>, t: T, u: T)
    requires Distinct(l) && u in l && u != t
    ensures u in Without(l, t)
  {
    WithoutIs(l, t);
  }

  // ---------------------------------------------------------------- block and unblock

  /** Blocking the running thread always finds a successor: idle waits in READY. */
  lemma BlockInv<T, S>(m: Machine<T, S>, t: T, to: nat)
    requires Inv(m) && t in m.state && m.state[t] < T_LISTED && t != m.idle
    requires to == T_READY || to == T_DESTROY || to == T_SLEEP
    ensures Known(m, t) && Known(m, m.cur) && Inv(Blocked(m, t, to))
    ensures t == m.cur ==> m.lists[T_READY] != [] && Blocked(m, t, to).cur == m.lists[T_READY][0] != m.cur
    ensures t == m.cur ==>
      Blocked(m, t, to).lists[T_READY] == m.lists[T_READY][1..] + (if to == T_READY then [t] else [])
    ensures t == m.cur && to != T_READY ==> Blocked(m, t, to).lists[to] == m.lists[to] + [t]
    ensures t == m.cur ==> Elsewhere(m, Blocked(m, t, to), {T_RUNNING, T_READY, to})
    ensures t == m.cur ==> Blocked(m, t, to).state == m.state[t := to][m.lists[T_READY][0] := T_RUNNING]
    ensures t != m.cur ==> Blocked(m, t, to) == Moved(m, t, to) && Blocked(m, t, to).cur == m.cur
    ensures t != m.cur ==>
      Blocked(m, t, to).state == m.state[t := to] && Elsewhere(m, Blocked(m, t, to), {m.state[t], to})
    ensures t != m.cur && m.state[t] != to ==>
      Blocked(m, t, to).lists[m.state[t]] == Without(m.lists[m.state[t]], t) &&
      Blocked(m, t, to).lists[to] == m.lists[to] + [t]
    ensures Blocked(m, t, to).sems == m.sems
  {
    hide Placed, Distinct, Scheduled, Without;
    ListedState(m, T_RUNNING, m.cur);
    ListedState(m, T_RUNNING, t);
    StateListed(m, t);
    KnownThreads(m, m.cur);
    MovePlaced(m, t, to);
    var n := Moved(m, t, to);
    if t == m.cur {
      OnlyOne(m.lists[T_RUNNING], t);
      ListedState(m, T_READY, m.lists[T_READY][0]);
      PopFromGap(n);
      PopPlaced(n);
    } else {
      OthersMove(m, t, to);
    }
  }

  /** Moving a thread that neither runs nor is idle. */
  lemma OthersMove<T, S>(m: Machine<T, S>, t: T, to: nat)
    requires Inv(m) && t in m.state && m.state[t] < T_LISTED && t != m.idle && t != m.cur
    requires to == T_READY || to == T_DESTROY || to == T_SLEEP
    ensures Known(m, t) && Inv(Moved(m, t, to))
  {
    MovePlaced(m, t, to);
    StateListed(m, t);
    ListedState(m, T_RUNNING, t);
    hide Placed, Distinct, Without;
    if m.cur != m.idle && m.state[t] == T_READY && to != T_READY {
      ListedState(m, T_READY, t);
      InWithout(m.lists[T_READY], t, m.idle);
    }
  }

  /** Waking keeps the invariant before any switch. */
  lemma ReadyAgain<T, S>(m: Machine<T, S>, t: T)
    requires Inv(m) && t in m.state && m.state[t] < T_LISTED && t != m.cur
    ensures Known(m, t) && Inv(Moved(m, t, T_READY)) && Moved(m, t, T_READY).cur == m.cur
    ensures t in Moved(m, t, T_READY).lists[T_READY]
    ensures |Moved(m, t, T_READY).lists[T_READY]| == 1 <==> m.lists[T_READY] == [] || m.lists[T_READY] == [t]
    ensures |Moved(m, t, T_READY).lists[T_READY]| == 1 ==> Moved(m, t, T_READY).lists[T_READY] == [t]
    ensures Moved(m, t, T_READY).lists[T_READY] == if m.state[t] == T_READY then m.lists[T_READY]
      else m.lists[T_READY] + [t]
  {
    hide Placed, Distinct;
    ListedState(m, T_RUNNING, m.cur);
    ListedState(m, T_RUNNING, t);
    ListedState(m, T_READY, t);
    StateListed(m, t);
    MovePlaced(m, t, T_READY);
    var r := m.lists[T_READY];
    assert |r| == 1 ==> r == [r[0]];
  }

  /** Waking a thread switches exactly when READY was empty but for it, which for every
      thread but idle only happens while idle runs. */
  lemma UnblockInv<T, S>(m: Machine<T, S>, t: T)
    requires Inv(m) && t in m.state && m.state[t] < T_LISTED && t != m.cur
    ensures Known(m, t) && Known(m, m.cur) && Inv(Unblocked(m, t))
    ensures Unblocked(m, t).cur != m.cur <==> (m.lists[T_READY] == [] || m.lists[T_READY] == [t])
    ensures Unblocked(m, t).cur != m.cur ==> (m.cur == m.idle || t == m.idle) && Unblocked(m, t).cur == t
    ensures Unblocked(m, t).cur != m.cur ==> Unblocked(m, t).lists[T_READY] == [m.cur]
    ensures Unblocked(m, t).cur == m.cur ==>
      Unblocked(m, t).lists[T_READY] == if m.state[t] == T_READY then m.lists[T_READY] else m.lists[T_READY] + [t]
    ensures m.state[t] == T_SLEEP || m.state[t] == T_DESTROY ==>
      Unblocked(m, t).lists[m.state[t]] == Without(m.lists[m.state[t]], t)
    ensures Unblocked(m, t).sems == m.sems && Elsewhere(m, Unblocked(m, t), {T_RUNNING, T_READY, m.state[t]})
    ensures Unblocked(m, t).state == if Unblocked(m, t).cur == m.cur then m.state[t := T_READY]
      else m.state[m.cur := T_READY][t := T_RUNNING]
  {
    hide Placed, Distinct, Scheduled;
    ListedState(m, T_RUNNING, m.cur);
    ListedState(m, T_READY, m.idle);
    StateListed(m, t);
    MovePlaced(m, t, T_READY);
    ReadyAgain(m, t);
    ScheduleInv(Moved(m, t, T_READY));
  }

  // ---------------------------------------------------------------- semaphores

  /** Counts change, places do not. */
  lemma CountPlaced<T, S>(m: Machine<T, S>, s: S, n: nat)
    requires Placed(m) && s in m.sems
    ensures Placed(WithCount(m, s, n))
  {
    hide ListsRight;
    var c := WithCount(m, s, n).sems;
    assert forall r :: r in m.sems ==> c[r].waiting == m.sems[r].waiting;
    forall u | u in m.state && m.state[u] >= T_LISTED ensures Waits(c, u) {
      assert Waits(m.sems, u);
      var r :| r in m.sems && u in m.sems[r].waiting;
      assert r in c && u in c[r].waiting;
    }
    hide Waits, Distinct;
  }

  /** Taking a free permit, which is only free while nobody waits. */
  lemma TakePermit<T, S>(m: Machine<T, S>, s: S)
    requires Inv(m) && s in m.sems && m.sems[s].thr < m.sems[s].max
    ensures Inv(WithCount(m, s, m.sems[s].thr + 1)) && m.sems[s].waiting == []
  {
    CountPlaced(m, s, m.sems[s].thr + 1);
    hide Placed;
    assert Counted(m.sems[s]);
  }

  lemma LockInv<T, S>(m: Machine<T, S>, s: S)
    requires Inv(m) && s in m.sems && (m.sems[s].thr < m.sems[s].max || m.cur != m.idle)
    ensures Known(m, m.cur) && Inv(Locked(m, s))
    ensures m.sems[s].thr < m.sems[s].max ==>
      Locked(m, s) == m.(sems := m.sems[s := Sem(m.sems[s].max, m.sems[s].thr + 1, [])]) && m.sems[s].waiting == []
    ensures m.sems[s].thr == m.sems[s].max ==>
      m.lists[T_READY] != [] && Locked(m, s).cur == m.lists[T_READY][0] != m.cur
      && Locked(m, s).lists[T_READY] == m.lists[T_READY][1..] && Elsewhere(m, Locked(m, s), {T_RUNNING, T_READY})
      && Locked(m, s).state == m.state[m.cur := T_SEMAPHORE_WAIT][m.lists[T_READY][0] := T_RUNNING]
      && Locked(m, s).sems == m.sems[s := m.sems[s].(waiting := m.sems[s].waiting + [m.cur])]
  {
    hide Placed, Distinct;
    ListedState(m, T_RUNNING, m.cur);
    KnownThreads(m, m.cur);
    assert Counted(m.sems[s]);
    if m.sems[s].thr < m.sems[s].max {
      TakePermit(m, s);
    } else {
      ParkPlaced(m, m.cur, s);
      OnlyOne(m.lists[T_RUNNING], m.cur);
      ListedState(m, T_READY, m.lists[T_READY][0]);
      var n := WithWaiting(Moved(m, m.cur, T_SEMAPHORE_WAIT), s, m.sems[s].waiting + [m.cur]);
      PopFromGap(n);
      PopPlaced(n);
    }
  }

  lemma Waiter<T, S>(m: Machine<T, S>, s: S)
    requires Placed(m) && s in m.sems && m.sems[s].waiting != []
    ensures Known(m, m.sems[s].waiting[0]) && m.state[m.sems[s].waiting[0]] == T_SEMAPHORE_WAIT
    ensures |m.lists| == T_LISTS && forall k :: 0 <= k < T_LISTS ==> m.sems[s].waiting[0] !in m.lists[k]
  {
    var w := m.sems[s].waiting;
    assert w[0] in w;
  }

  /** The first waiter becomes READY with the permit; what the machine is before any switch. */
  lemma GrantInv<T, S>(m: Machine<T, S>, s: S)
    requires Inv(m) && s in m.sems && m.sems[s].waiting != []
    ensures var w := m.sems[s].waiting; var n := WithWaiting(m, s, w[1..]);
      && Known(n, w[0]) && Known(n, n.cur) && Inv(Moved(n, w[0], T_READY)) && w[0] != m.cur && w[0] != m.idle
      && |m.lists| == T_LISTS && Moved(n, w[0], T_READY).lists == m.lists[T_READY := m.lists[T_READY] + [w[0]]]
      && Moved(n, w[0], T_READY).cur == m.cur && Moved(n, w[0], T_READY).idle == m.idle &&
        Moved(n, w[0], T_READY).sems == n.sems
      && Moved(n, w[0], T_READY).deadline == m.deadline && Moved(n, w[0], T_READY).state == m.state[w[0] := T_READY]
  {
    hide Placed, Distinct;
    GrantPlaced(m, s, T_READY);
    Waiter(m, s);
    ListedState(m, T_RUNNING, m.cur);
    StateListed(m, m.idle);
    IdleListed(m);
    KnownThreads(m, m.cur);
    assert Counted(m.sems[s]);
  }

  /** While another thread than idle runs, a waiter made READY just queues there. */
  lemma GrantQueues<T, S>(m: Machine<T, S>, s: S)
    requires Inv(m) && s in m.sems && m.sems[s].waiting != [] && m.cur != m.idle
    ensures var w := m.sems[s].waiting; var n := WithWaiting(m, s, w[1..]);
      && Known(n, w[0]) && Known(n, n.cur) && Inv(Unblocked(n, w[0])) && Unblocked(n, w[0]).cur == m.cur
      && Unblocked(n, w[0]).idle == m.idle && Unblocked(n, w[0]).sems == n.sems
      && |m.lists| == T_LISTS && Unblocked(n, w[0]).lists == m.lists[T_READY := m.lists[T_READY] + [w[0]]]
  {
    hide Placed, Distinct, Scheduled, Moved;
    IdleListed(m);
    GrantPlaced(m, s, T_READY);
    GrantInv(m, s);
    ListedState(m, T_RUNNING, m.cur);
  }

  lemma IdleListed<T, S>(m: Machine<T, S>)
    requires Inv(m)
    ensures m.idle in m.lists[T_RUNNING] || m.idle in m.lists[T_READY]
  {
  }

  /** unlock with waiters, before any switch and after. */
  lemma UnlockGrants<T, S>(m: Machine<T, S>, s: S) returns (o: Machine<T, S>)
    requires Inv(m) && s in m.sems && m.sems[s].waiting != []
    ensures Known(m, m.cur) && Known(m, m.sems[s].waiting[0]) && |m.lists| == T_LISTS
    ensures Inv(o) && o.cur == m.cur && o.lists == m.lists[T_READY := m.lists[T_READY] + [m.sems[s].waiting[0]]]
    ensures o.idle == m.idle && o.deadline == m.deadline && o.state == m.state[m.sems[s].waiting[0] := T_READY]
    ensures o.sems == m.sems[s := m.sems[s].(waiting := m.sems[s].waiting[1..])]
    ensures Known(o, o.cur) && Unlocked(m, s) == if m.lists[T_READY] == [] then Scheduled(o) else o
    ensures m.lists[T_READY] == [] ==> m.cur == m.idle
  {
    hide Placed, Distinct, Scheduled, Moved;
    ListedState(m, T_RUNNING, m.cur);
    KnownThreads(m, m.cur);
    Waiter(m, s);
    GrantInv(m, s);
    IdleListed(m);
    o := Moved(WithWaiting(m, s, m.sems[s].waiting[1..]), m.sems[s].waiting[0], T_READY);
    ListedState(o, T_RUNNING, o.cur);
    KnownThreads(o, o.cur);
  }

  lemma UnlockWakes<T, S>(m: Machine<T, S>, s: S)
    requires Inv(m) && s in m.sems && m.sems[s].waiting != []
    ensures Known(m, m.cur) && Known(m, m.sems[s].waiting[0]) && |m.lists| == T_LISTS
    ensures var n, w := Unlocked(m, s), m.sems[s].waiting;
      && Inv(n) && n.sems == m.sems[s := m.sems[s].(waiting := w[1..])] && Elsewhere(m, n, {T_RUNNING, T_READY})
      && (m.lists[T_READY] != [] ==>
            n.cur == m.cur && n.lists[T_READY] == m.lists[T_READY] + [w[0]] && n.state == m.state[w[0] := T_READY])
      && (m.lists[T_READY] == [] ==> n.cur == w[0] != m.cur && m.cur == m.idle)
      && (m.lists[T_READY] == [] ==>
            n.lists[T_READY] == [m.cur] && n.state == m.state[m.cur := T_READY][w[0] := T_RUNNING])
  {
    hide Inv, Placed, Scheduled, Unlocked;
    var o := UnlockGrants(m, s);
    ScheduleInv(o);
    assert m.state[m.sems[s].waiting[0] := T_READY][m.cur := T_READY][m.sems[s].waiting[0] := T_RUNNING] ==
      m.state[m.cur := T_READY][m.sems[s].waiting[0] := T_RUNNING];
  }

  /** unlock hands the permit to the first waiter without a switch, unless idle runs with
      READY empty; without waiters it gives the permit back. */
  lemma UnlockInv<T, S>(m: Machine<T, S>, s: S)
    requires Inv(m) && s in m.sems
    ensures Known(m, m.cur) && (m.sems[s].waiting != [] ==> Known(m, m.sems[s].waiting[0]))
    ensures Inv(Unlocked(m, s))
    ensures Unlocked(m, s).cur != m.cur <==> m.sems[s].waiting != [] && m.lists[T_READY] == []
    ensures Unlocked(m, s).cur != m.cur ==> m.cur == m.idle && Unlocked(m, s).cur == m.sems[s].waiting[0]
    ensures Unlocked(m, s).cur != m.cur ==> Unlocked(m, s).lists[T_READY] == [m.cur]
    ensures Unlocked(m, s).cur == m.cur ==>
      Unlocked(m, s).lists[T_READY] == m.lists[T_READY] +
        (if m.sems[s].waiting != [] then [m.sems[s].waiting[0]] else [])
    ensures m.sems[s].waiting == [] ==> Unlocked(m, s) == if m.sems[s].thr == 0 then m
      else m.(sems := m.sems[s := Sem(m.sems[s].max, m.sems[s].thr - 1, [])])
    ensures m.sems[s].waiting != [] ==>
      Unlocked(m, s).sems == m.sems[s := m.sems[s].(waiting := m.sems[s].waiting[1..])]
    ensures m.sems[s].waiting != [] ==>
      Unlocked(m, s).state == if m.lists[T_READY] != [] then m.state[m.sems[s].waiting[0] := T_READY]
        else m.state[m.cur := T_READY][m.sems[s].waiting[0] := T_RUNNING]
    ensures Elsewhere(m, Unlocked(m, s), {T_RUNNING, T_READY})
  {
    ListedState(m, T_RUNNING, m.cur);
    KnownThreads(m, m.cur);
    hide Placed, Distinct, Scheduled, Unblocked;
    if m.sems[s].waiting != [] {
      hide Unlocked, Inv;
      UnlockWakes(m, s);
    } else if m.sems[s].thr != 0 {
      CountPlaced(m, s, m.sems[s].thr - 1);
      assert Counted(m.sems[s]);
    }
  }

  lemma DismissInv<T, S>(m: Machine<T, S>, s: S)
    requires Inv(m) && s in m.sems && m.sems[s].waiting != []
    ensures Known(m, m.sems[s].waiting[0]) && Inv(Dismissed(m, s))
    ensures Dismissed(m, s).cur == m.cur &&
      Dismissed(m, s).sems == m.sems[s := m.sems[s].(waiting := m.sems[s].waiting[1..])]
    ensures Dismissed(m, s).lists == m.lists[T_DESTROY := m.lists[T_DESTROY] + [m.sems[s].waiting[0]]]
    ensures Dismissed(m, s).state == m.state[m.sems[s].waiting[0] := T_DESTROY]
    ensures Dismissed(m, s).idle == m.idle && Dismissed(m, s).deadline == m.deadline
  {
    hide Placed, Distinct;
    Waiter(m, s);
    GrantPlaced(m, s, T_DESTROY);
    assert Counted(m.sems[s]);
  }

  /** Semaphores come and go empty. */
  lemma SemPlaced<T, S>(m: Machine<T, S>, s: S, max: nat)
    requires Placed(m)
    ensures s !in m.sems ==> Placed(m.(sems := m.sems[s := Sem(max, 0, [])]))
    ensures s in m.sems && m.sems[s].waiting == [] ==> Placed(m.(sems := m.sems - {s}))
  {
    hide ListsRight;
    var n, d := m.sems[s := Sem(max, 0, [])], m.sems - {s};
    forall u | u in m.state && m.state[u] >= T_LISTED
      ensures s !in m.sems ==> Waits(n, u)
      ensures s in m.sems && m.sems[s].waiting == [] ==> Waits(d, u)
    {
      assert Waits(m.sems, u);
      var r :| r in m.sems && u in m.sems[r].waiting;
      assert s !in m.sems ==> r in n && u in n[r].waiting;
      assert s in m.sems && m.sems[s].waiting == [] ==> r in d && u in d[r].waiting;
    }
    hide Waits;
  }

  // ---------------------------------------------------------------- birth and death

  /** A new thread is READY behind all others, and nothing else changes. */
  lemma SpawnInv<T, S>(m: Machine<T, S>, t: T, until: nat)
    requires Inv(m) && t !in m.state
    ensures Inv(Spawned(m, t, until)) && |m.lists| == T_LISTS
    ensures Spawned(m, t, until).lists == m.lists[T_READY := m.lists[T_READY] + [t]]
    ensures Spawned(m, t, until).state == m.state[t := T_READY]
    ensures Spawned(m, t, until).deadline == m.deadline[t := until]
    ensures Spawned(m, t, until).cur == m.cur && Spawned(m, t, until).idle == m.idle &&
      Spawned(m, t, until).sems == m.sems
  {
    hide SemsRight, Distinct;
    ListsEnter(m.lists, m.state, t, T_READY);
    SemsIgnore(m.sems, m.state, t, T_READY);
  }

  lemma ReapPlaced<T, S>(m: Machine<T, S>)
    requires Placed(m) && m.lists[T_DESTROY] != []
    ensures Placed(Reaped(m))
  {
    var l := m.lists[T_DESTROY];
    assert l[0] in l;
    hide SemsRight, Distinct;
    HeadWithout(l);
    ListsLeave(m.lists, m.state, l[0]);
    SemsIgnore(m.sems, m.state, l[0], T_READY);
  }

  /** The first thread of DESTROY goes, and nothing else changes. */
  lemma ReapInv<T, S>(m: Machine<T, S>)
    requires Inv(m) && m.lists[T_DESTROY] != []
    ensures Inv(Reaped(m)) && m.lists[T_DESTROY][0] != m.cur
    ensures Reaped(m).lists == m.lists[T_DESTROY := m.lists[T_DESTROY][1..]]
    ensures Reaped(m).state == m.state - {m.lists[T_DESTROY][0]}
    ensures Reaped(m).deadline == m.deadline - {m.lists[T_DESTROY][0]}
    ensures Reaped(m).cur == m.cur && Reaped(m).idle == m.idle && Reaped(m).sems == m.sems
  {
    hide Placed, Distinct;
    ReapPlaced(m);
    ListedState(m, T_DESTROY, m.cur);
    ListedState(m, T_DESTROY, m.lists[T_DESTROY][0]);
    ListedState(m, T_RUNNING, m.cur);
    ListedState(m, T_READY, m.idle);
    ListedState(m, T_RUNNING, m.idle);
  }
}

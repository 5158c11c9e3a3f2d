/** The timer interrupt: waking the sleepers whose time has come, with switches held back. */
module Timer {
  import opened Scheduler
  import opened Sequences
  import opened SchedulerSteps

  function Deadline<T(==), S(==)>(m: Machine<T, S>, t: T): nat {
    if t in m.deadline then m.deadline[t] else 0
  }

  /** Sleepers due at nsec, in list order, and the others, in list order. */
  function Due<T(==), S(==)>(m: Machine<T, S>, l: seq<T>, nsec: nat): seq<T> {
    if l == [] then []
    else (if Deadline(m, l[0]) <= nsec then [l[0]] else []) + Due(m, l[1..], nsec)
  }

  function NotDue<T(==), S(==)>(m: Machine<T, S>, l: seq<T>, nsec: nat): seq<T> {
    if l == [] then []
    else (if Deadline(m, l[0]) <= nsec then [] else [l[0]]) + NotDue(m, l[1..], nsec)
  }

  /** The scan of sched_time_handler from index i on, with the scheduler held. */
  function Scan<T(==), S(==)>(m: Machine<T, S>, i: nat, nsec: nat): (n: Machine<T, S>)
    requires Placed(m) && m.cur in m.state && m.post > 0 && i <= |m.lists[T_SLEEP]|
    ensures Placed(n)
    decreases |m.lists[T_SLEEP]| - i
  {
    if i == |m.lists[T_SLEEP]| then m
    else
      var t := m.lists[T_SLEEP][i];
      if Deadline(m, t) <= nsec then
        WakeStep(m, i);
        Scan(Unblocked(m, t), i, nsec)
      else Scan(m, i + 1, nsec)
  }

  lemma {:induction false} WithoutAt<T>(l: seq<T>, i: nat)
    requires Distinct(l) && i < |l|
    ensures Without(l, l[i]) == l[..i] + l[i + 1..]
  {
    if i > 0 {
      var t := l[1..];
      assert forall a, b :: 0 <= a < b < |t| ==> t[a] != t[b] by {
        assert forall a :: 0 <= a < |t| ==> t[a] == l[a + 1];
      }
      WithoutAt(t, i - 1);
      assert l[0] != l[i] == t[i - 1];
      assert [l[0]] + (t[..i - 1] + t[i..]) == l[..i] + l[i + 1..];
    } else {
      assert l[..0] + l[1..] == l[1..];
    }
  }

  /** Waking the sleeper at index i with switches held: it moves to the end of READY. */
  lemma WakeStep<T, S>(m: Machine<T, S>, i: nat)
    requires Placed(m) && m.cur in m.state && m.post > 0 && i < |m.lists[T_SLEEP]|
    ensures var t := m.lists[T_SLEEP][i]; var n := Unblocked(m, t);
      Known(m, t) && Known(m, m.cur) && Placed(n) && n.cur in n.state && n.post == m.post && Woke(m, n, i)
  {
    var t := m.lists[T_SLEEP][i];
    ListedState(m, T_SLEEP, t);
    WithoutAt(m.lists[T_SLEEP], i);
    KnownThreads(m, m.cur);
    hide Placed, Distinct, Without, Unblocked, Moved;
    MovePlaced(m, t, T_READY);
    MovedKeeps(m, t, T_READY);
    HeldUnblock(m, t);
    FlagPlaced(Moved(m, t, T_READY));
  }

  /** With switches held, unblock moves the thread and at most raises the flag. */
  lemma HeldUnblock<T, S>(m: Machine<T, S>, t: T)
    requires Known(m, t) && Known(m, m.cur) && m.post > 0
    ensures var n := Moved(m, t, T_READY);
      |n.lists| == T_LISTS && Unblocked(m, t) == if |n.lists[T_READY]| == 1 then n.(flag := true) else n
  {
    MovedKeeps(m, t, T_READY);
    hide Moved;
  }

  lemma MovedKeeps<T, S>(m: Machine<T, S>, t: T, to: nat)
    requires Known(m, t) && to < T_LISTED
    ensures var n := Moved(m, t, to);
      && n.cur == m.cur && n.idle == m.idle && n.sems == m.sems && n.deadline == m.deadline && n.post == m.post
      && n.flag == m.flag && n.state.Keys == m.state.Keys && |n.lists| == T_LISTS
  {
  }

  lemma FlagPlaced<T, S>(m: Machine<T, S>)
    requires Placed(m)
    ensures Placed(m.(flag := true)) && Placed(m.(flag := false)) && forall p: nat :: Placed(m.(post := p))
  {
  }

  /** The scan leaves everything but SLEEP, READY, the flag and the states of the woken alone. */
  ghost predicate OnlyWoke<T, S>(m: Machine<T, S>, n: Machine<T, S>) {
    && |n.lists| == |m.lists| == T_LISTS
    && (forall k :: 0 <= k < T_LISTS && k != T_SLEEP && k != T_READY ==> n.lists[k] == m.lists[k])
    && n.cur == m.cur && n.idle == m.idle && n.sems == m.sems && n.deadline == m.deadline && n.post == m.post
    && n.state.Keys == m.state.Keys
  }

  lemma WokeTwice<T, S>(m: Machine<T, S>, n: Machine<T, S>, o: Machine<T, S>)
    requires OnlyWoke(m, n) && OnlyWoke(n, o)
    ensures OnlyWoke(m, o)
  {
  }

  function DueFrom<T(==), S(==)>(m: Machine<T, S>, i: nat, nsec: nat): seq<T>
    requires |m.lists| == T_LISTS && i <= |m.lists[T_SLEEP]|
  {
    Due(m, m.lists[T_SLEEP][i..], nsec)
  }

  function NotDueFrom<T(==), S(==)>(m: Machine<T, S>, i: nat, nsec: nat): seq<T>
    requires |m.lists| == T_LISTS && i <= |m.lists[T_SLEEP]|
  {
    NotDue(m, m.lists[T_SLEEP][i..], nsec)
  }

  /** What the scan of m from i on must end in. */
  ghost predicate Scanned<T, S>(m: Machine<T, S>, i: nat, nsec: nat, n: Machine<T, S>) {
    && OnlyWoke(m, n) && i <= |m.lists[T_SLEEP]|
    && n.lists[T_SLEEP] == m.lists[T_SLEEP][..i] + NotDueFrom(m, i, nsec)
    && n.lists[T_READY] == m.lists[T_READY] + DueFrom(m, i, nsec)
    && n.flag == (m.flag || (m.lists[T_READY] == [] && DueFrom(m, i, nsec) != []))
  }

  /** One turn of the scan. */
  lemma ScanStep<T, S>(m: Machine<T, S>, i: nat, nsec: nat)
    requires Placed(m) && m.cur in m.state && m.post > 0 && i <= |m.lists[T_SLEEP]|
    ensures i == |m.lists[T_SLEEP]| ==> Scan(m, i, nsec) == m
    ensures i < |m.lists[T_SLEEP]| ==> var t := m.lists[T_SLEEP][i];
      && Known(m, t) && Known(m, m.cur) && Placed(Unblocked(m, t)) && Woke(m, Unblocked(m, t), i)
      && Unblocked(m, t).cur == m.cur && m.cur in Unblocked(m, t).state && Unblocked(m, t).post == m.post
      && |Unblocked(m, t).lists[T_SLEEP]| == |m.lists[T_SLEEP]| - 1
      && Scan(m, i, nsec) == if Deadline(m, t) <= nsec then Scan(Unblocked(m, t), i, nsec) else Scan(m, i + 1, nsec)
  {
    hide Placed;
    StateListed(m, m.cur);
    if i < |m.lists[T_SLEEP]| {
      WakeStep(m, i);
    }
  }

  /** The due sleepers of a list are those whose time is not after nsec. */
  lemma {:induction false} DueHas<T, S>(m: Machine<T, S>, l: seq<T>, nsec: nat, t: T)
    requires t in m.deadline
    ensures t in Due(m, l, nsec) <==> t in l && m.deadline[t] <= nsec
    ensures t in NotDue(m, l, nsec) <==> t in l && m.deadline[t] > nsec
  {
    if l != [] {
      assert l == [l[0]] + l[1..];
      DueHas(m, l[1..], nsec, t);
    }
  }

  lemma ScanEnds<T, S>(m: Machine<T, S>, nsec: nat)
    requires |m.lists| == T_LISTS
    ensures Scanned(m, |m.lists[T_SLEEP]|, nsec, m)
  {
    var l := m.lists[T_SLEEP];
    assert l[|l|..] == [] && l[..|l|] == l;
    assert m.lists[T_READY] + [] == m.lists[T_READY];
  }

  /** The scan moves exactly the due sleepers to READY, in order, and keeps the rest in order. */
  lemma {:induction false} ScanIs<T, S>(m: Machine<T, S>, i: nat, nsec: nat)
    requires Placed(m) && m.cur in m.state && m.post > 0 && i <= |m.lists[T_SLEEP]|
    ensures Scanned(m, i, nsec, Scan(m, i, nsec))
    decreases |m.lists[T_SLEEP]| - i
  {
    hide Placed, Scan, Scanned, Unblocked, Woke, OnlyWoke;
    StateListed(m, m.cur);
    ScanStep(m, i, nsec);
    var l := m.lists[T_SLEEP];
    if i == |l| {
      ScanEnds(m, nsec);
    } else if Deadline(m, l[i]) <= nsec {
      WakeStep(m, i);
      ScanIs(Unblocked(m, l[i]), i, nsec);
      DueWoken(m, Unblocked(m, l[i]), i, nsec);
      ScanWakes(m, Unblocked(m, l[i]), i, nsec, Scan(m, i, nsec));
    } else {
      ScanIs(m, i + 1, nsec);
      DueAt(m, i, nsec);
      ScanSkips(m, i, nsec, Scan(m, i, nsec));
    }
  }

  /** m after the sleeper at i has woken. */
  ghost predicate Woke<T, S>(m: Machine<T, S>, n: Machine<T, S>, i: nat) {
    && OnlyWoke(m, n) && i < |m.lists[T_SLEEP]|
    && n.lists[T_SLEEP] == m.lists[T_SLEEP][..i] + m.lists[T_SLEEP][i + 1..]
    && n.lists[T_READY] == m.lists[T_READY] + [m.lists[T_SLEEP][i]]
    && n.flag == (m.flag || m.lists[T_READY] == [])
  }

  lemma ScanWakes<T, S>(m: Machine<T, S>, n: Machine<T, S>, i: nat, nsec: nat, o: Machine<T, S>)
    requires Woke(m, n, i) && Scanned(n, i, nsec, o)
    requires DueFrom(m, i, nsec) == [m.lists[T_SLEEP][i]] + DueFrom(n, i, nsec) &&
      NotDueFrom(m, i, nsec) == NotDueFrom(n, i, nsec)
    ensures Scanned(m, i, nsec, o)
  {
    hide DueFrom, NotDueFrom;
    WokeTwice(m, n, o);
    assert n.lists[T_SLEEP][..i] == m.lists[T_SLEEP][..i];
    Regroup(m.lists[T_READY], m.lists[T_SLEEP][i], DueFrom(n, i, nsec));
  }

  lemma ScanSkips<T, S>(m: Machine<T, S>, i: nat, nsec: nat, o: Machine<T, S>)
    requires |m.lists| == T_LISTS && i < |m.lists[T_SLEEP]| && Scanned(m, i + 1, nsec, o)
    requires DueFrom(m, i, nsec) == DueFrom(m, i + 1, nsec) &&
      NotDueFrom(m, i, nsec) == [m.lists[T_SLEEP][i]] + NotDueFrom(m, i + 1, nsec)
    ensures Scanned(m, i, nsec, o)
  {
    hide DueFrom, NotDueFrom, OnlyWoke;
    var l := m.lists[T_SLEEP];
    assert l[..i + 1] == l[..i] + [l[i]];
    Regroup(l[..i], l[i], NotDueFrom(m, i + 1, nsec));
  }

  lemma Regroup<T>(a: seq<T>, x: T, b: seq<T>)
    ensures a + [x] + b == a + ([x] + b)
  {
  }

  lemma DueAt<T, S>(m: Machine<T, S>, i: nat, nsec: nat)
    requires |m.lists| == T_LISTS && i < |m.lists[T_SLEEP]|
    ensures Deadline(m, m.lists[T_SLEEP][i]) <= nsec ==>
      DueFrom(m, i, nsec) == [m.lists[T_SLEEP][i]] + DueFrom(m, i + 1, nsec) &&
        NotDueFrom(m, i, nsec) == NotDueFrom(m, i + 1, nsec)
    ensures Deadline(m, m.lists[T_SLEEP][i]) > nsec ==>
      DueFrom(m, i, nsec) == DueFrom(m, i + 1, nsec) &&
        NotDueFrom(m, i, nsec) == [m.lists[T_SLEEP][i]] + NotDueFrom(m, i + 1, nsec)
  {
    assert m.lists[T_SLEEP][i..][1..] == m.lists[T_SLEEP][i + 1..];
  }

  lemma DueWoken<T, S>(m: Machine<T, S>, n: Machine<T, S>, i: nat, nsec: nat)
    requires Woke(m, n, i) && Deadline(m, m.lists[T_SLEEP][i]) <= nsec
    ensures DueFrom(m, i, nsec) == [m.lists[T_SLEEP][i]] + DueFrom(n, i, nsec) &&
      NotDueFrom(m, i, nsec) == NotDueFrom(n, i, nsec)
  {
    DueAt(m, i, nsec);
    assert n.lists[T_SLEEP][i..] == m.lists[T_SLEEP][i + 1..];
    SameDeadlines(m, n, m.lists[T_SLEEP][i + 1..], nsec);
  }

  lemma SameDeadlines<T, S>(m: Machine<T, S>, n: Machine<T, S>, l: seq<T>, nsec: nat)
    requires m.deadline == n.deadline
    ensures Due(m, l, nsec) == Due(n, l, nsec) && NotDue(m, l, nsec) == NotDue(n, l, nsec)
  {
  }

  /** max(thread_post_c, 1) - 1 */
  function Released(post: nat): nat { if post > 1 then post - 1 else 0 }

  /** unlock_all: the switch held back, if any, happens now. */
  function Resumed<T(==), S(==)>(m: Machine<T, S>): Machine<T, S>
    requires Known(m, m.cur)
  {
    var n := m.(post := Released(m.post));
    if n.post == 0 && n.flag then Scheduled(n.(flag := false)) else n
  }

  /** lock_all, the scan, unlock_all: at most one switch, after the scan. */
  function Ticked<T(==), S(==)>(m: Machine<T, S>, nsec: nat): Machine<T, S>
    requires Inv(m)
  {
    FlagPlaced(m);
    TickKnown(m);
    var a := m.(post := m.post + 1);
    var b := Scan(a, 0, nsec);
    ScanIs(a, 0, nsec);
    KnownThreads(b, b.cur);
    Resumed(b)
  }

  lemma TickKnown<T, S>(m: Machine<T, S>)
    requires Inv(m)
    ensures Placed(m) && m.cur in m.state
  {
    ListedState(m, T_RUNNING, m.cur);
  }

  /** A tick keeps the invariant and switches exactly when a thread woke while READY was
      empty, that is while idle ran alone; then the first that woke runs. */
  lemma TickInv<T, S>(m: Machine<T, S>, nsec: nat)
    requires Inv(m)
    ensures Inv(Ticked(m, nsec)) && Ticked(m, nsec).sems == m.sems
    ensures Elsewhere(m, Ticked(m, nsec), {T_RUNNING, T_READY, T_SLEEP})
    ensures var woken := Due(m, m.lists[T_SLEEP], nsec);
      && (Ticked(m, nsec).cur != m.cur <==> m.lists[T_READY] == [] && woken != [])
      && (Ticked(m, nsec).cur != m.cur ==> m.cur == m.idle && Ticked(m, nsec).cur == woken[0])
      && (Ticked(m, nsec).cur != m.cur ==> Ticked(m, nsec).lists[T_READY] == woken[1..] + [m.cur])
      && (Ticked(m, nsec).cur == m.cur ==> Ticked(m, nsec).lists[T_READY] == m.lists[T_READY] + woken)
      && Ticked(m, nsec).lists[T_SLEEP] == NotDue(m, m.lists[T_SLEEP], nsec)
  {
    hide Inv, Placed, Distinct, Scheduled, Due, NotDue, Ticked, Elsewhere, OnlyWoke;
    IdleAlone(m);
    var b := TickShape(m, nsec);
    var c := b.(post := 0).(flag := false);
    TickFrame(m, b, c);
    if b.flag {
      ScheduleInv(c);
      ElsewhereTwice(m, c, Scheduled(c));
      assert [] + Due(m, m.lists[T_SLEEP], nsec) == Due(m, m.lists[T_SLEEP], nsec);
      ScheduleSleep(c, Scheduled(c));
    }
  }

  /** After the scan only SLEEP and READY have changed. */
  lemma TickFrame<T, S>(m: Machine<T, S>, b: Machine<T, S>, c: Machine<T, S>)
    requires Inv(m) && OnlyWoke(m.(post := m.post + 1), b) && Placed(b) && |m.lists| == |b.lists| == T_LISTS
    requires m.lists[T_READY] <= b.lists[T_READY]
    requires c == b.(post := 0).(flag := false)
    ensures Inv(c) && c.cur == m.cur && c.sems == m.sems && Elsewhere(m, c, {T_RUNNING, T_READY, T_SLEEP})
  {
    ScannedInv(m, b, c);
  }

  lemma ElsewhereTwice<T, S>(m: Machine<T, S>, c: Machine<T, S>, n: Machine<T, S>)
    requires Elsewhere(m, c, {T_RUNNING, T_READY, T_SLEEP}) && Elsewhere(c, n, {T_RUNNING, T_READY})
    ensures Elsewhere(m, n, {T_RUNNING, T_READY, T_SLEEP})
  {
  }

  lemma ScheduleSleep<T, S>(c: Machine<T, S>, n: Machine<T, S>)
    requires Elsewhere(c, n, {T_RUNNING, T_READY})
    ensures |c.lists| == |n.lists| == T_LISTS && n.lists[T_SLEEP] == c.lists[T_SLEEP]
  {
  }

  /** The machine after the scan, and what the end of the handler makes of it. */
  lemma TickShape<T, S>(m: Machine<T, S>, nsec: nat) returns (b: Machine<T, S>)
    requires Inv(m)
    ensures OnlyWoke(m.(post := m.post + 1), b) && Placed(b) && |m.lists| == |b.lists| == T_LISTS
    ensures b.lists[T_SLEEP] == NotDue(m, m.lists[T_SLEEP], nsec)
    ensures b.lists[T_READY] == m.lists[T_READY] + Due(m, m.lists[T_SLEEP], nsec)
    ensures b.flag <==> m.lists[T_READY] == [] && Due(m, m.lists[T_SLEEP], nsec) != []
    ensures Known(b, b.cur) && Ticked(m, nsec) == if b.flag then Scheduled(b.(post := 0).(flag := false))
      else b.(post := 0).(flag := false)
  {
    FlagPlaced(m);
    TickKnown(m);
    var a := m.(post := m.post + 1);
    ScanIs(a, 0, nsec);
    SameDeadlines(m, a, m.lists[T_SLEEP], nsec);
    assert m.lists[T_SLEEP][0..] == m.lists[T_SLEEP];
    b := Scan(a, 0, nsec);
    KnownThreads(b, b.cur);
    var c := b.(post := Released(b.post));
    assert c.post == 0;
    assert !c.flag ==> c == b.(post := 0).(flag := false);
  }

  lemma IdleAlone<T, S>(m: Machine<T, S>)
    requires Inv(m)
    ensures |m.lists| == T_LISTS && (m.lists[T_READY] == [] ==> m.cur == m.idle) && !m.flag && m.post == 0
  {
  }

  lemma ScannedInv<T, S>(m: Machine<T, S>, b: Machine<T, S>, c: Machine<T, S>)
    requires Inv(m) && OnlyWoke(m.(post := m.post + 1), b) && Placed(b)
    requires forall t :: t in m.lists[T_READY] ==> t in b.lists[T_READY]
    requires c == b.(post := 0).(flag := false)
    ensures Inv(c)
  {
    FlagPlaced(b);
    FlagPlaced(b.(post := 0));
    hide Placed;
    assert |m.lists| == T_LISTS;
  }
}

/** The scheduler and its semaphores as a state machine: where every thread is linked,
    and the steps that move it. Threads and semaphores are any two types of identities. */
module Scheduler {
  import opened Sequences

  const T_RUNNING: nat := 0
  const T_READY: nat := 1
  const T_DESTROY: nat := 2
  const T_SLEEP: nat := 3
  const T_SEMAPHORE_WAIT: nat := 128
  /** The list states; the other slots of the table stay empty. */
  const T_LISTED: nat := 4
  const T_LISTS: nat := 16

  datatype Sem<T> = Sem(max: nat, thr: nat, waiting: seq<T>)

  datatype Machine<!T(==), !S(==)> = Machine(
    lists: seq<seq<T>>,
    cur: T,
    idle: T,
    state: map<T, nat>,
    deadline: map<T, nat>,
    sems: map<S, Sem<T>>,
    post: nat,
    flag: bool)

  /** Every thread with a list state is linked in that list, once, and in no other. */
  ghost predicate ListsRight<T>(lists: seq<seq<T>>, state: map<T, nat>) {
    && |lists| == T_LISTS
    && (forall k :: 0 <= k < T_LISTS ==> Distinct(lists[k]))
    && (forall k, t :: 0 <= k < T_LISTS && t in lists[k] ==> t in state && state[t] == k)
    && (forall t :: t in state && state[t] < T_LISTED ==> t in lists[state[t]])
  }

  /** Every other thread waits, once, on exactly one semaphore. */
  ghost predicate SemsRight<T, S>(sems: map<S, Sem<T>>, state: map<T, nat>) {
    && (forall t :: t in state && state[t] >= T_LISTED ==> state[t] == T_SEMAPHORE_WAIT && Waits(sems, t))
    && (forall s :: s in sems ==> Distinct(sems[s].waiting))
    && (forall s, t :: s in sems && t in sems[s].waiting ==> t in state && state[t] == T_SEMAPHORE_WAIT)
    && (forall r, s, t :: r in sems && s in sems && t in sems[r].waiting && t in sems[s].waiting ==> r == s)
  }

  ghost predicate Waits<T, S>(sems: map<S, Sem<T>>, t: T) {
    exists s :: s in sems && t in sems[s].waiting
  }

  ghost predicate Placed<T, S>(m: Machine<T, S>) {
    ListsRight(m.lists, m.state) && SemsRight(m.sems, m.state)
  }

  /** thr_c never passes its maximum, and threads only wait while it is there. */
  ghost predicate Counted<T>(s: Sem<T>) {
    s.thr <= s.max && (s.waiting != [] ==> s.thr == s.max)
  }

  /** What holds between kernel sections. */
  ghost predicate Inv<T, S>(m: Machine<T, S>) {
    && Placed(m)
    && m.lists[T_RUNNING] == [m.cur]
    && m.idle in m.state && (m.cur != m.idle ==> m.idle in m.lists[T_READY])
    && (forall s :: s in m.sems ==> Counted(m.sems[s]))
    && m.post == 0 && !m.flag
  }

  /** The moment inside a kernel section when the running thread has been unlinked. */
  ghost predicate Gap<T, S>(m: Machine<T, S>) {
    && Placed(m)
    && m.lists[T_RUNNING] == []
    && m.idle in m.state && m.idle in m.lists[T_READY]
    && (forall s :: s in m.sems ==> Counted(m.sems[s]))
    && m.post == 0 && !m.flag
  }

  // ---------------------------------------------------------------- move_to, schedule, block, unblock, lock, unlock

  function Link<T(==), S(==)>(m: Machine<T, S>, k: nat, l: seq<T>): Machine<T, S>
    requires k < |m.lists|
  {
    m.(lists := m.lists[k := l])
  }

  /** thread::move_to */
  function Moved<T(==), S(==)>(m: Machine<T, S>, t: T, to: nat): Machine<T, S>
    requires |m.lists| == T_LISTS && t in m.state
    requires m.state[t] < T_LISTS || m.state[t] == T_SEMAPHORE_WAIT
    requires to < T_LISTS || to == T_SEMAPHORE_WAIT
  {
    var from := m.state[t];
    if from == to then m
    else
      var n := if from != T_SEMAPHORE_WAIT then Link(m, from, Without(m.lists[from], t)) else m;
      var o := n.(state := n.state[t := to]);
      if to != T_SEMAPHORE_WAIT then Link(o, to, o.lists[to] + [t]) else o
  }

  /** The tail of schedule: the head of READY runs. */
  function Popped<T(==), S(==)>(m: Machine<T, S>): Machine<T, S>
    requires |m.lists| == T_LISTS && m.lists[T_READY] != []
  {
    var t := m.lists[T_READY][0];
    var n := Link(m, T_READY, m.lists[T_READY][1..]).(cur := t);
    Link(n, T_RUNNING, n.lists[T_RUNNING] + [t]).(state := n.state[t := T_RUNNING])
  }

  predicate Known<T(==), S(==)>(m: Machine<T, S>, t: T) {
    |m.lists| == T_LISTS && t in m.state && (m.state[t] < T_LISTS || m.state[t] == T_SEMAPHORE_WAIT)
  }

  /** schedule; int_sched calls it at once. */
  function Scheduled<T(==), S(==)>(m: Machine<T, S>): Machine<T, S>
    requires Known(m, m.cur)
  {
    if m.post != 0 then m.(flag := true)
    else if m.lists[T_READY] == [] then m
    else if m.state[m.cur] == T_RUNNING then Popped(Moved(m, m.cur, T_READY))
    else Popped(m)
  }

  /** thread::block */
  function Blocked<T(==), S(==)>(m: Machine<T, S>, t: T, to: nat): Machine<T, S>
    requires Known(m, t) && Known(m, m.cur) && to < T_LISTED
  {
    var n := Moved(m, t, to);
    if t == m.cur then Scheduled(n) else n
  }

  /** thread::unblock: a switch when READY holds only this thread. */
  function Unblocked<T(==), S(==)>(m: Machine<T, S>, t: T): Machine<T, S>
    requires Known(m, t) && Known(m, m.cur)
  {
    var n := Moved(m, t, T_READY);
    if |n.lists[T_READY]| == 1 then Scheduled(n) else n
  }

  function WithWaiting<T(==), S(==)>(m: Machine<T, S>, s: S, w: seq<T>): Machine<T, S>
    requires s in m.sems
  {
    m.(sems := m.sems[s := m.sems[s].(waiting := w)])
  }

  function WithCount<T(==), S(==)>(m: Machine<T, S>, s: S, n: nat): Machine<T, S>
    requires s in m.sems
  {
    m.(sems := m.sems[s := m.sems[s].(thr := n)])
  }

  /** semaphore::lock */
  function Locked<T(==), S(==)>(m: Machine<T, S>, s: S): Machine<T, S>
    requires s in m.sems && Known(m, m.cur)
  {
    if m.sems[s].thr < m.sems[s].max then WithCount(m, s, m.sems[s].thr + 1)
    else
      var n := Moved(m, m.cur, T_SEMAPHORE_WAIT);
      Scheduled(WithWaiting(n, s, n.sems[s].waiting + [m.cur]))
  }

  /** semaphore::try_lock */
  function TryLocked<T(==), S(==)>(m: Machine<T, S>, s: S): Machine<T, S>
    requires s in m.sems
  {
    if m.sems[s].thr < m.sems[s].max then WithCount(m, s, m.sems[s].thr + 1) else m
  }

  /** semaphore::unlock */
  function Unlocked<T(==), S(==)>(m: Machine<T, S>, s: S): Machine<T, S>
    requires s in m.sems && Known(m, m.cur)
    requires m.sems[s].waiting != [] ==> Known(m, m.sems[s].waiting[0])
  {
    var sem := m.sems[s];
    if sem.waiting != [] then Unblocked(WithWaiting(m, s, sem.waiting[1..]), sem.waiting[0])
    else if sem.thr != 0 then WithCount(m, s, sem.thr - 1)
    else m
  }

  /** A new thread starts out READY; what its sleep_time holds is not specified. */
  function Spawned<T(==), S(==)>(m: Machine<T, S>, t: T, until: nat): Machine<T, S>
    requires |m.lists| == T_LISTS
  {
    Link(m, T_READY, m.lists[T_READY] + [t]).(state := m.state[t := T_READY]).(deadline := m.deadline[t := until])
  }

  /** The cleaner takes the first thread of DESTROY and deletes it. */
  function Reaped<T(==), S(==)>(m: Machine<T, S>): Machine<T, S>
    requires |m.lists| == T_LISTS && m.lists[T_DESTROY] != []
  {
    Link(m, T_DESTROY, m.lists[T_DESTROY][1..]).(state := m.state - {m.lists[T_DESTROY][0]})
      .(deadline := m.deadline - {m.lists[T_DESTROY][0]})
  }

  /** One turn of reset_destroy. */
  function Dismissed<T(==), S(==)>(m: Machine<T, S>, s: S): Machine<T, S>
    requires s in m.sems && m.sems[s].waiting != [] && Known(m, m.sems[s].waiting[0])
  {
    var w := m.sems[s].waiting;
    Moved(WithWaiting(m, s, w[1..]), w[0], T_DESTROY)
  }

  // ---------------------------------------------------------------- placement

  lemma ListsMove<T>(lists: seq<seq<T>>, state: map<T, nat>, t: T, to: nat)
    requires ListsRight(lists, state) && t in state && state[t] < T_LISTED && to < T_LISTED && to != state[t]
    ensures ListsRight(lists[state[t] := Without(lists[state[t]], t)][to := lists[to] + [t]], state[t := to])
  {
    WithoutIs(lists[state[t]], t);
    hide Without;
  }

  lemma ListsLeave<T>(lists: seq<seq<T>>, state: map<T, nat>, t: T)
    requires ListsRight(lists, state) && t in state && state[t] < T_LISTED
    ensures ListsRight(lists[state[t] := Without(lists[state[t]], t)], state[t := T_SEMAPHORE_WAIT])
    ensures ListsRight(lists[state[t] := Without(lists[state[t]], t)], state - {t})
  {
    WithoutIs(lists[state[t]], t);
    hide Without;
  }

  lemma ListsEnter<T>(lists: seq<seq<T>>, state: map<T, nat>, t: T, to: nat)
    requires ListsRight(lists, state) && to < T_LISTED && (t in state ==> state[t] >= T_LISTED) && |lists| == T_LISTS
    requires forall k :: 0 <= k < T_LISTS ==> t !in lists[k]
    ensures ListsRight(lists[to := lists[to] + [t]], state[t := to])
  {
  }

  lemma SemsIgnore<T, S>(sems: map<S, Sem<T>>, state: map<T, nat>, t: T, to: nat)
    requires SemsRight(sems, state) && (t in state ==> state[t] < T_LISTED) && to < T_LISTED
    ensures SemsRight(sems, state[t := to]) && SemsRight(sems, state - {t})
  {
    hide Distinct, Waits;
  }

  lemma SemsPark<T, S>(sems: map<S, Sem<T>>, state: map<T, nat>, t: T, s: S)
    requires SemsRight(sems, state) && t in state && state[t] < T_LISTED && s in sems
    ensures SemsRight(sems[s := sems[s].(waiting := sems[s].waiting + [t])], state[t := T_SEMAPHORE_WAIT])
  {
    var n, st := sems[s := sems[s].(waiting := sems[s].waiting + [t])], state[t := T_SEMAPHORE_WAIT];
    assert forall r :: r in sems ==> t !in sems[r].waiting;
    assert forall r, u :: r in sems && u in n[r].waiting && u != t ==> u in sems[r].waiting;
    forall u | u in st && st[u] >= T_LISTED ensures Waits(n, u) {
      if u == t { assert t in n[s].waiting; }
      else {
        assert Waits(sems, u);
        var r :| r in sems && u in sems[r].waiting;
        assert r in n && u in n[r].waiting;
      }
    }
    hide Waits;
  }

  lemma SemsGrant<T, S>(sems: map<S, Sem<T>>, state: map<T, nat>, s: S, to: nat)
    requires SemsRight(sems, state) && s in sems && sems[s].waiting != [] && to < T_LISTED
    ensures sems[s].waiting[0] in state && state[sems[s].waiting[0]] == T_SEMAPHORE_WAIT
    ensures SemsRight(sems[s := sems[s].(waiting := sems[s].waiting[1..])], state[sems[s].waiting[0] := to])
  {
    var w := sems[s].waiting;
    var n, st := sems[s := sems[s].(waiting := w[1..])], state[w[0] := to];
    assert w == [w[0]] + w[1..];
    assert w[0] in w && w[0] !in w[1..];
    forall u | u in st && st[u] >= T_LISTED ensures Waits(n, u) {
      assert Waits(sems, u);
      var r :| r in sems && u in sems[r].waiting;
      assert r in n && u in n[r].waiting;
    }
    hide Waits;
  }

  lemma MovePlaced<T, S>(m: Machine<T, S>, t: T, to: nat)
    requires Placed(m) && t in m.state && m.state[t] < T_LISTED && to < T_LISTED
    ensures |m.lists| == T_LISTS && Placed(Moved(m, t, to))
    ensures m.state[t] != to ==> Moved(m, t, to).lists[m.state[t]] == Without(m.lists[m.state[t]], t)
    ensures m.state[t] != to ==> Moved(m, t, to).lists[to] == m.lists[to] + [t]
    ensures forall k :: 0 <= k < T_LISTS && k != m.state[t] && k != to ==> Moved(m, t, to).lists[k] == m.lists[k]
  {
    assert |m.lists| == T_LISTS;
    hide ListsRight, SemsRight, Without;
    if m.state[t] != to {
      ListsMove(m.lists, m.state, t, to);
      SemsIgnore(m.sems, m.state, t, to);
    }
  }

  /** A thread waits: unlinked from its list, last in the semaphore's. */
  lemma ParkPlaced<T, S>(m: Machine<T, S>, t: T, s: S)
    requires Placed(m) && t in m.state && m.state[t] < T_LISTED && s in m.sems
    ensures Placed(WithWaiting(Moved(m, t, T_SEMAPHORE_WAIT), s, m.sems[s].waiting + [t]))
    ensures Moved(m, t, T_SEMAPHORE_WAIT).lists == m.lists[m.state[t] := Without(m.lists[m.state[t]], t)]
  {
    hide SemsRight, Without;
    ListsLeave(m.lists, m.state, t);
    SemsPark(m.sems, m.state, t, s);
  }

  /** The first waiter leaves the semaphore for a list. */
  lemma GrantPlaced<T, S>(m: Machine<T, S>, s: S, to: nat)
    requires Placed(m) && s in m.sems && m.sems[s].waiting != [] && to < T_LISTED
    ensures var w := m.sems[s].waiting; var n := WithWaiting(m, s, w[1..]);
      && Known(n, w[0]) && Placed(Moved(n, w[0], to))
      && Moved(n, w[0], to).lists == m.lists[to := m.lists[to] + [w[0]]]
  {
    hide SemsRight;
    SemsGrant(m.sems, m.state, s, to);
    ListsEnter(m.lists, m.state, m.sems[s].waiting[0], to);
  }

  lemma HeadWithout<T>(l: seq<T>)
    requires l != []
    ensures Without(l, l[0]) == l[1..]
  {
  }

  lemma PopPlaced<T, S>(m: Machine<T, S>)
    requires Placed(m) && m.lists[T_READY] != []
    ensures Placed(Popped(m))
    ensures Popped(m).lists[T_READY] == m.lists[T_READY][1..]
    ensures Popped(m).lists[T_RUNNING] == m.lists[T_RUNNING] + [m.lists[T_READY][0]]
  {
    var t := m.lists[T_READY][0];
    assert t in m.lists[T_READY] && m.state[t] == T_READY;
    hide SemsRight;
    HeadWithout(m.lists[T_READY]);
    ListsMove(m.lists, m.state, t, T_RUNNING);
    SemsIgnore(m.sems, m.state, t, T_RUNNING);
  }
}

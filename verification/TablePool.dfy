/** How many pages for tables a mapping needs, and where they go. */
module TablePool {
  import opened Bits
  import opened PageEntry
  import opened PageTables
  import opened PageWalk
  import opened EmptyTables

  /** Everything a step kept of the old tables. */
  ghost predicate Extends(at: Places, at': Places) {
    forall p :: p in at ==> p in at' && at'[p] == at[p]
  }

  /** The tables on the path of a mapped page exist. */
  lemma {:induction false} OnPath(s: Space, page: nat, level: nat)
    requires s.Good() && page in s.view && level <= 3
    ensures page < USER_PAGES && TableOf(page, level) in s.at
  {
    hide EntriesRight, PoolRight, CounterRight, Addr;
    if level > 0 {
      OnPath(s, page, level - 1);
      assert TableRight(s.mem, s.at, TableOf(page, level - 1));
      ParentOf(page, level);
    }
  }

  lemma ParentOf(page: nat, level: nat)
    requires 0 < level <= 3
    ensures TableOf(page, level - 1).Parent() == TableOf(page, level)
  {
  }

  /** The tables on the way to pages of a range that do not exist. */
  ghost function Missing(at: Places, first: nat, count: nat): set<Pos> {
    set v, l | first <= v < first + count && 0 <= l < 3 && TableOf(v, l) !in at :: TableOf(v, l)
  }

  /** Exactly the missing tables have been made, each from a page of the pool. */
  ghost predicate Made(b: Space, c: Space, first: nat, count: nat) {
    && c.at.Keys == b.at.Keys + Missing(b.at, first, count)
    && |b.pool| == |c.pool| + |Missing(b.at, first, count)|
  }

  // ---------------------------------------------------------------- counting frames

  lemma {:induction false} PoolSize(pool: seq<Frame>)
    requires forall j, k :: 0 <= j < k < |pool| ==> pool[j] != pool[k]
    ensures |set k | 0 <= k < |pool| :: pool[k]| == |pool|
  {
    if pool != [] {
      var n := |pool| - 1;
      PoolSize(pool[..n]);
      var rest := set k | 0 <= k < n :: pool[..n][k];
      assert (set k | 0 <= k < |pool| :: pool[k]) == rest + {pool[n]} by {
        assert forall k :: 0 <= k < n ==> pool[..n][k] == pool[k];
      }
      assert pool[n] !in rest;
    }
  }

  lemma {:induction false} PlacesSize(at: Places, keys: set<Pos>)
    requires keys <= at.Keys && forall p, q :: p in at && q in at && p != q ==> at[p] != at[q]
    ensures |set p | p in keys :: at[p]| == |keys|
    decreases keys
  {
    if p :| p in keys {
      var rest := keys - {p};
      PlacesSize(at, rest);
      var a, b := set q | q in rest :: at[q], set q | q in keys :: at[q];
      assert b == a + {at[p]} by {
        forall q | q in keys ensures at[q] in a + {at[p]} { if q != p { assert q in rest; } }
      }
      assert at[p] !in a;
      assert keys == rest + {p};
    }
  }

  lemma FramesSize(s: Space)
    requires s.Good()
    ensures |s.Frames()| == |s.pool| + |s.at.Keys|
  {
    hide TablesRight, EntriesRight, ViewRight, Addr;
    assert forall p, q :: p in s.at && q in s.at && p != q ==> s.at[p] != s.at[q] by {
      forall p, q | p in s.at && q in s.at && p != q ensures s.at[p] != s.at[q] { OwnFrame(s, p); }
    }
    PoolSize(s.pool);
    PlacesSize(s.at, s.at.Keys);
    var a, b := set k | 0 <= k < |s.pool| :: s.pool[k], set p | p in s.at :: s.at[p];
    assert b == set p | p in s.at.Keys :: s.at[p];
    assert a !! b;
  }

  /** Every page that leaves the pool becomes a table. */
  lemma PoolSpent(b: Space, c: Space)
    requires b.Good() && c.Good() && b.Frames() == c.Frames() && Extends(b.at, c.at)
    ensures |b.pool| == |c.pool| + |c.at.Keys - b.at.Keys|
  {
    hide Space.Good, Space.Frames;
    FramesSize(b);
    FramesSize(c);
    RestSize(c.at.Keys, b.at.Keys);
  }

  lemma RestSize<T>(a: set<T>, b: set<T>)
    requires b <= a
    ensures |a| == |b| + |a - b|
  {
    assert a == b + (a - b);
  }

  // ---------------------------------------------------------------- what a mapping needs

  /** A table that the range passes through is missing on the way to one of its pages. */
  lemma MetIsMissing(b: Space, c: Space, q: Pos, first: nat, count: nat)
    requires c.Good() && q in c.at && q !in b.at && Meets(q, first, first + count) && Pos(3, 0) in b.at
    ensures q in Missing(b.at, first, count)
  {
    hide TablesRight, EntriesRight, ViewRight, PoolRight;
    OwnFrame(c, q);
    var v := if q.Page(0) < first then first else q.Page(0);
    TableIs(q, v);
  }

  lemma TableIs(q: Pos, v: nat)
    requires q.level <= 3 && q.Page(0) <= v < q.Page(512)
    ensures TableOf(v, q.level) == q
  {
    SpanSteps(q.level);
    UniqueMod(v, Span(q.level + 1), q.prefix, v - q.Page(0));
  }

  /** What is new is missing before. */
  lemma NewAreMissing(b: Space, c: Space, first: nat, count: nat)
    requires b.Good() && c.Good() && NewWithin(b.at, c.at, first, first + count)
    ensures c.at.Keys - b.at.Keys <= Missing(b.at, first, count)
  {
    hide Missing, TablesRight, EntriesRight, ViewRight, PoolRight, Meets;
    forall q | q in c.at.Keys - b.at.Keys ensures q in Missing(b.at, first, count) {
      MetIsMissing(b, c, q, first, count);
    }
  }

  lemma MissingMade(at: Places, c: Space, first: nat, count: nat)
    requires c.Good() && forall v :: first <= v < first + count ==> v in c.view
    ensures Missing(at, first, count) <= c.at.Keys && Missing(at, first, count) !! at.Keys
  {
    hide Space.Good, TableOf;
    forall q | q in Missing(at, first, count) ensures q in c.at {
      var v, l :| first <= v < first + count && 0 <= l < 3 && TableOf(v, l) !in at && q == TableOf(v, l);
      OnPath(c, v, l);
    }
  }

  /** A range that has been mapped has had all its missing tables made. */
  lemma EnoughPages(b: Space, c: Space, first: nat, count: nat)
    requires b.Good() && c.Good() && b.Frames() == c.Frames() && Extends(b.at, c.at)
    requires NewWithin(b.at, c.at, first, first + count) && forall v :: first <= v < first + count ==> v in c.view
    ensures Made(b, c, first, count) && |Missing(b.at, first, count)| <= |b.pool|
  {
    hide Space.Good, Space.Frames, Missing, NewWithin;
    PoolSpent(b, c);
    NewAreMissing(b, c, first, count);
    MissingMade(b.at, c, first, count);
    assert c.at.Keys - b.at.Keys == Missing(b.at, first, count);
  }

  /** A mapping that has stopped has used up the pool and still misses a table. */
  lemma TooFewPages(b: Space, c: Space, first: nat, count: nat, done: nat)
    requires b.Good() && c.Good() && b.Frames() == c.Frames() && Extends(b.at, c.at) && done < count && c.pool == []
    requires NewWithin(b.at, c.at, first, first + done + 1) && TableOf(first + done, 0) !in c.at
    ensures |b.pool| < |Missing(b.at, first, done + 1)| && |b.pool| < |Missing(b.at, first, count)|
  {
    hide Space.Good, Space.Frames, TableOf;
    PoolSpent(b, c);
    NewAreMissing(b, c, first, done + 1);
    var q := TableOf(first + done, 0);
    assert q !in b.at;
    assert q in Missing(b.at, first, done + 1);
    FewerThan(c.at.Keys - b.at.Keys, Missing(b.at, first, done + 1), q);
    MissingMore(b.at, first, done + 1, count);
  }

  lemma FewerThan<T>(a: set<T>, b: set<T>, x: T)
    requires a <= b && x in b && x !in a
    ensures |a| < |b|
  {
    SizeMonotone(a, b - {x});
  }

  lemma {:induction false} SizeMonotone<T>(a: set<T>, b: set<T>)
    requires a <= b
    ensures |a| <= |b|
    decreases a
  {
    if x :| x in a { SizeMonotone(a - {x}, b - {x}); }
  }

  lemma MissingMore(at: Places, first: nat, m: nat, n: nat)
    requires m <= n
    ensures |Missing(at, first, m)| <= |Missing(at, first, n)|
  {
    hide TableOf;
    SizeMonotone(Missing(at, first, m), Missing(at, first, n));
  }

  // ---------------------------------------------------------------- ranges one after the other

  lemma MadeNothing(b: Space, first: nat)
    ensures Made(b, b, first, 0)
  {
    assert Missing(b.at, first, 0) == {};
  }

  /** After the first part of a range, what the second part misses is what the whole still misses. */
  lemma MissingRest(a: Places, b: Places, first: nat, m: nat, n: nat)
    requires b.Keys == a.Keys + Missing(a, first, m)
    ensures |Missing(a, first, m + n)| == |Missing(a, first, m)| + |Missing(b, first + m, n)|
    ensures Missing(a, first, m + n) == Missing(a, first, m) + Missing(b, first + m, n)
  {
    hide TableOf;
    var x, y, z := Missing(a, first, m), Missing(b, first + m, n), Missing(a, first, m + n);
    forall v, l | first <= v < first + m + n && 0 <= l < 3 && TableOf(v, l) !in a ensures TableOf(v, l) in x + y {
      if v < first + m { assert TableOf(v, l) in x; } else if TableOf(v, l) in b { assert TableOf(v, l) in x; }
      else { assert TableOf(v, l) in y; }
    }
    assert z == x + y;
    assert x !! y;
  }

  lemma MadeMore(a: Space, b: Space, c: Space, first: nat, m: nat, n: nat)
    requires Made(a, b, first, m) && Made(b, c, first + m, n)
    ensures Made(a, c, first, m + n)
  {
    hide Missing;
    MissingRest(a.at, b.at, first, m, n);
  }
}

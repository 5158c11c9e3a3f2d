/** The intrusive doubly linked list with its cached cursor: pointers against a sequence. */
module LinkedList {
  import opened Bits
  import opened Sequences

  /** Positions are passed to abs and sign as 32-bit integers. */
  const MAX_LEN: nat := 0x8000_0000

  class ListNode {
    var prev: ListNode?
    var next: ListNode?
    constructor () {}
  }

  // ---------------------------------------------------------------- which way a lookup walks

  /** abs as written: the two's complement trick adds the sign mask instead of taking it away. */
  function Abs(x: int): int {
    if x < 0 then -x - 2 else x
  }

  function SignMask(x: bv32): bv32 {
    if x & 0x8000_0000 == 0 then 0 else 0xFFFF_FFFF
  }

  lemma AbsBits(x: bv32)
    ensures (x ^ SignMask(x)) + SignMask(x) == if x & 0x8000_0000 == 0 then x else 0 - x - 2
  {
    if x & 0x8000_0000 != 0 {
      var m := SignMask(x);
      assert m == 0xFFFF_FFFF;
      FlipAll(x);
      TakeTwo(x);
    }
  }

  lemma TakeTwo(x: bv32)
    ensures 0xFFFF_FFFF - x + 0xFFFF_FFFF == 0 - x - 2
  {
  }

  lemma FlipAll(x: bv32)
    ensures x ^ 0xFFFF_FFFF == 0xFFFF_FFFF - x
  {
  }

  /** What a lookup sees: the length field, where the cursor really is, and where the list
      thinks it is. */
  datatype Cursor = Cursor(len: nat, pos: Option<nat>, index: nat) {
    function Pos(): nat { if pos.Some? then pos.value else 0 }

    function Index(): nat { if pos.Some? then index else 0 }

    predicate FromStart(k: nat) {
      k < Index() && k < Abs(k - Index())
    }

    predicate FromEnd(k: nat) {
      !FromStart(k) && len - k - 1 < k - Index()
    }

    /** The position reached in a list of n nodes. */
    function Landing(n: nat, k: nat): int {
      if FromStart(k) then k
      else if FromEnd(k) then n - 1 - (len - 1 - k)
      else Pos() + k - Index()
    }

    function Steps(k: nat): int {
      if FromStart(k) then k
      else if FromEnd(k) then len - 1 - k
      else if k < Index() then Index() - k else k - Index()
    }
  }

  function Distance(a: int, b: int): int { if a < b then b - a else a - b }

  /** With length and cursor right, every route leads to k, by at most two links more than
      the shortest one. */
  lemma LookupIs(c: Cursor, n: nat, k: nat)
    requires c.len == n && k < n && (c.pos.Some? ==> c.pos.value == c.index < n)
    ensures c.Landing(n, k) == k
    ensures 0 <= c.Steps(k) <= Min(Min(k, n - 1 - k), Distance(k, c.Index())) + 2
  {
  }

  /** Where insert really puts a node: the length has already grown, and a cursor at or after
      k has already been shifted. */
  function InsertAt(n: nat, p: Option<nat>, k: nat): int {
    match p
    case None => Cursor(n + 1, None, 0).Landing(n, k)
    case Some(c) => Cursor(n + 1, p, if k <= c then c + 1 else c).Landing(n, k)
  }

  /** Which node remove really takes out: the length has already shrunk. */
  function RemoveAt(n: nat, p: Option<nat>, k: nat): int
    requires n > 0
  {
    match p
    case None => Cursor(n - 1, None, 0).Landing(n, k)
    case Some(c) => Cursor(n - 1, p, c).Landing(n, k)
  }

  function CursorOr0(p: Option<nat>): nat { if p.Some? then p.value else 0 }

  /** insert between two nodes puts the new one at k exactly when the walk starts from the
      front, or from a cursor before k; otherwise it ends up one place too early. */
  lemma InsertLands(n: nat, p: Option<nat>, k: nat)
    requires 0 < k < n && (p.Some? ==> p.value < n)
    ensures InsertAt(n, p, k) == k || InsertAt(n, p, k) == k - 1
    ensures InsertAt(n, p, k) == k <==>
      if CursorOr0(p) < k then n - k >= k - CursorOr0(p) else k < CursorOr0(p) - k - 1
  {
  }

  /** remove takes out node k exactly when the walk does not start from the end; otherwise
      it takes out the one after. */
  lemma RemoveLands(n: nat, p: Option<nat>, k: nat)
    requires 0 < k < n - 1 && (p.Some? ==> p.value < n)
    ensures RemoveAt(n, p, k) == k || RemoveAt(n, p, k) == k + 1
    ensures RemoveAt(n, p, k) == k <==> n - 2 - k >= k - CursorOr0(p)
  {
  }

  /** Right after looking up position k, inserting there always lands one place too early. */
  lemma InsertAfterLookup(n: nat, k: nat)
    requires 0 < k < n
    ensures InsertAt(n, Some(k), k) == k - 1
  {
  }

  /** Removing right after a lookup of the same position is always right. */
  lemma RemoveAfterLookup(n: nat, k: nat)
    requires 0 < k < n - 1
    ensures RemoveAt(n, Some(k), k) == k
  {
  }

  // ---------------------------------------------------------------- the list as a value

  /** The nodes in order, the position the cursor is on, and the index it claims. */
  datatype Listed<T> = Listed(nodes: seq<T>, pos: Option<nat>, index: nat) {
    /** The cursor is unset, or on the node it claims to be on. */
    predicate Right() { pos.Some? ==> pos.value == index < |nodes| }

    /** The position a lookup of index k comes to. */
    function Lands(k: nat): int { Cursor(|nodes|, pos, index).Landing(|nodes|, k) }

    function Looked(k: nat): Listed<T>
      requires 0 <= Lands(k)
    {
      Listed(nodes, Some(Lands(k)), k)
    }

    function Prepended(x: T): Listed<T> {
      Listed([x] + nodes, if pos.Some? then Some(pos.value + 1) else None, index + 1)
    }

    function Appended(x: T): Listed<T> { Listed(nodes + [x], pos, index) }

    /** The position insert puts a node at between two others: its length has already grown, and
        an index at or after k has already been shifted. */
    function InsertLands(k: nat): int {
      Cursor(|nodes| + 1, pos, if k <= index then index + 1 else index).Landing(|nodes|, k)
    }

    function Inserted(k: nat, x: T): Listed<T>
      requires 0 < k < |nodes| ==> 0 < InsertLands(k) < |nodes|
    {
      if k > |nodes| then this
      else if k == |nodes| then Appended(x)
      else if k == 0 then Prepended(x)
      else Listed(nodes[..InsertLands(k)] + [x] + nodes[InsertLands(k)..], Some(InsertLands(k) + 1), k)
    }

    /** Node j is unlinked; a cursor on it is unset, and its index stays as it is. */
    function Unlinked(j: nat): Listed<T>
      requires j < |nodes|
    {
      var p := if pos == None || pos.value == j then None else if pos.value > j then Some(pos.value - 1) else pos;
      Listed(nodes[..j] + nodes[j + 1..], p, index)
    }

    /** The position of the node remove takes out between two others: its length has already shrunk. */
    function RemoveLands(k: nat): int
      requires nodes != []
    {
      Cursor(|nodes| - 1, pos, index).Landing(|nodes|, k)
    }

    /** The position of the node remove takes out. */
    function Victim(k: nat): int
      requires k < |nodes|
    {
      if k == |nodes| - 1 || k == 0 then k else RemoveLands(k)
    }

    function Removed(k: nat): Listed<T>
      requires k < |nodes| && 0 <= Victim(k) < |nodes|
    {
      if k == |nodes| - 1 || k == 0 then Unlinked(k)
      else Listed(nodes[..Victim(k)] + nodes[Victim(k) + 1..], Some(Victim(k)), k)
    }
  }

  /** With a right cursor, insert in between leaves either the place or the cursor one off, and at
      either end both are right. */
  lemma InsertedIs<T>(l: Listed<T>, k: nat, x: T)
    requires l.Right() && k <= |l.nodes| && (0 < k < |l.nodes| ==> l.InsertLands(k) > 0)
    ensures 0 < k < |l.nodes| ==> l.InsertLands(k) == InsertAt(|l.nodes|, l.pos, k) && k - 1 <= l.InsertLands(k) <= k
    ensures l.Inserted(k, x).Right() <==> k == 0 || k == |l.nodes| || l.InsertLands(k) == k - 1
    ensures var j := if 0 < k < |l.nodes| then l.InsertLands(k) else k;
      l.Inserted(k, x).nodes == l.nodes[..j] + [x] + l.nodes[j..]
  {
  }

  /** With a right cursor, unlinking a node keeps it right exactly if it was unset or not after
      that node. */
  lemma UnlinkedIs<T>(l: Listed<T>, j: nat)
    requires l.Right() && j < |l.nodes|
    ensures l.Unlinked(j).Right() <==> l.pos == None || l.index <= j
    ensures l.Unlinked(j).nodes == l.nodes[..j] + l.nodes[j + 1..]
  {
  }

  /** With a right cursor, remove in between takes out the node asked for or the one after, and the
      cursor ends up right exactly in the first case. */
  lemma RemovedIs<T>(l: Listed<T>, k: nat)
    requires l.Right() && 0 < k < |l.nodes| - 1 && l.RemoveLands(k) < |l.nodes| - 1
    ensures l.RemoveLands(k) == RemoveAt(|l.nodes|, l.pos, k) && k <= l.RemoveLands(k) <= k + 1
    ensures l.Removed(k).Right() <==> l.RemoveLands(k) == k
    ensures var j := l.RemoveLands(k); l.Removed(k).nodes == l.nodes[..j] + l.nodes[j + 1..]
  {
  }

  /** With a right cursor a lookup comes to its index. */
  lemma RightLands<T>(l: Listed<T>, k: nat)
    requires l.Right() && k < |l.nodes|
    ensures l.Lands(k) == k && l.Looked(k).Right()
  {
    LookupIs(Cursor(|l.nodes|, l.pos, l.index), |l.nodes|, k);
  }

  // ---------------------------------------------------------------- the list

  lemma SamePlace<T>(s: seq<T>, i: nat, j: nat)
    requires Distinct(s) && i < |s| && j < |s|
    ensures s[i] == s[j] <==> i == j
  {
  }

  lemma DistinctWith<T>(s: seq<T>, j: nat, x: T)
    requires Distinct(s) && j <= |s| && x !in s
    ensures Distinct(s[..j] + [x] + s[j..])
  {
  }

  lemma DistinctWithout<T>(s: seq<T>, j: nat)
    requires Distinct(s) && j < |s|
    ensures Distinct(s[..j] + s[j + 1..]) && s[j] !in s[..j] + s[j + 1..]
  {
  }

  /** Taking out position k leaves i naming the same element exactly when i is before k. */
  lemma IndexWithout<T>(s: seq<T>, k: nat, i: nat)
    requires Distinct(s) && k < |s| && i < |s| && i != k
    ensures i < |s| - 1 && (s[..k] + s[k + 1..])[i] == s[i] <==> i < k
  {
  }

  class LinkedList {
    var len: nat
    var start: ListNode?
    var end: ListNode?
    var current: ListNode?
    var currentI: nat
    ghost var nodes: seq<ListNode>

    constructor ()
      ensures Valid() && nodes == [] && CursorAt(None)
    {
      len, start, end, current, currentI, nodes := 0, null, null, null, 0, [];
    }

    /** The pointers chain up the nodes; what lies beyond either end is left over from before. */
    ghost predicate Linked()
      reads `nodes, `start, `end, nodes
    {
      && Distinct(nodes)
      && (forall i :: 0 <= i < |nodes| - 1 ==> nodes[i].next == nodes[i + 1])
      && (forall i :: 0 < i < |nodes| ==> nodes[i].prev == nodes[i - 1])
      && (nodes != [] ==> start == nodes[0] && end == nodes[|nodes| - 1])
    }

    ghost predicate Valid()
      reads this, nodes
    {
      Linked() && len == |nodes| < MAX_LEN
    }

    /** The node the cursor is really on. */
    ghost predicate CursorAt(p: Option<nat>)
      reads this
    {
      match p
      case None => current == null
      case Some(c) => c < |nodes| && current == nodes[c]
    }

    /** The cursor is unset, or on the node it claims to be on. */
    ghost predicate CursorRight()
      reads this
    {
      current != null ==> currentI < |nodes| && current == nodes[currentI]
    }

    /** The object is the list l. */
    ghost predicate Is(l: Listed<ListNode>)
      reads this, nodes
    {
      Valid() && nodes == l.nodes && CursorAt(l.pos) && currentI == l.index
    }

    /** What the object is when the cursor is at p. */
    ghost function Now(p: Option<nat>): Listed<ListNode>
      reads this
    {
      Listed(nodes, p, currentI)
    }

    ghost function Real(): (p: Option<nat>)
      requires CursorRight()
      reads this
      ensures CursorAt(p)
    {
      if current == null then None else Some(currentI)
    }

    /** operator[] on any cursor, right or wrong, as long as the walk stays inside the list. */
    method Lookup(k: nat, ghost p: Option<nat>) returns (zone: ListNode, ghost steps: nat)
      requires Linked() && CursorAt(p) && k < len <= MAX_LEN && nodes != []
      requires 0 <= Cursor(len, p, currentI).Landing(|nodes|, k) < |nodes|
      modifies this`current, this`currentI
      ensures zone == nodes[Cursor(len, p, old(currentI)).Landing(|nodes|, k)] && current == zone && currentI == k
      ensures steps == Cursor(len, p, old(currentI)).Steps(k)
    {
      ghost var c := Cursor(len, p, currentI);
      if current == null {
        current := start;
        currentI := 0;
      }
      var diffStart: int, diffEnd: int, diffMiddle: int := k, len - k - 1, k - currentI;
      var i, dir;
      ghost var at: int;
      if diffMiddle < 0 && diffStart < Abs(diffMiddle) {
        zone, i, dir := start, 0, 1;
        at := 0;
      } else if diffEnd < diffMiddle {
        zone, i, dir := end, len - 1, -1;
        at := |nodes| - 1;
      } else {
        zone, i, dir := current, currentI, if diffMiddle == 0 then 0 else if diffMiddle > 0 then 1 else -1;
        at := c.Pos();
      }
      steps := 0;
      while i != k
        invariant 0 <= at < |nodes| && zone == nodes[at]
        invariant at + (k - i) == c.Landing(|nodes|, k) && steps + Distance(k, i) == c.Steps(k)
        invariant if dir == 1 then i <= k else if dir == -1 then i >= k else i == k
        decreases Distance(k, i)
      {
        if dir == 1 {
          ghost var onward := nodes[at + 1];
          zone, at := zone.next, at + 1;
        } else {
          ghost var back := nodes[at - 1];
          zone, at := zone.prev, at - 1;
        }
        i := i + dir;
        steps := steps + 1;
      }
      current := zone;
      currentI := k;
    }

    /** operator[], from any cursor: NULL past the end, otherwise the node its way leads to. With a
        right cursor that is the k-th, at most two links further away than by the best route. */
    method At(k: nat, ghost p: Option<nat>) returns (zone: ListNode?, ghost steps: nat)
      requires Valid() && CursorAt(p) && (k < len ==> 0 <= Now(p).Lands(k) < len)
      modifies this`current, this`currentI
      ensures k >= len ==> zone == null && Is(old(Now(p))) && steps == 0
      ensures k < len ==> zone == nodes[old(Now(p)).Lands(k)] && Is(old(Now(p)).Looked(k))
      ensures k < len && old(Now(p)).Right() ==>
        zone == nodes[k] && steps <= Min(Min(k, len - 1 - k), Distance(k, if p == None then 0 else old(currentI))) + 2
    {
      if k >= len {
        return null, 0;
      }
      if Now(p).Right() { LookupIs(Cursor(len, p, currentI), len, k); }
      zone, steps := Lookup(k, p);
    }

    method Prepend(zone: ListNode, ghost p: Option<nat>)
      requires Valid() && CursorAt(p) && zone !in nodes && len + 1 < MAX_LEN
      modifies this, nodes, zone
      ensures Is(old(Now(p)).Prepended(zone))
    {
      len := len + 1;
      currentI := currentI + 1;
      ghost var was := nodes;
      nodes := [zone] + nodes;
      if len == 1 {
        start := zone;
        end := zone;
        return;
      }
      start.prev := zone;
      zone.next := start;
      start := zone;
    }

    method Append(zone: ListNode, ghost p: Option<nat>)
      requires Valid() && CursorAt(p) && zone !in nodes && len + 1 < MAX_LEN
      modifies this, nodes, zone
      ensures Is(old(Now(p)).Appended(zone))
    {
      len := len + 1;
      nodes := nodes + [zone];
      if len == 1 {
        start := zone;
        end := zone;
        return;
      }
      end.next := zone;
      zone.prev := end;
      end := zone;
    }

    /** insert, from any cursor: past the end it refuses, at either end it is right, in between it
        puts the node where its lookup leads and leaves the cursor on the node after it. */
    method Insert(k: nat, zone: ListNode, ghost p: Option<nat>) returns (ok: bool)
      requires Valid() && CursorAt(p) && zone !in nodes && len + 1 < MAX_LEN
      requires 0 < k < len ==> 0 < Now(p).InsertLands(k) < len
      modifies this, nodes, zone
      ensures ok == (k <= old(len)) && Is(old(Now(p)).Inserted(k, zone))
    {
      if k > len {
        return false;
      }
      if k == len {
        Append(zone, p);
        return true;
      }
      if k == 0 {
        Prepend(zone, p);
        return true;
      }
      InsertBetween(k, zone, p);
      return true;
    }

    /** The rest of insert, between two nodes. */
    method InsertBetween(k: nat, zone: ListNode, ghost p: Option<nat>)
      requires Valid() && CursorAt(p) && zone !in nodes && len + 1 < MAX_LEN && 0 < k < len
      requires 0 < Now(p).InsertLands(k) < len
      modifies this, nodes, zone
      ensures Is(old(Now(p)).Inserted(k, zone))
    {
      hide Cursor.Landing, Cursor.Steps, Distinct;
      ghost var j := Now(p).InsertLands(k);
      if k <= currentI {
        currentI := currentI + 1;
      }
      len := len + 1;
      ghost var steps;
      var temp: ListNode;
      temp, steps := Lookup(k, p);
      hide LinkedList.Linked;
      Splice(j, temp, zone);
    }

    method Splice(ghost j: nat, temp: ListNode, zone: ListNode)
      requires Linked() && 0 < j < |nodes| && temp == nodes[j] && zone !in nodes
      modifies this`nodes, nodes, zone
      ensures Linked() && nodes == old(nodes)[..j] + [zone] + old(nodes)[j..] && nodes[j + 1] == temp
    {
      DistinctWith(nodes, j, zone);
      assert forall i :: 0 <= i < |nodes| ==> zone != nodes[i];
      SamePlace(nodes, j - 1, j);
      ghost var back := nodes[j - 1];
      temp.prev.next := zone;
      zone.prev := temp.prev;
      temp.prev := zone;
      zone.next := temp;
      nodes := nodes[..j] + [zone] + nodes[j..];
    }

    /** pop_start: a cursor on the node that goes is unset; on another it stays there, and so does
        the index it claims. */
    method PopStart(ghost p: Option<nat>) returns (out: ListNode?)
      requires Valid() && CursorAt(p)
      modifies this
      ensures old(nodes) == [] ==> out == null && Is(old(Now(p)))
      ensures old(nodes) != [] ==> out == old(nodes[0]) && Is(old(Now(p)).Unlinked(0))
    {
      if len == 0 {
        return null;
      }
      if p.Some? { SamePlace(nodes, p.value, 0); }
      hide Distinct, LinkedList.Linked;
      out := TakeFirst();
    }

    method TakeFirst() returns (out: ListNode)
      requires Valid() && len > 0
      modifies this
      ensures Valid() && out == old(nodes)[0] && nodes == old(nodes)[..0] + old(nodes)[1..]
      ensures current == (if old(current) == out then null else old(current)) && currentI == old(currentI)
    {
      hide Distinct, LinkedList.Linked;
      FirstIs();
      ghost var rest := nodes[..0] + nodes[1..];
      assert rest == nodes[1..];
      len := len - 1;
      if current == start {
        current := null;
      }
      out := start;
      if len == 0 {
        Clear();
        return;
      }
      DropStart();
    }

    lemma FirstIs()
      requires Linked() && nodes != []
      ensures start == nodes[0]
    {
    }

    /** pop: a cursor on the node that goes is unset. */
    method Pop(ghost p: Option<nat>) returns (out: ListNode?)
      requires Valid() && CursorAt(p)
      modifies this
      ensures old(nodes) == [] ==> out == null && Is(old(Now(p)))
      ensures old(nodes) != [] ==> out == old(nodes[|nodes| - 1]) && Is(old(Now(p)).Unlinked(old(|nodes|) - 1))
    {
      if len == 0 {
        return null;
      }
      len := len - 1;
      nodes := nodes[..len];
      if current == end {
        current := null;
      }
      if len == 0 {
        return end;
      }
      out := end;
      end := end.prev;
    }

    /** remove_p: a cursor on the node that goes is unset; on another it stays there, and so does
        the index it claims. */
    method RemoveP(zone: ListNode, ghost k: nat, ghost p: Option<nat>)
      requires Valid() && CursorAt(p) && k < |nodes| && zone == nodes[k]
      modifies this, nodes
      ensures Is(old(Now(p)).Unlinked(k))
    {
      if p.Some? { SamePlace(nodes, p.value, k); }
      hide Distinct, LinkedList.Linked;
      Detach(zone, k);
    }

    /** remove_p without a word about the cursor. */
    method Detach(zone: ListNode, ghost k: nat)
      requires Valid() && k < |nodes| && zone == nodes[k]
      modifies this, nodes
      ensures Valid() && nodes == old(nodes)[..k] + old(nodes)[k + 1..]
      ensures current == (if old(current) == zone then null else old(current)) && currentI == old(currentI)
    {
      hide Distinct, LinkedList.Linked;
      len := len - 1;
      if current == zone {
        current := null;
      }
      if len == 0 {
        Clear();
        return;
      }
      UnlinkAny(zone, k);
    }

    method UnlinkAny(zone: ListNode, ghost k: nat)
      requires Linked() && |nodes| > 1 && k < |nodes| && zone == nodes[k]
      modifies `nodes, `start, `end, nodes
      ensures Linked() && nodes == old(nodes)[..k] + old(nodes)[k + 1..]
    {
      SamePlace(nodes, 0, k);
      SamePlace(nodes, |nodes| - 1, k);
      if zone == start {
        DropStart();
        return;
      }
      if zone == end {
        DropEnd();
        return;
      }
      Unsplice(k, zone);
    }

    ghost method Clear()
      modifies `nodes
      ensures Linked() && nodes == []
    {
      nodes := [];
    }

    method DropStart()
      requires Linked() && |nodes| > 1
      modifies `nodes, `start
      ensures Linked() && nodes == old(nodes)[1..]
    {
      start := start.next;
      nodes := nodes[1..];
    }

    method DropEnd()
      requires Linked() && |nodes| > 1
      modifies `nodes, `end
      ensures Linked() && nodes == old(nodes)[..|old(nodes)| - 1]
    {
      end := end.prev;
      nodes := nodes[..|nodes| - 1];
    }

    /** remove, from any cursor, for any k but len, which it does not refuse: at either end it takes
        out the node asked for; in between the one its lookup leads to, and the cursor moves on. */
    method Remove(k: nat, ghost p: Option<nat>) returns (out: ListNode?)
      requires Valid() && CursorAt(p) && k != len
      requires 0 < k < len - 1 ==> 0 < Now(p).RemoveLands(k) < len - 1
      modifies this, nodes
      ensures k > old(len) ==> out == null && Is(old(Now(p)))
      ensures k < old(len) ==> out == old(nodes)[old(Now(p)).Victim(k)] && Is(old(Now(p)).Removed(k))
    {
      if k > len {
        return null;
      }
      if k == len - 1 {
        out := Pop(p);
        return;
      }
      if k == 0 {
        out := PopStart(p);
        return;
      }
      out := RemoveBetween(k, p);
    }

    /** The rest of remove, between two nodes. */
    method RemoveBetween(k: nat, ghost p: Option<nat>) returns (temp: ListNode)
      requires Valid() && CursorAt(p) && 0 < k < len - 1 && 0 < Now(p).RemoveLands(k) < len - 1
      modifies this, nodes
      ensures temp == old(nodes)[old(Now(p)).Victim(k)] && Is(old(Now(p)).Removed(k))
    {
      hide Cursor.Landing, Cursor.Steps, Distinct, LinkedList.Linked;
      ghost var j := Now(p).RemoveLands(k);
      len := len - 1;
      ghost var steps;
      temp, steps := Lookup(k, p);
      TakeOut(k, j, temp);
    }

    /** The end of remove: the cursor moves on and the node is unlinked. */
    method TakeOut(k: nat, ghost j: nat, temp: ListNode)
      requires Linked() && 0 < j < |nodes| - 1 && temp == nodes[j] && currentI == k
      modifies this`nodes, this`current, nodes
      ensures Linked() && nodes == old(nodes)[..j] + old(nodes)[j + 1..] && CursorAt(Some(j))
    {
      hide Distinct;
      assert temp.next == nodes[j + 1];
      if k <= currentI {
        current := temp.next;
      }
      Unsplice(j, temp);
    }

    method Unsplice(ghost j: nat, temp: ListNode)
      requires Linked() && 0 < j < |nodes| - 1 && temp == nodes[j]
      modifies this`nodes, nodes
      ensures Linked() && nodes == old(nodes)[..j] + old(nodes)[j + 1..] && nodes[j] == old(nodes)[j + 1]
    {
      DistinctWithout(nodes, j);
      ghost var back, onward := nodes[j - 1], nodes[j + 1];
      temp.prev.next := temp.next;
      temp.next.prev := temp.prev;
      nodes := nodes[..j] + nodes[j + 1..];
    }
  }

  // ---------------------------------------------------------------- the timer's scan

  function Kept<T(==)>(s: seq<T>, due: set<T>): seq<T> {
    if s == [] then [] else (if s[0] in due then [] else [s[0]]) + Kept(s[1..], due)
  }

  function Taken<T(==)>(s: seq<T>, due: set<T>): seq<T> {
    if s == [] then [] else (if s[0] in due then [s[0]] else []) + Taken(s[1..], due)
  }

  ghost predicate Among<T>(s: seq<T>, o: set<T>) {
    forall j :: 0 <= j < |s| ==> s[j] in o
  }

  lemma AmongLess<T>(s: seq<T>, o: set<T>, i: nat)
    requires Among(s, o) && i < |s|
    ensures Among(s[..i] + s[i + 1..], o)
  {
  }

  ghost function Nodes(l: LinkedList): set<ListNode>
    reads l
  {
    set n | n in l.nodes
  }

  lemma Themselves(l: LinkedList)
    ensures Among(l.nodes, Nodes(l))
  {
  }

  /** i-- and i++ on a machine word. */
  lemma DownAndUp(i: nat)
    requires i + 1 < WORD
    ensures Sub(i, 1) < WORD && Add(Sub(i, 1), 1) == i && Add(i, 1) == i + 1
  {
    if i > 0 { assert Sub(i, 1) == i - 1; }
  }

  /** A lookup with a right cursor. */
  method Read(l: LinkedList, i: nat) returns (temp: ListNode)
    requires l.Valid() && l.CursorRight() && i < l.len
    modifies l`current, l`currentI
    ensures l.Valid() && l.CursorRight() && l.CursorAt(Some(i)) && l.currentI == i && temp == l.nodes[i]
  {
    RightLands(l.Now(l.Real()), i);
    ghost var s;
    temp, s := l.At(i, l.Real());
  }

  /** Looking a node up again and unlinking it. */
  method TakeAt(l: LinkedList, i: nat, ghost o: set<ListNode>)
    requires l.Valid() && l.CursorRight() && i < l.len && Among(l.nodes, o)
    modifies l, o
    ensures l.Valid() && l.CursorRight() && l.nodes == old(l.nodes)[..i] + old(l.nodes)[i + 1..] && Among(l.nodes, o)
  {
    AmongLess(l.nodes, o, i);
    var temp := Read(l, i);
    l.RemoveP(temp, i, Some(i));
  }

  /** How the timer handler goes through SLEEP: by index, unlinking as it goes, with an index
      that wraps below 0. The node it unlinks is always the one under the cursor, so every
      lookup reads the node it means to and the cursor is right afterwards. */
  method TakeDue(l: LinkedList, due: set<ListNode>) returns (taken: seq<ListNode>)
    requires l.Valid() && l.CursorRight()
    modifies l, Nodes(l)
    ensures l.Valid() && l.CursorRight()
    ensures l.nodes == Kept(old(l.nodes), due) && taken == Taken(old(l.nodes), due)
  {
    hide LinkedList.Linked, LinkedList.CursorRight, Passed, Among, Distance, Kept, Taken, Sub, Add;
    var i := 0;
    taken := [];
    PassEnds(l.nodes, l.nodes, [], due);
    Themselves(l);
    while i < l.len
      invariant 0 <= i <= l.len && l.Valid() && l.CursorRight()
      invariant Among(l.nodes, old(Nodes(l)))
      invariant Passed(old(l.nodes), l.nodes, i, taken, due)
      decreases l.len - i
    {
      DownAndUp(i);
      var temp := Read(l, i);
      ghost var was := l.nodes;
      if temp in due {
        TakeAt(l, i, old(Nodes(l)));
        PassDue(old(l.nodes), was, l.nodes, i, taken, due);
        taken := taken + [temp];
        i := Sub(i, 1);
      } else {
        PassOther(old(l.nodes), was, i, taken, due);
      }
      i := Add(i, 1);
    }
    PassEnds(old(l.nodes), l.nodes, taken, due);
  }

  /** The scan of o has come to position i with s left and t taken. */
  ghost predicate Passed<T>(o: seq<T>, s: seq<T>, i: nat, t: seq<T>, due: set<T>) {
    i <= |s| && s[..i] + Kept(s[i..], due) == Kept(o, due) && t + Taken(s[i..], due) == Taken(o, due)
  }

  lemma PassEnds<T>(o: seq<T>, s: seq<T>, t: seq<T>, due: set<T>)
    ensures Passed(s, s, 0, [], due)
    ensures Passed(o, s, |s|, t, due) ==> s == Kept(o, due) && t == Taken(o, due)
  {
    assert s[0..] == s && s[..0] == [] && s[|s|..] == [] && s[..|s|] == s;
  }

  lemma PassDue<T>(o: seq<T>, s: seq<T>, s': seq<T>, i: nat, t: seq<T>, due: set<T>)
    requires Passed(o, s, i, t, due) && i < |s| && s[i] in due && s' == s[..i] + s[i + 1..]
    ensures Passed(o, s', i, t + [s[i]], due)
  {
    assert s[i..][1..] == s[i + 1..] == s'[i..] && s'[..i] == s[..i];
    assert t + ([s[i]] + Taken(s[i + 1..], due)) == t + [s[i]] + Taken(s[i + 1..], due);
  }

  lemma PassOther<T>(o: seq<T>, s: seq<T>, i: nat, t: seq<T>, due: set<T>)
    requires Passed(o, s, i, t, due) && i < |s| && s[i] !in due
    ensures Passed(o, s, i + 1, t, due)
  {
    assert s[i..][1..] == s[i + 1..] && s[..i + 1] == s[..i] + [s[i]];
    assert s[..i] + ([s[i]] + Kept(s[i + 1..], due)) == s[..i] + [s[i]] + Kept(s[i + 1..], due);
  }

  // ---------------------------------------------------------------- SLEEP over whole runs

  /** What happens to SLEEP: a thread goes to sleep, or the handler wakes the ones that are due. */
  datatype SleepStep = Enter(node: ListNode) | Scan(due: set<ListNode>)

  function SleepNext(s: seq<ListNode>, step: SleepStep): seq<ListNode> {
    match step
    case Enter(node) => s + [node]
    case Scan(due) => Kept(s, due)
  }

  function SleepAfter(s: seq<ListNode>, steps: seq<SleepStep>): seq<ListNode>
    decreases |steps|
  {
    if steps == [] then s else SleepAfter(SleepNext(s, steps[0]), steps[1..])
  }

  /** Nobody goes to sleep who is already asleep, and the list does not outgrow its index. */
  predicate SleepRun(s: seq<ListNode>, steps: seq<SleepStep>)
    decreases |steps|
  {
    steps == [] ||
    ((steps[0].Enter? ==> steps[0].node !in s && |s| + 1 < MAX_LEN) && SleepRun(SleepNext(s, steps[0]), steps[1..]))
  }

  lemma AmongKept<T>(s: seq<T>, due: set<T>, o: set<T>)
    requires Among(s, o)
    ensures Among(Kept(s, due), o)
  {
    if s != [] { AmongKept(s[1..], due, o); }
  }

  /** Over any run of going to sleep and waking, the list holds the threads it should, in order of
      arrival, and its cursor is right, so that no scan ever misreads it. */
  method RunSleep(l: LinkedList, steps: seq<SleepStep>, ghost all: set<ListNode>)
    requires l.Valid() && l.CursorRight() && Among(l.nodes, all) && SleepRun(l.nodes, steps)
    requires forall i :: 0 <= i < |steps| && steps[i].Enter? ==> steps[i].node in all
    modifies l, all
    ensures l.Valid() && l.CursorRight() && l.nodes == SleepAfter(old(l.nodes), steps)
  {
    hide LinkedList.Linked, Kept, Taken;
    assert steps[0..] == steps;
    for i := 0 to |steps|
      invariant l.Valid() && l.CursorRight() && Among(l.nodes, all) && SleepRun(l.nodes, steps[i..])
      invariant SleepAfter(l.nodes, steps[i..]) == SleepAfter(old(l.nodes), steps)
    {
      assert steps[i..][1..] == steps[i + 1..];
      match steps[i]
      case Enter(node) =>
        l.Append(node, l.Real());
      case Scan(due) =>
        AmongKept(l.nodes, due, all);
        var taken := TakeDue(l, due);
    }
  }
}

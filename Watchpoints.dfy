/**
 * The watchpoint pool of the simple debugger: NrWp records, each on exactly
 * one of two singly linked lists (the watchpoints in use, from `head`, and
 * the free records, from `free`). Pointers into the pool are indices into
 * the array of records, and NULL is -1.
 */
module Watchpoints {
  import opened Unsigned
  import opened Evaluator

  const NrWp: int := 32
  const Null: int := -1

  /** One WP record: its number, its successor on whichever list holds it, the watched text and the last value seen. */
  datatype Slot = Slot(no: int, next: int, exprStr: string, oldVal: U32)

  /** The successor of the k-th node of the list l: the next node, or NULL after the last one. */
  function Succ(l: seq<int>, k: int): int
    requires 0 <= k < |l|
  {
    if k + 1 < |l| then l[k + 1] else Null
  }

  /** Starting from h and following `next` through s visits the records of l in order, then NULL. */
  ghost predicate Linked(s: seq<Slot>, h: int, l: seq<int>)
  {
    (if l == [] then h == Null else h == l[0]) &&
    forall k :: 0 <= k < |l| ==> 0 <= l[k] < |s| && s[l[k]].next == Succ(l, k)
  }

  ghost predicate Distinct(l: seq<int>)
  {
    forall i, j :: 0 <= i < j < |l| ==> l[i] != l[j]
  }

  /** Every one of the NrWp records is on exactly one of the two lists, and on it once. */
  ghost predicate Partition(used: seq<int>, free: seq<int>)
  {
    Distinct(used) && Distinct(free) &&
    (forall k :: 0 <= k < |used| ==> 0 <= used[k] < NrWp) &&
    (forall k :: 0 <= k < |free| ==> 0 <= free[k] < NrWp) &&
    forall i :: 0 <= i < NrWp ==> (i in used) != (i in free)
  }

  /** The list l without the first occurrence of x. */
  function Remove(l: seq<int>, x: int): seq<int>
  {
    if l == [] then []
    else if l[0] == x then l[1..]
    else [l[0]] + Remove(l[1..], x)
  }

  /** Whether polling the record v on machine m reports a change: its text evaluates, to a value other than the one last seen. */
  predicate Fires(v: Slot, m: Machine)
    requires m.cpu.Valid()
  {
    var r := Expr(v.exprStr, m);
    r.success && r.value != v.oldVal
  }

  /** The record v after one poll on machine m. */
  function Poll(v: Slot, m: Machine): Slot
    requires m.cpu.Valid()
  {
    if Fires(v, m) then v.(oldVal := Expr(v.exprStr, m).value) else v
  }

  /** A record whose text does not evaluate keeps the value last seen, whatever that was. */
  lemma PollKeepsOnFailure(v: Slot, m: Machine)
    requires m.cpu.Valid()
    requires !Expr(v.exprStr, m).success
    ensures Poll(v, m) == v && !Fires(v, m)
  {
  }

  /** Polling twice on the same machine state reports nothing the second time and changes nothing more. */
  lemma PollTwiceQuiet(v: Slot, m: Machine)
    requires m.cpu.Valid()
    ensures !Fires(Poll(v, m), m)
    ensures Poll(Poll(v, m), m) == Poll(v, m)
  {
  }

  /** A poll changes the value last seen and nothing else; after it, that value is the current one whenever the text evaluates. */
  lemma PollMeans(v: Slot, m: Machine)
    requires m.cpu.Valid()
    ensures Poll(v, m).(oldVal := v.oldVal) == v
    ensures Expr(v.exprStr, m).success ==> Poll(v, m).oldVal == Expr(v.exprStr, m).value
    ensures Poll(v, m) != v <==> Fires(v, m)
  {
  }

  /** The records s after polling the records of l, in order. */
  function PollAll(s: seq<Slot>, l: seq<int>, m: Machine): (r: seq<Slot>)
    requires m.cpu.Valid()
    requires forall k :: 0 <= k < |l| ==> 0 <= l[k] < |s|
    ensures |r| == |s|
    decreases |l|
  {
    if l == [] then s
    else
      var t := PollAll(s, l[..|l| - 1], m);
      var i := l[|l| - 1];
      t[i := Poll(t[i], m)]
  }

  /** Whether polling the records of l, in order, reports a change for any of them. */
  predicate AnyFires(s: seq<Slot>, l: seq<int>, m: Machine)
    requires m.cpu.Valid()
    requires forall k :: 0 <= k < |l| ==> 0 <= l[k] < |s|
    decreases |l|
  {
    l != [] &&
    (AnyFires(s, l[..|l| - 1], m) || Fires(PollAll(s, l[..|l| - 1], m)[l[|l| - 1]], m))
  }

  // ---------------------------------------------------------------------
  // Facts about the two lists, on values

  lemma {:induction false} NotEarlier(l: seq<int>, k: int)
    requires Distinct(l) && 0 <= k < |l|
    ensures l[k] !in l[..k] && l[k] !in l[k + 1..]
  {
  }

  /** The records 0, 1, ..., n - 1 in order. */
  function Upto(n: nat): (r: seq<int>)
    ensures |r| == n && forall k :: 0 <= k < n ==> r[k] == k
  {
    seq(n, i => i)
  }

  /** Records numbered by position and each linked to the next form one list from record 0, and with an empty list in use they are the whole partition. */
  lemma InitialPool(s: seq<Slot>)
    requires |s| == NrWp
    requires forall j :: 0 <= j < NrWp ==> s[j].no == j && s[j].next == if j == NrWp - 1 then Null else j + 1
    ensures Linked(s, 0, Upto(NrWp)) && Linked(s, Null, []) && Partition([], Upto(NrWp))
  {
    var l := Upto(NrWp);
    forall i | 0 <= i < NrWp
      ensures i in l
    {
      assert l[i] == i;
    }
  }

  /** Rewriting one record keeps a list whose links it does not touch. */
  lemma LinkedUpdate(s: seq<Slot>, h: int, l: seq<int>, i: int, v: Slot)
    requires Linked(s, h, l) && 0 <= i < |s|
    requires i in l ==> v.next == s[i].next
    ensures Linked(s[i := v], h, l)
  {
    forall k | 0 <= k < |l|
      ensures s[i := v][l[k]].next == Succ(l, k)
    {
      if l[k] == i {
        assert i in l;
      }
    }
  }

  /** A record whose link is the old head becomes the new head. */
  lemma LinkedPush(s: seq<Slot>, h: int, l: seq<int>, i: int)
    requires Linked(s, h, l) && 0 <= i < |s| && s[i].next == h
    ensures Linked(s, i, [i] + l)
  {
    var l' := [i] + l;
    forall k | 0 <= k < |l'|
      ensures 0 <= l'[k] < |s| && s[l'[k]].next == Succ(l', k)
    {
      if k > 0 {
        assert l'[k] == l[k - 1];
        assert Succ(l', k) == Succ(l, k - 1);
      }
    }
  }

  /** Dropping the head: the list now starts at the head's successor. */
  lemma LinkedPop(s: seq<Slot>, h: int, l: seq<int>)
    requires Linked(s, h, l) && l != []
    ensures Linked(s, s[h].next, l[1..])
  {
    assert s[l[0]].next == Succ(l, 0);
    forall k | 0 <= k < |l| - 1
      ensures s[l[1..][k]].next == Succ(l[1..], k)
    {
      assert Succ(l, k + 1) == Succ(l[1..], k);
    }
  }

  /** Unlinking the node after position j: its predecessor takes over its link. */
  lemma LinkedUnlink(s: seq<Slot>, h: int, l: seq<int>, j: int)
    requires Linked(s, h, l) && Distinct(l) && 0 <= j && j + 1 < |l|
    ensures Linked(s[l[j] := s[l[j]].(next := s[l[j + 1]].next)], h, l[..j + 1] + l[j + 2..])
  {
    var s' := s[l[j] := s[l[j]].(next := s[l[j + 1]].next)];
    var l' := l[..j + 1] + l[j + 2..];
    assert |l'| == |l| - 1;
    forall k | 0 <= k < |l'|
      ensures 0 <= l'[k] < |s'| && s'[l'[k]].next == Succ(l', k)
    {
      if k < j {
        assert l'[k] == l[k] && Succ(l', k) == Succ(l, k);
        assert l[k] != l[j];
      } else if k == j {
        assert l'[k] == l[j];
        assert Succ(l, j + 1) == Succ(l', j);
      } else {
        assert l'[k] == l[k + 1] && Succ(l', k) == Succ(l, k + 1);
        assert l[k + 1] != l[j];
      }
    }
    if j == 0 {
      assert l'[0] == l[0];
    } else {
      assert l'[0] == l[0];
    }
  }

  /** Moving the free list's head to the front of the list in use keeps the partition. */
  lemma PartitionMove(used: seq<int>, free: seq<int>)
    requires Partition(used, free) && free != []
    ensures Partition([free[0]] + used, free[1..])
  {
    var x := free[0];
    var u := [x] + used;
    var f := free[1..];
    assert x in free;
    assert x !in used;
    forall i, j | 0 <= i < j < |u|
      ensures u[i] != u[j]
    {
      if i == 0 {
        assert u[j] == used[j - 1];
      } else {
        assert u[i] == used[i - 1] && u[j] == used[j - 1];
      }
    }
    forall i, j | 0 <= i < j < |f|
      ensures f[i] != f[j]
    {
      assert f[i] == free[i + 1] && f[j] == free[j + 1];
    }
    forall i | 0 <= i < NrWp
      ensures (i in u) != (i in f)
    {
      NotEarlier(free, 0);
      assert i in free <==> i == x || i in f;
      assert i in u <==> i == x || i in used;
    }
  }

  /** Returning the node at position k of the list in use to the free list's head keeps the partition. */
  lemma PartitionRelease(used: seq<int>, free: seq<int>, k: int)
    requires Partition(used, free) && 0 <= k < |used|
    ensures Partition(used[..k] + used[k + 1..], [used[k]] + free)
  {
    var x := used[k];
    var u := used[..k] + used[k + 1..];
    var f := [x] + free;
    assert x in used;
    assert x !in free;
    assert |u| == |used| - 1;
    forall i, j | 0 <= i < j < |u|
      ensures u[i] != u[j]
    {
      var i' := if i < k then i else i + 1;
      var j' := if j < k then j else j + 1;
      assert u[i] == used[i'] && u[j] == used[j'];
    }
    forall i, j | 0 <= i < j < |f|
      ensures f[i] != f[j]
    {
      if i == 0 {
        assert f[j] == free[j - 1];
      } else {
        assert f[i] == free[i - 1] && f[j] == free[j - 1];
      }
    }
    forall t | 0 <= t < |u|
      ensures 0 <= u[t] < NrWp
    {
      assert u[t] == used[if t < k then t else t + 1];
    }
    forall i | 0 <= i < NrWp
      ensures (i in u) != (i in f)
    {
      NotEarlier(used, k);
      assert used == used[..k] + [x] + used[k + 1..];
      assert i in used <==> i in used[..k] || i == x || i in used[k + 1..];
      assert i in u <==> i in used[..k] || i in used[k + 1..];
      assert i in f <==> i == x || i in free;
    }
  }

  /** Removing the first occurrence, found at position k, leaves the nodes before and after it in order. */
  lemma {:induction false} RemoveAt(l: seq<int>, x: int, k: int)
    requires 0 <= k < |l| && l[k] == x
    requires forall t :: 0 <= t < k ==> l[t] != x
    ensures Remove(l, x) == l[..k] + l[k + 1..]
  {
    if k > 0 {
      RemoveAt(l[1..], x, k - 1);
      assert l[1..][..k - 1] == l[1..k];
      assert l[1..][k..] == l[k + 1..];
      assert [l[0]] + l[1..k] == l[..k];
    }
  }

  /** Removing a node that occurs once drops exactly that node: one node fewer, the node gone, every other node kept. */
  lemma {:induction false} RemoveMeans(l: seq<int>, x: int)
    requires Distinct(l) && x in l
    ensures |Remove(l, x)| == |l| - 1 && x !in Remove(l, x)
    ensures forall y :: y != x ==> (y in Remove(l, x) <==> y in l)
  {
    var k :| 0 <= k < |l| && l[k] == x;
    forall t | 0 <= t < k
      ensures l[t] != x
    {
    }
    RemoveAt(l, x, k);
    NotEarlier(l, k);
    assert l == l[..k] + [x] + l[k + 1..];
  }

  /** Extending a sweep by the record at position k polls that record in the state the shorter sweep left. */
  lemma SweepStep(s: seq<Slot>, l: seq<int>, k: int, m: Machine)
    requires m.cpu.Valid() && 0 <= k < |l|
    requires forall t :: 0 <= t < |l| ==> 0 <= l[t] < |s|
    ensures PollAll(s, l[..k + 1], m) == PollAll(s, l[..k], m)[l[k] := Poll(PollAll(s, l[..k], m)[l[k]], m)]
    ensures AnyFires(s, l[..k + 1], m) == (AnyFires(s, l[..k], m) || Fires(PollAll(s, l[..k], m)[l[k]], m))
  {
    assert l[..k + 1][..k] == l[..k];
  }

  /** Polling a list of distinct records polls each of them once, from its state before the sweep, and leaves every other record alone. */
  lemma {:induction false} PollAllMeans(s: seq<Slot>, l: seq<int>, m: Machine)
    requires m.cpu.Valid() && Distinct(l)
    requires forall k :: 0 <= k < |l| ==> 0 <= l[k] < |s|
    ensures forall i :: 0 <= i < |s| ==> PollAll(s, l, m)[i] == if i in l then Poll(s[i], m) else s[i]
    decreases |l|
  {
    if l != [] {
      var n := |l| - 1;
      var p := l[..n];
      var x := l[n];
      assert l == p + [x];
      PollAllMeans(s, p, m);
      NotEarlier(l, n);
    }
  }

  /** A sweep over distinct records reports a change exactly when one of them, as it was before the sweep, fires. */
  lemma {:induction false} AnyFiresMeans(s: seq<Slot>, l: seq<int>, m: Machine)
    requires m.cpu.Valid() && Distinct(l)
    requires forall k :: 0 <= k < |l| ==> 0 <= l[k] < |s|
    ensures AnyFires(s, l, m) <==> exists k :: 0 <= k < |l| && Fires(s[l[k]], m)
    decreases |l|
  {
    if l != [] {
      var n := |l| - 1;
      var p := l[..n];
      var x := l[n];
      AnyFiresMeans(s, p, m);
      PollAllMeans(s, p, m);
      NotEarlier(l, n);
      assert PollAll(s, p, m)[x] == s[x];
      if exists k :: 0 <= k < |l| && Fires(s[l[k]], m) {
        var k :| 0 <= k < |l| && Fires(s[l[k]], m);
        if k < n {
          assert p[k] == l[k];
        }
      }
      if exists k :: 0 <= k < |p| && Fires(s[p[k]], m) {
        var k :| 0 <= k < |p| && Fires(s[p[k]], m);
        assert l[k] == p[k];
      }
    }
  }

  /** The records on a list, as a set. */
  ghost function Elems(l: seq<int>): (r: set<int>)
    ensures forall x :: x in r <==> x in l
  {
    set x | x in l
  }

  /** A list without repetitions has as many records as its set. */
  lemma {:induction false} DistinctSize(l: seq<int>)
    requires Distinct(l)
    ensures |Elems(l)| == |l|
    decreases |l|
  {
    if l != [] {
      var n := |l| - 1;
      DistinctSize(l[..n]);
      NotEarlier(l, n);
      assert l == l[..n] + [l[n]];
      assert Elems(l) == Elems(l[..n]) + {l[n]};
    }
  }

  /** The set of the records 0 .. n - 1 has n of them. */
  lemma {:induction false} RangeSize(n: nat)
    ensures |Elems(Upto(n))| == n
  {
    DistinctSize(Upto(n));
  }

  /** The two lists of a partition hold NrWp records between them: the free list is empty exactly when all NrWp are in use. */
  lemma PartitionSize(used: seq<int>, free: seq<int>)
    requires Partition(used, free)
    ensures |used| + |free| == NrWp
    ensures free == [] <==> |used| == NrWp
  {
    DistinctSize(used);
    DistinctSize(free);
    RangeSize(NrWp);
    assert Elems(used) !! Elems(free);
    forall x | x in Elems(Upto(NrWp))
      ensures x in Elems(used) + Elems(free)
    {
      var k :| 0 <= k < NrWp && Upto(NrWp)[k] == x;
    }
    forall x | x in Elems(used) + Elems(free)
      ensures x in Elems(Upto(NrWp))
    {
      if x in used {
        var k :| 0 <= k < |used| && used[k] == x;
      } else {
        var k :| 0 <= k < |free| && free[k] == x;
      }
      assert Upto(NrWp)[x] == x;
    }
    assert Elems(used) + Elems(free) == Elems(Upto(NrWp));
  }

  // ---------------------------------------------------------------------
  // The pool

  class Pool {
    /** wp_pool */
    var wp: array<Slot>
    /** head: the first watchpoint in use, or NULL */
    var head: int
    /** free_: the first free record, or NULL */
    var free: int
    /** The records in use, in list order from head. */
    ghost var used: seq<int>
    /** The free records, in list order from free_. */
    ghost var avail: seq<int>

    ghost predicate Valid()
      reads this, wp
    {
      wp.Length == NrWp &&
      (forall i :: 0 <= i < NrWp ==> wp[i].no == i) &&
      Linked(wp[..], head, used) && Linked(wp[..], free, avail) &&
      Partition(used, avail)
    }

    /** The static pool before initialisation: zero-filled, both lists NULL. */
    constructor ()
      ensures wp.Length == NrWp && head == Null && free == Null
      ensures forall i :: 0 <= i < NrWp ==> wp[i] == Slot(0, Null, "", 0)
      ensures fresh(wp)
    {
      wp := new Slot[NrWp](_ => Slot(0, Null, "", 0));
      head, free := Null, Null;
      used, avail := [], [];
    }

    /** init_wp_pool: number the records 0..NrWp-1 and chain them all, in order, on the free list. */
    method InitPool()
      requires wp.Length == NrWp
      modifies this, wp
      ensures Valid() && wp == old(wp)
      ensures used == [] && avail == Upto(NrWp)
      ensures forall i :: 0 <= i < NrWp ==> wp[i].exprStr == old(wp[i].exprStr) && wp[i].oldVal == old(wp[i].oldVal)
    {
      ChainAll();
      InitialPool(wp[..]);
      head := Null;
      free := 0;
      used := [];
      avail := Upto(NrWp);
    }

    /** The loop of init_wp_pool: record i is numbered i and linked to record i + 1, the last one to NULL. */
    method ChainAll()
      requires wp.Length == NrWp
      modifies wp
      ensures forall j :: 0 <= j < NrWp ==> wp[j] == old(wp[j]).(no := j, next := if j == NrWp - 1 then Null else j + 1)
    {
      var i := 0;
      while i < NrWp
        invariant 0 <= i <= NrWp
        invariant forall j :: 0 <= j < i ==> wp[j] == old(wp[j]).(no := j, next := if j == NrWp - 1 then Null else j + 1)
        invariant forall j :: i <= j < NrWp ==> wp[j] == old(wp[j])
      {
        wp[i] := wp[i].(no := i, next := if i == NrWp - 1 then Null else i + 1);
        i := i + 1;
      }
    }

    /** new_wp: NULL when no record is free; otherwise the free list's head, now at the front of the list in use. */
    method NewWp() returns (slot: int)
      requires Valid()
      modifies this, wp
      ensures Valid() && wp == old(wp)
      ensures slot == Null <==> |old(used)| == NrWp
      ensures old(avail) == [] ==>
        slot == Null && used == old(used) && avail == old(avail) && wp[..] == old(wp[..])
      ensures old(avail) != [] ==>
        slot == old(avail)[0] && used == [slot] + old(used) && avail == old(avail)[1..] &&
        wp[..] == old(wp[..])[slot := old(wp[..])[slot].(next := old(head))]
    {
      PartitionSize(used, avail);
      if free == Null {
        return Null;
      }
      ghost var s := wp[..];
      slot := free;
      LinkedPop(s, free, avail);
      free := wp[slot].next;
      wp[slot] := wp[slot].(next := head);
      assert wp[..] == s[slot := s[slot].(next := head)];
      assert avail[0] in avail;
      LinkedUpdate(s, head, used, slot, wp[slot]);
      LinkedPush(wp[..], head, used, slot);
      NotEarlier(avail, 0);
      LinkedUpdate(s, free, avail[1..], slot, wp[slot]);
      PartitionMove(used, avail);
      head := slot;
      used := [slot] + used;
      avail := avail[1..];
    }

    /**
     * The search of free_wp: the node in use just before the one numbered no,
     * or the last node when no node in use has that number.
     */
    method FindPredecessor(no: int) returns (prev: int, ghost j: int)
      requires Valid() && used != [] && used[0] != no
      ensures 0 <= j < |used| && prev == used[j]
      ensures forall t :: 0 <= t <= j ==> used[t] != no
      ensures j + 1 == |used| || used[j + 1] == no
      ensures wp[prev].next == Null <==> no !in used
    {
      prev := head;
      j := 0;
      while wp[prev].next != Null && wp[wp[prev].next].no != no
        invariant 0 <= j < |used| && prev == used[j]
        invariant forall t :: 0 <= t <= j ==> used[t] != no
        decreases |used| - j
      {
        assert wp[..][used[j]].next == Succ(used, j);
        prev := wp[prev].next;
        j := j + 1;
      }
      assert wp[..][used[j]].next == Succ(used, j);
      if j + 1 < |used| {
        assert no in used;
      }
    }

    /** The pool with the record w off the list in use and not yet back on the free list. */
    ghost predicate Detached(w: int)
      reads this, wp
    {
      wp.Length == NrWp &&
      (forall i :: 0 <= i < NrWp ==> wp[i].no == i) &&
      Linked(wp[..], head, used) && Linked(wp[..], free, avail) &&
      Partition(used, [w] + avail)
    }

    /** The first half of free_wp when the head is the one: head moves to its successor. */
    method UnlinkHead()
      requires Valid() && used != []
      modifies this
      ensures head == old(wp[head].next) && used == old(used)[1..]
      ensures free == old(free) && avail == old(avail) && wp == old(wp)
      ensures Detached(old(used)[0])
    {
      LinkedPop(wp[..], head, used);
      PartitionRelease(used, avail, 0);
      assert used[..0] + used[1..] == used[1..];
      head := wp[head].next;
      used := used[1..];
    }

    /** The first half of free_wp when the one follows prev, at position j: prev takes over its link. */
    method UnlinkAfter(prev: int, ghost j: int)
      requires Valid() && 0 <= j && j + 1 < |used| && prev == used[j]
      modifies this, wp
      ensures head == old(head) && free == old(free) && avail == old(avail) && wp == old(wp)
      ensures used == old(used)[..j + 1] + old(used)[j + 2..]
      ensures wp[..] == old(wp[..])[prev := old(wp[prev]).(next := old(wp[wp[prev].next].next))]
      ensures Detached(old(used)[j + 1])
    {
      ghost var s := wp[..];
      assert s[used[j]].next == Succ(used, j);
      var w := wp[prev].next;
      LinkedUnlink(s, head, used, j);
      PartitionRelease(used, avail, j + 1);
      NotEarlier(used, j + 1);
      assert prev in used;
      assert prev != w;
      LinkedUpdate(s, free, avail, prev, s[prev].(next := s[w].next));
      wp[prev] := wp[prev].(next := wp[w].next);
      used := used[..j + 1] + used[j + 2..];
    }

    /** The second half of free_wp: clear the record's text and old value and push it on the free list. */
    method Release(w: int)
      requires Detached(w)
      modifies this, wp
      ensures Valid() && wp == old(wp)
      ensures head == old(head) && used == old(used) && free == w && avail == [w] + old(avail)
      ensures wp[..] == old(wp[..])[w := old(wp[w]).(next := old(free), exprStr := "", oldVal := 0)]
    {
      assert w in [w] + avail;
      assert 0 <= w < NrWp;
      assert w !in used;
      NotEarlier([w] + avail, 0);
      assert ([w] + avail)[1..] == avail;
      ghost var s := wp[..];
      var v := wp[w].(exprStr := "", oldVal := 0, next := free);
      LinkedUpdate(s, free, avail, w, v);
      LinkedUpdate(s, head, used, w, v);
      wp[w] := v;
      LinkedPush(wp[..], free, avail, w);
      free := w;
      avail := [w] + avail;
    }

    /**
     * free_wp: when a node in use is numbered no, unlink it, keep the others
     * in order, clear its text and old value and push it on the free list;
     * otherwise change nothing.
     */
    method FreeWp(no: int)
      requires Valid()
      modifies this, wp
      ensures Valid() && wp == old(wp)
      ensures no !in old(used) ==>
        used == old(used) && avail == old(avail) && wp[..] == old(wp[..]) && head == old(head) && free == old(free)
      ensures no in old(used) ==>
        used == Remove(old(used), no) && avail == [no] + old(avail) &&
        wp[no] == old(wp[no]).(next := old(free), exprStr := "", oldVal := 0)
      ensures forall i :: 0 <= i < NrWp && i != no ==>
        wp[i].exprStr == old(wp[i].exprStr) && wp[i].oldVal == old(wp[i].oldVal)
    {
      ghost var s0 := wp[..];
      var w := Unlink(no);
      if w == Null {
        return;
      }
      ghost var s1 := wp[..];
      Release(w);
      forall i | 0 <= i < NrWp && i != no
        ensures wp[i].exprStr == s0[i].exprStr && wp[i].oldVal == s0[i].oldVal
      {
        assert wp[i] == s1[i];
      }
    }

    /** The search and unlinking of free_wp: the record numbered no, now off the list in use, or NULL when none is in use. */
    method Unlink(no: int) returns (w: int)
      requires Valid()
      modifies this, wp
      ensures wp == old(wp) && free == old(free) && avail == old(avail)
      ensures no !in old(used) ==>
        w == Null && Valid() && used == old(used) && head == old(head) && wp[..] == old(wp[..])
      ensures no in old(used) ==>
        w == no && Detached(no) && used == Remove(old(used), no) && wp[no] == old(wp[no])
      ensures forall i :: 0 <= i < NrWp ==>
        wp[i].exprStr == old(wp[i].exprStr) && wp[i].oldVal == old(wp[i].oldVal)
    {
      if head == Null {
        return Null;
      }
      ghost var u := used;
      if wp[head].no == no {
        w := head;
        RemoveAt(u, no, 0);
        UnlinkHead();
        return;
      }
      var prev;
      ghost var j;
      prev, j := FindPredecessor(no);
      if wp[prev].next == Null {
        return Null;
      }
      assert wp[..][used[j]].next == Succ(used, j);
      w := wp[prev].next;
      RemoveAt(u, no, j + 1);
      NotEarlier(u, j + 1);
      UnlinkAfter(prev, j);
    }

    /** One step of check_watchpoints: poll the record p in use. */
    method PollOne(p: int, m: Machine) returns (fired: bool)
      requires Valid() && m.cpu.Valid() && 0 <= p < NrWp
      modifies wp
      ensures Valid()
      ensures wp[..] == old(wp[..])[p := Poll(old(wp[p]), m)]
      ensures fired == Fires(old(wp[p]), m)
    {
      var value, success := Evaluate(wp[p].exprStr, m);
      if success && value != wp[p].oldVal {
        ghost var s := wp[..];
        LinkedUpdate(s, head, used, p, s[p].(oldVal := value));
        LinkedUpdate(s, free, avail, p, s[p].(oldVal := value));
        wp[p] := wp[p].(oldVal := value);
        return true;
      }
      return false;
    }

    /**
     * check_watchpoints: evaluate the text of every watchpoint in use, in
     * list order, on machine m; those whose text evaluates to a value other
     * than the one last seen take the new value, and the result says whether
     * any did.
     */
    method CheckWatchpoints(m: Machine) returns (triggered: bool)
      requires Valid() && m.cpu.Valid()
      modifies wp
      ensures Valid()
      ensures wp[..] == PollAll(old(wp[..]), used, m)
      ensures triggered == AnyFires(old(wp[..]), used, m)
    {
      ghost var s0 := wp[..];
      triggered := false;
      var p := head;
      ghost var k := 0;
      while p != Null
        invariant 0 <= k <= |used| && p == if k < |used| then used[k] else Null
        invariant Valid()
        invariant wp[..] == PollAll(s0, used[..k], m)
        invariant triggered == AnyFires(s0, used[..k], m)
        decreases |used| - k
      {
        assert wp[..][used[k]].next == Succ(used, k);
        SweepStep(s0, used, k, m);
        var fired := PollOne(p, m);
        triggered := triggered || fired;
        p := wp[p].next;
        k := k + 1;
      }
      assert used[..k] == used;
    }
  }
}

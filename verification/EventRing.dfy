// smartc/list.h and smartc/fd_event.c: circular doubly linked lists, and over
// them the queue of pending events of one descriptor.  An event embeds its
// list_head, so a node is the event itself and list_entry is the identity.
module EventRing {
  import opened Common

  datatype Item = Item(fd: int, handler: int, data: int)

  class Event {
    var next: Event?
    var prev: Event?
    var pending: bool
    const item: Item

    constructor (item: Item)
      ensures next == this && prev == this && !pending && this.item == item
    {
      this.item := item;
      pending := false;
      new;
      next, prev := this, this;
    }
  }

  function Next(r: seq<Event>, i: nat): Event
    requires i < |r|
  {
    if i + 1 < |r| then r[i + 1] else r[0]
  }

  function Last(r: seq<Event>): Event
    requires |r| > 0
  {
    r[|r| - 1]
  }

  // The nodes of r, in this order and closed up, linked both ways.
  ghost predicate Ring(r: seq<Event>)
    reads r
  {
    && PairwiseDifferent(r)
    && forall i: nat {:trigger Next(r, i)} {:trigger r[i].next} :: i < |r| ==> r[i].next == Next(r, i) && Next(r, i).prev == r[i]
  }

  // A ring can be read from any of its nodes.
  lemma Rotate(r: seq<Event>, k: nat)
    requires k < |r| && Ring(r)
    ensures Ring(r[k..] + r[..k])
  {
    var t := r[k..] + r[..k];
    forall i: nat | i < |t|
      ensures t[i].next == Next(t, i) && Next(t, i).prev == t[i]
    {
      var j := if i < |r| - k then i + k else i - (|r| - k);
      assert t[i] == r[j] && Next(t, i) == Next(r, j);
    }
  }

  // ---------------------------------------------------------------- list.h

  // __list_add.
  method Link(node: Event, prev: Event, next: Event)
    modifies next`prev, node`next, node`prev, prev`next
    ensures node != prev && node != next ==> node.next == next && node.prev == prev && prev.next == node && next.prev == node
  {
    next.prev := node;
    node.next := next;
    node.prev := prev;
    prev.next := node;
  }

  // list_add_tail: the node closest behind the head, at the end of the ring read from it.
  method AddTail(node: Event, head: Event, ghost r: seq<Event>)
    requires |r| > 0 && head == r[0] && Ring(r) && node !in r
    modifies head`prev, node`next, node`prev, Last(r)`next
    ensures Ring(r + [node])
  {
    assert Next(r, |r| - 1) == head;
    assert head.prev == r[|r| - 1];
    Link(node, head.prev, head);
    var t := r + [node];
    forall i: nat | i < |t|
      ensures t[i].next == Next(t, i) && Next(t, i).prev == t[i]
    {
      if i < |r| - 1 {
        assert Next(r, i) == r[i + 1];
      }
    }
  }

  // list_add: right behind the head.
  method Add(node: Event, head: Event, ghost r: seq<Event>)
    requires |r| > 0 && head == r[0] && Ring(r) && node !in r
    modifies head`next, node`next, node`prev, Next(r, 0)`prev
    ensures Ring([head, node] + r[1..])
  {
    assert head.next == Next(r, 0);
    Link(node, head, head.next);
    var t := [head, node] + r[1..];
    forall i: nat | i < |t|
      ensures t[i].next == Next(t, i) && Next(t, i).prev == t[i]
    {
      if i >= 2 {
        assert Next(t, i) == Next(r, i - 1);
      }
    }
  }

  // The node before position k, around the ring.
  function Prev(r: seq<Event>, k: nat): Event
    requires k < |r|
  {
    if k > 0 then r[k - 1] else Last(r)
  }

  lemma NextLinks(r: seq<Event>, k: nat)
    requires k < |r| && Ring(r)
    ensures r[k].next == Next(r, k) && PairwiseDifferent(r)
  {
  }

  lemma PrevLinks(r: seq<Event>, k: nat)
    requires k < |r| && Ring(r)
    ensures r[k].prev == Prev(r, k) && Prev(r, k).next == r[k]
  {
    assert Next(r, if k > 0 then k - 1 else |r| - 1) == r[k];
  }

  function Without(r: seq<Event>, k: nat): seq<Event>
    requires k < |r|
  {
    r[..k] + r[k + 1..]
  }

  // Put back at its place, the node completes the ring.
  lemma WithoutParts(r: seq<Event>, k: nat)
    requires k < |r|
    ensures var t := Without(r, k); |t| == |r| - 1 && r == t[..k] + [r[k]] + t[k..]
  {
  }

  // __list_del on the neighbours of r[k], then the two fields of r[k] are free to change.
  method Unlink(prev: Event, next: Event, ghost r: seq<Event>, ghost k: nat)
    requires k < |r| && Ring(r) && prev == Prev(r, k) && next == Next(r, k)
    modifies next`prev, prev`next
    ensures Ring(Without(r, k)) && r[k] !in Without(r, k)
  {
    next.prev := prev;
    prev.next := next;
    var t := Without(r, k);
    forall i: nat | i < |t|
      ensures t[i].next == Next(t, i) && Next(t, i).prev == t[i]
    {
      var j := if i < k then i else i + 1;
      assert t[i] == r[j];
      assert Next(t, i) == if Next(r, j) == r[k] then next else Next(r, j);
    }
  }

  // list_del.
  method Del(entry: Event, ghost r: seq<Event>, ghost k: nat)
    requires k < |r| && Ring(r) && entry == r[k]
    modifies entry`next, entry`prev, Next(r, k)`prev, Prev(r, k)`next
    ensures Ring(Without(r, k))
    ensures entry.next == null && entry.prev == null
  {
    PrevLinks(r, k);
    assert entry.next == Next(r, k);
    Unlink(entry.prev, entry.next, r, k);
    entry.next, entry.prev := null, null;
  }

  // list_del_init: the entry becomes a ring of its own.
  method DelInit(entry: Event, ghost r: seq<Event>, ghost k: nat)
    requires k < |r| && Ring(r) && entry == r[k]
    modifies entry`next, entry`prev, Next(r, k)`prev, Prev(r, k)`next
    ensures Ring(Without(r, k)) && Ring([entry])
  {
    PrevLinks(r, k);
    assert entry.next == Next(r, k);
    Unlink(entry.prev, entry.next, r, k);
    entry.next, entry.prev := entry, entry;
  }

  function Spliced(a: seq<Event>, b: seq<Event>): seq<Event>
    requires |a| > 0 && |b| > 0
  {
    [b[0]] + a[1..] + b[1..]
  }

  lemma SpliceNext(a: seq<Event>, b: seq<Event>, i: nat)
    requires |a| > 0 && |b| > 0 && i < |a| + |b| - 1
    ensures var t := Spliced(a, b);
      && (0 < i < |a| - 1 ==> t[i] == a[i] && Next(t, i) == Next(a, i))
      && (i == 0 ==> t[i] == b[0] && Next(t, i) == if |a| == 1 then Next(b, 0) else a[1])
      && (0 < i == |a| - 1 ==> t[i] == Last(a) && Next(t, i) == Next(b, 0))
      && (i >= |a| ==> t[i] == b[i - (|a| - 1)] && Next(t, i) == Next(b, i - (|a| - 1)))
  {
  }

  // The head of b, the entries of a, the entries of b.
  lemma SplicedParts(a: seq<Event>, b: seq<Event>)
    requires |a| > 0 && |b| > 0
    ensures var t := Spliced(a, b); |t| == |a| + |b| - 1 && t[0] == b[0] && t[1..|a|] == a[1..] && t[|a|..] == b[1..]
  {
  }

  lemma SplicedDistinct(a: seq<Event>, b: seq<Event>)
    requires |a| > 0 && |b| > 0 && PairwiseDifferent(a) && PairwiseDifferent(b)
    requires forall x :: x in a ==> x !in b
    ensures PairwiseDifferent(Spliced(a, b))
  {
    var t := Spliced(a, b);
    forall i, j | 0 <= i < j < |t|
      ensures t[i] != t[j]
    {
      assert t[j] == if j < |a| then a[j] else b[j - (|a| - 1)];
      assert i > 0 ==> t[i] == if i < |a| then a[i] else b[i - (|a| - 1)];
      assert t[0] == b[0] && b[0] in b && (j < |a| ==> a[j] in a) && (i < |a| ==> a[i] in a);
    }
  }

  // list_splice: the entries of one list go right behind the head of another; list itself is left as it was.
  method Splice(list: Event, head: Event, ghost a: seq<Event>, ghost b: seq<Event>)
    requires |a| > 0 && |b| > 0 && list == a[0] && head == b[0]
    requires Ring(a) && Ring(b) && forall x :: x in a ==> x !in b
    modifies Next(a, 0)`prev, head`next, Last(a)`next, Next(b, 0)`prev
    ensures Ring(Spliced(a, b))
    ensures list.next == old(list.next) && list.prev == old(list.prev)
  {
    PrevLinks(a, 0);
    PrevLinks(b, 0);
    assert list.next == Next(a, 0) && head.next == Next(b, 0);
    var first := list.next;
    if first != list {
      var last, at := list.prev, head.next;
      first.prev := head;
      head.next := first;
      last.next := at;
      at.prev := last;
      SplicedDistinct(a, b);
      var t := Spliced(a, b);
      forall i: nat | i < |t|
        ensures t[i].next == Next(t, i) && Next(t, i).prev == t[i]
      {
        SpliceNext(a, b, i);
        if i < |a| {
          assert a[i] in a && Next(a, i) in a && Next(b, 0) in b && b[0] in b;
        } else {
          var j := i - (|a| - 1);
          assert b[j] in b && Next(b, j) in b && Next(b, j) != Next(b, 0) && b[j] != b[0];
          assert first in a && last in a;
        }
      }
    } else {
      assert Spliced(a, b) == b;
    }
  }

  // ------------------------------------------------------------- fd_event.c

  function Items(r: seq<Event>): (items: seq<Item>)
    ensures |items| == |r|
    ensures forall i :: 0 <= i < |r| ==> items[i] == r[i].item
  {
    seq(|r|, i requires 0 <= i < |r| => r[i].item)
  }

  // The node behind the first leaves; it is the next of those that have left.
  lemma SecondOut(r: seq<Event>, count: nat)
    requires count + 1 < |r|
    ensures Without([r[0]] + r[count + 1..], 1) == [r[0]] + r[count + 2..]
    ensures Items(r[1..count + 1]) + [r[count + 1].item] == Items(r[1..count + 2])
  {
    hide Ring;
    var rest := r[count + 1..];
    assert ([r[0]] + rest)[..1] == [r[0]] && ([r[0]] + rest)[2..] == rest[1..] == r[count + 2..];
    assert r[1..count + 2] == r[1..count + 1] + [r[count + 1]];
    ItemsMore(r[1..count + 1], r[count + 1]);
  }

  lemma ItemsMore(r: seq<Event>, e: Event)
    ensures Items(r + [e]) == Items(r) + [e.item]
  {
    var a, b := Items(r + [e]), Items(r) + [e.item];
    forall i | 0 <= i < |a| ensures a[i] == b[i] {
      assert (r + [e])[i] == if i < |r| then r[i] else e;
    }
  }

  // The wqueue pointer of a descriptor: null, or the front event of a ring without a sentinel.
  class EventQueue {
    var front: Event?
    ghost var ring: seq<Event>

    ghost predicate Valid()
      reads this, ring
    {
      && (front == null <==> ring == [])
      && (ring != [] ==> front == ring[0] && Ring(ring))
    }

    constructor ()
      ensures Valid() && ring == []
    {
      front, ring := null, [];
    }

    // sock_event_append: event_create on an empty queue, otherwise event_add behind the front.
    method Append(item: Item)
      requires Valid()
      modifies this, ring
      ensures Valid()
      ensures exists e :: fresh(e) && ring == old(ring) + [e] && e.item == item && !e.pending
      ensures Items(ring) == Items(old(ring)) + [item]
      ensures forall x :: x in old(ring) ==> x.pending == old(x.pending)
    {
      var e := new Event(item);
      if front == null {
        front := e;
      } else {
        AddTail(e, front, ring);
      }
      ring := ring + [e];
    }

    // event_del, called through the free pointer of the front: pop it, null when it was the last.
    method Pop()
      requires Valid()
      modifies this, ring
      ensures Valid()
      ensures ring == if old(ring) == [] then [] else old(ring)[1..]
      ensures old(front) != null ==> old(front).next == null && old(front).prev == null
      ensures forall x :: x in old(ring) ==> x.pending == old(x.pending)
    {
      if front == null {
        return;
      }
      var e := front;
      var next := e.next;
      assert next == Next(ring, 0);
      Del(e, ring, 0);
      assert Without(ring, 0) == ring[1..];
      ring := ring[1..];
      front := if next == e then null else next;
    }

    // event_count: the loop starts behind the front, so the front itself is not counted.
    method Count() returns (count: nat)
      requires Valid()
      ensures count == if ring == [] then 0 else |ring| - 1
    {
      if front == null {
        return 0;
      }
      count := 0;
      assert front.next == Next(ring, 0);
      var l := front.next;
      while l != front
        invariant count < |ring| && l == Next(ring, count)
        decreases |ring| - count
      {
        assert l.next == Next(ring, count + 1);
        l, count := l.next, count + 1;
      }
    }

    // event_exec_one: run the front's handler once only; ran is the call made.
    method ExecOne() returns (ok: bool, ran: seq<Item>)
      requires Valid()
      modifies ring
      ensures Valid() && ring == old(ring)
      ensures ok <==> ring != [] && !old(front.pending)
      ensures ran == if ok then [ring[0].item] else []
      ensures forall x :: x in ring ==> x.pending == (old(x.pending) || (ok && x == front))
    {
      if front == null || front.pending {
        return false, [];
      }
      front.pending := true;
      return true, [front.item];
    }

    // event_exec_all: every event behind the front is taken off and run, in order; the front stays.
    method ExecAll() returns (count: nat, ran: seq<Item>)
      requires Valid()
      modifies this, ring
      ensures Valid()
      ensures ring == old(ring[..if front == null then 0 else 1])
      ensures ran == Items(old(ring[if front == null then 0 else 1..]))
      ensures count == |ran|
      ensures forall x :: x in old(ring) && x != front ==> Ring([x])
    {
      hide Ring, Items, Without;
      count, ran := 0, [];
      if front == null {
        return;
      }
      ghost var r := ring;
      NextLinks(r, 0);
      var p := front.next;
      NextLinks(r, if |r| == 1 then 0 else 1);
      var n := p.next;
      while p != front
        invariant count < |r| && ring == [r[0]] + r[count + 1..] && front == r[0] && Ring(ring)
        invariant p == Next(ring, 0) && n == p.next
        invariant ran == Items(r[1..count + 1])
        invariant forall i :: 1 <= i <= count ==> Ring([r[i]])
        decreases |r| - count
      {
        assert p == r[count + 1];
        SecondOut(r, count);
        NextLinks(ring, 1);
        DelInit(p, ring, 1);
        ring := Without(ring, 1);
        NextLinks(ring, 0);
        ran := ran + [p.item];
        assert ran == Items(r[1..count + 2]);
        count := count + 1;
        p := n;
        NextLinks(ring, if |ring| == 1 then 0 else 1);
        n := p.next;
      }
    }
  }

  // ------------------------------------------------------ any run of the queue

  datatype Op = DoAppend(item: Item) | DoPop

  function Step(q: seq<Item>, op: Op): seq<Item> {
    match op
    case DoAppend(item) => q + [item]
    case DoPop => if q == [] then [] else q[1..]
  }

  function After(ops: seq<Op>): seq<Item> {
    if ops == [] then [] else Step(After(ops[..|ops| - 1]), ops[|ops| - 1])
  }

  function Appended(ops: seq<Op>): seq<Item> {
    if ops == [] then [] else
      var before := Appended(ops[..|ops| - 1]);
      if ops[|ops| - 1].DoAppend? then before + [ops[|ops| - 1].item] else before
  }

  function Popped(ops: seq<Op>): seq<Item> {
    if ops == [] then [] else
      var (before, q) := (Popped(ops[..|ops| - 1]), After(ops[..|ops| - 1]));
      if ops[|ops| - 1].DoPop? && q != [] then before + [q[0]] else before
  }

  // What left the queue and what is still in it are, in order, all that was appended.
  lemma {:induction false} FirstInFirstOut(ops: seq<Op>)
    ensures Popped(ops) + After(ops) == Appended(ops)
  {
    if ops != [] {
      FirstInFirstOut(ops[..|ops| - 1]);
    }
  }

  // On the linked ring, every run behaves as on a sequence.
  method Run(ops: seq<Op>) returns (q: EventQueue)
    ensures q.Valid() && Items(q.ring) == After(ops)
  {
    q := new EventQueue();
    var i := 0;
    while i < |ops|
      invariant 0 <= i <= |ops|
      invariant fresh(q) && fresh(q.ring) && q.Valid() && Items(q.ring) == After(ops[..i])
    {
      assert ops[..i + 1][..i] == ops[..i];
      match ops[i] {
        case DoAppend(item) => q.Append(item);
        case DoPop => q.Pop();
      }
      i := i + 1;
    }
    assert ops[..i] == ops;
  }
}

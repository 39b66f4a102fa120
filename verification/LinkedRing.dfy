/** The circular doubly linked queues of blocked tasks: a head and, around it, the queue
    members embedded in the tasks (fifos/rtai_fifos.c:168-186, bits/rtai_bits.c:39-52).
  */
module LinkedRing {

  /** A queue member together with what its task pointer leads to. */
  class Node<T> {
    var prev: Node<T>
    var next: Node<T>
    var task: T

    constructor (task: T)
      ensures prev == this && next == this && this.task == task
    {
      prev := this;
      next := this;
      this.task := task;
    }
  }

  function Onward(i: int, n: int): int {
    if i + 1 < n then i + 1 else 0
  }

  function Backward(i: int, n: int): int {
    if i > 0 then i - 1 else n - 1
  }

  ghost predicate Distinct<T>(ring: seq<Node<T>>) {
    forall i, j :: 0 <= i < j < |ring| ==> ring[i] != ring[j]
  }

  /** The nodes of ring, in this order, form a circle through next and back through prev. */
  ghost predicate Linked<T>(ring: seq<Node<T>>)
    reads ring
  {
    && |ring| > 0 && Distinct(ring)
    && (forall i {:trigger ring[i].next} :: 0 <= i < |ring| ==> ring[i].next == ring[Onward(i, |ring|)])
    && (forall i {:trigger ring[i].prev} :: 0 <= i < |ring| ==> ring[i].prev == ring[Backward(i, |ring|)])
  }

  function Inserted<A>(s: seq<A>, k: nat, a: A): (r: seq<A>)
    requires k <= |s|
    ensures |r| == |s| + 1
  {
    s[..k] + [a] + s[k..]
  }

  function Removed<A>(s: seq<A>, k: nat): (r: seq<A>)
    requires k < |s|
    ensures |r| == |s| - 1
  {
    s[..k] + s[k + 1..]
  }

  lemma InsertedIsDistinct<T>(ring: seq<Node<T>>, k: nat, n: Node<T>)
    requires Distinct(ring) && k <= |ring| && n !in ring
    ensures Distinct(Inserted(ring, k, n))
  {
    var r := Inserted(ring, k, n);
    forall i, j | 0 <= i < j < |r| ensures r[i] != r[j] {
      if i != k && j != k {
        assert r[i] == ring[if i < k then i else i - 1];
        assert r[j] == ring[if j < k then j else j - 1];
      }
    }
  }

  lemma RemovedIsDistinct<T>(ring: seq<Node<T>>, k: nat)
    requires Distinct(ring) && k < |ring|
    ensures Distinct(Removed(ring, k)) && ring[k] !in Removed(ring, k)
  {
    var r := Removed(ring, k);
    forall i | 0 <= i < |r| ensures r[i] == ring[if i < k then i else i + 1] {}
  }

  lemma InsertedAt<A>(s: seq<A>, k: nat, a: A, i: nat)
    requires k <= |s| && i <= |s|
    ensures Inserted(s, k, a)[i] == if i < k then s[i] else if i == k then a else s[i - 1]
  {}

  lemma RemovedAt<A>(s: seq<A>, k: nat, i: nat)
    requires k < |s| && i < |s| - 1
    ensures Removed(s, k)[i] == if i < k then s[i] else s[i + 1]
  {}

  /** Linking a member in front of q, as both versions of enqueue_blocked do. */
  method InsertBefore<T>(n: Node<T>, q: Node<T>, ghost ring: seq<Node<T>>, ghost k: nat)
    requires Linked(ring) && n !in ring
    requires 1 <= k <= |ring| && q == ring[if k < |ring| then k else 0]
    modifies q`prev, q.prev`next, n`prev, n`next
    ensures Linked(Inserted(ring, k, n))
  {
    var p := q.prev;
    n.prev := p;
    p.next := n;
    q.prev := n;
    n.next := q;
    assert p == ring[k - 1];
    InsertedIsDistinct(ring, k, n);
    InsertedNext(n, ring, k);
    InsertedPrev(n, ring, k);
  }

  /** The circle of next, given the links after an insertion. */
  lemma InsertedNext<T>(n: Node<T>, ring: seq<Node<T>>, k: nat)
    requires 1 <= k <= |ring|
    requires ring[k - 1].next == n && n.next == ring[if k < |ring| then k else 0]
    requires forall i {:trigger ring[i].next} :: 0 <= i < |ring| && i != k - 1 ==>
               ring[i].next == ring[Onward(i, |ring|)]
    ensures forall i :: 0 <= i <= |ring| ==>
              Inserted(ring, k, n)[i].next == Inserted(ring, k, n)[Onward(i, |ring| + 1)]
  {
    var r, m := Inserted(ring, k, n), |ring|;
    forall i | 0 <= i <= m ensures r[i].next == r[Onward(i, m + 1)] {
      InsertedAt(ring, k, n, i);
      InsertedAt(ring, k, n, Onward(i, m + 1));
    }
  }

  /** The circle of prev, given the links after an insertion. */
  lemma InsertedPrev<T>(n: Node<T>, ring: seq<Node<T>>, k: nat)
    requires 1 <= k <= |ring|
    requires n.prev == ring[k - 1] && ring[if k < |ring| then k else 0].prev == n
    requires forall i {:trigger ring[i].prev} :: 0 <= i < |ring| && i != (if k < |ring| then k else 0) ==>
               ring[i].prev == ring[Backward(i, |ring|)]
    ensures forall i :: 0 <= i <= |ring| ==>
              Inserted(ring, k, n)[i].prev == Inserted(ring, k, n)[Backward(i, |ring| + 1)]
  {
    var r, m := Inserted(ring, k, n), |ring|;
    forall i | 0 <= i <= m ensures r[i].prev == r[Backward(i, m + 1)] {
      InsertedAt(ring, k, n, i);
      InsertedAt(ring, k, n, Backward(i, m + 1));
    }
  }

  /** n is at place k of the circle, and not its head. */
  ghost predicate IsMember<T>(n: Node<T>, ring: seq<Node<T>>, k: nat)
    reads ring
  {
    Linked(ring) && 1 <= k < |ring| && n == ring[k]
  }

  /** r is a circle but for one more node, with the links p and q, which may stand between two
      neighbours of it: its links name neighbours in r, or nobody in it. */
  ghost predicate LinkedBut<T>(r: seq<Node<T>>, p: Node<T>, q: Node<T>)
    reads r
  {
    |r| > 0 && Distinct(r) && forall i :: 0 <= i < |r| ==> JoinedBut(r, p, q, i)
  }

  ghost predicate JoinedBut<T>(r: seq<Node<T>>, p: Node<T>, q: Node<T>, i: nat)
    requires i < |r|
    reads r
  {
    && r[Onward(i, |r|)] == (if r[i] == p then q else r[i].next)
    && r[Backward(i, |r|)] == if r[i] == q then p else r[i].prev
  }

  ghost predicate Joined<T>(r: seq<Node<T>>, i: nat)
    requires i < |r|
    reads r
  {
    r[i].next == r[Onward(i, |r|)] && r[i].prev == r[Backward(i, |r|)]
  }

  lemma LinkedIsJoined<T>(r: seq<Node<T>>)
    ensures Linked(r) <==> |r| > 0 && Distinct(r) && forall i :: 0 <= i < |r| ==> Joined(r, i)
  {
    if |r| > 0 && Distinct(r) && forall i :: 0 <= i < |r| ==> Joined(r, i) {
      forall i | 0 <= i < |r| ensures r[i].next == r[Onward(i, |r|)] && r[i].prev == r[Backward(i, |r|)] {
        assert Joined(r, i);
      }
    }
  }

  /** Unlinking a member, as both versions of dequeue_blocked do; its own links stay. A member
      of the circle leaves it. Whatever n's links have become, they decide which circles there
      are afterwards: r, without n, is one if and only if it was one but for n. */
  method Unlink<T>(n: Node<T>, ghost ring: seq<Node<T>>, ghost k: nat, ghost r: seq<Node<T>>)
    requires n.prev != n && n.next != n
    modifies n.prev`next, n.next`prev
    ensures n.prev == old(n.prev) && n.next == old(n.next)
    ensures n.prev.next == n.next && n.next.prev == n.prev
    ensures old(IsMember(n, ring, k)) ==> Linked(Removed(ring, k)) && n.next == ring[Onward(k, |ring|)]
    ensures n !in r ==> (Linked(r) <==> old(LinkedBut(r, n.prev, n.next)))
  {
    n.prev.next := n.next;
    n.next.prev := n.prev;
    forall i | 0 <= i < |r| && n !in r ensures Joined(r, i) <==> old(JoinedBut(r, n.prev, n.next, i)) {
      assert r[i] != n;
    }
    LinkedIsJoined(r);
    if old(IsMember(n, ring, k)) {
      assert n.prev == ring[k - 1] && n.next == ring[Onward(k, |ring|)];
      RemovedIsDistinct(ring, k);
      RemovedNext(ring, k);
      RemovedPrev(ring, k);
    }
  }

  /** Taking the first member off, as mbx_sem_delete does (fifos/rtai_fifos.c:511-512). */
  method UnlinkFirst<T>(head: Node<T>, ghost ring: seq<Node<T>>)
    requires Linked(ring) && |ring| > 1 && head == ring[0]
    modifies head`next, head.next.next`prev
    ensures Linked(Removed(ring, 1)) && ring[1].prev == head
    ensures old(head.next) == ring[1] && old(head.next.next) == ring[Onward(1, |ring|)]
  {
    var n := head.next;
    assert n == ring[1] && n.next == ring[Onward(1, |ring|)] && n.prev == head;
    assert head != n;
    head.next := n.next;
    n.next.prev := head;
    RemovedIsDistinct(ring, 1);
    RemovedNext(ring, 1);
    RemovedPrev(ring, 1);
  }

  /** The circle of next, given the links after a removal. */
  lemma RemovedNext<T>(ring: seq<Node<T>>, k: nat)
    requires 1 <= k < |ring| && ring[k - 1].next == ring[Onward(k, |ring|)]
    requires forall i {:trigger ring[i].next} :: 0 <= i < |ring| && i != k && i != k - 1 ==>
               ring[i].next == ring[Onward(i, |ring|)]
    ensures forall i :: 0 <= i < |ring| - 1 ==> Removed(ring, k)[i].next == Removed(ring, k)[Onward(i, |ring| - 1)]
  {
    var r, m := Removed(ring, k), |ring|;
    forall i | 0 <= i < m - 1 ensures r[i].next == r[Onward(i, m - 1)] {
      RemovedAt(ring, k, i);
      RemovedAt(ring, k, Onward(i, m - 1));
    }
  }

  /** The circle of prev, given the links after a removal. */
  lemma RemovedPrev<T>(ring: seq<Node<T>>, k: nat)
    requires 1 <= k < |ring| && ring[Onward(k, |ring|)].prev == ring[k - 1]
    requires forall i {:trigger ring[i].prev} :: 0 <= i < |ring| && i != k && i != Onward(k, |ring|) ==>
               ring[i].prev == ring[Backward(i, |ring|)]
    ensures forall i :: 0 <= i < |ring| - 1 ==> Removed(ring, k)[i].prev == Removed(ring, k)[Backward(i, |ring| - 1)]
  {
    var r, m := Removed(ring, k), |ring|;
    forall i | 0 <= i < m - 1 ensures r[i].prev == r[Backward(i, m - 1)] {
      RemovedAt(ring, k, i);
      RemovedAt(ring, k, Backward(i, m - 1));
    }
  }
}

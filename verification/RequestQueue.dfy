/** The queue of wakeups that wait for the service request handler (fifos/rtai_fifos.c:142-143,
    196-198, 222-224, 721-726).
  */
module RequestQueue {
  import opened RingBuffer

  const MAXREQS := 64

  /** One more request. The queue cannot tell a full ring from an empty one. */
  function Requested(pending: seq<nat>, t: nat): seq<nat> {
    if |pending| < MAXREQS - 1 then pending + [t] else []
  }

  /** Requests made one after another while the handler does not run. */
  function AllRequested(requests: seq<nat>): seq<nat> {
    if requests == [] then []
    else
      var n := |requests| - 1;
      Requested(AllRequested(requests[..n]), requests[n])
  }

  /** What is left of them: the last ones, as many as remain when full rounds are taken off. */
  lemma {:induction false} WhatIsLeft(requests: seq<nat>)
    ensures AllRequested(requests) == requests[|requests| - |requests| % MAXREQS..]
  {
    if requests != [] {
      var n := |requests| - 1;
      WhatIsLeft(requests[..n]);
      var left, k := AllRequested(requests[..n]), n % MAXREQS;
      NextRemainder(n);
      assert left == requests[..n][n - k..] && |left| == k;
      if k == MAXREQS - 1 {
        assert AllRequested(requests) == [] == requests[n + 1..];
      } else {
        Tail(requests, n, n - k);
        assert AllRequested(requests) == left + [requests[n]] == requests[n - k..n + 1];
      }
    }
  }

  lemma Tail(s: seq<nat>, n: nat, from: nat)
    requires from <= n < |s|
    ensures s[..n][from..] + [s[n]] == s[from..n + 1] && (n + 1 == |s| ==> s[from..n + 1] == s[from..])
  {}

  lemma NextRemainder(n: nat)
    ensures n % MAXREQS <= n
    ensures (n + 1) % MAXREQS == if n % MAXREQS == MAXREQS - 1 then 0 else n % MAXREQS + 1
  {}

  lemma FirstRound(n: nat)
    ensures n % MAXREQS <= n && (n % MAXREQS == n <==> n < 64)
  {}

  /** No request is lost exactly when fewer than 64 are made. */
  lemma NothingLost(requests: seq<nat>)
    ensures AllRequested(requests) == requests <==> |requests| < 64
  {
    var k := |requests| % MAXREQS;
    WhatIsLeft(requests);
    FirstRound(|requests|);
    assert |AllRequested(requests)| == k;
    if k == |requests| {
      assert requests[0..] == requests;
    }
  }

  lemma TakeFirst(buf: seq<nat>, f: int, n: nat, served: seq<nat>)
    requires IsPosition(f, |buf|) && 0 < n <= |buf|
    ensures IsPosition(Wrap(f + 1, |buf|), |buf|)
    ensures served + Window(buf, f, n) == served + [buf[f]] + Window(buf, Wrap(f + 1, |buf|), n - 1)
  {
    WindowShrinks(buf, f, n, 1);
    assert buf[f..f + 1] == [buf[f]];
    var w := Window(buf, f, n);
    assert w == w[..1] + w[1..];
  }

  /** taskq; first and last are its members out and in. */
  class TaskQueue {
    var last: int
    var first: int
    var task: array<nat>

    ghost predicate Valid()
      reads this
    {
      task.Length == MAXREQS && 0 <= last < MAXREQS && 0 <= first < MAXREQS
    }

    ghost function Count(): (n: nat)
      requires Valid()
      reads this
      ensures n < MAXREQS && last == Wrap(first + n, MAXREQS)
    {
      if last >= first then last - first else last - first + MAXREQS
    }

    ghost function Pending(): seq<nat>
      requires Valid()
      reads this, task
    {
      Window(task[..], first, Count())
    }

    /** Lines 196-197 and 222-223. */
    method Request(t: nat)
      requires Valid()
      modifies this`last, task
      ensures Valid() && Pending() == Requested(old(Pending()), t)
    {
      ghost var was, n := task[..], Count();
      task[last] := t;
      last := Wrap(last + 1, MAXREQS);
      if n < MAXREQS - 1 {
        assert task[..] == Overlaid(was, Wrap(first + n, MAXREQS), [t]);
        WindowGrows(was, first, n, [t]);
      }
    }

    /** The first loop of the handler: everybody is looked at, in order, and the queue is empty. */
    method Drain() returns (served: seq<nat>)
      requires Valid()
      modifies this`first
      ensures Valid() && served == old(Pending()) && Pending() == []
    {
      served := [];
      ghost var all, buf, n := Pending(), task[..], Count();
      while first != last
        invariant Valid() && n == Count() && task[..] == buf
        invariant served + Window(buf, first, n) == all
        decreases n
      {
        TakeFirst(buf, first, n, served);
        served := served + [task[first]];
        first := Wrap(first + 1, MAXREQS);
        n := n - 1;
      }
    }
  }
}

/** The mailbox and its four byte-moving operations (fifos/rtai_fifos.c:362-533). */
module Mailbox {
  import opened RingBuffer

  function Min(a: int, b: int): int {
    if a < b then a else b
  }

  class Mailbox {
    var size: int
    var fbyte: int
    var lbyte: int
    var avbs: int
    var frbs: int
    var bufadr: array<byte>

    ghost predicate Valid()
      reads this
    {
      && bufadr.Length == size
      && 0 <= avbs && 0 <= frbs && avbs + frbs == size
      && IsPosition(fbyte, size) && lbyte == Wrap(fbyte + avbs, size)
    }

    /** The bytes waiting to be received, in order. */
    ghost function Contents(): (c: seq<byte>)
      requires Valid()
      reads this, bufadr
      ensures |c| == avbs
    {
      Window(bufadr[..], fbyte, avbs)
    }

    /** mbx_init, lines 526-528. */
    constructor (buffer: array<byte>)
      ensures Valid() && bufadr == buffer && size == buffer.Length && Contents() == []
    {
      bufadr := buffer;
      size, frbs := buffer.Length, buffer.Length;
      fbyte, lbyte, avbs := 0, 0, 0;
    }

    /** memcpy into the buffer. */
    method CopyIn(at: int, chunk: seq<byte>)
      requires Valid() && 0 <= at && at + |chunk| <= size
      modifies bufadr
      ensures bufadr[..] == Overlaid(old(bufadr[..]), at, chunk)
    {
      forall i | 0 <= i < |chunk| {
        bufadr[at + i] := chunk[i];
      }
    }

    /** The locked update after bytes were copied in, lines 376-385. */
    method Append(chunk: seq<byte>)
      requires Valid() && |chunk| <= frbs && lbyte + |chunk| <= size
      modifies this`lbyte, this`frbs, this`avbs, bufadr
      ensures Valid() && avbs == old(avbs) + |chunk|
      ensures Contents() == old(Contents()) + chunk
    {
      ghost var before, n, at := bufadr[..], avbs, lbyte;
      CopyIn(lbyte, chunk);
      lbyte := Wrap(lbyte + |chunk|, size);
      frbs := frbs - |chunk|;
      avbs := avbs + |chunk|;
      Appended(before, fbyte, n, at, chunk, bufadr[..], avbs, lbyte);
    }

    /** The locked update after t bytes were read, lines 458-462, and lines 430-434 where
        they are not even read. */
    method Discard(t: nat)
      requires Valid() && t <= avbs && fbyte + t <= size
      modifies this`fbyte, this`frbs, this`avbs
      ensures Valid() && avbs == old(avbs) - t
      ensures bufadr[old(fbyte)..old(fbyte) + t] == old(Contents())[..t]
      ensures Contents() == old(Contents())[t..]
    {
      WindowShrinks(bufadr[..], fbyte, avbs, t);
      fbyte := Wrap(fbyte + t, size);
      frbs := frbs + t;
      avbs := avbs - t;
    }

    /** mbx_put: as much of the message as there is room for is appended; the number of
        bytes left over is returned. */
    method Put(msg: seq<byte>) returns (left: nat)
      requires Valid()
      modifies this`lbyte, this`frbs, this`avbs, bufadr
      ensures Valid()
      ensures left == |msg| - Min(|msg|, old(frbs))
      ensures Contents() == old(Contents()) + msg[..|msg| - left]
    {
      left := |msg|;
      while left > 0 && frbs != 0
        invariant Valid()
        invariant left <= |msg| && |msg| - left == avbs - old(avbs)
        invariant Contents() == old(Contents()) + msg[..|msg| - left]
        decreases left
      {
        var tocpy := Chunk(size - lbyte, left, frbs);
        var at := |msg| - left;
        NextPiece(old(Contents()), msg, at, tocpy);
        Append(msg[at..at + tocpy]);
        left := left - tocpy;
      }
    }

    /** mbx_get: as many bytes as are available and asked for are removed from the front;
        the number of bytes still missing is returned. */
    method Get(request: nat) returns (msg: seq<byte>, left: nat)
      requires Valid()
      modifies this`fbyte, this`frbs, this`avbs
      ensures Valid()
      ensures left == request - Min(request, old(avbs))
      ensures |msg| == request - left
      ensures old(Contents()) == msg + Contents()
    {
      left, msg := request, [];
      while left > 0 && avbs != 0
        invariant Valid()
        invariant left <= request && |msg| == request - left == old(avbs) - avbs
        invariant old(Contents()) == msg + Contents()
        decreases left
      {
        var tocpy := Chunk(size - fbyte, left, avbs);
        Regroup(msg, Contents(), tocpy);
        msg := msg + bufadr[fbyte..fbyte + tocpy];
        Discard(tocpy);
        left := left - tocpy;
      }
    }

    /** mbx_send_if, given whether the send semaphore is free: all of the message or nothing. */
    method SendIf(semFree: bool, msg: seq<byte>) returns (left: nat)
      requires Valid()
      modifies this`lbyte, this`frbs, this`avbs, bufadr
      ensures Valid() && left == if semFree && |msg| <= old(frbs) then 0 else |msg|
      ensures Contents() == old(Contents()) + msg[..|msg| - left]
    {
      left := |msg|;
      if semFree && frbs >= |msg| {
        left := Put(msg);
      }
    }

    /** mbx_receive_if, which compares the request with the free bytes, line 668. */
    method ReceiveIf(semFree: bool, request: nat) returns (msg: seq<byte>, left: nat)
      requires Valid()
      modifies this`fbyte, this`frbs, this`avbs
      ensures Valid() && left == ReceivedIf(semFree, request, old(avbs), old(frbs))
      ensures |msg| == request - left && old(Contents()) == msg + Contents()
    {
      msg, left := [], request;
      if semFree && frbs >= request {
        msg, left := Get(request);
      }
    }

    /** mbx_evdrp: what Get would deliver, without removing it. */
    method Eavesdrop(request: nat) returns (msg: seq<byte>, left: nat)
      requires Valid()
      ensures left == request - Min(request, avbs)
      ensures msg == Contents()[..request - left]
    {
      left, msg := request, [];
      var f, av := fbyte, avbs;
      ghost var buf := bufadr[..];
      while left > 0 && av != 0
        invariant 0 <= av <= avbs && IsPosition(f, size)
        invariant left <= request && |msg| == request - left == avbs - av
        invariant Contents() == msg + Window(buf, f, av)
        decreases left
      {
        var tocpy := Chunk(size - f, left, av);
        WindowShrinks(buf, f, av, tocpy);
        Regroup(msg, Window(buf, f, av), tocpy);
        msg := msg + bufadr[f..f + tocpy];
        av := av - tocpy;
        left := left - tocpy;
        f := Wrap(f + tocpy, size);
      }
    }

    /** mbx_ovrwr_put: the whole message always goes in; the oldest bytes make room. */
    method OverwritingPut(msg: seq<byte>)
      requires Valid()
      modifies this`fbyte, this`lbyte, this`frbs, this`avbs, bufadr
      ensures Valid()
      ensures Contents() == Last(old(Contents()) + msg, size)
    {
      var rest := msg;
      var n := |msg| - size;
      if n > 0 {
        rest := msg[n..];
      }
      ghost var all, dropped := Contents() + rest, [];
      LastOfTail(Contents(), msg, rest, size);
      while rest != []
        invariant Valid() && |rest| <= size
        invariant Surviving(dropped, Contents(), rest, all, size)
        decreases |rest|, if frbs == 0 then 1 else 0
      {
        if frbs != 0 {
          rest := FillUp(rest, dropped, all);
        }
        if rest != [] {
          dropped := MakeRoom(|rest|, dropped, rest, all);
        }
      }
      SurvivorsAreLast(dropped, Contents(), rest, all, size);
    }

    /** Lines 403-420: one memcpy into the free part. */
    method FillUp(rest: seq<byte>, ghost dropped: seq<byte>, ghost all: seq<byte>) returns (left: seq<byte>)
      requires Valid() && rest != [] && frbs != 0
      requires Surviving(dropped, Contents(), rest, all, size)
      modifies this`lbyte, this`frbs, this`avbs, bufadr
      ensures Valid() && |left| < |rest|
      ensures Surviving(dropped, Contents(), left, all, size)
    {
      var tocpy := Chunk(size - lbyte, |rest|, frbs);
      PutSurvives(dropped, Contents(), rest, tocpy, all, size);
      Append(rest[..tocpy]);
      left := rest[tocpy..];
    }

    /** Lines 423-435: the oldest bytes are given up until want bytes fit. */
    method MakeRoom(want: int, ghost before: seq<byte>, ghost rest: seq<byte>, ghost all: seq<byte>)
      returns (ghost dropped: seq<byte>)
      requires Valid() && 0 < want == |rest| <= size
      requires Surviving(before, Contents(), rest, all, size)
      modifies this`fbyte, this`frbs, this`avbs
      ensures Valid() && frbs >= want
      ensures Surviving(dropped, Contents(), rest, all, size)
    {
      dropped := before;
      var n := want - frbs;
      while n > 0
        invariant Valid() && n == want - frbs
        invariant Surviving(dropped, Contents(), rest, all, size)
        decreases n
      {
        var tocpy := Chunk(size - fbyte, n, avbs);
        GiveUpFront(dropped, Contents(), rest, all, size, tocpy);
        dropped := dropped + Contents()[..tocpy];
        Discard(tocpy);
        n := want - frbs;
      }
    }
  }

  /** What mbx_receive_if leaves of a request. */
  function ReceivedIf(semFree: bool, request: nat, avbs: nat, frbs: nat): int {
    if semFree && frbs >= request then request - Min(request, avbs) else request
  }

  /** It receives all that is asked for, or nothing, as mbx_send_if sends, exactly when the
      free bytes happen to stand in for the available ones. */
  lemma ReceiveIfIsExact(semFree: bool, request: nat, avbs: nat, frbs: nat)
    ensures ReceivedIf(semFree, request, avbs, frbs) == (if semFree && avbs >= request then 0 else request)
       <==> !semFree || request == 0 || (if frbs >= request then avbs >= request || avbs == 0 else avbs < request)
  {}

  /** Three bytes of the five in a full mailbox are refused; of four bytes, where two are
      available, two are delivered. */
  lemma ReceiveIfFails()
    ensures ReceivedIf(true, 3, 5, 0) == 3
    ensures ReceivedIf(true, 4, 2, 5) == 2
  {}

  /** The last n entries, or all of them when there are fewer. */
  function Last(s: seq<byte>, n: nat): seq<byte> {
    if |s| <= n then s else s[|s| - n..]
  }

  /** Everything there was is what was given up, what is in the ring and what is still to
      come; nothing was given up that a ring of this size can keep. */
  predicate Surviving(dropped: seq<byte>, a: seq<byte>, rest: seq<byte>, all: seq<byte>, size: int) {
    && all == dropped + a + rest
    && (dropped != [] ==> |a| + |rest| >= size)
  }

  lemma LastOfTail(a: seq<byte>, msg: seq<byte>, rest: seq<byte>, n: nat)
    requires rest == if |msg| > n then msg[|msg| - n..] else msg
    ensures Last(a + rest, n) == Last(a + msg, n)
    ensures Surviving([], a, rest, a + rest, n)
  {
    assert [] + a == a;
  }

  lemma PutSurvives(dropped: seq<byte>, a: seq<byte>, rest: seq<byte>, t: nat, all: seq<byte>, size: int)
    requires Surviving(dropped, a, rest, all, size) && t <= |rest|
    ensures Surviving(dropped, a + rest[..t], rest[t..], all, size)
  {
    assert dropped + (a + rest[..t]) + rest[t..] == dropped + a + rest;
  }

  lemma GiveUpFront(dropped: seq<byte>, a: seq<byte>, rest: seq<byte>, all: seq<byte>, size: int, t: nat)
    requires Surviving(dropped, a, rest, all, size) && t <= |a| && |a| + |rest| - t >= size
    ensures Surviving(dropped + a[..t], a[t..], rest, all, size)
  {
    assert (dropped + a[..t]) + a[t..] + rest == dropped + a + rest;
  }

  lemma SurvivorsAreLast(dropped: seq<byte>, a: seq<byte>, rest: seq<byte>, all: seq<byte>, size: int)
    requires Surviving(dropped, a, rest, all, size) && rest == [] && |a| <= size
    ensures a == Last(all, size)
  {
    assert all == dropped + a;
  }
}

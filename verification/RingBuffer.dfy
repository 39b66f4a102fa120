/** A ring in a buffer as a sequence (fifos/rtai_fifos.c:362-390). */
module RingBuffer {
  type byte = bv8

  /** MOD_SIZE */
  function Wrap(i: int, size: int): int {
    if i < size then i else i - size
  }

  /** f is a position in a ring of the given size; an empty ring has position 0 only. */
  predicate IsPosition(f: int, size: int) {
    0 <= f && (if size == 0 then f == 0 else f < size)
  }

  /** The n elements of the ring from position f on. */
  function Window<A>(buf: seq<A>, f: int, n: nat): (w: seq<A>)
    requires IsPosition(f, |buf|) && n <= |buf|
    ensures |w| == n
  {
    if n == 0 then [] else Window(buf, f, n - 1) + [buf[Wrap(f + n - 1, |buf|)]]
  }

  lemma {:induction false} WindowAt<A>(buf: seq<A>, f: int, n: nat, i: nat)
    requires IsPosition(f, |buf|) && i < n <= |buf|
    ensures Window(buf, f, n)[i] == buf[Wrap(f + i, |buf|)]
  {
    if i < n - 1 {
      WindowAt(buf, f, n - 1, i);
    }
  }

  /** How much one memcpy moves: up to the end of the buffer, what is asked for, and the
      room or the bytes available. */
  function Chunk(toEnd: int, want: int, available: int): (c: int)
    ensures c <= toEnd && c <= want && c <= available
    ensures c == toEnd || c == want || c == available
  {
    var c := if toEnd > want then want else toEnd;
    if c > available then available else c
  }

  /** buf with the bytes of chunk copied to position at. */
  function Overlaid<A>(buf: seq<A>, at: nat, chunk: seq<A>): (r: seq<A>)
    requires at + |chunk| <= |buf|
    ensures |r| == |buf|
  {
    buf[..at] + chunk + buf[at + |chunk|..]
  }

  /** Bytes copied behind the window lengthen it. */
  lemma {:induction false} WindowGrows<A>(buf: seq<A>, f: int, n: nat, chunk: seq<A>)
    requires IsPosition(f, |buf|) && n + |chunk| <= |buf|
    requires Wrap(f + n, |buf|) + |chunk| <= |buf|
    ensures Window(Overlaid(buf, Wrap(f + n, |buf|), chunk), f, n + |chunk|)
         == Window(buf, f, n) + chunk
  {
    var at := Wrap(f + n, |buf|);
    var after := Overlaid(buf, at, chunk);
    forall i | 0 <= i < n + |chunk|
      ensures Window(after, f, n + |chunk|)[i] == (Window(buf, f, n) + chunk)[i]
    {
      WindowAt(after, f, n + |chunk|, i);
      if i < n {
        WindowAt(buf, f, n, i);
      }
    }
  }

  /** Bytes in front of the window can be read in one piece and taken away. */
  lemma {:induction false} WindowShrinks<A>(buf: seq<A>, f: int, n: nat, t: nat)
    requires IsPosition(f, |buf|) && n <= |buf| && t <= n && f + t <= |buf|
    ensures IsPosition(Wrap(f + t, |buf|), |buf|)
    ensures Window(buf, f, n)[..t] == buf[f..f + t]
    ensures Window(buf, Wrap(f + t, |buf|), n - t) == Window(buf, f, n)[t..]
  {
    forall i | 0 <= i < n ensures Window(buf, f, n)[i] == buf[Wrap(f + i, |buf|)] {
      WindowAt(buf, f, n, i);
    }
    forall i | 0 <= i < n - t
      ensures Window(buf, Wrap(f + t, |buf|), n - t)[i] == Window(buf, f, n)[t..][i]
    {
      WindowAt(buf, Wrap(f + t, |buf|), n - t, i);
    }
  }

  /** The update of a put, on values. */
  lemma Appended<A>(buf: seq<A>, f: int, n: nat, at: int, chunk: seq<A>, buf': seq<A>, n': nat, at': int)
    requires IsPosition(f, |buf|) && n' == n + |chunk| <= |buf|
    requires at == Wrap(f + n, |buf|) && 0 <= at && at + |chunk| <= |buf|
    requires buf' == Overlaid(buf, at, chunk) && at' == Wrap(at + |chunk|, |buf|)
    ensures Window(buf', f, n') == Window(buf, f, n) + chunk
    ensures at' == Wrap(f + n', |buf|)
  {
    WindowGrows(buf, f, n, chunk);
    WrapTwice(f, n, |chunk|, |buf|);
  }

  /** Advancing in two steps. */
  lemma WrapTwice(f: int, n: nat, t: nat, size: int)
    requires IsPosition(f, size) && n + t <= size && Wrap(f + n, size) + t <= size
    ensures Wrap(Wrap(f + n, size) + t, size) == Wrap(f + (n + t), size)
    ensures 0 <= Wrap(f + n, size)
  {}

  /** Moving a piece from the front of b to the end of a. */
  lemma Regroup<A>(a: seq<A>, b: seq<A>, t: nat)
    requires t <= |b|
    ensures (a + b[..t]) + b[t..] == a + b
  {}

  /** Appending the next piece of a message. */
  lemma NextPiece<A>(a: seq<A>, msg: seq<A>, at: nat, t: nat)
    requires at + t <= |msg|
    ensures (a + msg[..at]) + msg[at..at + t] == a + msg[..at + t]
  {}
}

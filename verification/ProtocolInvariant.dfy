/** What every step of the FIFO protocol keeps. */
module ProtocolInvariant {
  import opened RingBuffer
  import opened SemaphoreSpec
  import opened Protocol

  function Peer(r: Role): Role {
    if r.Sender? then Receiver else Sender
  }

  predicate InQueue(s: State, t: nat)
    requires t in s.tasks
  {
    Queued(GateOf(s, s.tasks[t].role).sem.queue, t)
  }

  /** One holder or free; whoever is in a call without holding the semaphore waits for it. */
  ghost predicate GateInv(s: State, r: Role) {
    var g := GateOf(s, r);
    && (g.sem.free <==> g.holder.None?)
    && (g.sem.free ==> g.sem.queue == [])
    && Distinct(g.sem.queue)
    && (forall i :: 0 <= i < |g.sem.queue| ==>
          && g.sem.queue[i].id in s.tasks
          && s.tasks[g.sem.queue[i].id].role == r
          && s.tasks[g.sem.queue[i].id].pc in {InLine, SemSleep})
    && (g.holder.Some? ==>
          && g.holder.value in s.tasks && s.tasks[g.holder.value].role == r
          && s.tasks[g.holder.value].pc != Idle && !Queued(g.sem.queue, g.holder.value))
    && (forall t :: t in s.tasks && s.tasks[t].role == r && s.tasks[t].pc != Idle && g.holder != Some(t) ==>
          Queued(g.sem.queue, t))
  }

  /** Where a task sleeps, its wakeup is accounted for: it is still in the queue or in the
      slot, or pending, or it was missed. */
  predicate WakeInv(s: State, t: nat)
    requires t in s.tasks
  {
    var k := s.tasks[t];
    match k.pc
    case InLine =>
      && !k.asleep && s.slot != Some(t)
      && (if InQueue(s, t) then t !in s.pending && t !in s.missed else t in s.pending <==> t !in s.missed)
    case SemSleep =>
      && s.slot != Some(t)
      && (if InQueue(s, t) then k.asleep && t !in s.pending && t !in s.missed
          else (t in s.missed <==> k.asleep && t !in s.pending) && (t in s.pending ==> k.asleep))
    case SlotSleep =>
      && t !in s.missed
      && (k.asleep <==> s.slot == Some(t) || t in s.pending)
      && !(s.slot == Some(t) && t in s.pending)
    case _ => !k.asleep && t !in s.pending && t !in s.missed && s.slot != Some(t)
  }

  predicate PendingInv(s: State) {
    && (forall i :: 0 <= i < |s.pending| ==> s.pending[i] in s.tasks)
    && (forall i, j :: 0 <= i < j < |s.pending| ==> s.pending[i] != s.pending[j])
    && (s.slot.Some? ==> s.slot.value in s.tasks)
  }

  /** The ring is well formed and holds what was sent but not yet received. */
  predicate DataInv(s: State) {
    && |s.buf| > 0 && s.avbs + s.frbs == |s.buf|
    && IsPosition(s.fbyte, |s.buf|) && s.lbyte == Wrap(s.fbyte + s.avbs, |s.buf|)
    && s.sent == s.received + Window(s.buf, s.fbyte, s.avbs)
  }

  predicate NothingMoved(k: Task) {
    if k.role.Sender? then k.left == |k.data| else k.data == []
  }

  /** A task between the tests of the counter and the commit has only claimed bytes that
      are its own: free ones for a sender, available ones for a receiver. */
  predicate CopyInv(s: State, t: nat)
    requires t in s.tasks
  {
    var k := s.tasks[t];
    && (k.role.Sender? && k.pc != Idle ==> k.left <= |k.data|)
    && match k.pc
       case InLine => NothingMoved(k)
       case SemSleep => NothingMoved(k)
       case Release => k.once || k.left == 0
       case SlotSleep => k.left > 0
       case Measure => k.left > 0 && Counter(s, k.role) > 0
       case Copying(n, done) =>
         && 0 < n <= k.left && done <= n && n <= Counter(s, k.role)
         && (if k.role.Sender? then
               && s.lbyte + n <= |s.buf| && 0 <= s.lbyte
               && s.buf[s.lbyte..s.lbyte + done] == k.data[|k.data| - k.left..][..done]
             else
               && s.fbyte + n <= |s.buf| && 0 <= s.fbyte
               && k.chunk == s.buf[s.fbyte..s.fbyte + done])
       case _ => true
  }

  /** What the holder of a semaphore has moved since it got it is the end of the stream. */
  predicate StreamInv(s: State) {
    SentInv(s) && ReceivedInv(s)
  }

  predicate SentInv(s: State) {
    s.snd.holder.Some? && s.snd.holder.value in s.tasks ==>
      var k := s.tasks[s.snd.holder.value];
      && k.left <= |k.data| && s.snd.start <= |s.sent|
      && s.sent[s.snd.start..] == k.data[..|k.data| - k.left]
  }

  predicate ReceivedInv(s: State) {
    s.rcv.holder.Some? && s.rcv.holder.value in s.tasks ==>
      s.rcv.start <= |s.received| && s.received[s.rcv.start..] == s.tasks[s.rcv.holder.value].data
  }

  /** The peer of a role is on its way to mbx_signal. */
  predicate WillSignal(s: State, r: Role) {
    && GateOf(s, r).holder.Some? && GateOf(s, r).holder.value in s.tasks
    && var pc := s.tasks[GateOf(s, r).holder.value].pc;
       pc == Enter || pc == Measure || pc.Copying? || pc == Notify
  }

  /** A task in the slot still has to wait, or its peer is about to signal. */
  predicate SlotInv(s: State) {
    s.slot.Some? && s.slot.value in s.tasks ==>
      var r := s.tasks[s.slot.value].role;
      Counter(s, r) == 0 || WillSignal(s, Peer(r))
  }

  ghost predicate Gates(s: State) {
    GateInv(s, Sender) && GateInv(s, Receiver)
  }

  ghost predicate Wakes(s: State) {
    PendingInv(s) && forall t {:trigger WakeInv(s, t)} :: t in s.tasks ==> WakeInv(s, t)
  }

  ghost predicate Copies(s: State) {
    forall t {:trigger CopyInv(s, t)} :: t in s.tasks ==> CopyInv(s, t)
  }

  ghost predicate Inv(s: State) {
    Gates(s) && Wakes(s) && DataInv(s) && Copies(s) && StreamInv(s) && SlotInv(s)
  }

  lemma InitialInv(s: State)
    requires Initial(s)
    ensures Inv(s)
  {
    assert s.sent == s.received + Window(s.buf, s.fbyte, s.avbs);
  }

  // ----- what follows from the invariant -----

  predicate Inside(pc: Pc) {
    pc != Idle && pc != InLine && pc != SemSleep
  }

  /** A task past mbx_sem_wait holds its semaphore. */
  lemma InsideHolds(s: State, t: nat)
    requires Gates(s) && t in s.tasks && Inside(s.tasks[t].pc)
    ensures GateOf(s, s.tasks[t].role).holder == Some(t)
    ensures !InQueue(s, t)
  {}

  /** The slot is empty when a task is about to enter it. */
  lemma SlotIsFree(s: State, t: nat)
    requires Gates(s) && Wakes(s) && DataInv(s) && SlotInv(s)
    requires At(s, t, Loop) && Counter(s, s.tasks[t].role) == 0
    ensures s.slot == None
  {
    if s.slot.Some? {
      var u := s.slot.value;
      assert WakeInv(s, u);
      assert s.tasks[u].pc == SlotSleep;
      InsideHolds(s, u);
      InsideHolds(s, t);
    }
  }

  // ----- frames -----

  predicate SameGates(s: State, s': State) {
    s'.snd == s.snd && s'.rcv == s.rcv
  }

  predicate SameRing(s: State, s': State) {
    && s'.buf == s.buf && s'.fbyte == s.fbyte && s'.lbyte == s.lbyte
    && s'.avbs == s.avbs && s'.frbs == s.frbs && s'.sent == s.sent && s'.received == s.received
  }

  predicate OnlyTask(s: State, s': State, t: nat) {
    && t in s.tasks && s'.tasks.Keys == s.tasks.Keys
    && forall u :: u in s.tasks && u != t ==> s'.tasks[u] == s.tasks[u]
  }

  /** A task that stays in its call, or stays a waiter, leaves the semaphores alone. */
  lemma GatesFrame(s: State, s': State, t: nat)
    requires Gates(s) && SameGates(s, s') && OnlyTask(s, s', t)
    requires s'.tasks[t].role == s.tasks[t].role && s.tasks[t].pc != Idle && s'.tasks[t].pc != Idle
    requires InQueue(s, t) ==> s'.tasks[t].pc in {InLine, SemSleep}
    ensures Gates(s')
  {}

  /** Steps that do not touch the ring keep what tasks have claimed in it. */
  lemma CopiesFrame(s: State, s': State, t: nat)
    requires Copies(s) && SameRing(s, s') && OnlyTask(s, s', t) && CopyInv(s', t)
    ensures Copies(s')
  {
    forall u | u in s'.tasks ensures CopyInv(s', u) {
      if u != t { assert CopyInv(s, u); }
    }
  }

  lemma DataFrame(s: State, s': State)
    requires DataInv(s) && SameRing(s, s')
    ensures DataInv(s')
  {}

  lemma StreamFrame(s: State, s': State, t: nat)
    requires StreamInv(s) && SameRing(s, s') && SameGates(s, s') && OnlyTask(s, s', t)
    requires s'.tasks[t].left == s.tasks[t].left && s'.tasks[t].data == s.tasks[t].data
    ensures StreamInv(s')
  {}

  /** Nobody else's wakeup is affected when slot, pending and missed keep their members. */
  lemma WakesFrame(s: State, s': State, t: nat)
    requires Wakes(s) && SameGates(s, s') && OnlyTask(s, s', t) && PendingInv(s')
    requires forall u :: u != t ==> (s'.slot == Some(u) <==> s.slot == Some(u))
    requires forall u :: u != t ==> (u in s'.pending <==> u in s.pending)
    requires forall u :: u != t ==> (u in s'.missed <==> u in s.missed)
    requires WakeInv(s', t)
    ensures Wakes(s')
  {
    forall u | u in s'.tasks ensures WakeInv(s', u) {
      if u != t { assert WakeInv(s, u); }
    }
  }

  /** The peer of a sleeping task keeps its promise to signal as long as it stays between
      the loop test and mbx_signal. */
  lemma SlotFrame(s: State, s': State, t: nat)
    requires SlotInv(s) && SameRing(s, s') && SameGates(s, s') && OnlyTask(s, s', t)
    requires s'.slot == s.slot && s'.tasks[t].role == s.tasks[t].role
    requires WillSignal(s, Sender) ==> WillSignal(s', Sender)
    requires WillSignal(s, Receiver) ==> WillSignal(s', Receiver)
    ensures SlotInv(s')
  {}

  /** Gates, ring, claims and streams for a step that changes one task only. */
  lemma LocalFrame(s: State, s': State, t: nat)
    requires Gates(s) && DataInv(s) && Copies(s) && StreamInv(s)
    requires SameGates(s, s') && SameRing(s, s') && OnlyTask(s, s', t) && CopyInv(s', t)
    requires s'.tasks[t].role == s.tasks[t].role && s.tasks[t].pc != Idle && s'.tasks[t].pc != Idle
    requires InQueue(s, t) ==> s'.tasks[t].pc in {InLine, SemSleep}
    requires s'.tasks[t].left == s.tasks[t].left && s'.tasks[t].data == s.tasks[t].data
    ensures Gates(s') && DataInv(s') && Copies(s') && StreamInv(s')
  {
    GatesFrame(s, s', t);
    DataFrame(s, s');
    CopiesFrame(s, s', t);
    StreamFrame(s, s', t);
  }

  // ----- steps of one task -----

  lemma MarkAsleepLocal(s: State, t: nat)
    requires Inv(s) && Can(s, MarkAsleep(t))
    ensures var s' := Next(s, MarkAsleep(t)); Gates(s') && DataInv(s') && Copies(s') && StreamInv(s')
  {
    assert WakeInv(s, t) && CopyInv(s, t);
    LocalFrame(s, Next(s, MarkAsleep(t)), t);
  }

  lemma MarkAsleepWakes(s: State, t: nat)
    requires Wakes(s) && SlotInv(s) && Can(s, MarkAsleep(t))
    ensures Wakes(Next(s, MarkAsleep(t))) && SlotInv(Next(s, MarkAsleep(t)))
  {
    var s' := Next(s, MarkAsleep(t));
    assert WakeInv(s, t);
    WakesFrame(s, s', t);
    SlotFrame(s, s', t);
  }

  lemma ResumeLocal(s: State, t: nat)
    requires Inv(s) && Can(s, Resume(t))
    ensures var s' := Next(s, Resume(t)); Gates(s') && DataInv(s') && Copies(s') && StreamInv(s')
    ensures Next(s, Resume(t)) == GoTo(s, t, if At(s, t, SemSleep) then Loop else Enter)
  {
    assert WakeInv(s, t) && CopyInv(s, t);
    LocalFrame(s, Next(s, Resume(t)), t);
  }

  lemma ResumeWakes(s: State, t: nat)
    requires Gates(s) && Wakes(s) && SlotInv(s) && Can(s, Resume(t))
    ensures Wakes(Next(s, Resume(t))) && SlotInv(Next(s, Resume(t)))
  {
    var s' := Next(s, Resume(t));
    assert WakeInv(s, t);
    WakesFrame(s, s', t);
    SlotFrame(s, s', t);
  }

  lemma TestLeftLocal(s: State, t: nat)
    requires Gates(s) && DataInv(s) && Copies(s) && StreamInv(s) && Can(s, TestLeft(t))
    ensures var s' := Next(s, TestLeft(t)); Gates(s') && DataInv(s') && Copies(s') && StreamInv(s')
  {
    assert CopyInv(s, t);
    InsideHolds(s, t);
    LocalFrame(s, Next(s, TestLeft(t)), t);
  }

  lemma TestLeftFree(s: State, t: nat)
    requires Inv(s) && Can(s, TestLeft(t))
    ensures Counter(s, s.tasks[t].role) == 0 ==> s.slot == None
  {
    if Counter(s, s.tasks[t].role) == 0 {
      SlotIsFree(s, t);
    }
  }

  lemma TestLeftWakes(s: State, t: nat)
    requires Gates(s) && Wakes(s) && Can(s, TestLeft(t))
    requires Counter(s, s.tasks[t].role) == 0 ==> s.slot == None
    ensures Wakes(Next(s, TestLeft(t)))
  {
    assert WakeInv(s, t);
    InsideHolds(s, t);
    WakesFrame(s, Next(s, TestLeft(t)), t);
  }

  lemma TestLeftSlot(s: State, t: nat)
    requires Gates(s) && SlotInv(s) && Can(s, TestLeft(t))
    ensures SlotInv(Next(s, TestLeft(t)))
  {
    InsideHolds(s, t);
  }

  lemma TestCounterLocal(s: State, t: nat)
    requires Gates(s) && DataInv(s) && Copies(s) && StreamInv(s) && Can(s, TestCounter(t))
    ensures var s' := Next(s, TestCounter(t)); Gates(s') && DataInv(s') && Copies(s') && StreamInv(s')
  {
    assert CopyInv(s, t);
    InsideHolds(s, t);
    LocalFrame(s, Next(s, TestCounter(t)), t);
  }

  lemma TestCounterWakes(s: State, t: nat)
    requires Gates(s) && Wakes(s) && SlotInv(s) && Can(s, TestCounter(t))
    ensures Wakes(Next(s, TestCounter(t))) && SlotInv(Next(s, TestCounter(t)))
  {
    var s' := Next(s, TestCounter(t));
    assert WakeInv(s, t);
    InsideHolds(s, t);
    WakesFrame(s, s', t);
    SlotFrame(s, s', t);
  }

  lemma ChooseChunkLocal(s: State, t: nat)
    requires Gates(s) && DataInv(s) && Copies(s) && StreamInv(s) && Can(s, ChooseChunk(t))
    ensures var s' := Next(s, ChooseChunk(t)); Gates(s') && DataInv(s') && Copies(s') && StreamInv(s')
  {
    assert CopyInv(s, t);
    InsideHolds(s, t);
    LocalFrame(s, Next(s, ChooseChunk(t)), t);
  }

  lemma ChooseChunkWakes(s: State, t: nat)
    requires Gates(s) && Wakes(s) && SlotInv(s) && Can(s, ChooseChunk(t))
    ensures Wakes(Next(s, ChooseChunk(t))) && SlotInv(Next(s, ChooseChunk(t)))
  {
    var s' := Next(s, ChooseChunk(t));
    assert WakeInv(s, t);
    InsideHolds(s, t);
    WakesFrame(s, s', t);
    SlotFrame(s, s', t);
  }

  lemma SignalMailboxFrame(s: State, t: nat)
    requires Can(s, SignalMailbox(t)) && CopyInv(s, t)
    ensures var s' := Next(s, SignalMailbox(t));
            && SameGates(s, s') && SameRing(s, s') && OnlyTask(s, s', t) && CopyInv(s', t)
            && (s'.tasks[t] == s.tasks[t].(pc := Release) || s'.tasks[t] == s.tasks[t].(pc := Loop))
  {}

  lemma SignalMailboxLocal(s: State, t: nat)
    requires Gates(s) && DataInv(s) && Copies(s) && StreamInv(s) && Can(s, SignalMailbox(t))
    ensures var s' := Next(s, SignalMailbox(t)); Gates(s') && DataInv(s') && Copies(s') && StreamInv(s')
  {
    InsideHolds(s, t);
    assert CopyInv(s, t);
    SignalMailboxFrame(s, t);
    LocalFrame(s, Next(s, SignalMailbox(t)), t);
  }

  lemma SignalMailboxWakes(s: State, t: nat)
    requires Gates(s) && Wakes(s) && SlotInv(s) && Can(s, SignalMailbox(t))
    ensures Wakes(Next(s, SignalMailbox(t))) && SlotInv(Next(s, SignalMailbox(t)))
  {
    var s' := Next(s, SignalMailbox(t));
    assert WakeInv(s, t);
    InsideHolds(s, t);
    if s.slot.Some? {
      var u := s.slot.value;
      assert WakeInv(s, u);
      forall v | v in s'.tasks ensures WakeInv(s', v) {
        assert WakeInv(s, v);
      }
    } else {
      WakesFrame(s, s', t);
    }
  }

  lemma DeliverLocal(s: State)
    requires Gates(s) && DataInv(s) && Copies(s) && StreamInv(s) && Wakes(s) && Can(s, Deliver)
    ensures var s' := Next(s, Deliver); Gates(s') && DataInv(s') && Copies(s') && StreamInv(s')
  {
    var t := s.pending[0];
    assert WakeInv(s, t) && CopyInv(s, t);
    LocalFrame(s, Next(s, Deliver), t);
  }

  lemma DeliverWakes(s: State)
    requires Wakes(s) && SlotInv(s) && Can(s, Deliver)
    ensures Wakes(Next(s, Deliver)) && SlotInv(Next(s, Deliver))
  {
    var s' := Next(s, Deliver);
    var t := s.pending[0];
    assert WakeInv(s, t);
    assert forall u :: u in s'.pending ==> u in s.pending && u != t;
    assert forall u :: u in s.pending ==> u == t || u in s'.pending;
    WakesFrame(s, s', t);
    SlotFrame(s, s', t);
  }

  // ----- moving bytes -----

  /** The places behind the window are not in it. */
  lemma BehindWindow(f: int, n: nat, d: nat, size: nat, j: nat)
    requires IsPosition(f, size) && n + d < size && Wrap(f + n, size) + d < size && j < n
    ensures Wrap(f + j, size) != Wrap(f + n, size) + d
  {}

  lemma WriteBehind(buf: seq<byte>, f: int, n: nat, d: nat, b: byte)
    requires IsPosition(f, |buf|) && n + d < |buf| && Wrap(f + n, |buf|) + d < |buf|
    ensures 0 <= Wrap(f + n, |buf|)
    ensures Window(buf[Wrap(f + n, |buf|) + d := b], f, n) == Window(buf, f, n)
  {
    var i := Wrap(f + n, |buf|) + d;
    forall j | 0 <= j < n ensures Window(buf[i := b], f, n)[j] == Window(buf, f, n)[j] {
      WindowAt(buf, f, n, j);
      WindowAt(buf[i := b], f, n, j);
      BehindWindow(f, n, d, |buf|, j);
    }
  }

  /** Place i is the j-th of the bytes waiting to be received. */
  predicate Readable(s: State, i: int, j: int) {
    0 <= j < s.avbs && i == Wrap(s.fbyte + j, |s.buf|)
  }

  /** A sender never writes a byte that is waiting to be received, and a receiver reads
      only such bytes, whatever the others do between the bytes of a memcpy. */
  lemma CopiesStayApart(s: State, t: nat)
    requires Inv(s) && Can(s, CopyByte(t))
    ensures 0 <= Place(s, t) < |s.buf|
    ensures s.tasks[t].role.Sender? ==> forall j :: !Readable(s, Place(s, t), j)
    ensures s.tasks[t].role.Receiver? ==> exists j :: Readable(s, Place(s, t), j)
  {
    assert CopyInv(s, t) && DataInv(s);
    if s.tasks[t].role.Sender? {
      SenderStaysApart(s, t);
    } else {
      assert Readable(s, Place(s, t), s.tasks[t].pc.done);
    }
  }

  lemma SenderStaysApart(s: State, t: nat)
    requires DataInv(s) && Can(s, CopyByte(t)) && CopyInv(s, t) && s.tasks[t].role.Sender?
    ensures forall j :: !Readable(s, Place(s, t), j)
  {
    forall j ensures !Readable(s, Place(s, t), j) {
      if 0 <= j < s.avbs {
        BehindWindow(s.fbyte, s.avbs, s.tasks[t].pc.done, |s.buf|, j);
      }
    }
  }

  lemma CopyByteData(s: State, t: nat)
    requires DataInv(s) && Can(s, CopyByte(t)) && CopyInv(s, t)
    ensures DataInv(Next(s, CopyByte(t)))
  {
    if s.tasks[t].role.Sender? {
      var k, s' := s.tasks[t], Next(s, CopyByte(t));
      WriteBehind(s.buf, s.fbyte, s.avbs, k.pc.done, k.data[|k.data| - k.left + k.pc.done]);
      assert Window(s'.buf, s'.fbyte, s'.avbs) == Window(s.buf, s.fbyte, s.avbs);
    }
  }

  /** The claims of a sender in the middle of a memcpy, one byte later. */
  lemma SenderCopied(s: State, t: nat)
    requires Can(s, CopyByte(t)) && s.tasks[t].role.Sender? && CopyInv(s, t)
    ensures CopyInv(Next(s, CopyByte(t)), t)
  {
    var k := s.tasks[t];
    var msg, at, d := k.data[|k.data| - k.left..], s.lbyte, k.pc.done;
    assert msg[..d + 1] == msg[..d] + [msg[d]];
    var buf := s.buf[at + d := msg[d]];
    assert buf[at..at + d + 1] == s.buf[at..at + d] + [msg[d]];
  }

  lemma CopyByteClaims(s: State, t: nat)
    requires Gates(s) && DataInv(s) && Copies(s) && Can(s, CopyByte(t))
    ensures Copies(Next(s, CopyByte(t)))
  {
    var s' := Next(s, CopyByte(t));
    assert CopyInv(s, t);
    InsideHolds(s, t);
    if s.tasks[t].role.Sender? {
      SenderCopied(s, t);
      forall u | u in s'.tasks && u != t ensures CopyInv(s', u) {
        assert CopyInv(s, u);
        if s.tasks[u].pc.Copying? {
          InsideHolds(s, u);
          ReadersUndisturbed(s, t, u);
        }
      }
    } else {
      ReceiverCopied(s, t);
      CopiesFrame(s, s', t);
    }
  }

  lemma ReceiverCopied(s: State, t: nat)
    requires Can(s, CopyByte(t)) && s.tasks[t].role.Receiver? && CopyInv(s, t)
    ensures CopyInv(Next(s, CopyByte(t)), t)
  {
    var i := Place(s, t);
    assert s.buf[s.fbyte..i + 1] == s.buf[s.fbyte..i] + [s.buf[i]];
  }

  lemma ReadersUndisturbed(s: State, t: nat, u: nat)
    requires DataInv(s) && Can(s, CopyByte(t)) && s.tasks[t].role.Sender?
    requires u in s.tasks && s.tasks[u].role.Receiver? && s.tasks[u].pc.Copying? && CopyInv(s, u)
    requires CopyInv(s, t)
    ensures CopyInv(Next(s, CopyByte(t)), u)
  {
    var i, f := Place(s, t), s.fbyte;
    var d := s.tasks[u].pc.done;
    assert !(f <= i < f + d);
    var buf := Next(s, CopyByte(t)).buf;
    assert buf[f..f + d] == s.buf[f..f + d];
  }

  lemma CopyByteRest(s: State, t: nat)
    requires Gates(s) && Wakes(s) && SlotInv(s) && Can(s, CopyByte(t))
    ensures var s' := Next(s, CopyByte(t)); Gates(s') && Wakes(s') && SlotInv(s')
  {
    var s' := Next(s, CopyByte(t));
    assert WakeInv(s, t);
    InsideHolds(s, t);
    GatesFrame(s, s', t);
    WakesFrame(s, s', t);
  }

  lemma CopyByteStream(s: State, t: nat)
    requires StreamInv(s) && Can(s, CopyByte(t))
    ensures StreamInv(Next(s, CopyByte(t)))
  {}

  // ----- committing -----

  lemma WindowExtends(buf: seq<byte>, f: int, n: nat, c: nat)
    requires IsPosition(f, |buf|) && n + c <= |buf| && Wrap(f + n, |buf|) + c <= |buf|
    ensures 0 <= Wrap(f + n, |buf|)
    ensures Window(buf, f, n + c) == Window(buf, f, n) + buf[Wrap(f + n, |buf|)..Wrap(f + n, |buf|) + c]
  {
    var at := Wrap(f + n, |buf|);
    assert Overlaid(buf, at, buf[at..at + c]) == buf;
    WindowGrows(buf, f, n, buf[at..at + c]);
  }

  lemma StreamGrows(received: seq<byte>, w: seq<byte>, piece: seq<byte>)
    ensures (received + w) + piece == received + (w + piece)
  {}

  lemma StreamMoves(received: seq<byte>, w: seq<byte>, n: nat)
    requires n <= |w|
    ensures received + w == (received + w[..n]) + w[n..]
  {}

  lemma RingGrows(s: State, n: nat, piece: seq<byte>)
    requires DataInv(s) && s.avbs + n <= |s.buf| && s.lbyte + n <= |s.buf|
    requires 0 <= s.lbyte && s.buf[s.lbyte..s.lbyte + n] == piece
    ensures s.sent + piece == s.received + Window(s.buf, s.fbyte, s.avbs + n)
    ensures Wrap(s.lbyte + n, |s.buf|) == Wrap(s.fbyte + s.avbs + n, |s.buf|)
  {
    WindowExtends(s.buf, s.fbyte, s.avbs, n);
    WrapTwice(s.fbyte, s.avbs, n, |s.buf|);
    StreamGrows(s.received, Window(s.buf, s.fbyte, s.avbs), piece);
  }

  lemma SenderCommitData(s: State, t: nat)
    requires DataInv(s) && Can(s, Commit(t)) && s.tasks[t].role.Sender? && CopyInv(s, t)
    ensures DataInv(Next(s, Commit(t)))
  {
    var k := s.tasks[t];
    var n, from := k.pc.n, |k.data| - k.left;
    assert k.data[from..][..n] == k.data[from..from + n];
    RingGrows(s, n, k.data[from..from + n]);
  }

  lemma RingShrinks(s: State, n: nat)
    requires DataInv(s) && n <= s.avbs && s.fbyte + n <= |s.buf|
    ensures s.sent == s.received + s.buf[s.fbyte..s.fbyte + n]
                      + Window(s.buf, Wrap(s.fbyte + n, |s.buf|), s.avbs - n)
    ensures IsPosition(Wrap(s.fbyte + n, |s.buf|), |s.buf|)
    ensures s.lbyte == Wrap(Wrap(s.fbyte + n, |s.buf|) + s.avbs - n, |s.buf|)
  {
    WindowShrinks(s.buf, s.fbyte, s.avbs, n);
    StreamMoves(s.received, Window(s.buf, s.fbyte, s.avbs), n);
  }

  lemma ReceiverCommitData(s: State, t: nat)
    requires DataInv(s) && Can(s, Commit(t)) && s.tasks[t].role.Receiver? && CopyInv(s, t)
    ensures DataInv(Next(s, Commit(t)))
  {
    RingShrinks(s, s.tasks[t].pc.n);
  }

  lemma CommitData(s: State, t: nat)
    requires Inv(s) && Can(s, Commit(t))
    ensures DataInv(Next(s, Commit(t)))
  {
    assert CopyInv(s, t);
    if s.tasks[t].role.Sender? {
      SenderCommitData(s, t);
    } else {
      ReceiverCommitData(s, t);
    }
  }

  /** Where the memcpy of a role starts. */
  function Start(s: State, r: Role): int {
    if r.Sender? then s.lbyte else s.fbyte
  }

  /** A claim survives when its role's position stays and its counter does not fall. */
  lemma ClaimFrame(s: State, s': State, u: nat)
    requires u in s.tasks && u in s'.tasks && s'.tasks[u] == s.tasks[u] && s'.buf == s.buf
    requires CopyInv(s, u)
    requires Inside(s.tasks[u].pc) ==>
               && Start(s', s.tasks[u].role) == Start(s, s.tasks[u].role)
               && Counter(s', s.tasks[u].role) >= Counter(s, s.tasks[u].role)
    ensures CopyInv(s', u)
  {}

  lemma CommitMoves(s: State, t: nat)
    requires Can(s, Commit(t)) && CopyInv(s, t)
    ensures var s', r := Next(s, Commit(t)), Peer(s.tasks[t].role);
            && Start(s', r) == Start(s, r) && Counter(s', r) >= Counter(s, r)
            && s'.buf == s.buf && OnlyTask(s, s', t) && CopyInv(s', t)
  {}

  lemma CommitClaims(s: State, t: nat)
    requires Gates(s) && Copies(s) && Can(s, Commit(t))
    ensures Copies(Next(s, Commit(t)))
  {
    var s' := Next(s, Commit(t));
    assert CopyInv(s, t);
    InsideHolds(s, t);
    CommitMoves(s, t);
    forall u | u in s'.tasks && u != t ensures CopyInv(s', u) {
      assert CopyInv(s, u);
      if Inside(s.tasks[u].pc) {
        InsideHolds(s, u);
      }
      ClaimFrame(s, s', u);
    }
  }

  lemma SenderCommitStream(s: State, t: nat)
    requires StreamInv(s) && Can(s, Commit(t)) && CopyInv(s, t)
    requires s.tasks[t].role.Sender? && s.snd.holder == Some(t)
    requires s.rcv.holder != Some(t)
    ensures StreamInv(Next(s, Commit(t)))
  {
    var k := s.tasks[t];
    var n, from := k.pc.n, |k.data| - k.left;
    var piece := k.data[from..from + n];
    assert (s.sent + piece)[s.snd.start..] == s.sent[s.snd.start..] + piece;
    assert k.data[..from + n] == k.data[..from] + piece;
  }

  lemma ReceiverCommitStream(s: State, t: nat)
    requires StreamInv(s) && Can(s, Commit(t)) && CopyInv(s, t)
    requires s.tasks[t].role.Receiver? && s.rcv.holder == Some(t)
    requires s.snd.holder != Some(t)
    ensures StreamInv(Next(s, Commit(t)))
  {
    var chunk := s.tasks[t].chunk;
    assert (s.received + chunk)[s.rcv.start..] == s.received[s.rcv.start..] + chunk;
  }

  lemma CommitStream(s: State, t: nat)
    requires Gates(s) && StreamInv(s) && Can(s, Commit(t)) && CopyInv(s, t)
    ensures StreamInv(Next(s, Commit(t)))
  {
    InsideHolds(s, t);
    if s.tasks[t].role.Sender? {
      SenderCommitStream(s, t);
    } else {
      ReceiverCommitStream(s, t);
    }
  }

  lemma CommitRest(s: State, t: nat)
    requires Gates(s) && Wakes(s) && Can(s, Commit(t))
    ensures var s' := Next(s, Commit(t)); Gates(s') && Wakes(s')
  {
    var s' := Next(s, Commit(t));
    assert WakeInv(s, t);
    InsideHolds(s, t);
    GatesFrame(s, s', t);
    WakesFrame(s, s', t);
  }

  lemma CommitSlot(s: State, t: nat)
    requires Gates(s) && Wakes(s) && SlotInv(s) && Can(s, Commit(t)) && CopyInv(s, t)
    ensures SlotInv(Next(s, Commit(t)))
  {
    InsideHolds(s, t);
    if s.slot.Some? {
      var u := s.slot.value;
      assert WakeInv(s, u);
      InsideHolds(s, u);
    }
  }

  // ----- taking and giving the semaphores -----

  lemma SignalOwnGate(s: State, t: nat)
    requires Gates(s) && Can(s, SignalSemaphore(t))
    ensures GateInv(Next(s, SignalSemaphore(t)), s.tasks[t].role)
  {
    InsideHolds(s, t);
    HandedGate(s, Next(s, SignalSemaphore(t)), t);
  }

  /** The holder leaves and the first of the queue, if there is one, gets the semaphore. */
  lemma HandedGate(s: State, s': State, t: nat)
    requires OnlyTask(s, s', t) && s'.tasks[t].role == s.tasks[t].role && s'.tasks[t].pc == Idle
    requires var g, g' := GateOf(s, s.tasks[t].role), GateOf(s', s.tasks[t].role);
             && GateInv(s, s.tasks[t].role) && g.holder == Some(t)
             && (g'.sem, g'.holder) == Signal(g.sem)
    ensures GateInv(s', s.tasks[t].role)
  {
    var q := GateOf(s, s.tasks[t].role).sem.queue;
    forall u ensures q != [] ==> (Queued(q[1..], u) <==> Queued(q, u) && u != q[0].id) {
      TailMembers(q, u);
    }
  }

  lemma SignalPeerGate(s: State, t: nat)
    requires Gates(s) && Can(s, SignalSemaphore(t))
    ensures GateInv(Next(s, SignalSemaphore(t)), Peer(s.tasks[t].role))
  {
    InsideHolds(s, t);
    OtherGate(s, Next(s, SignalSemaphore(t)), t);
  }

  /** A step of one task on its own semaphore leaves that of the other role alone. */
  lemma OtherGate(s: State, s': State, t: nat)
    requires OnlyTask(s, s', t) && s'.tasks[t].role == s.tasks[t].role
    requires var p := Peer(s.tasks[t].role); GateInv(s, p) && GateOf(s', p) == GateOf(s, p)
    ensures GateInv(s', Peer(s.tasks[t].role))
  {}

  lemma SignalSemaphoreGates(s: State, t: nat)
    requires Gates(s) && Can(s, SignalSemaphore(t))
    ensures Gates(Next(s, SignalSemaphore(t)))
  {
    SignalOwnGate(s, t);
    SignalPeerGate(s, t);
  }

  lemma SignalSemaphoreWake(s: State, t: nat, u: nat)
    requires Can(s, SignalSemaphore(t)) && GateInv(s, s.tasks[t].role)
    requires u in s.tasks && WakeInv(s, u) && WakeInv(s, t)
    ensures WakeInv(Next(s, SignalSemaphore(t)), u)
  {
    if s.tasks[u].role == s.tasks[t].role {
      TailMembers(GateOf(s, s.tasks[t].role).sem.queue, u);
    }
  }

  lemma SignalSemaphoreWakes(s: State, t: nat)
    requires Gates(s) && Wakes(s) && Can(s, SignalSemaphore(t))
    ensures Wakes(Next(s, SignalSemaphore(t)))
  {
    var s' := Next(s, SignalSemaphore(t));
    assert WakeInv(s, t);
    forall u | u in s'.tasks ensures WakeInv(s', u) {
      assert WakeInv(s, u);
      SignalSemaphoreWake(s, t, u);
    }
    SignalSemaphorePending(s, t);
  }

  lemma SignalSemaphorePending(s: State, t: nat)
    requires Can(s, SignalSemaphore(t)) && GateInv(s, s.tasks[t].role) && Wakes(s)
    ensures PendingInv(Next(s, SignalSemaphore(t)))
  {
    var q := GateOf(s, s.tasks[t].role).sem.queue;
    if q != [] {
      assert WakeInv(s, q[0].id);
    }
  }

  lemma SignalSemaphoreSlot(s: State, t: nat)
    requires Gates(s) && Wakes(s) && SlotInv(s) && Can(s, SignalSemaphore(t))
    ensures SlotInv(Next(s, SignalSemaphore(t)))
  {
    InsideHolds(s, t);
    if s.slot.Some? {
      var u := s.slot.value;
      assert WakeInv(s, u) && WakeInv(s, t);
      InsideHolds(s, u);
    }
  }

  lemma TailMembers(q: seq<Waiter>, u: nat)
    requires Distinct(q)
    ensures q != [] ==> (Queued(q[1..], u) <==> Queued(q, u) && u != q[0].id)
  {
    if q != [] && Queued(q, u) && u != q[0].id {
      var i :| 0 <= i < |q| && q[i].id == u;
      assert q[1..][i - 1].id == u;
    }
  }

  lemma SignalSemaphoreRest(s: State, t: nat)
    requires DataInv(s) && Copies(s) && Can(s, SignalSemaphore(t))
    ensures DataInv(Next(s, SignalSemaphore(t))) && Copies(Next(s, SignalSemaphore(t)))
  {
    assert CopyInv(s, t);
    CopiesFrame(s, Next(s, SignalSemaphore(t)), t);
  }

  lemma SignalSemaphoreStream(s: State, t: nat)
    requires Gates(s) && Copies(s) && StreamInv(s) && Can(s, SignalSemaphore(t))
    ensures StreamInv(Next(s, SignalSemaphore(t)))
  {
    InsideHolds(s, t);
    var q := GateOf(s, s.tasks[t].role).sem.queue;
    if q != [] {
      assert CopyInv(s, q[0].id);
    }
  }

  lemma {:induction false} EnqueuedQueued(q: seq<Waiter>, w: Waiter, u: nat)
    ensures Queued(Enqueued(q, w), u) <==> Queued(q, u) || u == w.id
  {
    if q != [] && q[0].priority >= w.priority {
      EnqueuedQueued(q[1..], w, u);
      QueuedStep(q, u);
      QueuedStep(Enqueued(q, w), u);
    } else {
      QueuedStep([w] + q, u);
    }
  }

  lemma QueuedStep(q: seq<Waiter>, u: nat)
    requires q != []
    ensures Queued(q, u) <==> q[0].id == u || Queued(q[1..], u)
  {
    if Queued(q[1..], u) {
      var i :| 0 <= i < |q| - 1 && q[1..][i].id == u;
      assert q[i + 1].id == u;
    }
    if Queued(q, u) && q[0].id != u {
      var i :| 0 <= i < |q| && q[i].id == u;
      assert q[1..][i - 1].id == u;
    }
  }

  lemma {:induction false} EnqueuedOneOf(q: seq<Waiter>, w: Waiter)
    ensures forall i :: 0 <= i < |q| + 1 ==> Enqueued(q, w)[i] == w || Enqueued(q, w)[i] in q
  {
    var k := EnqueuedInserts(q, w);
  }

  lemma EnqueuedMembers(q: seq<Waiter>, w: Waiter)
    ensures forall u :: Queued(Enqueued(q, w), u) <==> Queued(q, u) || u == w.id
    ensures forall i :: 0 <= i < |q| + 1 ==> Enqueued(q, w)[i] == w || Enqueued(q, w)[i] in q
  {
    forall u ensures Queued(Enqueued(q, w), u) <==> Queued(q, u) || u == w.id {
      EnqueuedQueued(q, w, u);
    }
    EnqueuedOneOf(q, w);
  }

  lemma EnqueuedDistinct(q: seq<Waiter>, w: Waiter)
    requires !Queued(q, w.id) && Distinct(q)
    ensures Distinct(Enqueued(q, w))
  {
    var k := EnqueuedInserts(q, w);
    var e := q[..k] + [w] + q[k..];
    forall i, j | 0 <= i < j < |e| ensures e[i].id != e[j].id {
      if i != k { assert e[i] == q[if i < k then i else i - 1]; }
      if j != k { assert e[j] == q[if j < k then j else j - 1]; }
    }
  }

  lemma IdleIsNowhere(s: State, t: nat)
    requires Inv(s) && At(s, t, Idle)
    ensures !Queued(s.snd.sem.queue, t) && !Queued(s.rcv.sem.queue, t)
    ensures s.snd.holder != Some(t) && s.rcv.holder != Some(t)
  {}

  lemma CallOwnGate(s: State, a: Step)
    requires Gates(s) && Can(s, a) && (a.Call? || a.TryCall?)
    requires !Queued(GateOf(s, a.role).sem.queue, a.t)
    ensures GateInv(Next(s, a), a.role)
  {
    var g := GateOf(s, a.role);
    if a.Call? && !g.sem.free {
      var w := Waiter(a.t, a.priority, s.clock);
      EnqueuedMembers(g.sem.queue, w);
      EnqueuedDistinct(g.sem.queue, w);
    }
  }

  lemma CallPeerGate(s: State, a: Step)
    requires Gates(s) && Can(s, a) && (a.Call? || a.TryCall?)
    requires !Queued(GateOf(s, Peer(a.role)).sem.queue, a.t)
    requires GateOf(s, Peer(a.role)).holder != Some(a.t)
    ensures GateInv(Next(s, a), Peer(a.role))
  {
    assert GateOf(Next(s, a), Peer(a.role)) == GateOf(s, Peer(a.role));
  }

  lemma CallGates(s: State, a: Step)
    requires Inv(s) && Can(s, a) && (a.Call? || a.TryCall?)
    ensures Gates(Next(s, a))
  {
    IdleIsNowhere(s, a.t);
    CallOwnGate(s, a);
    CallPeerGate(s, a);
  }

  lemma CallWake(s: State, a: Step, u: nat)
    requires Can(s, a) && (a.Call? || a.TryCall?) && GateInv(s, a.role)
    requires u in s.tasks && WakeInv(s, u) && WakeInv(s, a.t)
    ensures WakeInv(Next(s, a), u)
  {
    var g := GateOf(s, a.role);
    if a.Call? && !g.sem.free {
      EnqueuedMembers(g.sem.queue, Waiter(a.t, a.priority, s.clock));
    }
  }

  lemma CallWakes(s: State, a: Step)
    requires Gates(s) && Wakes(s) && Can(s, a) && (a.Call? || a.TryCall?)
    ensures Wakes(Next(s, a))
  {
    var s' := Next(s, a);
    assert WakeInv(s, a.t);
    forall u | u in s'.tasks ensures WakeInv(s', u) {
      assert WakeInv(s, u);
      CallWake(s, a, u);
    }
  }

  lemma CallSlot(s: State, a: Step)
    requires Inv(s) && Can(s, a) && (a.Call? || a.TryCall?)
    ensures SlotInv(Next(s, a))
  {
    IdleIsNowhere(s, a.t);
    assert WakeInv(s, a.t);
  }

  lemma CallRest(s: State, a: Step)
    requires DataInv(s) && Copies(s) && Can(s, a) && (a.Call? || a.TryCall?)
    ensures DataInv(Next(s, a)) && Copies(Next(s, a))
  {
    assert CopyInv(s, a.t);
    CopiesFrame(s, Next(s, a), a.t);
  }

  lemma CallSent(s: State, a: Step)
    requires SentInv(s) && Can(s, a) && (a.Call? || a.TryCall?) && s.snd.holder != Some(a.t)
    ensures SentInv(Next(s, a))
  {}

  lemma CallReceived(s: State, a: Step)
    requires ReceivedInv(s) && Can(s, a) && (a.Call? || a.TryCall?) && s.rcv.holder != Some(a.t)
    ensures ReceivedInv(Next(s, a))
  {}

  lemma CallStream(s: State, a: Step)
    requires Inv(s) && Can(s, a) && (a.Call? || a.TryCall?)
    ensures StreamInv(Next(s, a))
  {
    IdleIsNowhere(s, a.t);
    CallSent(s, a);
    CallReceived(s, a);
  }

  // ----- every step -----

  lemma CallKeepsInv(s: State, a: Step)
    requires Inv(s) && Can(s, a) && (a.Call? || a.TryCall?)
    ensures Inv(Next(s, a))
  {
    CallGates(s, a);
    CallWakes(s, a);
    CallSlot(s, a);
    CallRest(s, a);
    CallStream(s, a);
  }

  lemma TestLeftKeepsInv(s: State, t: nat)
    requires Inv(s) && Can(s, TestLeft(t))
    ensures Inv(Next(s, TestLeft(t)))
  {
    TestLeftLocal(s, t);
    TestLeftFree(s, t);
    TestLeftWakes(s, t);
    TestLeftSlot(s, t);
  }

  lemma CopyByteKeepsInv(s: State, t: nat)
    requires Inv(s) && Can(s, CopyByte(t))
    ensures Inv(Next(s, CopyByte(t)))
  {
    assert CopyInv(s, t);
    CopyByteData(s, t);
    CopyByteClaims(s, t);
    CopyByteRest(s, t);
    CopyByteStream(s, t);
  }

  lemma CommitKeepsInv(s: State, t: nat)
    requires Inv(s) && Can(s, Commit(t))
    ensures Inv(Next(s, Commit(t)))
  {
    assert CopyInv(s, t);
    CommitData(s, t);
    CommitClaims(s, t);
    CommitStream(s, t);
    CommitRest(s, t);
    CommitSlot(s, t);
  }

  lemma SignalSemaphoreKeepsInv(s: State, t: nat)
    requires Inv(s) && Can(s, SignalSemaphore(t))
    ensures Inv(Next(s, SignalSemaphore(t)))
  {
    SignalSemaphoreGates(s, t);
    SignalSemaphoreWakes(s, t);
    SignalSemaphoreSlot(s, t);
    SignalSemaphoreRest(s, t);
    SignalSemaphoreStream(s, t);
  }

  lemma StepKeepsInv(s: State, a: Step)
    requires Inv(s) && Can(s, a)
    ensures Inv(Next(s, a))
  {
    match a
    case Call(_, _, _, _, _, _) => CallKeepsInv(s, a);
    case TryCall(_, _, _, _) => CallKeepsInv(s, a);
    case MarkAsleep(t) =>
      MarkAsleepLocal(s, t);
      MarkAsleepWakes(s, t);
    case Resume(t) =>
      ResumeLocal(s, t);
      ResumeWakes(s, t);
    case TestLeft(t) => TestLeftKeepsInv(s, t);
    case TestCounter(t) =>
      TestCounterLocal(s, t);
      TestCounterWakes(s, t);
    case ChooseChunk(t) =>
      ChooseChunkLocal(s, t);
      ChooseChunkWakes(s, t);
    case CopyByte(t) => CopyByteKeepsInv(s, t);
    case Commit(t) => CommitKeepsInv(s, t);
    case SignalMailbox(t) =>
      SignalMailboxLocal(s, t);
      SignalMailboxWakes(s, t);
    case SignalSemaphore(t) => SignalSemaphoreKeepsInv(s, t);
    case Deliver =>
      DeliverLocal(s);
      DeliverWakes(s);
  }

  /** The invariant holds in every state of every run. */
  lemma {:induction false} RunKeepsInv(steps: seq<Step>, s: State)
    requires Reached(steps, s)
    ensures Inv(s)
    decreases |steps|
  {
    if steps == [] {
      InitialInv(s);
    } else {
      var n := |steps| - 1;
      var before :| Reached(steps[..n], before) && Can(before, steps[n]) && s == Next(before, steps[n]);
      RunKeepsInv(steps[..n], before);
      StepKeepsInv(before, steps[n]);
    }
  }
}

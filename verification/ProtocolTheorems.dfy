/** What the FIFO guarantees in every reachable state, whatever the interleaving. */
module ProtocolTheorems {
  import opened RingBuffer
  import opened SemaphoreSpec
  import opened Protocol
  import opened ProtocolInvariant
  import RequestQueue

  /** First in, first out: what was received, followed by what is in the ring, is what was
      sent, byte for byte. */
  lemma FirstInFirstOut(steps: seq<Step>, s: State)
    requires Reached(steps, s)
    ensures s.avbs + s.frbs == |s.buf| && IsPosition(s.fbyte, |s.buf|)
    ensures s.sent == s.received + Window(s.buf, s.fbyte, s.avbs)
  {
    RunKeepsInv(steps, s);
  }

  /** At most one task of either role is past mbx_sem_wait. */
  lemma MutualExclusion(steps: seq<Step>, s: State, t: nat, u: nat)
    requires Reached(steps, s)
    requires t in s.tasks && u in s.tasks && s.tasks[t].role == s.tasks[u].role
    requires Inside(s.tasks[t].pc) && Inside(s.tasks[u].pc)
    ensures t == u
  {
    RunKeepsInv(steps, s);
    InsideHolds(s, t);
    InsideHolds(s, u);
  }

  /** No byte of a memcpy into the ring lands on a byte still to be received. */
  lemma SenderWritesOnlyFreeBytes(steps: seq<Step>, s: State, t: nat)
    requires Reached(steps, s) && Can(s, CopyByte(t)) && s.tasks[t].role.Sender?
    ensures 0 <= Place(s, t) < |s.buf| && forall j :: !Readable(s, Place(s, t), j)
  {
    RunKeepsInv(steps, s);
    CopiesStayApart(s, t);
  }

  /** The bytes of one send are not mixed with those of another: when the semaphore is given
      up the stream ends with them, with the whole message after an unconditional send. */
  lemma MessagesStayTogether(steps: seq<Step>, s: State, t: nat)
    requires Reached(steps, s) && Can(s, SignalSemaphore(t)) && s.tasks[t].role.Sender?
    ensures var k := s.tasks[t];
            && k.left <= |k.data| && s.snd.start <= |s.sent|
            && s.sent == s.sent[..s.snd.start] + k.data[..|k.data| - k.left]
            && (!k.once ==> s.sent == s.sent[..s.snd.start] + k.data)
  {
    assert s.snd.holder == Some(t) && SentInv(s) && CopyInv(s, t) by {
      RunKeepsInv(steps, s);
      InsideHolds(s, t);
    }
    EndsWith(s.sent, s.snd.start, s.tasks[t].data, s.tasks[t].left);
  }

  lemma EndsWith(stream: seq<byte>, start: nat, data: seq<byte>, left: nat)
    requires start <= |stream| && left <= |data| && stream[start..] == data[..|data| - left]
    ensures stream == stream[..start] + data[..|data| - left]
    ensures left == 0 ==> stream == stream[..start] + data
  {
    assert data[..|data|] == data;
  }

  /** A receiver has got a contiguous piece of the stream. */
  lemma ReceiversGetContiguousBytes(steps: seq<Step>, s: State, t: nat)
    requires Reached(steps, s) && Can(s, SignalSemaphore(t)) && s.tasks[t].role.Receiver?
    ensures s.rcv.start <= |s.received| && s.received == s.received[..s.rcv.start] + s.tasks[t].data
  {
    assert s.rcv.holder == Some(t) && ReceivedInv(s) by {
      RunKeepsInv(steps, s);
      InsideHolds(s, t);
    }
    var data := s.tasks[t].data;
    assert data == data[..|data| - 0];
    EndsWith(s.received, s.rcv.start, s.tasks[t].data, 0);
  }

  // ----- the slot waiting_task -----

  /** The single slot is never overwritten: it is empty whenever a task enters it. */
  lemma SlotNeverOverwritten(steps: seq<Step>, s: State, t: nat)
    requires Reached(steps, s) && Can(s, TestLeft(t)) && Next(s, TestLeft(t)).slot == Some(t)
    ensures s.slot == None
  {
    RunKeepsInv(steps, s);
    assert WakeInv(s, t);
    SlotIsFree(s, t);
  }

  /** No wakeup of mbx_wait is lost: a task asleep in it is recorded in the slot and still
      has to wait, or its peer is about to signal, or its wakeup is pending. */
  lemma SlotSleepersAreWoken(steps: seq<Step>, s: State, t: nat)
    requires Reached(steps, s) && At(s, t, SlotSleep) && s.tasks[t].asleep
    ensures || t in s.pending
            || (s.slot == Some(t)
                && (Counter(s, s.tasks[t].role) == 0 || WillSignal(s, Peer(s.tasks[t].role))))
  {
    RunKeepsInv(steps, s);
    assert WakeInv(s, t);
  }

  /** Sender and receiver are never both asleep with nobody to wake them. */
  lemma NeverBothAsleep(steps: seq<Step>, s: State, t: nat, u: nat)
    requires Reached(steps, s) && At(s, t, SlotSleep) && At(s, u, SlotSleep) && t != u
    requires s.tasks[t].asleep && s.tasks[u].asleep
    ensures t in s.pending || u in s.pending
  {
    RunKeepsInv(steps, s);
    assert WakeInv(s, t) && WakeInv(s, u);
  }

  /** The give-up branches after schedule() are not taken when nothing but wakeups ends a
      sleep. */
  lemma NobodyGivesUp(steps: seq<Step>, s: State, t: nat)
    requires Reached(steps, s) && Can(s, Resume(t))
    ensures !InQueue(s, t) && s.slot != Some(t)
  {
    RunKeepsInv(steps, s);
    assert WakeInv(s, t);
  }

  /** A task has at most one wakeup pending, so the queue of wakeups cannot outgrow the
      number of tasks. */
  lemma PendingIsBounded(steps: seq<Step>, s: State)
    requires Reached(steps, s)
    ensures |s.pending| <= |s.tasks|
  {
    RunKeepsInv(steps, s);
    DistinctMembers(s.pending, s.tasks.Keys);
  }

  lemma SameTasks(s: State, a: Step)
    requires Can(s, a)
    ensures Next(s, a).tasks.Keys == s.tasks.Keys
  {}

  /** With fewer than 64 tasks the ring of pending wakeups in the handler's queue never runs
      over: every step leaves it alone, delivers from its front or makes one request that it
      has room for. */
  lemma RequestsFit(steps: seq<Step>, s: State, a: Step)
    requires Reached(steps, s) && Can(s, a) && |s.tasks| < 64
    ensures var p, p' := s.pending, Next(s, a).pending;
            || p' == p || (p != [] && p' == p[1..])
            || exists t :: p' == RequestQueue.Requested(p, t) == p + [t]
  {
    SameTasks(s, a);
    Extend(steps, s, a);
    PendingIsBounded(steps + [a], Next(s, a));
    RequestsAppend(s, a);
    assert |s.tasks| == |s.tasks.Keys| && |Next(s, a).tasks| == |s.tasks.Keys|;
  }

  lemma RequestsAppend(s: State, a: Step)
    requires Can(s, a)
    ensures var p, p' := s.pending, Next(s, a).pending;
            p' == p || (p != [] && p' == p[1..]) || exists t :: p' == p + [t]
  {}

  lemma {:induction false} DistinctMembers(p: seq<nat>, keys: set<nat>)
    requires forall i :: 0 <= i < |p| ==> p[i] in keys
    requires forall i, j :: 0 <= i < j < |p| ==> p[i] != p[j]
    ensures |p| <= |keys|
    decreases |p|
  {
    if p != [] {
      DistinctMembers(p[1..], keys - {p[0]});
    }
  }

  // ----- progress -----

  predicate StartsCall(a: Step) {
    a.Call? || a.TryCall?
  }

  /** Nothing can happen any more unless a new call is made. */
  ghost predicate Stalled(s: State) {
    forall a :: Can(s, a) ==> StartsCall(a)
  }

  /** The step a task takes next in its call. */
  function OwnStep(t: nat, pc: Pc): Step {
    match pc
    case InLine => MarkAsleep(t)
    case SemSleep => Resume(t)
    case SlotSleep => Resume(t)
    case Enter => TestCounter(t)
    case Measure => ChooseChunk(t)
    case Copying(n, done) => if done < n then CopyByte(t) else Commit(t)
    case Notify => SignalMailbox(t)
    case Release => SignalSemaphore(t)
    case _ => TestLeft(t)
  }

  /** A task in a call can go on unless it is asleep. */
  lemma AwakeTasksGoOn(s: State, t: nat)
    requires t in s.tasks && CopyInv(s, t) && WakeInv(s, t) && s.tasks[t].pc != Idle
    ensures Can(s, OwnStep(t, s.tasks[t].pc)) <==> !s.tasks[t].asleep || At(s, t, InLine)
  {}

  /** A holder that cannot go on is asleep in the slot. */
  lemma StalledHolder(s: State, r: Role)
    requires Inv(s) && Stalled(s) && s.missed == {} && GateOf(s, r).holder.Some?
    ensures var t := GateOf(s, r).holder.value;
            At(s, t, SlotSleep) && s.tasks[t].role == r && s.slot == Some(t)
  {
    var t := GateOf(s, r).holder.value;
    assert WakeInv(s, t) && CopyInv(s, t);
    AwakeTasksGoOn(s, t);
    assert !Can(s, OwnStep(t, s.tasks[t].pc));
    assert !Can(s, Deliver);
  }

  /** The FIFO never deadlocks as long as no wakeup was missed: when no step is left, the
      only holder there is waits in the slot for the other side, which has no task in a
      call, and the counter it waits for is zero. */
  lemma StallsOnlyForAPeer(steps: seq<Step>, s: State, r: Role)
    requires Reached(steps, s) && Stalled(s) && s.missed == {} && GateOf(s, r).holder.Some?
    ensures s.slot == GateOf(s, r).holder && Counter(s, r) == 0
    ensures GateOf(s, Peer(r)).holder == None
    ensures forall t :: t in s.tasks && s.tasks[t].role == Peer(r) ==> s.tasks[t].pc == Idle
  {
    RunKeepsInv(steps, s);
    StalledHolder(s, r);
    if GateOf(s, Peer(r)).holder.Some? {
      StalledHolder(s, Peer(r));
    }
  }

  // ----- the wakeup lost in mbx_sem_wait -----

  /** A task was given the semaphore but sleeps, and no wakeup is on its way. */
  predicate Stuck(s: State, t: nat) {
    && At(s, t, SemSleep) && !InQueue(s, t)
    && s.tasks[t].asleep && t !in s.pending
  }

  /** A wakeup is dropped exactly when it is delivered to a task between lines 257 and 258:
      out of the protected section but not yet marked interruptible. */
  lemma WhenWakeupsAreMissed(steps: seq<Step>, s: State)
    requires Reached(steps, s) && Can(s, Deliver)
    ensures s.pending[0] in Next(s, Deliver).missed <==> At(s, s.pending[0], InLine)
    ensures Next(s, Deliver).missed == if At(s, s.pending[0], InLine) then s.missed + {s.pending[0]} else s.missed
  {
    RunKeepsInv(steps, s);
    assert WakeInv(s, s.pending[0]);
  }

  /** A task gets stuck exactly by going to sleep after its wakeup was missed. */
  lemma StuckExactlyWhenMissed(steps: seq<Step>, s: State, t: nat)
    requires Reached(steps, s)
    ensures Stuck(s, t) <==> At(s, t, SemSleep) && t in s.missed
  {
    RunKeepsInv(steps, s);
    if t in s.tasks {
      assert WakeInv(s, t);
    }
  }

  lemma Extend(steps: seq<Step>, s: State, a: Step)
    requires Reached(steps, s) && Can(s, a)
    ensures Reached(steps + [a], Next(s, a))
  {
    assert (steps + [a])[..|steps|] == steps;
  }

  /** Only a delivered wakeup changes a task asleep in mbx_sem_wait. */
  lemma SleeperUntouched(s: State, a: Step, t: nat)
    requires Can(s, a) && At(s, t, SemSleep) && s.tasks[t].asleep && t !in s.pending
    ensures At(Next(s, a), t, SemSleep) && Next(s, a).tasks[t] == s.tasks[t]
    ensures s.missed <= Next(s, a).missed
  {}

  /** It then keeps the semaphore and sleeps for good. */
  lemma StuckForGood(steps: seq<Step>, s: State, t: nat, a: Step)
    requires Reached(steps, s) && Stuck(s, t) && Can(s, a)
    ensures Stuck(Next(s, a), t)
    ensures GateOf(Next(s, a), s.tasks[t].role).holder == Some(t)
  {
    StuckExactlyWhenMissed(steps, s, t);
    Extend(steps, s, a);
    SleeperUntouched(s, a, t);
    StuckExactlyWhenMissed(steps + [a], Next(s, a), t);
    StuckHolds(steps + [a], Next(s, a), t);
  }

  lemma StuckHolds(steps: seq<Step>, s: State, t: nat)
    requires Reached(steps, s) && Stuck(s, t)
    ensures GateOf(s, s.tasks[t].role).holder == Some(t)
  {
    RunKeepsInv(steps, s);
  }

  // ----- a run in which it happens -----

  /** Two senders and nobody else. */
  function Senders(buf: seq<byte>, snd: Gate, k0: Task, k1: Task, pending: seq<nat>,
                   clock: nat, missed: set<nat>): State
  {
    State(buf, 0, 0, 0, |buf|, snd, Gate(Sem(true, []), None, 0), None, pending,
          map[0 := k0, 1 := k1], clock, missed, [], [])
  }

  function Sending(pc: Pc, msg: seq<byte>): Task {
    Task(Sender, pc, msg, |msg|, [], false, false)
  }

  const OPEN := Gate(Sem(true, []), None, 0)

  const OWNED := Gate(Sem(false, []), Some(0), 0)

  const QUEUED := Gate(Sem(false, [Waiter(1, 0, 1)]), Some(0), 0)

  const HANDED := Gate(Sem(false, []), Some(1), 0)

  lemma FirstCall(buf: seq<byte>)
    ensures var s := Senders(buf, OPEN, Sending(Idle, []), Sending(Idle, []), [], 0, {});
            var a := Call(0, Sender, [], 0, false, 0);
            && Can(s, a)
            && Next(s, a) == Senders(buf, OWNED, Sending(Loop, []), Sending(Idle, []), [], 1, {})
  {}

  lemma SecondCall(buf: seq<byte>, x: byte)
    ensures var s := Senders(buf, OWNED, Sending(Loop, []), Sending(Idle, []), [], 1, {});
            var a := Call(1, Sender, [x], 0, false, 0);
            && Can(s, a)
            && Next(s, a) == Senders(buf, QUEUED, Sending(Loop, []), Sending(InLine, [x]), [], 2, {})
  {
    assert Enqueued([], Waiter(1, 0, 1)) == [Waiter(1, 0, 1)];
  }

  lemma Leaves(buf: seq<byte>, x: byte)
    ensures var s := Senders(buf, QUEUED, Sending(Loop, []), Sending(InLine, [x]), [], 2, {});
            && Can(s, TestLeft(0))
            && Next(s, TestLeft(0))
               == Senders(buf, QUEUED, Sending(Release, []), Sending(InLine, [x]), [], 2, {})
  {}

  lemma HandsOver(buf: seq<byte>, x: byte)
    ensures var s := Senders(buf, QUEUED, Sending(Release, []), Sending(InLine, [x]), [], 2, {});
            && Can(s, SignalSemaphore(0))
            && Next(s, SignalSemaphore(0))
               == Senders(buf, HANDED, Sending(Idle, []), Sending(InLine, [x]), [1], 2, {})
  {}

  lemma Misses(buf: seq<byte>, x: byte)
    ensures var s := Senders(buf, HANDED, Sending(Idle, []), Sending(InLine, [x]), [1], 2, {});
            && Can(s, Deliver)
            && Next(s, Deliver) == Senders(buf, HANDED, Sending(Idle, []), Sending(InLine, [x]), [], 2, {1})
  {}

  lemma FallsAsleep(buf: seq<byte>, x: byte)
    ensures var s := Senders(buf, HANDED, Sending(Idle, []), Sending(InLine, [x]), [], 2, {1});
            && Can(s, MarkAsleep(1))
            && Next(s, MarkAsleep(1)) == Asleep(buf, x)
    ensures Stuck(Asleep(buf, x), 1) && Stalled(Asleep(buf, x))
  {}

  function Asleep(buf: seq<byte>, x: byte): State {
    Senders(buf, HANDED, Sending(Idle, []), Sending(SemSleep, [x]).(asleep := true), [], 2, {1})
  }

  /** The second sender queues behind the first and is handed the semaphore when that one
      leaves. The wakeup comes before it has marked itself asleep: it sleeps with the
      semaphore in its hands, next to an empty buffer, and nothing is left to be done. */
  lemma LostWakeupHappens(buf: seq<byte>, x: byte) returns (steps: seq<Step>)
    requires |buf| > 0
    ensures Reached(steps, Asleep(buf, x)) && Stuck(Asleep(buf, x), 1) && Stalled(Asleep(buf, x))
    ensures Asleep(buf, x).snd.holder == Some(1) && Asleep(buf, x).frbs == |buf|
  {
    var s := Senders(buf, OPEN, Sending(Idle, []), Sending(Idle, []), [], 0, {});
    assert Reached([], s);
    FirstCall(buf);
    steps, s := Take([], s, Call(0, Sender, [], 0, false, 0));
    SecondCall(buf, x);
    steps, s := Take(steps, s, Call(1, Sender, [x], 0, false, 0));
    Leaves(buf, x);
    steps, s := Take(steps, s, TestLeft(0));
    HandsOver(buf, x);
    steps, s := Take(steps, s, SignalSemaphore(0));
    Misses(buf, x);
    steps, s := Take(steps, s, Deliver);
    FallsAsleep(buf, x);
    steps, s := Take(steps, s, MarkAsleep(1));
  }

  lemma Take(steps: seq<Step>, s: State, a: Step) returns (steps': seq<Step>, s': State)
    requires Reached(steps, s) && Can(s, a)
    ensures s' == Next(s, a) && Reached(steps', s')
  {
    Extend(steps, s, a);
    steps', s' := steps + [a], Next(s, a);
  }
}

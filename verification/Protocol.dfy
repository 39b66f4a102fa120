/** Any number of tasks sending to and receiving from one FIFO, step by step
    (fifos/rtai_fifos.c:188-303, 364-390, 441-467, 544-712, 721-726).

    A step is what runs without interference: a section between saving and restoring
    the flags, a locked update of the counters, one byte of a memcpy, one test of a shared
    counter. Between the steps of one task the steps of all others may come in any order.
  */
module Protocol {
  import opened RingBuffer
  import opened SemaphoreSpec

  datatype Role = Sender | Receiver

  /** Where a task is in mbx_send or mbx_receive, or in one of their variants. */
  datatype Pc =
    | Idle                        // outside
    | InLine                      // in mbx_sem_wait, flags restored, lines 257-258
    | SemSleep                    // at schedule() in mbx_sem_wait, lines 259-263
    | Loop                        // holds the semaphore, line 549 or 617
    | SlotSleep                   // at schedule() in mbx_wait, lines 290-295
    | Enter                       // the loop test of mbx_put or mbx_get
    | Measure                     // about to compute tocpy
    | Copying(n: nat, done: nat)  // done of the n bytes of a memcpy are copied
    | Notify                      // about to call mbx_signal
    | Release                     // about to call mbx_sem_signal

  /** A task and its call. data is the whole message of a sender, or what a receiver has
      got so far; left counts the bytes still to be sent or received; chunk is what the
      memcpy of a receiver has delivered so far. once marks the calls that move bytes
      only one time. asleep is the Linux state TASK_INTERRUPTIBLE. */
  datatype Task = Task(role: Role, pc: Pc, data: seq<byte>, left: nat, chunk: seq<byte>,
                       once: bool, asleep: bool)

  /** A semaphore, the task that holds it, and how long the stream was when it got it. */
  datatype Gate = Gate(sem: Sem, holder: Option<nat>, start: nat)

  /** pending is the wakeup queue taskq; missed, sent and received are kept for the proofs:
      wakeups lost between lines 257 and 258, and the bytes committed by either side. */
  datatype State = State(
    buf: seq<byte>, fbyte: int, lbyte: int, avbs: nat, frbs: nat,
    snd: Gate, rcv: Gate, slot: Option<nat>, pending: seq<nat>, tasks: map<nat, Task>,
    clock: nat, missed: set<nat>, sent: seq<byte>, received: seq<byte>)

  function GateOf(s: State, r: Role): Gate {
    if r.Sender? then s.snd else s.rcv
  }

  function WithGate(s: State, r: Role, g: Gate): State {
    if r.Sender? then s.(snd := g) else s.(rcv := g)
  }

  /** The counter a role waits for: free bytes for senders, available ones for receivers. */
  function Counter(s: State, r: Role): nat {
    if r.Sender? then s.frbs else s.avbs
  }

  function StreamLength(s: State, r: Role): nat {
    if r.Sender? then |s.sent| else |s.received|
  }

  function WithTask(s: State, t: nat, k: Task): State {
    s.(tasks := s.tasks[t := k])
  }

  function GoTo(s: State, t: nat, pc: Pc): State
    requires t in s.tasks
  {
    WithTask(s, t, s.tasks[t].(pc := pc))
  }

  // ----- the steps -----

  datatype Step =
    | Call(t: nat, role: Role, msg: seq<byte>, size: nat, once: bool, priority: int)
    | TryCall(t: nat, role: Role, msg: seq<byte>, size: nat)
    | MarkAsleep(t: nat)
    | Resume(t: nat)
    | TestLeft(t: nat)
    | TestCounter(t: nat)
    | ChooseChunk(t: nat)
    | CopyByte(t: nat)
    | Commit(t: nat)
    | SignalMailbox(t: nat)
    | SignalSemaphore(t: nat)
    | Deliver

  predicate At(s: State, t: nat, pc: Pc) {
    t in s.tasks && s.tasks[t].pc == pc
  }

  predicate Can(s: State, a: Step) {
    match a
    case Call(t, _, _, _, _, _) => At(s, t, Idle)
    case TryCall(t, r, _, _) => At(s, t, Idle) && GateOf(s, r).sem.free
    case MarkAsleep(t) => At(s, t, InLine)
    case Resume(t) => (At(s, t, SemSleep) || At(s, t, SlotSleep)) && !s.tasks[t].asleep
    case TestLeft(t) => At(s, t, Loop)
    case TestCounter(t) => At(s, t, Enter)
    case ChooseChunk(t) => At(s, t, Measure)
    case CopyByte(t) => t in s.tasks && s.tasks[t].pc.Copying? && s.tasks[t].pc.done < s.tasks[t].pc.n
    case Commit(t) => t in s.tasks && s.tasks[t].pc.Copying? && s.tasks[t].pc.done == s.tasks[t].pc.n
    case SignalMailbox(t) => At(s, t, Notify)
    case SignalSemaphore(t) => At(s, t, Release)
    case Deliver => s.pending != []
  }

  function NewTask(role: Role, msg: seq<byte>, size: nat, once: bool): Task {
    if role.Sender? then Task(role, Loop, msg, |msg|, [], once, false)
    else Task(role, Loop, [], size, [], once, false)
  }

  /** mbx_sem_wait, lines 251-257 and 275, in front of any of the blocking calls. */
  function DoCall(s: State, t: nat, role: Role, msg: seq<byte>, size: nat, once: bool, priority: int): State {
    var k := NewTask(role, msg, size, once);
    var g := GateOf(s, role);
    var sem := Wait(g.sem, Waiter(t, priority, s.clock));
    if g.sem.free then
      WithTask(WithGate(s, role, Gate(sem, Some(t), StreamLength(s, role))), t, k).(clock := s.clock + 1)
    else
      WithTask(WithGate(s, role, g.(sem := sem)), t, k.(pc := InLine)).(clock := s.clock + 1)
  }

  /** mbx_send_wp, mbx_send_if, mbx_receive_wp and the like: the semaphore is taken only if
      it is free; what they test besides does not matter here. */
  function DoTryCall(s: State, t: nat, role: Role, msg: seq<byte>, size: nat): State {
    var k := NewTask(role, msg, size, true).(pc := Enter);
    var g := GateOf(s, role);
    WithTask(WithGate(s, role, Gate(g.sem.(free := false), Some(t), StreamLength(s, role))), t, k)
  }

  /** schedule() has returned. A task still queued, or still in the slot, gives up: lines
      264-273 and 295-298. */
  function DoResume(s: State, t: nat): State
    requires t in s.tasks
  {
    var k := s.tasks[t];
    if k.pc == SemSleep then
      if Queued(GateOf(s, k.role).sem.queue, t) then GoTo(s, t, Idle) else GoTo(s, t, Loop)
    else if s.slot == Some(t) then GoTo(s.(slot := None), t, Release)
    else GoTo(s, t, Enter)
  }

  /** Lines 549-550 and 617-618: leave when nothing is left, otherwise mbx_wait up to its
      schedule(). */
  function DoTestLeft(s: State, t: nat): State
    requires t in s.tasks
  {
    var k := s.tasks[t];
    if k.left == 0 then GoTo(s, t, Release)
    else if Counter(s, k.role) == 0 then
      WithTask(s, t, k.(pc := SlotSleep, asleep := true)).(slot := Some(t))
    else GoTo(s, t, Enter)
  }

  /** Lines 369 and 446. */
  function DoTestCounter(s: State, t: nat): State
    requires t in s.tasks
  {
    var k := s.tasks[t];
    GoTo(s, t, if k.left > 0 && Counter(s, k.role) > 0 then Measure else Notify)
  }

  /** Lines 370-375 and 447-452. */
  function DoChooseChunk(s: State, t: nat): State
    requires t in s.tasks
  {
    var k := s.tasks[t];
    var at := if k.role.Sender? then s.lbyte else s.fbyte;
    var c := Chunk(|s.buf| - at, k.left, Counter(s, k.role));
    WithTask(s, t, k.(pc := Copying(if c < 0 then 0 else c, 0), chunk := []))
  }

  /** One byte of the memcpy at line 379 or 456; byte done goes to or comes from this place. */
  function Place(s: State, t: nat): int
    requires t in s.tasks && s.tasks[t].pc.Copying?
  {
    (if s.tasks[t].role.Sender? then s.lbyte else s.fbyte) + s.tasks[t].pc.done
  }

  function DoCopyByte(s: State, t: nat): State
    requires t in s.tasks && s.tasks[t].pc.Copying?
  {
    var k := s.tasks[t];
    var i, from := Place(s, t), |k.data| - k.left + k.pc.done;
    var pc := Copying(k.pc.n, k.pc.done + 1);
    if !(0 <= i < |s.buf|) then s
    else if k.role.Sender? then
      if 0 <= from < |k.data| then WithTask(s.(buf := s.buf[i := k.data[from]]), t, k.(pc := pc)) else s
    else WithTask(s, t, k.(pc := pc, chunk := k.chunk + [s.buf[i]]))
  }

  /** The locked updates, lines 382-384 and 459-461, and what follows them. */
  function DoCommit(s: State, t: nat): State
    requires t in s.tasks && s.tasks[t].pc.Copying?
  {
    var k := s.tasks[t];
    var n := k.pc.n;
    var size := |s.buf|;
    if k.role.Sender? then
      var from := |k.data| - k.left;
      if n <= s.frbs && n <= k.left && 0 <= from then
        WithTask(s.(lbyte := Wrap(s.lbyte + n, size), frbs := s.frbs - n, avbs := s.avbs + n,
                    sent := s.sent + k.data[from..from + n]),
                 t, k.(pc := Enter, left := k.left - n))
      else s
    else
      if n <= s.avbs && n <= k.left then
        WithTask(s.(fbyte := Wrap(s.fbyte + n, size), frbs := s.frbs + n, avbs := s.avbs - n,
                    received := s.received + k.chunk),
                 t, k.(pc := Enter, left := k.left - n, data := k.data + k.chunk, chunk := []))
      else s
  }

  /** mbx_signal */
  function DoSignalMailbox(s: State, t: nat): State
    requires t in s.tasks
  {
    var s' := GoTo(s, t, if s.tasks[t].once then Release else Loop);
    if s.slot.Some? then s'.(slot := None, pending := s.pending + [s.slot.value]) else s'
  }

  /** mbx_sem_signal */
  function DoSignalSemaphore(s: State, t: nat): State
    requires t in s.tasks
  {
    var r := s.tasks[t].role;
    var g := GateOf(s, r);
    var (sem, next) := Signal(g.sem);
    var s' := WithGate(GoTo(s, t, Idle), r, Gate(sem, next, StreamLength(s, r)));
    if next.Some? then s'.(pending := s.pending + [next.value]) else s'
  }

  /** The service request handler, lines 721-726: it wakes only a task that is marked
      interruptible at that moment. */
  function DoDeliver(s: State): State
    requires s.pending != []
  {
    var t := s.pending[0];
    var s' := s.(pending := s.pending[1..]);
    if t !in s.tasks then s'
    else if s.tasks[t].asleep then WithTask(s', t, s.tasks[t].(asleep := false))
    else s'.(missed := s.missed + {t})
  }

  function Next(s: State, a: Step): State
    requires Can(s, a)
  {
    match a
    case Call(t, role, msg, size, once, priority) => DoCall(s, t, role, msg, size, once, priority)
    case TryCall(t, role, msg, size) => DoTryCall(s, t, role, msg, size)
    case MarkAsleep(t) => WithTask(s, t, s.tasks[t].(pc := SemSleep, asleep := true))
    case Resume(t) => DoResume(s, t)
    case TestLeft(t) => DoTestLeft(s, t)
    case TestCounter(t) => DoTestCounter(s, t)
    case ChooseChunk(t) => DoChooseChunk(s, t)
    case CopyByte(t) => DoCopyByte(s, t)
    case Commit(t) => DoCommit(s, t)
    case SignalMailbox(t) => DoSignalMailbox(s, t)
    case SignalSemaphore(t) => DoSignalSemaphore(s, t)
    case Deliver => DoDeliver(s)
  }

  /** A fresh mailbox among idle tasks. */
  predicate Initial(s: State) {
    && |s.buf| > 0 && s.frbs == |s.buf| && s.avbs == 0 && s.fbyte == 0 && s.lbyte == 0
    && s.snd == Gate(Sem(true, []), None, 0) && s.rcv == Gate(Sem(true, []), None, 0)
    && s.slot == None && s.pending == [] && s.missed == {} && s.sent == [] && s.received == [] && s.clock == 0
    && forall t :: t in s.tasks ==> s.tasks[t].pc == Idle && !s.tasks[t].asleep
  }

  ghost predicate Reached(steps: seq<Step>, s: State) {
    if steps == [] then Initial(s)
    else
      var n := |steps| - 1;
      exists before :: Reached(steps[..n], before) && Can(before, steps[n]) && s == Next(before, steps[n])
  }
}

/** When the calls made on a FIFO return: it depends on the bytes offered and asked for only. */
module ProtocolCompletion {
  import opened RingBuffer
  import opened SemaphoreSpec
  import opened Protocol
  import opened ProtocolInvariant
  import opened ProtocolTheorems
  import opened ProtocolProgress

  /** Not a call that may return with bytes left. */
  predicate MovesAll(a: Step) {
    !a.TryCall? && (a.Call? ==> !a.once)
  }

  predicate Unconditional(steps: seq<Step>) {
    forall i :: 0 <= i < |steps| ==> MovesAll(steps[i])
  }

  /** The bytes a step offers, or asks for with the sign changed. */
  function Offer(a: Step): int {
    match a
    case Call(_, role, msg, size, _, _) => if role.Receiver? then 0 - size else |msg|
    case _ => 0
  }

  /** The bytes offered by all the calls, less those asked for. */
  function Offered(steps: seq<Step>): int {
    if steps == [] then 0 else Offered(steps[..|steps| - 1]) + Offer(steps[|steps| - 1])
  }

  // ----- the bytes that are still to be moved -----

  function Sum(f: seq<int>): int {
    if f == [] then 0 else Sum(f[..|f| - 1]) + f[|f| - 1]
  }

  lemma {:induction false} SumChange(f: seq<int>, i: nat, v: int)
    requires i < |f|
    ensures Sum(f[i := v]) == Sum(f) - f[i] + v
  {
    var n := |f| - 1;
    if i < n {
      SumChange(f[..n], i, v);
      assert f[i := v][..n] == f[..n][i := v];
    } else {
      assert f[i := v][..n] == f[..n];
    }
  }

  lemma {:induction false} SumSign(f: seq<int>)
    ensures (forall i :: 0 <= i < |f| ==> f[i] >= 0) ==> Sum(f) >= 0 && forall i :: 0 <= i < |f| ==> f[i] <= Sum(f)
    ensures (forall i :: 0 <= i < |f| ==> f[i] <= 0) ==> Sum(f) <= 0 && forall i :: 0 <= i < |f| ==> f[i] >= Sum(f)
  {
    if f != [] {
      var n := |f| - 1;
      SumSign(f[..n]);
      assert forall i :: 0 <= i < n ==> f[i] == f[..n][i];
    }
  }

  /** What a task still has to send, or to receive with the sign changed. */
  function Share(k: Task): int {
    if k.pc == Idle then 0 else if k.role.Receiver? then 0 - k.left else k.left
  }

  function Shares(s: State, order: seq<nat>): (f: seq<int>)
    requires forall i :: 0 <= i < |order| ==> order[i] in s.tasks
    ensures |f| == |order|
  {
    seq(|order|, i requires 0 <= i < |order| => Share(s.tasks[order[i]]))
  }

  /** Bytes to be sent and in the buffer, less those to be received. */
  function Balance(s: State, order: seq<nat>): int
    requires forall i :: 0 <= i < |order| ==> order[i] in s.tasks
  {
    s.avbs + Sum(Shares(s, order))
  }

  /** No task is in a call that may leave bytes behind. */
  predicate NoneOnce(s: State) {
    forall t :: t in s.tasks && s.tasks[t].pc != Idle ==> !s.tasks[t].once
  }

  /** A step moves bytes between the share of one task and the buffer, or starts a call. */
  predicate Moves(s: State, a: Step, t: nat) {
    && Can(s, a) && OnlyTask(s, Next(s, a), t)
    && Share(Next(s, a).tasks[t]) + Next(s, a).avbs == Share(s.tasks[t]) + s.avbs + Offer(a)
    && NoneOnce(Next(s, a))
  }

  lemma OneShareChanges(s: State, s': State, t: nat, order: seq<nat>)
    requires OnlyTask(s, s', t) && Lists(order, s.tasks.Keys)
    ensures Sum(Shares(s', order)) == Sum(Shares(s, order)) - Share(s.tasks[t]) + Share(s'.tasks[t])
  {
    var i :| 0 <= i < |order| && order[i] == t;
    SumChange(Shares(s, order), i, Share(s'.tasks[t]));
    assert Shares(s', order) == Shares(s, order)[i := Share(s'.tasks[t])];
  }

  lemma MovesBalance(s: State, a: Step, t: nat, order: seq<nat>)
    requires Moves(s, a, t) && Lists(order, s.tasks.Keys)
    ensures Lists(order, Next(s, a).tasks.Keys)
    ensures Balance(Next(s, a), order) == Balance(s, order) + Offer(a)
  {
    OneShareChanges(s, Next(s, a), t, order);
  }

  /** The task that a step is taken by. */
  function Actor(s: State, a: Step): nat
    requires Can(s, a)
  {
    match a
    case Deliver => s.pending[0]
    case _ => a.t
  }

  lemma CallMoves(s: State, a: Step)
    requires a.Call? && Can(s, a) && NoneOnce(s) && MovesAll(a)
    ensures Moves(s, a, a.t)
  {}

  lemma ResumeMoves(s: State, t: nat)
    requires Inv(s) && Can(s, Resume(t)) && NoneOnce(s)
    ensures Moves(s, Resume(t), t)
  {
    ResumeLocal(s, t);
  }

  lemma CommitMoves(s: State, t: nat)
    requires Can(s, Commit(t)) && CopyInv(s, t) && NoneOnce(s)
    ensures Moves(s, Commit(t), t)
  {}

  lemma SignalSemaphoreMoves(s: State, t: nat)
    requires Can(s, SignalSemaphore(t)) && CopyInv(s, t) && NoneOnce(s)
    ensures Moves(s, SignalSemaphore(t), t)
  {}

  lemma TestsMove(s: State, a: Step)
    requires (a.MarkAsleep? || a.TestLeft? || a.TestCounter?) && Can(s, a) && NoneOnce(s)
    ensures Moves(s, a, a.t)
  {}

  lemma CopiesMove(s: State, a: Step)
    requires (a.ChooseChunk? || a.CopyByte?) && Can(s, a) && NoneOnce(s)
    ensures Moves(s, a, a.t)
  {}

  lemma SignalMailboxMoves(s: State, t: nat)
    requires Can(s, SignalMailbox(t)) && NoneOnce(s)
    ensures Moves(s, SignalMailbox(t), t)
  {}

  lemma DeliverMoves(s: State)
    requires Can(s, Deliver) && s.pending[0] in s.tasks && NoneOnce(s)
    ensures Moves(s, Deliver, s.pending[0])
  {}

  lemma StepMoves(s: State, a: Step)
    requires Inv(s) && Can(s, a) && NoneOnce(s) && MovesAll(a)
    ensures Moves(s, a, Actor(s, a))
  {
    assert a != Deliver ==> a.t in s.tasks && CopyInv(s, a.t);
    match a
    case Call(_, _, _, _, _, _) => CallMoves(s, a);
    case Resume(t) => ResumeMoves(s, t);
    case Commit(t) => CommitMoves(s, t);
    case SignalSemaphore(t) => SignalSemaphoreMoves(s, t);
    case SignalMailbox(t) => SignalMailboxMoves(s, t);
    case ChooseChunk(_) => CopiesMove(s, a);
    case CopyByte(_) => CopiesMove(s, a);
    case Deliver => DeliverMoves(s);
    case _ => TestsMove(s, a);
  }

  lemma {:induction false} BalanceIsOffered(steps: seq<Step>, s: State, order: seq<nat>)
    requires Reached(steps, s) && Unconditional(steps) && Lists(order, s.tasks.Keys)
    ensures Balance(s, order) == Offered(steps) && NoneOnce(s)
    decreases |steps|
  {
    if steps == [] {
      SumSign(Shares(s, order));
    } else {
      var n := |steps| - 1;
      var before :| Reached(steps[..n], before) && Can(before, steps[n]) && s == Next(before, steps[n]);
      SameTasks(before, steps[n]);
      BalanceIsOffered(steps[..n], before, order);
      RunKeepsInv(steps[..n], before);
      StepMoves(before, steps[n]);
      MovesBalance(before, steps[n], Actor(before, steps[n]), order);
    }
  }

  // ----- completion -----

  predicate AllReturned(s: State) {
    forall t :: t in s.tasks ==> s.tasks[t].pc == Idle
  }

  /** A stalled FIFO without holders is idle. */
  lemma NobodyInside(s: State)
    requires Inv(s) && s.snd.holder == None && s.rcv.holder == None
    ensures AllReturned(s)
  {}

  /** With the other side idle all shares have the sign of this side. */
  lemma OneSided(s: State, order: seq<nat>, r: Role, t: nat)
    requires Lists(order, s.tasks.Keys) && t in s.tasks && s.tasks[t].role == r
    requires s.tasks[t].pc != Idle && s.tasks[t].left > 0
    requires forall u :: u in s.tasks && s.tasks[u].role == Peer(r) ==> s.tasks[u].pc == Idle
    ensures r.Sender? ==> Balance(s, order) > s.avbs
    ensures r.Receiver? ==> Balance(s, order) < s.avbs
  {
    SumSign(Shares(s, order));
    var i :| 0 <= i < |order| && order[i] == t;
    assert Shares(s, order)[i] == Share(s.tasks[t]);
  }

  /** A stalled sender finds the buffer full and a stalled receiver finds it empty, and nobody
      is there on the other side. */
  lemma HolderWaits(steps: seq<Step>, s: State, r: Role, order: seq<nat>)
    requires Reached(steps, s) && Stalled(s) && s.missed == {} && Lists(order, s.tasks.Keys)
    requires GateOf(s, r).holder.Some?
    ensures if r.Sender? then Balance(s, order) > |s.buf| else Balance(s, order) < 0
    ensures !AllReturned(s)
  {
    StallsOnlyForAPeer(steps, s, r);
    RunKeepsInv(steps, s);
    var t := GateOf(s, r).holder.value;
    assert At(s, t, SlotSleep) && s.tasks[t].role == r && s.tasks[t].left > 0 by {
      StalledHolder(s, r);
      assert CopyInv(s, t);
    }
    OneSided(s, order, r, t);
  }

  lemma IdleBalance(s: State, order: seq<nat>)
    requires AllReturned(s) && Lists(order, s.tasks.Keys)
    ensures Balance(s, order) == s.avbs
  {
    SumSign(Shares(s, order));
    assert forall i :: 0 <= i < |order| ==> Shares(s, order)[i] == 0;
  }

  /** Unconditional sends and receives, and no wakeup missed: when nothing can happen any more,
      all of them have returned if and only if the bytes offered exceed those asked for by no
      less than nothing and no more than the buffer holds. These bytes are what is left in the
      buffer; if there are none, everything sent was received. */
  lemma Completion(steps: seq<Step>, s: State)
    requires Reached(steps, s) && Unconditional(steps) && Stalled(s) && s.missed == {}
    ensures AllReturned(s) <==> 0 <= Offered(steps) <= |s.buf|
    ensures AllReturned(s) ==> s.avbs == Offered(steps)
    ensures Offered(steps) == 0 ==> s.sent == s.received
  {
    var order := ListExists(s.tasks.Keys);
    BalanceIsOffered(steps, s, order);
    RunKeepsInv(steps, s);
    if s.snd.holder.Some? {
      HolderWaits(steps, s, Sender, order);
    } else if s.rcv.holder.Some? {
      HolderWaits(steps, s, Receiver, order);
    } else {
      NobodyInside(s);
      IdleBalance(s, order);
    }
  }
}

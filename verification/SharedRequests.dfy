/** All FIFOs put their wakeups into one ring (fifos/rtai_fifos.c:142-143, 196-198, 223-226). */
module SharedRequests {
  import opened SemaphoreSpec
  import opened Protocol
  import opened ProtocolInvariant
  import opened ProtocolTheorems
  import RequestQueue

  /** A wakeup for a task that sleeps in a call on one of the FIFOs. */
  datatype Request = Request(fifo: nat, task: nat)

  /** The FIFOs, each with what all the tasks do on it, and the requests in the common ring. */
  datatype System = System(fifos: seq<State>, taskq: seq<Request>)

  /** A task starts a call only if it is in no other one, on whatever FIFO; the handler serves
      the request at the front of the ring. */
  predicate CanAct(w: System, i: nat, a: Step) {
    && i < |w.fifos| && Can(w.fifos[i], a)
    && (StartsCall(a) ==> forall j :: 0 <= j < |w.fifos| ==> At(w.fifos[j], a.t, Idle))
    && (a.Deliver? ==> w.taskq != [] && w.taskq[0].fifo == i)
  }

  /** What the step adds to the requests of its own FIFO goes to the end of the ring. */
  function Acted(w: System, i: nat, a: Step): System
    requires CanAct(w, i, a)
  {
    var s, s' := w.fifos[i], Next(w.fifos[i], a);
    var taskq :=
      if a.Deliver? then w.taskq[1..]
      else if |s'.pending| > |s.pending| then w.taskq + [Request(i, s'.pending[|s.pending|])]
      else w.taskq;
    System(w.fifos[i := s'], taskq)
  }

  /** Fresh FIFOs used by the same tasks. */
  ghost predicate InitialSystem(w: System, tasks: set<nat>) {
    w.taskq == [] && forall i :: 0 <= i < |w.fifos| ==> Initial(w.fifos[i]) && w.fifos[i].tasks.Keys == tasks
  }

  datatype Act = Act(fifo: nat, step: Step)

  ghost predicate SystemRun(acts: seq<Act>, w: System, tasks: set<nat>) {
    if acts == [] then InitialSystem(w, tasks)
    else
      var n := |acts| - 1;
      exists before ::
        && SystemRun(acts[..n], before, tasks) && CanAct(before, acts[n].fifo, acts[n].step)
        && w == Acted(before, acts[n].fifo, acts[n].step)
  }

  /** The requests of one FIFO in the common ring. */
  function Of(taskq: seq<Request>, i: nat): seq<nat> {
    if taskq == [] then []
    else if taskq[0].fifo == i then [taskq[0].task] + Of(taskq[1..], i)
    else Of(taskq[1..], i)
  }

  lemma {:induction false} OfAppend(taskq: seq<Request>, r: Request, i: nat)
    ensures Of(taskq + [r], i) == Of(taskq, i) + if r.fifo == i then [r.task] else []
  {
    if taskq != [] {
      assert (taskq + [r])[1..] == taskq[1..] + [r];
      OfAppend(taskq[1..], r, i);
    }
  }

  lemma {:induction false} OfMember(taskq: seq<Request>, r: Request)
    ensures r in taskq ==> r.task in Of(taskq, r.fifo)
  {
    if taskq != [] {
      OfMember(taskq[1..], r);
    }
  }

  predicate Busy(s: State, t: nat) {
    t in s.tasks && s.tasks[t].pc != Idle
  }

  /** Every FIFO keeps its invariant, a task is in at most one call, and the ring holds what
      the FIFOs have pending, each task at most once. */
  ghost predicate SystemInv(w: System, tasks: set<nat>) {
    EachInv(w.fifos, tasks) && CallsApart(w.fifos) && RingInv(w.fifos, w.taskq)
  }

  ghost predicate EachInv(fifos: seq<State>, tasks: set<nat>) {
    forall i :: 0 <= i < |fifos| ==> Inv(fifos[i]) && fifos[i].tasks.Keys == tasks
  }

  ghost predicate CallsApart(fifos: seq<State>) {
    forall i, j, t :: 0 <= i < j < |fifos| ==> !(Busy(fifos[i], t) && Busy(fifos[j], t))
  }

  predicate RingInv(fifos: seq<State>, taskq: seq<Request>) {
    && (forall i :: 0 <= i < |fifos| ==> Of(taskq, i) == fifos[i].pending)
    && (forall k :: 0 <= k < |taskq| ==> taskq[k].fifo < |fifos|)
    && (forall k, l :: 0 <= k < l < |taskq| ==> taskq[k].task != taskq[l].task)
  }

  /** A task with a pending request is in a call. */
  lemma PendingIsBusy(s: State, t: nat)
    requires Inv(s) && t in s.pending
    ensures Busy(s, t)
  {
    assert WakeInv(s, t);
  }

  /** Only a call makes a task busy. */
  lemma BusyBefore(s: State, a: Step, t: nat)
    requires Can(s, a) && Busy(Next(s, a), t) && !Busy(s, t)
    ensures StartsCall(a) && a.t == t
  {}

  /** A task busy on one FIFO after a step there is busy on no other. */
  lemma NowhereElse(w: System, i: nat, a: Step, tasks: set<nat>, t: nat, j: nat)
    requires SystemInv(w, tasks) && CanAct(w, i, a) && Busy(Next(w.fifos[i], a), t)
    requires j < |w.fifos| && j != i
    ensures !Busy(w.fifos[j], t)
  {
    if !Busy(w.fifos[i], t) {
      BusyBefore(w.fifos[i], a, t);
      assert At(w.fifos[j], t, Idle);
    }
  }

  lemma OneCall(w: System, i: nat, a: Step, tasks: set<nat>, j: nat, k: nat, t: nat)
    requires SystemInv(w, tasks) && CanAct(w, i, a) && j < k < |w.fifos|
    ensures var fifos := w.fifos[i := Next(w.fifos[i], a)]; !(Busy(fifos[j], t) && Busy(fifos[k], t))
  {
    if Busy(Next(w.fifos[i], a), t) {
      if j == i {
        NowhereElse(w, i, a, tasks, t, k);
      } else if k == i {
        NowhereElse(w, i, a, tasks, t, j);
      }
    }
  }

  lemma OneCallEach(w: System, i: nat, a: Step, tasks: set<nat>)
    requires SystemInv(w, tasks) && CanAct(w, i, a)
    ensures CallsApart(w.fifos[i := Next(w.fifos[i], a)])
  {
    var fifos := w.fifos[i := Next(w.fifos[i], a)];
    forall j, k, t: nat | 0 <= j < k < |fifos| ensures !(Busy(fifos[j], t) && Busy(fifos[k], t)) {
      OneCall(w, i, a, tasks, j, k, t);
    }
  }

  lemma NotYetPending(s: State, a: Step, t: nat)
    requires Inv(s) && Can(s, a) && Next(s, a).pending == s.pending + [t]
    ensures t !in s.pending && Busy(Next(s, a), t)
  {
    StepKeepsInv(s, a);
    assert Next(s, a).pending[|s.pending|] == t;
    PendingIsBusy(Next(s, a), t);
    forall k | 0 <= k < |s.pending| ensures s.pending[k] != t {
      assert Next(s, a).pending[k] == s.pending[k];
    }
  }

  /** A new request is for a task that has none in the ring. */
  lemma NewRequest(w: System, i: nat, a: Step, tasks: set<nat>, t: nat)
    requires SystemInv(w, tasks) && CanAct(w, i, a) && Next(w.fifos[i], a).pending == w.fifos[i].pending + [t]
    ensures forall k :: 0 <= k < |w.taskq| ==> w.taskq[k].task != t
  {
    NotYetPending(w.fifos[i], a, t);
    forall k | 0 <= k < |w.taskq| ensures w.taskq[k].task != t {
      var r := w.taskq[k];
      OfMember(w.taskq, r);
      PendingIsBusy(w.fifos[r.fifo], r.task);
      if r.fifo != i {
        NowhereElse(w, i, a, tasks, t, r.fifo);
      }
    }
  }

  /** How the steps of a FIFO change its requests. */
  lemma PendingChanges(s: State, a: Step)
    requires Can(s, a)
    ensures var p, p' := s.pending, Next(s, a).pending;
            if a.Deliver? then p' == p[1..]
            else p' == p || exists t :: p' == p + [t]
  {}

  lemma RingGrows(fifos: seq<State>, s': State, taskq: seq<Request>, i: nat, t: nat)
    requires RingInv(fifos, taskq) && i < |fifos| && s'.pending == fifos[i].pending + [t]
    requires forall k :: 0 <= k < |taskq| ==> taskq[k].task != t
    ensures RingInv(fifos[i := s'], taskq + [Request(i, t)])
  {
    forall j | 0 <= j < |fifos| ensures Of(taskq + [Request(i, t)], j) == fifos[i := s'][j].pending {
      OfAppend(taskq, Request(i, t), j);
    }
  }

  lemma RingShrinks(fifos: seq<State>, s': State, taskq: seq<Request>, i: nat)
    requires RingInv(fifos, taskq) && i < |fifos| && fifos[i].pending != [] && s'.pending == fifos[i].pending[1..]
    requires taskq != [] && taskq[0].fifo == i
    ensures RingInv(fifos[i := s'], taskq[1..])
  {
    assert Of(taskq, i)[1..] == Of(taskq[1..], i);
  }

  lemma TaskqFollows(w: System, i: nat, a: Step, tasks: set<nat>)
    requires SystemInv(w, tasks) && CanAct(w, i, a)
    ensures RingInv(Acted(w, i, a).fifos, Acted(w, i, a).taskq)
  {
    var s, s' := w.fifos[i], Next(w.fifos[i], a);
    PendingChanges(s, a);
    if a.Deliver? {
      RingShrinks(w.fifos, s', w.taskq, i);
    } else if s'.pending != s.pending {
      var t :| s'.pending == s.pending + [t];
      NewRequest(w, i, a, tasks, t);
      RingGrows(w.fifos, s', w.taskq, i, t);
    }
  }

  lemma ActKeepsSystem(w: System, i: nat, a: Step, tasks: set<nat>)
    requires SystemInv(w, tasks) && CanAct(w, i, a)
    ensures SystemInv(Acted(w, i, a), tasks)
  {
    StepKeepsInv(w.fifos[i], a);
    SameTasks(w.fifos[i], a);
    OneCallEach(w, i, a, tasks);
    TaskqFollows(w, i, a, tasks);
  }

  lemma {:induction false} SystemKeepsInv(acts: seq<Act>, w: System, tasks: set<nat>)
    requires SystemRun(acts, w, tasks)
    ensures SystemInv(w, tasks)
    decreases |acts|
  {
    if acts == [] {
      forall i | 0 <= i < |w.fifos| ensures Inv(w.fifos[i]) {
        InitialInv(w.fifos[i]);
      }
    } else {
      var n := |acts| - 1;
      var before :|
        && SystemRun(acts[..n], before, tasks) && CanAct(before, acts[n].fifo, acts[n].step)
        && w == Acted(before, acts[n].fifo, acts[n].step);
      SystemKeepsInv(acts[..n], before, tasks);
      ActKeepsSystem(before, acts[n].fifo, acts[n].step, tasks);
    }
  }

  function Tasks(taskq: seq<Request>): seq<nat> {
    seq(|taskq|, k requires 0 <= k < |taskq| => taskq[k].task)
  }

  /** However many FIFOs there are, the ring never holds more requests than there are tasks. */
  lemma OneRequestPerTask(acts: seq<Act>, w: System, tasks: set<nat>)
    requires SystemRun(acts, w, tasks)
    ensures |w.taskq| <= |tasks|
    ensures forall i :: 0 <= i < |w.fifos| ==> Of(w.taskq, i) == w.fifos[i].pending
  {
    SystemKeepsInv(acts, w, tasks);
    forall k | 0 <= k < |w.taskq| ensures w.taskq[k].task in tasks {
      var r := w.taskq[k];
      OfMember(w.taskq, r);
      PendingIsBusy(w.fifos[r.fifo], r.task);
    }
    DistinctMembers(Tasks(w.taskq), tasks);
  }

  lemma ExtendRun(acts: seq<Act>, w: System, tasks: set<nat>, i: nat, a: Step)
    requires SystemRun(acts, w, tasks) && CanAct(w, i, a)
    ensures SystemRun(acts + [Act(i, a)], Acted(w, i, a), tasks)
  {
    var all, n := acts + [Act(i, a)], |acts|;
    assert all[..n] == acts && all[n] == Act(i, a);
    assert SystemRun(all[..n], w, tasks) && CanAct(w, all[n].fifo, all[n].step);
  }

  lemma TaskqChanges(w: System, i: nat, a: Step)
    requires CanAct(w, i, a)
    ensures var p, p' := Tasks(w.taskq), Tasks(Acted(w, i, a).taskq);
            p' == p || (p != [] && p' == p[1..]) || exists t :: p' == p + [t]
  {
    var p, p' := Tasks(w.taskq), Tasks(Acted(w, i, a).taskq);
    var s, s' := w.fifos[i], Next(w.fifos[i], a);
    if !a.Deliver? && |s'.pending| > |s.pending| {
      assert p' == p + [s'.pending[|s.pending|]];
    }
  }

  /** With fewer than 64 tasks the ring shared by all FIFOs never runs over: every step leaves
      it alone, serves the request at its front or makes one that it has room for. */
  lemma RequestsFit(acts: seq<Act>, w: System, tasks: set<nat>, i: nat, a: Step)
    requires SystemRun(acts, w, tasks) && CanAct(w, i, a) && |tasks| < 64
    ensures var p, p' := Tasks(w.taskq), Tasks(Acted(w, i, a).taskq);
            || p' == p || (p != [] && p' == p[1..])
            || exists t :: p' == RequestQueue.Requested(p, t) == p + [t]
  {
    var p, p' := Tasks(w.taskq), Tasks(Acted(w, i, a).taskq);
    assert |p'| <= |tasks| by {
      ExtendRun(acts, w, tasks, i, a);
      OneRequestPerTask(acts + [Act(i, a)], Acted(w, i, a), tasks);
    }
    TaskqChanges(w, i, a);
    if p' != p && !(p != [] && p' == p[1..]) {
      var t :| p' == p + [t];
      assert p' == RequestQueue.Requested(p, t);
    }
  }

  /** The handler takes the request at the front of the ring for the one that the FIFO has
      waited for longest. */
  lemma FrontIsFirst(acts: seq<Act>, w: System, tasks: set<nat>, i: nat)
    requires SystemRun(acts, w, tasks) && i < |w.fifos| && w.taskq != [] && w.taskq[0].fifo == i
    ensures w.fifos[i].pending != [] && w.fifos[i].pending[0] == w.taskq[0].task
  {
    OneRequestPerTask(acts, w, tasks);
    assert Of(w.taskq, i) == [w.taskq[0].task] + Of(w.taskq[1..], i);
  }

  /** Whatever is at the front of the ring can be served. */
  lemma FrontCanBeServed(w: System, i: nat)
    requires i < |w.fifos| && w.taskq != [] && w.taskq[0].fifo == i && w.fifos[i].pending != []
    ensures CanAct(w, i, Deliver)
  {}
}

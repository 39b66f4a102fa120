/** Without new calls every run of the FIFO protocol comes to an end. */
module ProtocolProgress {
  import opened SemaphoreSpec
  import opened Protocol
  import opened ProtocolInvariant
  import opened ProtocolTheorems

  // ----- sums over the tasks -----

  function Total(f: seq<nat>): nat {
    if f == [] then 0 else Total(f[..|f| - 1]) + f[|f| - 1]
  }

  lemma {:induction false} TotalChange(f: seq<nat>, i: nat, v: nat)
    requires i < |f|
    ensures Total(f[i := v]) == Total(f) - f[i] + v
  {
    var n := |f| - 1;
    if i < n {
      TotalChange(f[..n], i, v);
      assert f[i := v][..n] == f[..n][i := v];
    } else {
      assert f[i := v][..n] == f[..n];
    }
  }

  lemma {:induction false} TotalOrder(f: seq<nat>, g: seq<nat>)
    requires |f| == |g| && forall i :: 0 <= i < |f| ==> f[i] <= g[i]
    ensures Total(f) <= Total(g)
  {
    if f != [] {
      TotalOrder(f[..|f| - 1], g[..|f| - 1]);
    }
  }

  /** One term falls and the others do not rise. */
  lemma OneFalls(f: seq<nat>, g: seq<nat>, i: nat)
    requires |f| == |g| && i < |f| && forall j :: 0 <= j < |f| && j != i ==> g[j] <= f[j]
    ensures Total(g) <= Total(f) - f[i] + g[i]
  {
    TotalChange(f, i, g[i]);
    TotalOrder(g, f[i := g[i]]);
  }

  /** One term falls, another may rise, and the others do not. */
  lemma OneRises(f: seq<nat>, g: seq<nat>, i: nat, j: nat)
    requires |f| == |g| && i < |f| && j < |f| && i != j
    requires forall m :: 0 <= m < |f| && m != i && m != j ==> g[m] <= f[m]
    ensures Total(g) <= Total(f) - f[i] + g[i] - f[j] + g[j]
  {
    TotalChange(f, i, g[i]);
    OneFalls(f[i := g[i]], g, j);
  }

  /** All tasks, each once. */
  predicate Lists(order: seq<nat>, tasks: set<nat>) {
    && (forall i :: 0 <= i < |order| ==> order[i] in tasks)
    && (forall i, j :: 0 <= i < j < |order| ==> order[i] != order[j])
    && (forall t :: t in tasks ==> t in order)
  }

  // ----- how far a task can still go -----

  /** The steps a task can take before it sleeps, moves bytes or is out of its call. Where it
      has bytes to move and can, it comes as far as its commit. Otherwise it may at most go
      round the loop once, and from its sleep in the slot only a peer can wake it. */
  function Rank(size: nat, k: Task, canMove: bool, inSlot: bool): nat {
    if canMove && k.left > 0 then
      match k.pc
      case Idle => 0
      case Release => 1
      case Copying(n, done) => if done <= n then 2 + n - done else 2
      case Measure => size + 4
      case Enter => size + 5
      case SlotSleep => size + 6
      case Loop => size + 7
      case Notify => size + 8
      case SemSleep => size + 9
      case InLine => size + 10
    else
      match k.pc
      case Idle => 0
      case Release => 1
      case SlotSleep => if inSlot then 2 else 6
      case Loop => 3
      case Notify => 4
      case Enter => 5
      case SemSleep => 7
      case InLine => 8
      case _ => 0
  }

  /** A task of a role that can move weighs more: its signals wake the other role up. */
  function Effort(s: State, t: nat): nat
    requires t in s.tasks
  {
    var k := s.tasks[t];
    var canMove := Counter(s, k.role) > 0;
    (if canMove then 10 else 2) * Rank(|s.buf|, k, canMove, s.slot == Some(t))
  }

  function Efforts(s: State, order: seq<nat>): (f: seq<nat>)
    requires forall i :: 0 <= i < |order| ==> order[i] in s.tasks
    ensures |f| == |order|
  {
    seq(|order|, i requires 0 <= i < |order| => Effort(s, order[i]))
  }

  function Lefts(s: State, order: seq<nat>): (f: seq<nat>)
    requires forall i :: 0 <= i < |order| ==> order[i] in s.tasks
    ensures |f| == |order|
  {
    seq(|order|, i requires 0 <= i < |order| => s.tasks[order[i]].left)
  }

  function BytesLeft(s: State, order: seq<nat>): nat
    requires forall i :: 0 <= i < |order| ==> order[i] in s.tasks
  {
    Total(Lefts(s, order))
  }

  function Work(s: State, order: seq<nat>): nat
    requires forall i :: 0 <= i < |order| ==> order[i] in s.tasks
  {
    Total(Efforts(s, order)) + |s.pending|
  }

  /** What a step that moves no bytes leaves alone. */
  predicate Unmoved(s: State, s': State) {
    && |s'.buf| == |s.buf| && s'.avbs == s.avbs && s'.frbs == s.frbs
    && s'.tasks.Keys == s.tasks.Keys
    && forall t :: t in s.tasks ==> s'.tasks[t].left == s.tasks[t].left && s'.tasks[t].role == s.tasks[t].role
  }

  /** Fewer bytes are left to be moved, or as many and less work until the next ones are. */
  predicate Closer(s: State, s': State, order: seq<nat>) {
    && Lists(order, s.tasks.Keys) && Lists(order, s'.tasks.Keys)
    && (BytesLeft(s', order) < BytesLeft(s, order)
        || (BytesLeft(s', order) == BytesLeft(s, order) && Work(s', order) < Work(s, order)))
  }

  /** A step that concerns task t only. */
  predicate Own(s: State, s': State, t: nat) {
    && Unmoved(s, s') && OnlyTask(s, s', t)
    && (s'.slot == s.slot || (s.slot == None && s'.slot == Some(t)))
  }

  /** A step of one task that takes it closer to its end. */
  lemma TaskStep(s: State, s': State, order: seq<nat>, t: nat)
    requires Lists(order, s.tasks.Keys) && Own(s, s', t)
    requires Effort(s', t) + |s'.pending| < Effort(s, t) + |s.pending|
    ensures Closer(s, s', order)
  {
    var i :| 0 <= i < |order| && order[i] == t;
    OneFalls(Efforts(s, order), Efforts(s', order), i);
    assert Lefts(s', order) == Lefts(s, order);
  }

  lemma MarkAsleepOwn(s: State, t: nat)
    requires Can(s, MarkAsleep(t))
    ensures Own(s, Next(s, MarkAsleep(t)), t)
  {}

  lemma MarkAsleepStep(s: State, t: nat, order: seq<nat>)
    requires Inv(s) && Can(s, MarkAsleep(t)) && Lists(order, s.tasks.Keys)
    ensures Closer(s, Next(s, MarkAsleep(t)), order)
  {
    MarkAsleepUses(s, t);
    MarkAsleepOwn(s, t);
    TaskStep(s, Next(s, MarkAsleep(t)), order, t);
  }

  lemma MarkAsleepUses(s: State, t: nat)
    requires Can(s, MarkAsleep(t))
    ensures var s' := Next(s, MarkAsleep(t)); Effort(s', t) < Effort(s, t)
  {}

  lemma ResumeStep(s: State, t: nat, order: seq<nat>)
    requires Inv(s) && Can(s, Resume(t)) && Lists(order, s.tasks.Keys)
    ensures Closer(s, Next(s, Resume(t)), order)
  {
    ResumeUses(s, t);
    ResumeLocal(s, t);
    TaskStep(s, Next(s, Resume(t)), order, t);
  }

  lemma ResumeUses(s: State, t: nat)
    requires Inv(s) && Can(s, Resume(t))
    ensures var s' := Next(s, Resume(t)); Effort(s', t) < Effort(s, t) && s'.slot == s.slot
  {
    ResumeLocal(s, t);
    assert WakeInv(s, t);
  }

  lemma TestLeftOwn(s: State, t: nat)
    requires Can(s, TestLeft(t)) && (Counter(s, s.tasks[t].role) == 0 ==> s.slot == None)
    ensures Own(s, Next(s, TestLeft(t)), t)
  {}

  lemma TestLeftStep(s: State, t: nat, order: seq<nat>)
    requires Inv(s) && Can(s, TestLeft(t)) && Lists(order, s.tasks.Keys)
    ensures Closer(s, Next(s, TestLeft(t)), order)
  {
    TestLeftUses(s, t);
    TestLeftFree(s, t);
    TestLeftOwn(s, t);
    TaskStep(s, Next(s, TestLeft(t)), order, t);
  }

  lemma TestLeftUses(s: State, t: nat)
    requires Can(s, TestLeft(t))
    ensures var s' := Next(s, TestLeft(t)); Effort(s', t) < Effort(s, t)
  {}

  lemma TestCounterOwn(s: State, t: nat)
    requires Can(s, TestCounter(t))
    ensures Own(s, Next(s, TestCounter(t)), t)
  {}

  lemma TestCounterStep(s: State, t: nat, order: seq<nat>)
    requires Inv(s) && Can(s, TestCounter(t)) && Lists(order, s.tasks.Keys)
    ensures Closer(s, Next(s, TestCounter(t)), order)
  {
    TestCounterUses(s, t);
    TestCounterOwn(s, t);
    TaskStep(s, Next(s, TestCounter(t)), order, t);
  }

  lemma TestCounterUses(s: State, t: nat)
    requires Can(s, TestCounter(t))
    ensures var s' := Next(s, TestCounter(t)); Effort(s', t) < Effort(s, t)
  {}

  lemma ChooseChunkOwn(s: State, t: nat)
    requires Can(s, ChooseChunk(t))
    ensures Own(s, Next(s, ChooseChunk(t)), t)
  {}

  lemma ChooseChunkStep(s: State, t: nat, order: seq<nat>)
    requires Inv(s) && Can(s, ChooseChunk(t)) && Lists(order, s.tasks.Keys)
    ensures Closer(s, Next(s, ChooseChunk(t)), order)
  {
    assert CopyInv(s, t);
    ChooseChunkUses(s, t);
    ChooseChunkOwn(s, t);
    TaskStep(s, Next(s, ChooseChunk(t)), order, t);
  }

  lemma ChooseChunkUses(s: State, t: nat)
    requires Can(s, ChooseChunk(t)) && CopyInv(s, t) && DataInv(s)
    ensures var s' := Next(s, ChooseChunk(t)); Effort(s', t) < Effort(s, t)
  {}

  lemma CopyByteOwn(s: State, t: nat)
    requires Can(s, CopyByte(t))
    ensures Own(s, Next(s, CopyByte(t)), t)
  {}

  lemma CopyByteStep(s: State, t: nat, order: seq<nat>)
    requires Inv(s) && Can(s, CopyByte(t)) && Lists(order, s.tasks.Keys)
    ensures Closer(s, Next(s, CopyByte(t)), order)
  {
    assert CopyInv(s, t);
    CopyByteUses(s, t);
    CopyByteOwn(s, t);
    TaskStep(s, Next(s, CopyByte(t)), order, t);
  }

  lemma CopyByteUses(s: State, t: nat)
    requires Can(s, CopyByte(t)) && CopyInv(s, t) && DataInv(s)
    ensures var s' := Next(s, CopyByte(t)); Effort(s', t) < Effort(s, t)
  {}

  /** A signal wakes the task in the slot. That one belongs to the other role; if it cannot
      move, the signaller can, and pays for the round the woken task may make in vain. */
  lemma SignalMailboxUses(s: State, t: nat)
    requires Inv(s) && Can(s, SignalMailbox(t))
    ensures var s' := Next(s, SignalMailbox(t));
            && Effort(s', t) < Effort(s, t)
            && (s.slot.Some? ==>
                  && s.slot.value in s.tasks && s.slot.value != t
                  && Effort(s', t) + Effort(s', s.slot.value) + 1 < Effort(s, t) + Effort(s, s.slot.value))
  {
    if s.slot.Some? {
      var u := s.slot.value;
      assert WakeInv(s, u) && WakeInv(s, t) && CopyInv(s, u);
      InsideHolds(s, t);
      InsideHolds(s, u);
      assert s.tasks[u].role == Peer(s.tasks[t].role);
    }
  }

  lemma SignalMailboxOthers(s: State, t: nat, u: nat)
    requires Can(s, SignalMailbox(t)) && u in s.tasks && u != t && s.slot != Some(u)
    ensures Effort(Next(s, SignalMailbox(t)), u) == Effort(s, u)
  {}

  lemma SignalMailboxUnmoved(s: State, t: nat)
    requires Can(s, SignalMailbox(t))
    ensures Unmoved(s, Next(s, SignalMailbox(t)))
    ensures |Next(s, SignalMailbox(t)).pending| == |s.pending| + if s.slot.Some? then 1 else 0
  {}

  lemma SignalMailboxStep(s: State, t: nat, order: seq<nat>)
    requires Inv(s) && Can(s, SignalMailbox(t)) && Lists(order, s.tasks.Keys)
    ensures Closer(s, Next(s, SignalMailbox(t)), order)
  {
    SignalMailboxUses(s, t);
    SignalMailboxUnmoved(s, t);
    forall u | u in s.tasks && u != t && s.slot != Some(u)
      ensures Effort(Next(s, SignalMailbox(t)), u) == Effort(s, u)
    {
      SignalMailboxOthers(s, t, u);
    }
    WakingStep(s, Next(s, SignalMailbox(t)), order, t);
  }

  /** A step of task t that wakes the one in the slot. */
  lemma WakingStep(s: State, s': State, order: seq<nat>, t: nat)
    requires Lists(order, s.tasks.Keys) && Unmoved(s, s') && t in s.tasks && Effort(s', t) < Effort(s, t)
    requires |s'.pending| == |s.pending| + if s.slot.Some? then 1 else 0
    requires forall u :: u in s.tasks && u != t && s.slot != Some(u) ==> Effort(s', u) == Effort(s, u)
    requires s.slot.Some? ==>
               && s.slot.value in s.tasks && s.slot.value != t
               && Effort(s', t) + Effort(s', s.slot.value) + 1 < Effort(s, t) + Effort(s, s.slot.value)
    ensures Closer(s, s', order)
  {
    SameLefts(s, s', order);
    var i :| 0 <= i < |order| && order[i] == t;
    if s.slot.Some? {
      var j :| 0 <= j < |order| && order[j] == s.slot.value;
      OneRises(Efforts(s, order), Efforts(s', order), i, j);
    } else {
      OneFalls(Efforts(s, order), Efforts(s', order), i);
    }
  }

  lemma SameLefts(s: State, s': State, order: seq<nat>)
    requires Lists(order, s.tasks.Keys) && Unmoved(s, s')
    ensures BytesLeft(s', order) == BytesLeft(s, order) && Lists(order, s'.tasks.Keys)
  {
    assert Lefts(s', order) == Lefts(s, order);
  }

  lemma SignalSemaphoreOwn(s: State, t: nat)
    requires Can(s, SignalSemaphore(t))
    ensures Own(s, Next(s, SignalSemaphore(t)), t)
  {}

  lemma SignalSemaphoreStep(s: State, t: nat, order: seq<nat>)
    requires Inv(s) && Can(s, SignalSemaphore(t)) && Lists(order, s.tasks.Keys)
    ensures Closer(s, Next(s, SignalSemaphore(t)), order)
  {
    SignalSemaphoreUses(s, t);
    SignalSemaphoreOwn(s, t);
    TaskStep(s, Next(s, SignalSemaphore(t)), order, t);
  }

  lemma SignalSemaphoreUses(s: State, t: nat)
    requires Can(s, SignalSemaphore(t))
    ensures var s' := Next(s, SignalSemaphore(t)); Effort(s', t) + |s'.pending| < Effort(s, t) + |s.pending|
  {}

  lemma DeliverKeeps(s: State, u: nat)
    requires Can(s, Deliver) && u in s.tasks
    ensures Unmoved(s, Next(s, Deliver)) && Effort(Next(s, Deliver), u) == Effort(s, u)
    ensures |Next(s, Deliver).pending| == |s.pending| - 1
  {}

  lemma DeliverStep(s: State, order: seq<nat>)
    requires Inv(s) && Can(s, Deliver) && Lists(order, s.tasks.Keys)
    ensures Closer(s, Next(s, Deliver), order)
  {
    var s' := Next(s, Deliver);
    DeliverKeeps(s, s.pending[0]);
    SameLefts(s, s', order);
    forall m | 0 <= m < |order| ensures Efforts(s', order)[m] == Efforts(s, order)[m] {
      DeliverKeeps(s, order[m]);
    }
    assert Efforts(s', order) == Efforts(s, order);
  }

  lemma CommitStep(s: State, t: nat, order: seq<nat>)
    requires Inv(s) && Can(s, Commit(t)) && Lists(order, s.tasks.Keys)
    ensures Closer(s, Next(s, Commit(t)), order)
  {
    var s' := Next(s, Commit(t));
    assert CopyInv(s, t);
    assert OnlyTask(s, s', t) && s'.tasks[t].left < s.tasks[t].left;
    var i :| 0 <= i < |order| && order[i] == t;
    OneFalls(Lefts(s, order), Lefts(s', order), i);
  }

  /** Every step inside a call brings the tasks closer to their ends. */
  lemma StepsUseUp(s: State, a: Step, order: seq<nat>)
    requires Inv(s) && Can(s, a) && !StartsCall(a) && Lists(order, s.tasks.Keys)
    ensures Closer(s, Next(s, a), order)
  {
    match a
    case MarkAsleep(t) => MarkAsleepStep(s, t, order);
    case Resume(t) => ResumeStep(s, t, order);
    case TestLeft(t) => TestLeftStep(s, t, order);
    case TestCounter(t) => TestCounterStep(s, t, order);
    case ChooseChunk(t) => ChooseChunkStep(s, t, order);
    case CopyByte(t) => CopyByteStep(s, t, order);
    case Commit(t) => CommitStep(s, t, order);
    case SignalMailbox(t) => SignalMailboxStep(s, t, order);
    case SignalSemaphore(t) => SignalSemaphoreStep(s, t, order);
    case Deliver => DeliverStep(s, order);
  }

  lemma {:induction false} ListExists(tasks: set<nat>) returns (order: seq<nat>)
    ensures Lists(order, tasks)
    decreases |tasks|
  {
    order := [];
    if tasks != {} {
      var t :| t in tasks;
      order := ListExists(tasks - {t});
      order := order + [t];
    }
  }

  // ----- runs without new calls -----

  /** The state after n of the given steps, those that are not enabled being skipped. */
  function Follow(s: State, acts: nat -> Step, n: nat): State {
    if n == 0 then s
    else
      var before := Follow(s, acts, n - 1);
      if Can(before, acts(n - 1)) then Next(before, acts(n - 1)) else before
  }

  lemma FollowNext(s: State, acts: nat -> Step, m: nat)
    requires Can(Follow(s, acts, m), acts(m))
    ensures Follow(s, acts, m + 1) == Next(Follow(s, acts, m), acts(m))
  {}

  lemma GoesOn(steps: seq<Step>, s: State, a: Step, order: seq<nat>)
    requires Reached(steps, s) && Can(s, a) && !StartsCall(a) && Lists(order, s.tasks.Keys)
    ensures Reached(steps + [a], Next(s, a)) && Closer(s, Next(s, a), order)
  {
    RunKeepsInv(steps, s);
    StepsUseUp(s, a, order);
    ProtocolTheorems.Extend(steps, s, a);
  }

  lemma EnabledStep(s: State) returns (a: Step)
    requires !Stalled(s)
    ensures Can(s, a) && !StartsCall(a)
  {
    a :| Can(s, a) && !StartsCall(a);
  }

  /** However the steps are chosen, sooner or later the next one is not enabled: no run goes
      on for ever without a new call. */
  lemma RunsEnd(steps: seq<Step>, s: State, acts: nat -> Step) returns (n: nat)
    requires Reached(steps, s) && forall i :: !StartsCall(acts(i))
    ensures !Can(Follow(s, acts, n), acts(n))
  {
    var order := ListExists(s.tasks.Keys);
    n := RunsEndFrom(steps, s, acts, 0, s, order);
  }

  lemma {:induction false} RunsEndFrom(steps: seq<Step>, s: State, acts: nat -> Step, m: nat, now: State,
                                       order: seq<nat>)
    returns (n: nat)
    requires Reached(steps, now) && now == Follow(s, acts, m) && Lists(order, now.tasks.Keys)
    requires forall i :: !StartsCall(acts(i))
    ensures !Can(Follow(s, acts, n), acts(n))
    decreases BytesLeft(now, order), Work(now, order)
  {
    n := m;
    if Can(now, acts(m)) {
      GoesOn(steps, now, acts(m), order);
      FollowNext(s, acts, m);
      n := RunsEndFrom(steps + [acts(m)], s, acts, m + 1, Next(now, acts(m)), order);
    }
  }

  /** all goes on from steps without a new call. */
  predicate GoesOnFrom(all: seq<Step>, steps: seq<Step>) {
    |steps| <= |all| && all[..|steps|] == steps && forall i :: |steps| <= i < |all| ==> !StartsCall(all[i])
  }

  lemma OneMoreStep(all: seq<Step>, steps: seq<Step>, a: Step)
    requires GoesOnFrom(all, steps + [a]) && !StartsCall(a)
    ensures GoesOnFrom(all, steps)
  {
    assert all[..|steps| + 1][..|steps|] == all[..|steps|];
    assert all[|steps|] == all[..|steps| + 1][|steps|];
  }

  /** From every reachable state some run without new calls leads to a stalled one. */
  lemma {:induction false} SomeRunStalls(steps: seq<Step>, s: State, order: seq<nat>)
    returns (all: seq<Step>, s': State)
    requires Reached(steps, s) && Lists(order, s.tasks.Keys)
    ensures Reached(all, s') && Stalled(s') && GoesOnFrom(all, steps)
    decreases BytesLeft(s, order), Work(s, order)
  {
    all, s' := steps, s;
    if !Stalled(s) {
      var a := EnabledStep(s);
      GoesOn(steps, s, a, order);
      all, s' := SomeRunStalls(steps + [a], Next(s, a), order);
      OneMoreStep(all, steps, a);
    }
  }
}

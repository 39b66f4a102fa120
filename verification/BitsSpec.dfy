/** Bit-flag synchronisation as a value: a word of flags and the tasks that wait for a
    condition on it (bits/rtai_bits.c:57-75, 137-157, 172-334).
  */
module BitsSpec {
  /** An unsigned long, as its 32 bits. */
  type Word = w: seq<bool> | |w| == 32 witness NoBits()

  function NoBits(): seq<bool> {
    seq(32, i => false)
  }

  const ZERO: Word := NoBits()

  /** The word 1 << k */
  function Only(k: nat): Word {
    seq(32, i => i == k)
  }

  function And(a: Word, b: Word): Word {
    seq(32, i requires 0 <= i < 32 => a[i] && b[i])
  }

  function Or(a: Word, b: Word): Word {
    seq(32, i requires 0 <= i < 32 => a[i] || b[i])
  }

  function Not(a: Word): Word {
    seq(32, i requires 0 <= i < 32 => !a[i])
  }

  const READY := Only(0)
  const DELAYED := Only(2)
  const SEMAPHORE := Only(3)
  const RUNNING := Only(8)

  /** The tests of one mask. */
  datatype Test = AllSet | AnySet | AllClr | AnyClr

  /** The changes of one mask. */
  datatype Change = SetBits | ClrBits | NopBits

  predicate Holds(bits: Word, test: Test, mask: Word) {
    match test
    case AllSet => And(bits, mask) == mask
    case AnySet => And(bits, mask) != ZERO
    case AllClr => And(Not(bits), mask) == mask
    case AnyClr => And(Not(bits), mask) != ZERO
  }

  function Changed(bits: Word, change: Change, mask: Word): Word {
    match change
    case SetBits => Or(bits, mask)
    case ClrBits => And(bits, Not(mask))
    case NopBits => bits
  }

  /** A task in rt_bits_wait: its state word, what it waits for and what it does on leaving. */
  datatype Task = Task(id: nat, state: Word, test: Test, mask: Word, exit: Change, exitMask: Word)

  predicate Satisfied(bits: Word, t: Task) {
    Holds(bits, t.test, t.mask)
  }

  /** The elements of s with property p, in order. */
  function Filter<A>(s: seq<A>, p: A -> bool): seq<A> {
    if s == [] then []
    else
      var n := |s| - 1;
      Filter(s[..n], p) + if p(s[n]) then [s[n]] else []
  }

  function Met(bits: Word): Task -> bool {
    (t: Task) => Satisfied(bits, t)
  }

  function Unmet(bits: Word): Task -> bool {
    (t: Task) => !Satisfied(bits, t)
  }

  /** Those who go on waiting. */
  function Kept(ws: seq<Task>, bits: Word): seq<Task> {
    Filter(ws, Unmet(bits))
  }

  /** Those who are woken. */
  function Woken(ws: seq<Task>, bits: Word): seq<Task> {
    Filter(ws, Met(bits))
  }

  /** What waking does to a state word, and whether it makes the task runnable: line 268. */
  predicate Stirs(state: Word) {
    And(state, Not(Or(READY, RUNNING))) != ZERO
  }

  function StateAfter(state: Word): Word {
    if Stirs(state) then And(state, Not(Or(SEMAPHORE, DELAYED))) else state
  }

  predicate BecomesReady(state: Word) {
    Stirs(state) && StateAfter(state) == READY
  }

  function Ready(): Task -> bool {
    (t: Task) => BecomesReady(t.state)
  }

  function Readied(ws: seq<Task>): seq<Task> {
    Filter(ws, Ready())
  }

  /** A test is about the bits of its mask and nothing else: it holds exactly when all, or
      some, of the bits in the mask are set, or clear, among the flags. */
  lemma TestsBits(bits: Word, mask: Word)
    ensures Holds(bits, AllSet, mask) <==> forall i :: 0 <= i < 32 && mask[i] ==> bits[i]
    ensures Holds(bits, AnySet, mask) <==> exists i :: 0 <= i < 32 && mask[i] && bits[i]
    ensures Holds(bits, AllClr, mask) <==> forall i :: 0 <= i < 32 && mask[i] ==> !bits[i]
    ensures Holds(bits, AnyClr, mask) <==> exists i :: 0 <= i < 32 && mask[i] && !bits[i]
  {
    BitsInCommon(bits, mask);
    BitsInCommon(Not(bits), mask);
  }

  /** What a task waits for. */
  lemma SatisfiedExactly(bits: Word, t: Task)
    ensures Satisfied(bits, t) <==>
            match t.test
            case AllSet => forall i :: 0 <= i < 32 && t.mask[i] ==> bits[i]
            case AnySet => exists i :: 0 <= i < 32 && t.mask[i] && bits[i]
            case AllClr => forall i :: 0 <= i < 32 && t.mask[i] ==> !bits[i]
            case AnyClr => exists i :: 0 <= i < 32 && t.mask[i] && !bits[i]
  {
    TestsBits(bits, t.mask);
  }

  lemma BitsInCommon(a: Word, b: Word)
    ensures And(a, b) == b <==> forall i :: 0 <= i < 32 && b[i] ==> a[i]
    ensures And(a, b) != ZERO <==> exists i :: 0 <= i < 32 && b[i] && a[i]
  {
    if And(a, b) == b {
      forall i | 0 <= i < 32 && b[i] ensures a[i] {
        assert And(a, b)[i];
      }
    }
    if i :| 0 <= i < 32 && b[i] && a[i] {
      assert And(a, b)[i] && !ZERO[i];
    }
  }

  // ----- who is woken -----

  /** Positions of a sequence, in order. */
  predicate Increasing(idx: seq<nat>, bound: nat) {
    && (forall i :: 0 <= i < |idx| ==> idx[i] < bound)
    && (forall i, j :: 0 <= i < j < |idx| ==> idx[i] < idx[j])
  }

  predicate Selects<A(==)>(part: seq<A>, s: seq<A>, idx: seq<nat>) {
    && |part| == |idx| && Increasing(idx, |s|)
    && forall i :: 0 <= i < |idx| ==> part[i] == s[idx[i]]
  }

  lemma SelectsMore<A>(part: seq<A>, s: seq<A>, idx: seq<nat>, n: nat)
    requires n < |s| && Selects(part, s[..n], idx)
    ensures Selects(part, s, idx) && n !in idx
    ensures Selects(part + [s[n]], s, idx + [n])
  {}

  /** A filtered sequence has exactly the elements with the property, in their old order. */
  lemma {:induction false} FilterExactly<A>(s: seq<A>, p: A -> bool) returns (idx: seq<nat>)
    ensures Selects(Filter(s, p), s, idx)
    ensures forall k :: 0 <= k < |s| ==> (k in idx <==> p(s[k]))
  {
    idx := [];
    if s != [] {
      var n := |s| - 1;
      idx := FilterExactly(s[..n], p);
      var part := Filter(s[..n], p);
      SelectsMore(part, s, idx, n);
      forall k | 0 <= k < n ensures k in idx <==> p(s[k]) {
        assert s[..n][k] == s[k];
      }
      if p(s[n]) {
        assert forall k :: 0 <= k < n ==> (k in idx + [n] <==> k in idx);
        idx := idx + [n];
      } else {
        assert part + [] == part;
      }
    }
  }

  lemma FilterOneMore<A>(s: seq<A>, k: nat, p: A -> bool)
    requires k < |s|
    ensures Filter(s[..k + 1], p) == Filter(s[..k], p) + if p(s[k]) then [s[k]] else []
  {
    assert s[..k + 1][..k] == s[..k];
  }

  function Once<A>(b: bool, a: A): multiset<A> {
    if b then multiset{a} else multiset{}
  }

  lemma FilterLast<A>(s: seq<A>, p: A -> bool)
    requires s != []
    ensures var n := |s| - 1; multiset(Filter(s, p)) == multiset(Filter(s[..n], p)) + Once(p(s[n]), s[n])
  {
    var n := |s| - 1;
    if p(s[n]) {
      assert Filter(s, p) == Filter(s[..n], p) + [s[n]];
    } else {
      assert Filter(s, p) == Filter(s[..n], p) + [] == Filter(s[..n], p);
    }
  }

  lemma WithLast<A>(s: seq<A>)
    requires s != []
    ensures multiset(s) == multiset(s[..|s| - 1]) + multiset{s[|s| - 1]}
  {
    assert s == s[..|s| - 1] + [s[|s| - 1]];
  }

  lemma {:induction false} FilterConserves<A>(s: seq<A>, p: A -> bool, q: A -> bool)
    requires forall a :: a in s ==> p(a) == !q(a)
    ensures multiset(Filter(s, p)) + multiset(Filter(s, q)) == multiset(s)
  {
    if s != [] {
      FilterConserves(s[..|s| - 1], p, q);
      FilterLast(s, p);
      FilterLast(s, q);
      WithLast(s);
    }
  }

  /** The waiters that stay are exactly those whose test fails, in their old order. */
  lemma KeptExactly(ws: seq<Task>, bits: Word) returns (idx: seq<nat>)
    ensures Selects(Kept(ws, bits), ws, idx)
    ensures forall k :: 0 <= k < |ws| ==> (k in idx <==> !Satisfied(bits, ws[k]))
  {
    idx := FilterExactly(ws, Unmet(bits));
  }

  /** The woken ones are exactly those whose test holds, each once and in order. */
  lemma WokenExactly(ws: seq<Task>, bits: Word) returns (idx: seq<nat>)
    ensures Selects(Woken(ws, bits), ws, idx)
    ensures forall k :: 0 <= k < |ws| ==> (k in idx <==> Satisfied(bits, ws[k]))
  {
    idx := FilterExactly(ws, Met(bits));
  }

  /** Nobody is lost and nobody counted twice. */
  lemma SplitConserves(ws: seq<Task>, bits: Word)
    ensures multiset(Kept(ws, bits)) + multiset(Woken(ws, bits)) == multiset(ws)
  {
    FilterConserves(ws, Unmet(bits), Met(bits));
  }

  /** What a change makes of one flag, set or clear, in the mask or not. */
  function NewFlag(flag: bool, change: Change, masked: bool): bool {
    match change
    case SetBits => flag || masked
    case ClrBits => flag && !masked
    case NopBits => flag
  }

  /** A change treats each flag by itself: those outside the mask stay, those in it are all
      set, or all cleared. */
  lemma ChangesBits(bits: Word, change: Change, mask: Word)
    ensures forall i :: 0 <= i < 32 ==> Changed(bits, change, mask)[i] == NewFlag(bits[i], change, mask[i])
    ensures forall i :: 0 <= i < 32 && !mask[i] ==> Changed(bits, change, mask)[i] == bits[i]
    ensures forall i :: 0 <= i < 32 && mask[i] && change != NopBits ==>
              Changed(bits, change, mask)[i] == (change == SetBits)
  {}

  /** What waking makes of a state word, bit by bit: SEMAPHORE and DELAYED are cleared where
      any bit but READY and RUNNING is set. */
  lemma StateBits(state: Word)
    ensures forall i :: 0 <= i < 32 ==> (StateAfter(state)[i] <==> state[i] && i != 2 && i != 3)
  {
    var rest := And(state, Not(Or(READY, RUNNING)));
    assert forall i :: 0 <= i < 32 ==> (rest[i] <==> state[i] && i != 0 && i != 8);
    if state[2] || state[3] {
      assert rest[2] || rest[3];
    }
  }

  /** A waiter becomes runnable exactly when it waits for nothing else: its state is READY
      with one or both of the bits SEMAPHORE and DELAYED. */
  lemma ReadyExactly(state: Word)
    ensures BecomesReady(state) <==>
              && state[0] && (state[2] || state[3])
              && forall i :: 0 <= i < 32 && i != 0 && i != 2 && i != 3 ==> !state[i]
  {
    var rest, left := And(state, Not(Or(READY, RUNNING))), And(state, Not(Or(SEMAPHORE, DELAYED)));
    assert forall i :: 0 <= i < 32 ==> (rest[i] <==> state[i] && i != 0 && i != 8);
    assert forall i :: 0 <= i < 32 ==> (left[i] <==> state[i] && i != 2 && i != 3);
    assert forall i :: 0 <= i < 32 ==> (READY[i] <==> i == 0);
    if state[2] || state[3] {
      assert rest[2] || rest[3];
      assert Stirs(state);
    } else if left == READY {
      assert rest == ZERO;
    }
  }

  /** The tasks made ready are exactly those of a sequence that wait for nothing else, each once
      and in order. */
  lemma ReadiedExactly(ws: seq<Task>) returns (idx: seq<nat>)
    ensures Selects(Readied(ws), ws, idx)
    ensures forall k :: 0 <= k < |ws| ==> (k in idx <==> BecomesReady(ws[k].state))
  {
    idx := FilterExactly(ws, Ready());
  }

  // ----- runs -----

  /** The Word, those who wait and those who were woken and have yet to run their exit
      function. */
  datatype World = World(bits: Word, waiters: seq<Task>, leaving: multiset<Task>)

  datatype Event =
    | Signal(change: Change, mask: Word)
    | Reset(bits: Word)
    | Wait(t: Task)
    | WaitIf(test: Test, mask: Word, exit: Change, exitMask: Word)
    | Leave(t: Task)

  predicate Enabled(w: World, e: Event) {
    e.Leave? ==> e.t in w.leaving
  }

  function Queueing(t: Task): Task {
    t.(state := Or(t.state, SEMAPHORE))
  }

  function After(w: World, e: Event): World {
    match e
    case Signal(change, mask) =>
      var bits := Changed(w.bits, change, mask);
      World(bits, Kept(w.waiters, bits), w.leaving + multiset(Woken(w.waiters, bits)))
    case Reset(bits) => World(bits, [], w.leaving + multiset(w.waiters))
    case Wait(t) =>
      if Satisfied(w.bits, t) then w.(bits := Changed(w.bits, t.exit, t.exitMask))
      else w.(waiters := w.waiters + [Queueing(t)])
    case WaitIf(test, mask, exit, exitMask) =>
      if Holds(w.bits, test, mask) then w.(bits := Changed(w.bits, exit, exitMask)) else w
    case Leave(t) => World(Changed(w.bits, t.exit, t.exitMask), w.waiters, w.leaving - multiset{t})
  }

  ghost predicate Run(bits: Word, events: seq<Event>, w: World) {
    if events == [] then w == World(bits, [], multiset{})
    else
      var n := |events| - 1;
      exists before :: Run(bits, events[..n], before) && Enabled(before, events[n]) && w == After(before, events[n])
  }

  /** No queued waiter's test holds. */
  predicate Quiet(ws: seq<Task>, bits: Word) {
    forall i :: 0 <= i < |ws| ==> !Satisfied(bits, ws[i])
  }

  lemma KeptIsQuiet(ws: seq<Task>, bits: Word)
    ensures Quiet(Kept(ws, bits), bits)
  {
    var idx := KeptExactly(ws, bits);
    forall i | 0 <= i < |idx| ensures !Satisfied(bits, Kept(ws, bits)[i]) {
      assert idx[i] in idx;
    }
  }

  /** Signals, resets and new waiters keep the queue quiet; so does an exit function that
      leaves the flags as they are. */
  predicate Undisturbed(w: World, e: Event) {
    match e
    case Signal(_, _) => true
    case Reset(_) => true
    case _ => After(w, e).bits == w.bits
  }

  lemma StepIsQuiet(w: World, e: Event)
    requires Quiet(w.waiters, w.bits) && Undisturbed(w, e)
    ensures Quiet(After(w, e).waiters, After(w, e).bits)
  {
    if e.Signal? {
      KeptIsQuiet(w.waiters, Changed(w.bits, e.change, e.mask));
    }
  }

  predicate NoExit(e: Event) {
    match e
    case Wait(t) => t.exit.NopBits?
    case WaitIf(_, _, exit, _) => exit.NopBits?
    case _ => true
  }

  lemma {:induction false} WokenNop(ws: seq<Task>, bits: Word)
    requires forall i :: 0 <= i < |ws| ==> ws[i].exit.NopBits?
    ensures forall i :: 0 <= i < |Kept(ws, bits)| ==> Kept(ws, bits)[i].exit.NopBits?
    ensures forall t :: t in multiset(Woken(ws, bits)) ==> t.exit.NopBits?
  {
    var kept := KeptExactly(ws, bits);
    var woken := WokenExactly(ws, bits);
    forall t | t in multiset(Woken(ws, bits)) ensures t.exit.NopBits? {
      assert t in Woken(ws, bits);
    }
  }

  /** All exit functions that have yet to run are NOP_BITS. */
  predicate OnlyNop(w: World) {
    && (forall i :: 0 <= i < |w.waiters| ==> w.waiters[i].exit.NopBits?)
    && (forall t :: t in w.leaving ==> t.exit.NopBits?)
  }

  lemma StepIsNop(w: World, e: Event)
    requires OnlyNop(w) && NoExit(e) && Enabled(w, e)
    ensures OnlyNop(After(w, e)) && Undisturbed(w, e)
  {
    match e
    case Signal(change, mask) => WokenNop(w.waiters, Changed(w.bits, change, mask));
    case Reset(_) => forall t | t in multiset(w.waiters) ensures t.exit.NopBits? { assert t in w.waiters; }
    case _ =>
  }

  /** When all exit functions are NOP_BITS, no queued waiter's test ever holds. */
  lemma {:induction false} NobodyWaitsInVain(bits: Word, events: seq<Event>, w: World)
    requires Run(bits, events, w) && forall i :: 0 <= i < |events| ==> NoExit(events[i])
    ensures Quiet(w.waiters, w.bits) && OnlyNop(w)
    decreases |events|
  {
    if events != [] {
      var n := |events| - 1;
      var before :| Run(bits, events[..n], before) && Enabled(before, events[n]) && w == After(before, events[n]);
      assert forall i :: 0 <= i < n ==> events[..n][i] == events[i];
      NobodyWaitsInVain(bits, events[..n], before);
      StepIsNop(before, events[n]);
      StepIsQuiet(before, events[n]);
    }
  }

  /** Every task that queued is waiting or leaving, exactly once, until it has left. */
  lemma StepConserves(w: World, e: Event)
    requires Enabled(w, e)
    ensures var w' := After(w, e);
            multiset(w'.waiters) + w'.leaving
            == match e
               case Wait(t) =>
                 if Satisfied(w.bits, t) then multiset(w.waiters) + w.leaving
                 else multiset(w.waiters) + w.leaving + multiset{Queueing(t)}
               case Leave(t) => multiset(w.waiters) + w.leaving - multiset{t}
               case _ => multiset(w.waiters) + w.leaving
  {
    if e.Signal? {
      SplitConserves(w.waiters, Changed(w.bits, e.change, e.mask));
    }
  }

  /** The flags after each event, one by one. A wait that finds its test true runs its exit
      function at once, one that does not leaves the flags alone; a woken task runs it on
      leaving. */
  lemma FlagsAfter(w: World, e: Event, i: nat)
    requires Enabled(w, e) && i < 32
    ensures After(w, e).bits[i] ==
            match e
            case Signal(change, mask) => NewFlag(w.bits[i], change, mask[i])
            case Reset(bits) => bits[i]
            case Wait(t) =>
              if Satisfied(w.bits, t) then NewFlag(w.bits[i], t.exit, t.exitMask[i]) else w.bits[i]
            case WaitIf(test, mask, exit, exitMask) =>
              if Holds(w.bits, test, mask) then NewFlag(w.bits[i], exit, exitMask[i]) else w.bits[i]
            case Leave(t) => NewFlag(w.bits[i], t.exit, t.exitMask[i])
  {
    match e
    case Signal(change, mask) => ChangesBits(w.bits, change, mask);
    case Reset(_) =>
    case Wait(t) => ChangesBits(w.bits, t.exit, t.exitMask);
    case WaitIf(_, _, exit, exitMask) => ChangesBits(w.bits, exit, exitMask);
    case Leave(t) => ChangesBits(w.bits, t.exit, t.exitMask);
  }

  /** The queue after each event: a signal leaves exactly those whose test fails under the new
      flags, a reset nobody, a wait that sleeps adds one at the end; nothing else changes it. */
  lemma QueueAfter(w: World, e: Event) returns (idx: seq<nat>)
    requires Enabled(w, e)
    ensures var ws, w' := w.waiters, After(w, e);
            if e.Wait? && !Satisfied(w.bits, e.t) then |w'.waiters| == |ws| + 1 && w'.waiters[..|ws|] == ws
            else
              && Selects(w'.waiters, ws, idx)
              && forall k :: 0 <= k < |ws| ==>
                   (k in idx <==> if e.Signal? then !Satisfied(w'.bits, ws[k]) else !e.Reset?)
  {
    idx := if e.Reset? then [] else seq(|w.waiters|, k => k);
    if e.Signal? {
      idx := KeptExactly(w.waiters, After(w, e).bits);
    } else if !e.Reset? {
      forall k | 0 <= k < |w.waiters| ensures k in idx {
        assert idx[k] == k;
      }
      assert e.Wait? && !Satisfied(w.bits, e.t) ==> After(w, e).waiters[..|w.waiters|] == w.waiters;
    }
  }

  // ----- who queues, and who becomes runnable -----

  /** q is t in the queue: bit 3 of its state word is set, and nothing else is different. */
  predicate QueuedAs(t: Task, q: Task) {
    && q.id == t.id && q.test == t.test && q.mask == t.mask && q.exit == t.exit && q.exitMask == t.exitMask
    && forall i :: 0 <= i < 32 ==> (q.state[i] <==> t.state[i] || i == 3)
  }

  /** The queue ws holds tasks of the calls of rt_bits_wait at these places, in this order. */
  predicate InOrder(events: seq<Event>, ws: seq<Task>, idx: seq<nat>) {
    && |idx| == |ws| && Increasing(idx, |events|)
    && forall k :: 0 <= k < |idx| ==> events[idx[k]].Wait? && QueuedAs(events[idx[k]].t, ws[k])
  }

  lemma PartInOrder(events: seq<Event>, ws: seq<Task>, idx: seq<nat>, part: seq<Task>, kept: seq<nat>)
    returns (idx': seq<nat>)
    requires InOrder(events, ws, idx) && Selects(part, ws, kept)
    ensures InOrder(events, part, idx')
  {
    idx' := seq(|kept|, k requires 0 <= k < |kept| => idx[kept[k]]);
  }

  lemma LaterInOrder(events: seq<Event>, ws: seq<Task>, idx: seq<nat>)
    requires events != [] && InOrder(events[..|events| - 1], ws, idx)
    ensures InOrder(events, ws, idx)
  {}

  lemma LastInOrder(events: seq<Event>, ws: seq<Task>, idx: seq<nat>, t: Task)
    requires events != [] && InOrder(events[..|events| - 1], ws, idx) && events[|events| - 1] == Wait(t)
    ensures InOrder(events, ws + [Queueing(t)], idx + [|events| - 1])
  {}

  lemma StepInOrder(events: seq<Event>, w: World, idx: seq<nat>) returns (idx': seq<nat>)
    requires events != [] && Enabled(w, events[|events| - 1])
    requires InOrder(events[..|events| - 1], w.waiters, idx)
    ensures InOrder(events, After(w, events[|events| - 1]).waiters, idx')
  {
    var n := |events| - 1;
    var w' := After(w, events[n]);
    idx' := idx;
    match events[n]
    case Signal(change, mask) =>
      var kept := KeptExactly(w.waiters, Changed(w.bits, change, mask));
      idx' := PartInOrder(events[..n], w.waiters, idx, w'.waiters, kept);
      LaterInOrder(events, w'.waiters, idx');
    case Reset(_) => idx' := [];
    case Wait(t) =>
      if Satisfied(w.bits, t) {
        LaterInOrder(events, w'.waiters, idx);
      } else {
        LastInOrder(events, w.waiters, idx, t);
        idx' := idx + [n];
      }
    case _ => LaterInOrder(events, w'.waiters, idx);
  }

  lemma {:induction false} QueueInOrder(bits: Word, events: seq<Event>, w: World) returns (idx: seq<nat>)
    requires Run(bits, events, w)
    ensures InOrder(events, w.waiters, idx)
    decreases |events|
  {
    idx := [];
    if events != [] {
      var n := |events| - 1;
      var before :| Run(bits, events[..n], before) && Enabled(before, events[n]) && w == After(before, events[n]);
      idx := QueueInOrder(bits, events[..n], before);
      idx := StepInOrder(events, before, idx);
    }
  }

  /** A task that queues while nothing but the flags, and perhaps a time limit, keeps it from
      running is made ready by the signal that makes its test true, or by a reset. */
  lemma WokenIsReadied(bits: Word, events: seq<Event>, w: World, q: Task, t: Task, e: Event)
    requires Run(bits, events, w) && q in w.waiters && QueuedAs(t, q)
    requires t.state[0] && forall i :: 0 <= i < 32 && i != 0 && i != 2 ==> !t.state[i]
    requires e.Reset? || (e.Signal? && Satisfied(Changed(w.bits, e.change, e.mask), q))
    ensures q !in After(w, e).waiters && q in After(w, e).leaving
    ensures q in Readied(if e.Reset? then w.waiters else Woken(w.waiters, Changed(w.bits, e.change, e.mask)))
  {
    ReadyExactly(q.state);
    var woken := if e.Reset? then w.waiters else Woken(w.waiters, Changed(w.bits, e.change, e.mask));
    var k :| 0 <= k < |w.waiters| && w.waiters[k] == q;
    if e.Signal? {
      IsFiltered(w.waiters, Met(After(w, e).bits), k);
      FilteredHas(w.waiters, Unmet(After(w, e).bits));
    }
    var j :| 0 <= j < |woken| && woken[j] == q;
    IsFiltered(woken, Ready(), j);
    assert q in multiset(woken);
  }

  lemma IsFiltered<A>(s: seq<A>, p: A -> bool, k: nat)
    requires k < |s| && p(s[k])
    ensures s[k] in Filter(s, p)
  {
    var idx := FilterExactly(s, p);
    var j :| 0 <= j < |idx| && idx[j] == k;
    assert Filter(s, p)[j] == s[k];
  }

  lemma FilteredHas<A>(s: seq<A>, p: A -> bool)
    ensures forall a :: a in Filter(s, p) ==> p(a)
  {
    var idx := FilterExactly(s, p);
    forall j | 0 <= j < |idx| ensures p(Filter(s, p)[j]) {
      assert idx[j] in idx;
    }
  }

  // ----- exit functions that change the Word -----

  /** What a caller can check: the bits are already as the exit function would make them. */
  predicate ChangesNothing(bits: Word, change: Change, mask: Word) {
    match change
    case SetBits => And(mask, Not(bits)) == ZERO
    case ClrBits => And(mask, bits) == ZERO
    case NopBits => true
  }

  lemma ChangesNothingExactly(bits: Word, change: Change, mask: Word)
    ensures ChangesNothing(bits, change, mask) <==> Changed(bits, change, mask) == bits
  {
    SettingSetBits(bits, mask);
    ClearingClearBits(bits, mask);
  }

  lemma SettingSetBits(bits: Word, mask: Word)
    ensures And(mask, Not(bits)) == ZERO <==> Or(bits, mask) == bits
    ensures And(bits, And(mask, Not(bits))) == ZERO
    ensures And(Or(bits, mask), And(mask, Not(bits))) == And(mask, Not(bits))
  {
    forall i | 0 <= i < 32
      ensures And(mask, Not(bits))[i] <==> mask[i] && !bits[i]
      ensures Or(bits, mask)[i] <==> bits[i] || mask[i]
    {}
  }

  lemma ClearingClearBits(bits: Word, mask: Word)
    ensures And(mask, bits) == ZERO <==> And(bits, Not(mask)) == bits
    ensures And(Not(bits), And(mask, bits)) == ZERO
    ensures And(Not(And(bits, Not(mask))), And(mask, bits)) == And(mask, bits)
  {
    forall i | 0 <= i < 32
      ensures And(mask, bits)[i] <==> mask[i] && bits[i]
      ensures And(bits, Not(mask))[i] <==> bits[i] && !mask[i]
    {}
  }

  /** Every queue that is quiet under the first flags is quiet under the second. */
  ghost predicate KeepsQuiet(bits: Word, bits': Word) {
    forall ws :: Quiet(ws, bits) ==> Quiet(ws, bits')
  }

  /** A waiter for just the bits d, which were not as it wants them and now are. */
  lemma Strands(bits: Word, bits': Word, test: Test, d: Word)
    requires !Holds(bits, test, d) && Holds(bits', test, d)
    ensures !KeepsQuiet(bits, bits')
  {
    var ws := [Task(0, READY, test, d, NopBits, ZERO)];
    assert Quiet(ws, bits) && !Satisfied(bits, ws[0]) && Satisfied(bits', ws[0]);
  }

  lemma SettingStrands(bits: Word, mask: Word)
    requires And(mask, Not(bits)) != ZERO
    ensures !KeepsQuiet(bits, Changed(bits, SetBits, mask))
  {
    SettingSetBits(bits, mask);
    Strands(bits, Or(bits, mask), AnySet, And(mask, Not(bits)));
  }

  lemma ClearingStrands(bits: Word, mask: Word)
    requires And(mask, bits) != ZERO
    ensures !KeepsQuiet(bits, Changed(bits, ClrBits, mask))
  {
    ClearingClearBits(bits, mask);
    Strands(bits, And(bits, Not(mask)), AnyClr, And(mask, bits));
  }

  /** Nobody looks at the queue after an exit function. It leaves every quiet queue quiet
      exactly when it changes nothing. */
  lemma HarmlessExits(bits: Word, exit: Change, mask: Word)
    ensures ChangesNothing(bits, exit, mask) <==> KeepsQuiet(bits, Changed(bits, exit, mask))
  {
    match exit
    case SetBits =>
      ChangesNothingExactly(bits, SetBits, mask);
      if !ChangesNothing(bits, SetBits, mask) { SettingStrands(bits, mask); }
    case ClrBits =>
      ChangesNothingExactly(bits, ClrBits, mask);
      if !ChangesNothing(bits, ClrBits, mask) { ClearingStrands(bits, mask); }
    case NopBits =>
  }

  // A run in which it happens: one task waits for bit 0 and clears it on leaving, another
  // comes in between and waits for bit 0 to be clear.

  const ONE := Only(0)

  const FIRST := Task(1, READY, AnySet, ONE, ClrBits, ONE)

  const SECOND := Task(2, READY, AnyClr, ONE, NopBits, ZERO)

  lemma BitZero()
    ensures And(ZERO, ONE) == ZERO && Or(ZERO, ONE) == ONE && And(ONE, ONE) == ONE
    ensures And(Not(ONE), ONE) == ZERO && And(ONE, Not(ONE)) == ZERO && And(Not(ZERO), ONE) == ONE
    ensures ONE != ZERO
  {
    assert ONE[0] && !ZERO[0];
  }

  lemma FirstQueues()
    ensures After(World(ZERO, [], multiset{}), Wait(FIRST)) == World(ZERO, [Queueing(FIRST)], multiset{})
  {
    BitZero();
  }

  lemma FirstIsWoken()
    ensures After(World(ZERO, [Queueing(FIRST)], multiset{}), Signal(SetBits, ONE))
         == World(ONE, [], multiset{Queueing(FIRST)})
  {
    BitZero();
    var ws := [Queueing(FIRST)];
    assert ws[..0] == [];
    assert Satisfied(ONE, ws[0]);
    assert Kept(ws, ONE) == Kept(ws[..0], ONE) + [];
    assert Woken(ws, ONE) == Woken(ws[..0], ONE) + [ws[0]];
  }

  lemma SecondQueues()
    ensures After(World(ONE, [], multiset{Queueing(FIRST)}), Wait(SECOND))
         == World(ONE, [Queueing(SECOND)], multiset{Queueing(FIRST)})
  {
    BitZero();
  }

  lemma FirstLeaves()
    ensures Enabled(World(ONE, [Queueing(SECOND)], multiset{Queueing(FIRST)}), Leave(Queueing(FIRST)))
    ensures After(World(ONE, [Queueing(SECOND)], multiset{Queueing(FIRST)}), Leave(Queueing(FIRST)))
         == World(ZERO, [Queueing(SECOND)], multiset{})
    ensures Satisfied(ZERO, Queueing(SECOND))
  {
    BitZero();
  }

  lemma AWaiterIsStranded() returns (events: seq<Event>)
    ensures Run(ZERO, events, World(ZERO, [Queueing(SECOND)], multiset{}))
    ensures Satisfied(ZERO, Queueing(SECOND))
  {
    var w := World(ZERO, [], multiset{});
    FirstQueues();
    events, w := Extend(ZERO, [], w, Wait(FIRST));
    FirstIsWoken();
    events, w := Extend(ZERO, events, w, Signal(SetBits, ONE));
    SecondQueues();
    events, w := Extend(ZERO, events, w, Wait(SECOND));
    FirstLeaves();
    events, w := Extend(ZERO, events, w, Leave(Queueing(FIRST)));
  }

  lemma Extend(bits: Word, events: seq<Event>, w: World, e: Event) returns (events': seq<Event>, w': World)
    requires Run(bits, events, w) && Enabled(w, e)
    ensures w' == After(w, e) && Run(bits, events', w')
  {
    events', w' := events + [e], After(w, e);
    assert events'[..|events|] == events;
  }
}

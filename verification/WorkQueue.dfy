/**
  The work queue between the application and the helper thread of a unit: a ring buffer, and the
  monitor around it whose condition variables are signalled only when the queue stops being empty
  and when it stops being full.
 */
module WorkQueue {

  const MAXNUM_WORK_ITEMS := 1024
  const WORK_NONE := 1

  datatype Item = Item(selector: int, buf: int, nbytes: nat, unit: int, team: int, gptr: int, handle: int)

  const HELPER: nat := 0

  /** Whether a push or a pop that leaves n items signals the other side. */
  predicate Crossed(t: nat, n: nat) {
    if t == HELPER then n == MAXNUM_WORK_ITEMS - 1 else n == 1
  }

  // ---------- The ring ----------

  datatype RingFields = RingFields(work: seq<Item>, nitems: nat, nextPush: nat, nextPop: nat)

  predicate Proper(r: RingFields) {
    && |r.work| == MAXNUM_WORK_ITEMS && r.nitems <= MAXNUM_WORK_ITEMS
    && r.nextPop < MAXNUM_WORK_ITEMS && r.nextPush == (r.nextPop + r.nitems) % MAXNUM_WORK_ITEMS
  }

  /** The fields of the queue as pushing and popping keep them. */
  type RingValue = r: RingFields | Proper(r) witness EmptyFields()

  function EmptyFields(): RingFields {
    RingFields(seq(MAXNUM_WORK_ITEMS, i => Item(WORK_NONE, 0, 0, 0, 0, 0, 0)), 0, 0, 0)
  }

  function EmptyRing(): RingValue { EmptyFields() }

  /** The items from the oldest to the youngest. */
  function Contents(r: RingValue): (c: seq<Item>)
    ensures |c| == r.nitems
  {
    seq(r.nitems, i requires 0 <= i < r.nitems => r.work[(r.nextPop + i) % MAXNUM_WORK_ITEMS])
  }

  function AfterPop(r: RingValue): RingValue
    requires r.nitems > 0
  {
    r.(nextPop := (r.nextPop + 1) % MAXNUM_WORK_ITEMS, nitems := r.nitems - 1)
  }

  function AfterPush(r: RingValue, item: Item): RingValue
    requires r.nitems < MAXNUM_WORK_ITEMS
  {
    r.(work := r.work[r.nextPush := item], nextPush := (r.nextPush + 1) % MAXNUM_WORK_ITEMS, nitems := r.nitems + 1)
  }

  /** A slot counted from one place on is the same slot counted from the next. */
  lemma NextSlot(p: nat, i: nat)
    ensures ((p + 1) % MAXNUM_WORK_ITEMS + i) % MAXNUM_WORK_ITEMS == (p + i + 1) % MAXNUM_WORK_ITEMS
  {
  }

  /** Two items of a ring are in two slots. */
  lemma SlotsDiffer(p: nat, i: nat, n: nat)
    requires p < MAXNUM_WORK_ITEMS && i < n < MAXNUM_WORK_ITEMS
    ensures (p + i) % MAXNUM_WORK_ITEMS != (p + n) % MAXNUM_WORK_ITEMS
  {
  }

  /** Popping takes out the oldest item. */
  lemma PopTakesOldest(r: RingValue)
    requires r.nitems > 0
    ensures [r.work[r.nextPop]] + Contents(AfterPop(r)) == Contents(r)
  {
    forall i | 0 <= i < r.nitems - 1 ensures Contents(AfterPop(r))[i] == Contents(r)[i + 1] {
      NextSlot(r.nextPop, i);
    }
  }

  /** Pushing appends an item and overwrites none. */
  lemma PushAppends(r: RingValue, item: Item)
    requires r.nitems < MAXNUM_WORK_ITEMS
    ensures Contents(AfterPush(r, item)) == Contents(r) + [item]
  {
    forall i | 0 <= i < r.nitems ensures Contents(AfterPush(r, item))[i] == Contents(r)[i] {
      SlotsDiffer(r.nextPop, i, r.nitems);
    }
  }

  class Ring {
    const work: array<Item>
    var nitems: nat
    var nextPush: nat
    var nextPop: nat

    ghost function Fields(): RingFields
      reads this, work
    {
      RingFields(work[..], nitems, nextPush, nextPop)
    }

    ghost predicate Valid()
      reads this, work
    {
      Proper(Fields())
    }

    constructor ()
      ensures Valid() && Fields() == EmptyRing() && fresh(work)
    {
      work := new Item[MAXNUM_WORK_ITEMS](_ => Item(WORK_NONE, 0, 0, 0, 0, 0, 0));
      nitems, nextPush, nextPop := 0, 0, 0;
      new;
      assert work[..] == EmptyFields().work;
    }

    method Pop() returns (item: Item, signal: bool)
      requires Valid() && nitems > 0
      modifies this
      ensures Valid() && Fields() == AfterPop(old(Fields())) && item == old(work[nextPop])
      ensures [item] + Contents(Fields()) == Contents(old(Fields()))
      ensures signal <==> Crossed(HELPER, nitems)
    {
      PopTakesOldest(Fields());
      item := work[nextPop];
      nextPop := (nextPop + 1) % MAXNUM_WORK_ITEMS;
      nitems := nitems - 1;
      signal := nitems == MAXNUM_WORK_ITEMS - 1;
    }

    method Push(item: Item) returns (signal: bool)
      requires Valid() && nitems < MAXNUM_WORK_ITEMS
      modifies this, work
      ensures Valid() && Fields() == AfterPush(old(Fields()), item)
      ensures Contents(Fields()) == Contents(old(Fields())) + [item]
      ensures forall t :: t != HELPER ==> (signal <==> Crossed(t, nitems))
    {
      PushAppends(Fields(), item);
      work[nextPush] := item;
      nextPush := (nextPush + 1) % MAXNUM_WORK_ITEMS;
      nitems := nitems + 1;
      signal := nitems == 1;
    }
  }

  // ---------- The monitor ----------

  datatype Phase =
    | Idle         // not inside a call
    | Testing      // holds the lock, about to test the loop condition
    | Asleep       // waiting on its condition variable, the lock released
    | Woken        // signalled or woken without reason, the lock not yet taken back
    | Signalling   // has pushed or popped, about to signal if that crossed a boundary
    | Unlocking    // only the lock is left to release

  predicate HoldsLock(p: Phase) {
    p.Testing? || p.Signalling? || p.Unlocking?
  }

  const FREE := -1

  /** Thread 0 is the helper, all others are producers; `pushed` and `popped` are the history. */
  datatype State = State(lock: int, phase: seq<Phase>, ring: RingValue, pushed: seq<Item>, popped: seq<Item>)

  /** `who` is the thread that a signal wakes, if one is asleep there. */
  datatype Action =
    | Call(thread: nat)
    | Test(thread: nat, item: Item)
    | Signal(thread: nat, who: nat)
    | Unlock(thread: nat)
    | Resume(thread: nat)
    | Spurious(thread: nat)

  function Init(producers: nat): (s: State)
    ensures |s.phase| == producers + 1 && forall t :: 0 <= t <= producers ==> s.phase[t].Idle?
  {
    State(FREE, seq(producers + 1, i => Idle), EmptyRing(), [], [])
  }

  /** The loop condition: the helper sleeps on an empty queue, a producer on a full one. */
  predicate Blocked(t: nat, n: nat) {
    if t == HELPER then n == 0 else n >= MAXNUM_WORK_ITEMS
  }

  /** The thread waits on the condition variable that t signals. */
  predicate WaitsFor(s: State, t: nat, who: nat) {
    who < |s.phase| && s.phase[who].Asleep? && (t == HELPER <==> who != HELPER)
  }

  predicate Enabled(s: State, a: Action) {
    var t := a.thread;
    t < |s.phase| &&
    match a
    case Call(_) => s.phase[t].Idle? && s.lock == FREE
    case Test(_, _) => s.phase[t].Testing?
    case Signal(_, who) =>
      s.phase[t].Signalling? && (WaitsFor(s, t, who) || forall w: nat :: w < |s.phase| ==> !WaitsFor(s, t, w))
    case Unlock(_) => s.phase[t].Unlocking?
    case Resume(_) => s.phase[t].Woken? && s.lock == FREE
    case Spurious(_) => s.phase[t].Asleep?
  }

  function Apply(s: State, a: Action): State
    requires Enabled(s, a)
  {
    var t := a.thread;
    match a
    case Call(_) => s.(lock := t, phase := s.phase[t := Testing])
    case Test(_, item) =>
      if Blocked(t, s.ring.nitems) then s.(lock := FREE, phase := s.phase[t := Asleep])
      else if t == HELPER then
        s.(ring := AfterPop(s.ring), popped := s.popped + [s.ring.work[s.ring.nextPop]],
           phase := s.phase[t := Signalling])
      else
        s.(ring := AfterPush(s.ring, item), pushed := s.pushed + [item], phase := s.phase[t := Signalling])
    case Signal(_, who) =>
      var phase := if Crossed(t, s.ring.nitems) && WaitsFor(s, t, who) then s.phase[who := Woken] else s.phase;
      s.(phase := phase[t := Unlocking])
    case Unlock(_) => s.(lock := FREE, phase := s.phase[t := Idle])
    case Resume(_) => s.(lock := t, phase := s.phase[t := Testing])
    case Spurious(_) => s.(phase := s.phase[t := Woken])
  }

  ghost predicate IsRun(s: State, run: seq<Action>)
    decreases |run|
  {
    run != [] ==> Enabled(s, run[0]) && IsRun(Apply(s, run[0]), run[1..])
  }

  ghost function After(s: State, run: seq<Action>): State
    requires IsRun(s, run)
    decreases |run|
  {
    if run == [] then s else After(Apply(s, run[0]), run[1..])
  }

  lemma {:induction false} RunAppend(s: State, run: seq<Action>, a: Action)
    requires IsRun(s, run) && Enabled(After(s, run), a)
    ensures IsRun(s, run + [a]) && After(s, run + [a]) == Apply(After(s, run), a)
    decreases |run|
  {
    if run == [] {
      assert [] + [a] == [a];
    } else {
      RunAppend(Apply(s, run[0]), run[1..], a);
      assert (run + [a])[1..] == run[1..] + [a];
    }
  }

  ghost predicate Leads(producers: nat, run: seq<Action>, s: State) {
    IsRun(Init(producers), run) && After(Init(producers), run) == s
  }

  ghost predicate Reachable(producers: nat, s: State) {
    exists run :: Leads(producers, run, s)
  }

  lemma Reach(producers: nat, s: State, a: Action)
    requires Reachable(producers, s) && Enabled(s, a)
    ensures Reachable(producers, Apply(s, a))
  {
    hide Enabled, Apply;
    var run :| Leads(producers, run, s);
    RunAppend(Init(producers), run, a);
    assert Leads(producers, run + [a], Apply(s, a));
  }

  // ---------- First in, first out ----------

  ghost predicate Orderly(s: State) {
    && (forall t :: 0 <= t < |s.phase| ==> (HoldsLock(s.phase[t]) <==> s.lock == t))
    && |s.phase| > 0 && FREE <= s.lock < |s.phase|
    && s.pushed == s.popped + Contents(s.ring)
    && (forall t :: 0 <= t < |s.phase| && s.phase[t].Signalling? ==>
          if t == HELPER then s.ring.nitems < MAXNUM_WORK_ITEMS else s.ring.nitems > 0)
  }

  lemma OrderlyStep(s: State, a: Action)
    requires Orderly(s) && Enabled(s, a)
    ensures Orderly(Apply(s, a)) && |Apply(s, a).phase| == |s.phase|
  {
    hide Contents;
    if a.Test? && !Blocked(a.thread, s.ring.nitems) {
      if a.thread == HELPER {
        PopTakesOldest(s.ring);
      } else {
        PushAppends(s.ring, a.item);
      }
    }
  }

  lemma {:induction false} OrderlyRun(s: State, run: seq<Action>)
    requires Orderly(s) && IsRun(s, run)
    ensures Orderly(After(s, run)) && |After(s, run).phase| == |s.phase|
    decreases |run|
  {
    hide Orderly, Enabled, Apply;
    if run != [] {
      OrderlyStep(s, run[0]);
      OrderlyRun(Apply(s, run[0]), run[1..]);
    }
  }

  lemma ReachableOrderly(producers: nat, s: State)
    requires Reachable(producers, s)
    ensures Orderly(s) && |s.phase| == producers + 1
  {
    var run :| Leads(producers, run, s);
    assert Orderly(Init(producers));
    OrderlyRun(Init(producers), run);
  }

  /**
    What has been popped is a prefix of what was pushed, and the ring holds the rest in its order,
    with any number of producers.
   */
  lemma FirstInFirstOut(producers: nat, s: State)
    requires Reachable(producers, s)
    ensures s.popped <= s.pushed && s.pushed[|s.popped|..] == Contents(s.ring)
  {
    ReachableOrderly(producers, s);
  }

  // ---------- Wakeups ----------

  /** The thread sleeps although it could go on, and nobody holds the lock. */
  predicate SleepsReady(s: State, t: nat) {
    t < |s.phase| && s.phase[t].Asleep? && !Blocked(t, s.ring.nitems) && s.lock == FREE
  }

  /** Besides, no thread has been woken that could still change the queue: the wakeup is lost. */
  predicate Forgotten(s: State, t: nat) {
    SleepsReady(s, t) && forall u :: 0 <= u < |s.phase| && u != t ==> s.phase[u].Idle?
  }

  /**
    A sleeper whose condition holds is about to be signalled: the only thread on the other side
    has just crossed the boundary.
   */
  ghost predicate Attended(s: State) {
    && (|s.phase| > 1 && s.phase[1].Asleep? && s.ring.nitems < MAXNUM_WORK_ITEMS ==>
          s.phase[HELPER].Signalling? && s.ring.nitems == MAXNUM_WORK_ITEMS - 1)
    && (|s.phase| > 0 && s.phase[HELPER].Asleep? && s.ring.nitems > 0 ==>
          |s.phase| > 1 && s.phase[1].Signalling? && s.ring.nitems == 1)
  }

  lemma AttendedStep(s: State, a: Action)
    requires Orderly(s) && Attended(s) && |s.phase| <= 2 && Enabled(s, a)
    ensures Attended(Apply(s, a))
  {
    if a.Signal? {
      assert WaitsFor(s, a.thread, HELPER) || WaitsFor(s, a.thread, 1) ==> WaitsFor(s, a.thread, a.who);
    }
  }

  lemma {:induction false} AttendedRun(s: State, run: seq<Action>)
    requires Orderly(s) && Attended(s) && |s.phase| <= 2 && IsRun(s, run)
    ensures Attended(After(s, run))
    decreases |run|
  {
    hide Orderly, Attended, Enabled, Apply;
    if run != [] {
      OrderlyStep(s, run[0]);
      AttendedStep(s, run[0]);
      AttendedRun(Apply(s, run[0]), run[1..]);
    }
  }

  /** With one producer, nobody sleeps on while it could go on. */
  lemma NobodySleepsReady(producers: nat, s: State, t: nat)
    requires producers <= 1 && Reachable(producers, s)
    ensures !SleepsReady(s, t)
  {
    var run :| Leads(producers, run, s);
    ReachableOrderly(producers, s);
    assert Orderly(Init(producers));
    AttendedRun(Init(producers), run);
  }

  /** The helper and the producer never sleep at the same time once the lock is free. */
  lemma NotBothAsleep(s: State)
    requires Reachable(1, s) && s.lock == FREE
    ensures |s.phase| == 2 && !(s.phase[0].Asleep? && s.phase[1].Asleep?)
  {
    ReachableOrderly(1, s);
    NobodySleepsReady(1, s, 0);
    NobodySleepsReady(1, s, 1);
  }

  // ---------- Progress, with any number of producers ----------

  /**
    While the lock is free, every idle thread can call and every woken one can go on. A sleeper can
    be woken without reason at any time.
   */
  lemma LockIsForEverybody(producers: nat, s: State)
    requires Reachable(producers, s)
    ensures |s.phase| == producers + 1
    ensures forall t | 0 <= t <= producers ::
              && (s.phase[t].Idle? && s.lock == FREE ==> Enabled(s, Call(t)))
              && (s.phase[t].Woken? && s.lock == FREE ==> Enabled(s, Resume(t)))
              && (s.phase[t].Asleep? ==> Enabled(s, Spurious(t)))
  {
    ReachableOrderly(producers, s);
  }

  /** Whoever holds the lock can move on. */
  lemma HolderCanStep(s: State) returns (a: Action)
    requires Orderly(s) && s.lock >= 0
    ensures Enabled(s, a) && a.thread == s.lock && (a.Test? || a.Signal? || a.Unlock?)
  {
    var t: nat := s.lock;
    assert HoldsLock(s.phase[t]);
    if s.phase[t].Testing? {
      a := Test(t, Item(WORK_NONE, 0, 0, 0, 0, 0, 0));
    } else if s.phase[t].Unlocking? {
      a := Unlock(t);
    } else if w: nat :| w < |s.phase| && WaitsFor(s, t, w) {
      a := Signal(t, w);
    } else {
      a := Signal(t, 0);
    }
  }

  /** No step is possible except a call, short of a spurious wakeup. */
  ghost predicate Quiet(s: State) {
    forall a: Action :: Enabled(s, a) ==> a.Call? || a.Spurious?
  }

  /**
    When nothing moves any more, every thread is outside or asleep; the helper sleeps only on an
    empty ring, and a single producer only on a full one.
   */
  lemma QuietMeansAsleep(producers: nat, s: State)
    requires Reachable(producers, s) && Quiet(s)
    ensures s.lock == FREE && |s.phase| == producers + 1
    ensures forall t | 0 <= t <= producers :: s.phase[t].Idle? || s.phase[t].Asleep?
    ensures s.phase[HELPER].Asleep? ==> Contents(s.ring) == []
    ensures producers == 1 && s.phase[1].Asleep? ==> s.ring.nitems == MAXNUM_WORK_ITEMS
  {
    ReachableOrderly(producers, s);
    if s.lock >= 0 {
      var a := HolderCanStep(s);
      assert false;
    }
    forall t | 0 <= t <= producers ensures s.phase[t].Idle? || s.phase[t].Asleep? {
      assert !Enabled(s, Resume(t));
      assert !HoldsLock(s.phase[t]);
    }
    HelperNeverSleepsReady(producers, s);
    if producers == 1 {
      NobodySleepsReady(producers, s, 1);
    }
  }

  /** If the helper sleeps on a queue that is not empty, its signal is on the way. */
  ghost predicate HelperAttended(s: State) {
    |s.phase| > 0 && s.phase[HELPER].Asleep? && s.ring.nitems > 0 ==>
      0 < s.lock < |s.phase| && s.phase[s.lock].Signalling? && s.ring.nitems == 1
  }

  lemma HelperAttendedStep(s: State, a: Action)
    requires Orderly(s) && HelperAttended(s) && Enabled(s, a)
    ensures HelperAttended(Apply(s, a))
  {
    if a.Signal? && a.thread != HELPER {
      assert s.phase[HELPER].Asleep? ==> WaitsFor(s, a.thread, HELPER);
    }
  }

  lemma {:induction false} HelperAttendedRun(s: State, run: seq<Action>)
    requires Orderly(s) && HelperAttended(s) && IsRun(s, run)
    ensures HelperAttended(After(s, run))
    decreases |run|
  {
    hide Orderly, HelperAttended, Enabled, Apply;
    if run != [] {
      OrderlyStep(s, run[0]);
      HelperAttendedStep(s, run[0]);
      HelperAttendedRun(Apply(s, run[0]), run[1..]);
    }
  }

  /** However many producers there are, the helper does not sleep on while there is work. */
  lemma HelperNeverSleepsReady(producers: nat, s: State)
    requires Reachable(producers, s)
    ensures !SleepsReady(s, HELPER)
  {
    var run :| Leads(producers, run, s);
    ReachableOrderly(producers, s);
    assert Orderly(Init(producers));
    HelperAttendedRun(Init(producers), run);
  }

  /** What a thread can still cause inside its call; waking another one costs two, ending a turn gains more. */
  function Remaining(p: Phase): nat {
    match p
    case Idle => 0
    case Unlocking => 1
    case Signalling => 4
    case Asleep => 4
    case Testing => 5
    case Woken => 6
  }

  function Measure(phase: seq<Phase>): nat {
    if phase == [] then 0 else Remaining(phase[0]) + Measure(phase[1..])
  }

  lemma {:induction false} MeasureUpdate(phase: seq<Phase>, t: nat, p: Phase)
    requires t < |phase|
    ensures Measure(phase[t := p]) == Measure(phase) - Remaining(phase[t]) + Remaining(p)
  {
    if t == 0 {
      assert phase[0 := p][1..] == phase[1..];
    } else {
      MeasureUpdate(phase[1..], t - 1, p);
      assert phase[t := p][1..] == phase[1..][t - 1 := p];
    }
  }

  /** Without calls and spurious wakeups the threads come to rest, whatever the schedule. */
  lemma InternalStepsTerminate(s: State, a: Action)
    requires Enabled(s, a) && !a.Call? && !a.Spurious?
    ensures Measure(Apply(s, a).phase) < Measure(s.phase)
  {
    hide Measure;
    var t := a.thread;
    var woken := if a.Signal? && Crossed(t, s.ring.nitems) && WaitsFor(s, t, a.who) then s.phase[a.who := Woken]
                 else s.phase;
    if woken != s.phase {
      MeasureUpdate(s.phase, a.who, Woken);
    }
    MeasureUpdate(woken, t, Apply(s, a).phase[t]);
  }

  /** Some run leads from s to t. */
  ghost predicate CanReach(s: State, t: State) {
    exists run :: RunsTo(s, run, t)
  }

  ghost predicate RunsTo(s: State, run: seq<Action>, t: State) {
    IsRun(s, run) && After(s, run) == t
  }

  lemma Stay(s: State)
    ensures CanReach(s, s)
  {
    assert RunsTo(s, [], s);
  }

  lemma Go(producers: nat, s: State, t: State, a: Action) returns (u: State)
    requires Reachable(producers, t) && CanReach(s, t) && Enabled(t, a)
    ensures u == Apply(t, a) && Reachable(producers, u) && CanReach(s, u)
  {
    hide Reachable, Enabled, Apply, IsRun, After;
    u := Apply(t, a);
    Reach(producers, t, a);
    var run :| RunsTo(s, run, t);
    RunAppend(s, run, a);
    assert RunsTo(s, run + [a], u);
  }

  /** From every reachable state the calls in progress lead to one in which nothing moves any more. */
  lemma ThreadsComeToRest(producers: nat, s: State) returns (t: State)
    requires Reachable(producers, s)
    ensures CanReach(s, t) && Reachable(producers, t) && Quiet(t)
  {
    Stay(s);
    t := Settles(producers, s, s);
  }

  lemma {:induction false} Settles(producers: nat, s: State, t: State) returns (u: State)
    requires Reachable(producers, t) && CanReach(s, t)
    ensures CanReach(s, u) && Reachable(producers, u) && Quiet(u)
    decreases Measure(t.phase)
  {
    hide Reachable, CanReach, Measure, Enabled, Apply;
    u := t;
    if a: Action :| Enabled(t, a) && !a.Call? && !a.Spurious? {
      InternalStepsTerminate(t, a);
      u := Go(producers, s, t, a);
      u := Settles(producers, s, u);
    }
  }

  /** Between s and t nothing has been popped, and the oldest item is the same. */
  ghost predicate OldestKept(s: State, t: State) {
    s.ring.nitems > 0 && t.ring.nitems > 0 && t.popped == s.popped && Contents(t.ring)[0] == Contents(s.ring)[0]
  }

  /** The holder of the lock ends its turn; if it is a producer, the oldest item stays. */
  lemma LockIsReleased(producers: nat, s: State) returns (t: State)
    requires Reachable(producers, s) && s.ring.nitems > 0 && |s.phase| > 0
    requires !(s.lock == HELPER && s.phase[HELPER].Testing?)
    ensures Reachable(producers, t) && CanReach(s, t) && t.lock == FREE && OldestKept(s, t)
  {
    ReachableOrderly(producers, s);
    Stay(s);
    t := s;
    if s.lock >= 0 {
      var a := HolderCanStep(s);
      HolderKeepsOldest(s, a);
      t := Go(producers, s, s, a);
      if t.lock >= 0 {
        ReachableOrderly(producers, t);
        a := HolderCanStep(t);
        t := Go(producers, s, t, a);
        if t.lock >= 0 {
          ReachableOrderly(producers, t);
          a := HolderCanStep(t);
          t := Go(producers, s, t, a);
        }
      }
    }
  }

  /** A step of the holder other than a pop leaves the oldest item where it is. */
  lemma HolderKeepsOldest(s: State, a: Action)
    requires Orderly(s) && Enabled(s, a) && s.ring.nitems > 0 && !(a.Test? && a.thread == HELPER)
    ensures OldestKept(s, Apply(s, a))
  {
    hide Contents;
    if a.Test? && !Blocked(a.thread, s.ring.nitems) {
      PushAppends(s.ring, a.item);
    }
  }

  /** From a state in which the lock is free and there is work, the helper takes the oldest item. */
  lemma HelperTakes(producers: nat, s: State, t: State) returns (u: State)
    requires Reachable(producers, t) && CanReach(s, t) && t.lock == FREE && t.ring.nitems > 0
    ensures Reachable(producers, u) && CanReach(s, u) && u.popped == t.popped + [Contents(t.ring)[0]]
  {
    ReachableOrderly(producers, t);
    HelperNeverSleepsReady(producers, t);
    hide Reachable, CanReach;
    u := Go(producers, s, t, if t.phase[HELPER].Idle? then Call(HELPER) else Resume(HELPER));
    u := HelperTests(producers, s, u);
  }

  lemma HelperTests(producers: nat, s: State, t: State) returns (u: State)
    requires Reachable(producers, t) && CanReach(s, t) && t.ring.nitems > 0
    requires |t.phase| > 0 && t.phase[HELPER].Testing?
    ensures Reachable(producers, u) && CanReach(s, u) && u.popped == t.popped + [Contents(t.ring)[0]]
  {
    hide Reachable, CanReach;
    PopTakesOldest(t.ring);
    u := Go(producers, s, t, Test(HELPER, Item(WORK_NONE, 0, 0, 0, 0, 0, 0)));
  }

  /**
    No item is stuck: with any number of producers, from every reachable state with work in the
    ring, whatever the helper is doing, some run pops the oldest item next.
   */
  lemma OldestItemIsPopped(producers: nat, s: State) returns (t: State)
    requires Reachable(producers, s) && s.ring.nitems > 0
    ensures CanReach(s, t) && t.popped == s.popped + [Contents(s.ring)[0]]
  {
    ReachableOrderly(producers, s);
    Stay(s);
    if s.lock == HELPER && s.phase[HELPER].Testing? {
      t := HelperTests(producers, s, s);
    } else {
      t := LockIsReleased(producers, s);
      t := HelperTakes(producers, s, t);
    }
  }

  // ---------- Several producers ----------

  /** The rest of a push by a producer that holds the lock, while the helper is not asleep. */
  lemma PushCompletes(producers: nat, s: State, t: nat, item: Item) returns (r: State)
    requires Reachable(producers, s) && 0 < t < |s.phase| && s.phase[t].Testing?
    requires s.lock == t && s.ring.nitems < MAXNUM_WORK_ITEMS && !s.phase[HELPER].Asleep?
    ensures Reachable(producers, r)
    ensures r.lock == FREE && r.phase == s.phase[t := Idle] && r.ring.nitems == s.ring.nitems + 1
  {
    hide IsRun, After, Reachable;
    Reach(producers, s, Test(t, item));
    r := Apply(s, Test(t, item));
    assert forall w: nat :: !WaitsFor(r, t, w);
    Reach(producers, r, Signal(t, 0));
    r := Apply(r, Signal(t, 0));
    Reach(producers, r, Unlock(t));
    r := Apply(r, Unlock(t));
  }

  /** All threads idle after n pushes. */
  lemma {:induction false} Filled(producers: nat, item: Item, n: nat) returns (s: State)
    requires producers >= 1 && n <= MAXNUM_WORK_ITEMS
    ensures Reachable(producers, s) && s.lock == FREE && s.ring.nitems == n
    ensures |s.phase| == producers + 1 && forall t :: 0 <= t <= producers ==> s.phase[t] == Idle
  {
    if n == 0 {
      s := Init(producers);
      assert Leads(producers, [], s);
    } else {
      s := Filled(producers, item, n - 1);
      hide IsRun, After, Reachable;
      Reach(producers, s, Call(1));
      s := PushCompletes(producers, Apply(s, Call(1)), 1, item);
    }
  }

  /** Two producers asleep on a full queue, everybody else idle. */
  lemma TwoAsleep(producers: nat, item: Item) returns (s: State)
    requires producers >= 2
    ensures Reachable(producers, s)
    ensures s.lock == FREE && |s.phase| == producers + 1 && s.ring.nitems == MAXNUM_WORK_ITEMS
    ensures forall t :: 0 <= t <= producers ==> s.phase[t] == if t == 1 || t == 2 then Asleep else Idle
  {
    s := Filled(producers, item, MAXNUM_WORK_ITEMS);
    hide IsRun, After, Reachable;
    for t := 1 to 3
      invariant Reachable(producers, s)
      invariant s.lock == FREE && |s.phase| == producers + 1 && s.ring.nitems == MAXNUM_WORK_ITEMS
      invariant forall u :: 0 <= u <= producers ==> s.phase[u] == if 1 <= u < t then Asleep else Idle
    {
      Reach(producers, s, Call(t));
      s := Apply(s, Call(t));
      Reach(producers, s, Test(t, item));
      s := Apply(s, Test(t, item));
    }
  }

  /** A call of the helper on a queue that is not empty; `who` is woken if that crosses the boundary. */
  lemma HelperPops(producers: nat, s: State, item: Item, who: nat) returns (r: State)
    requires Reachable(producers, s) && |s.phase| > 0 && s.phase[0].Idle? && s.lock == FREE && s.ring.nitems > 0
    requires who > 0 && who < |s.phase| && s.phase[who].Asleep?
    ensures Reachable(producers, r) && r.lock == FREE && r.ring.nitems == s.ring.nitems - 1
    ensures r.phase == if s.ring.nitems == MAXNUM_WORK_ITEMS then s.phase[who := Woken] else s.phase
  {
    hide IsRun, After, Reachable;
    Reach(producers, s, Call(0));
    r := Apply(s, Call(0));
    Reach(producers, r, Test(0, item));
    r := Apply(r, Test(0, item));
    Reach(producers, r, Signal(0, who));
    r := Apply(r, Signal(0, who));
    Reach(producers, r, Unlock(0));
    r := Apply(r, Unlock(0));
  }

  /**
    Two producers asleep on a full queue are not both woken when the helper pops twice, because the
    second pop crosses no boundary. Once the first has pushed its item, everybody is idle and the
    second sleeps on although there is room.
   */
  lemma SecondProducerIsForgotten(producers: nat) returns (s: State)
    requires producers >= 2
    ensures Reachable(producers, s) && Forgotten(s, 2)
  {
    var item := Item(WORK_NONE, 0, 0, 0, 0, 0, 0);
    s := TwoAsleep(producers, item);
    s := HelperPops(producers, s, item, 1);
    s := HelperPops(producers, s, item, 2);
    hide IsRun, After, Reachable;
    Reach(producers, s, Resume(1));
    s := PushCompletes(producers, Apply(s, Resume(1)), 1, item);
  }

  /** No wakeup is lost exactly when there is at most one producer. */
  lemma WakeupsSufficeExactly(producers: nat)
    ensures (forall s, t: nat :: Reachable(producers, s) ==> !Forgotten(s, t)) <==> producers <= 1
  {
    if producers <= 1 {
      forall s, t: nat | Reachable(producers, s) ensures !Forgotten(s, t) {
        NobodySleepsReady(producers, s, t);
      }
    } else {
      var s := SecondProducerIsForgotten(producers);
    }
  }
}

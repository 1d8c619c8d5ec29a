/**
  The reusable barrier of the shared-memory runtime: a counter and a condition variable under a
  mutex. Every step a process takes between two scheduling points is one step here, so a run is
  any interleaving; the wait is guarded by `if`, so a waiter continues whenever it is woken. POSIX
  allows a wakeup that no broadcast has asked for, which is a step of its own.
 */
module Barrier {

  const FREE := -1

  datatype Phase =
    | Outside   // not inside a call
    | Locked    // the mutex taken, not counted yet
    | Counted   // counted, the counter not yet compared
    | Waiting   // asleep on the condition variable, the mutex released
    | Woken     // woken up, the mutex not yet taken back
    | Last      // the counter reset, the others not yet woken
    | Leaving   // only the mutex is left to release

  predicate HoldsMutex(p: Phase) {
    p.Locked? || p.Counted? || p.Last? || p.Leaving?
  }

  /** `rounds`, `arrived` and `left` record the history: resets, counts and returns of each process. */
  datatype State = State(
    mutex: int,
    waiting: nat,
    phase: seq<Phase>,
    rounds: nat,
    arrived: seq<nat>,
    left: seq<nat>)

  datatype Action =
    | Enter(process: nat)
    | Count(process: nat)
    | Compare(process: nat)
    | Broadcast(process: nat)
    | Resume(process: nat)
    | Leave(process: nat)
    | Spurious(process: nat)

  /** Entering is up to the application, everything else happens inside the call. */
  predicate IsCall(a: Action) { a.Enter? }

  function Init(processes: nat): (s: State)
    ensures |s.phase| == |s.arrived| == |s.left| == processes
    ensures forall p :: 0 <= p < processes ==> s.phase[p].Outside? && s.arrived[p] == s.left[p] == 0
  {
    State(FREE, 0, seq(processes, i => Outside), 0, seq(processes, i => 0), seq(processes, i => 0))
  }

  predicate Shaped(s: State) {
    |s.phase| == |s.arrived| == |s.left|
  }

  predicate Enabled(s: State, a: Action) {
    var p := a.process;
    Shaped(s) && p < |s.phase| &&
    match a
    case Enter(_) => s.phase[p].Outside? && s.mutex == FREE
    case Count(_) => s.phase[p].Locked?
    case Compare(_) => s.phase[p].Counted?
    case Broadcast(_) => s.phase[p].Last?
    case Resume(_) => s.phase[p].Woken? && s.mutex == FREE
    case Leave(_) => s.phase[p].Leaving?
    case Spurious(_) => s.phase[p].Waiting?
  }

  function WakeAll(phase: seq<Phase>): (r: seq<Phase>)
    ensures |r| == |phase|
    ensures forall i :: 0 <= i < |r| ==> r[i] == if phase[i].Waiting? then Woken else phase[i]
  {
    seq(|phase|, i requires 0 <= i < |phase| => if phase[i].Waiting? then Woken else phase[i])
  }

  function Apply(s: State, a: Action): State
    requires Enabled(s, a)
  {
    var p := a.process;
    match a
    case Enter(_) => s.(mutex := p, phase := s.phase[p := Locked])
    case Count(_) =>
      s.(waiting := s.waiting + 1, phase := s.phase[p := Counted], arrived := s.arrived[p := s.arrived[p] + 1])
    case Compare(_) =>
      if s.waiting < |s.phase| then s.(mutex := FREE, phase := s.phase[p := Waiting])
      else s.(waiting := 0, phase := s.phase[p := Last], rounds := s.rounds + 1)
    case Broadcast(_) => s.(phase := WakeAll(s.phase)[p := Leaving])
    case Resume(_) => s.(mutex := p, phase := s.phase[p := Leaving])
    case Leave(_) => s.(mutex := FREE, phase := s.phase[p := Outside], left := s.left[p := s.left[p] + 1])
    case Spurious(_) => s.(phase := s.phase[p := Woken])
  }

  ghost predicate IsRun(s: State, run: seq<Action>)
    decreases |run|
  {
    run != [] ==> Enabled(s, run[0]) && IsRun(Apply(s, run[0]), run[1..])
  }

  ghost function After(s: State, run: seq<Action>): State
    requires IsRun(s, run)
    decreases |run|
  {
    if run == [] then s else After(Apply(s, run[0]), run[1..])
  }

  /** Wakeups come from broadcasts only. */
  predicate NoSpurious(run: seq<Action>) {
    forall a :: a in run ==> !a.Spurious?
  }

  // ---------- The invariant ----------

  /** How many entries have the value v. */
  function Tally(l: seq<nat>, v: nat): (n: nat)
    ensures n <= |l|
  {
    if l == [] then 0 else (if l[0] == v then 1 else 0) + Tally(l[1..], v)
  }

  lemma {:induction false} TallyUpdate(l: seq<nat>, p: nat, w: nat, v: nat)
    requires p < |l|
    ensures Tally(l[p := w], v) == Tally(l, v) - (if l[p] == v then 1 else 0) + (if w == v then 1 else 0)
  {
    if p == 0 {
      assert l[0 := w][1..] == l[1..];
    } else {
      TallyUpdate(l[1..], p - 1, w, v);
      assert l[p := w][1..] == l[1..][p - 1 := w];
    }
  }

  lemma {:induction false} TallyAll(l: seq<nat>, v: nat)
    ensures Tally(l, v) == |l| <==> forall i :: 0 <= i < |l| ==> l[i] == v
    ensures Tally(l, v) == 0 <==> forall i :: 0 <= i < |l| ==> l[i] != v
  {
    if l != [] {
      TallyAll(l[1..], v);
      assert forall i :: 0 < i < |l| ==> l[i] == l[1..][i - 1];
      assert forall i :: 0 <= i < |l| - 1 ==> l[1..][i] == l[i + 1];
    }
  }

  /** What a process in a phase has done in the current round; `resetting` while one is in Last. */
  predicate InStep(p: Phase, arrived: nat, left: nat, rounds: nat, resetting: bool) {
    match p
    case Outside => arrived == rounds && left == rounds
    case Locked => arrived == rounds && left == rounds
    case Counted => arrived == rounds + 1 && left == rounds
    case Waiting => arrived == (if resetting then rounds else rounds + 1) && left + 1 == arrived
    case Woken => arrived == rounds && left + 1 == rounds
    case Last => arrived == rounds && left + 1 == rounds
    case Leaving => arrived == rounds && left + 1 == rounds
  }

  /** Between the reset of the counter and the broadcast. */
  predicate Resetting(s: State) {
    0 <= s.mutex < |s.phase| && s.phase[s.mutex].Last?
  }

  ghost predicate AllInStep(s: State)
    requires Shaped(s)
  {
    forall i :: 0 <= i < |s.phase| ==>
      InStep(s.phase[i], s.arrived[i], s.left[i], s.rounds, Resetting(s))
  }

  ghost predicate Inv(s: State) {
    && Shaped(s)
    && (forall i :: 0 <= i < |s.phase| ==> (HoldsMutex(s.phase[i]) <==> s.mutex == i))
    && FREE <= s.mutex < |s.phase|
    && AllInStep(s)
    && s.waiting == Tally(s.arrived, s.rounds + 1)
    && (s.waiting == |s.phase| > 0 ==> s.mutex >= 0 && s.phase[s.mutex].Counted?)
  }

  lemma InitInv(processes: nat)
    ensures Inv(Init(processes))
  {
    TallyAll(Init(processes).arrived, 1);
  }

  lemma CountInv(s: State, a: Action)
    requires Inv(s) && a.Count? && Enabled(s, a)
    ensures Inv(Apply(s, a))
  {
    TallyUpdate(s.arrived, a.process, s.arrived[a.process] + 1, s.rounds + 1);
  }

  lemma CompareInv(s: State, a: Action)
    requires Inv(s) && a.Compare? && Enabled(s, a)
    ensures Inv(Apply(s, a))
  {
    var t := Apply(s, a);
    TallyAll(s.arrived, s.rounds + 1);
    TallyAll(s.arrived, s.rounds + 2);
    if s.waiting >= |s.phase| {
      forall i | 0 <= i < |t.phase|
        ensures InStep(t.phase[i], t.arrived[i], t.left[i], t.rounds, true)
      {
        assert s.arrived[i] == s.rounds + 1;
        assert InStep(s.phase[i], s.arrived[i], s.left[i], s.rounds, false);
      }
    }
  }

  lemma BroadcastInv(s: State, a: Action)
    requires Inv(s) && a.Broadcast? && Enabled(s, a)
    ensures Inv(Apply(s, a))
  {
    TallyAll(s.arrived, s.rounds + 1);
  }

  lemma EnterInv(s: State, a: Action)
    requires Inv(s) && (a.Enter? || a.Resume?) && Enabled(s, a)
    ensures Inv(Apply(s, a))
  {
    TallyAll(s.arrived, s.rounds + 1);
  }

  lemma LeaveInv(s: State, a: Action)
    requires Inv(s) && a.Leave? && Enabled(s, a)
    ensures Inv(Apply(s, a))
  {
    TallyAll(s.arrived, s.rounds + 1);
  }

  lemma StepInv(s: State, a: Action)
    requires Inv(s) && Enabled(s, a) && !a.Spurious?
    ensures Inv(Apply(s, a))
  {
    match a
    case Enter(_) => EnterInv(s, a);
    case Count(_) => CountInv(s, a);
    case Compare(_) => CompareInv(s, a);
    case Broadcast(_) => BroadcastInv(s, a);
    case Resume(_) => EnterInv(s, a);
    case Leave(_) => LeaveInv(s, a);
  }

  lemma {:induction false} RunInv(s: State, run: seq<Action>)
    requires Inv(s) && IsRun(s, run) && NoSpurious(run)
    ensures Inv(After(s, run))
    decreases |run|
  {
    if run != [] {
      StepInv(s, run[0]);
      RunInv(Apply(s, run[0]), run[1..]);
    }
  }

  /** The state after a run of any length, without spurious wakeups, by any number of processes. */
  ghost predicate Reachable(s: State) {
    exists processes: nat, run: seq<Action> :: Reaches(processes, run, s)
  }

  ghost predicate Reaches(processes: nat, run: seq<Action>, s: State) {
    IsRun(Init(processes), run) && NoSpurious(run) && After(Init(processes), run) == s
  }

  lemma ReachableInv(s: State)
    requires Reachable(s)
    ensures Inv(s)
  {
    var processes: nat, run: seq<Action> :| Reaches(processes, run, s);
    InitInv(processes);
    RunInv(Init(processes), run);
  }

  // ---------- What the barrier promises ----------

  /** Nobody leaves a round before everybody has arrived in it. */
  lemma NobodyLeavesEarly(s: State, p: nat, q: nat)
    requires Reachable(s) && p < |s.phase| && q < |s.phase|
    ensures Shaped(s) && s.left[p] <= s.arrived[q]
  {
    ReachableInv(s);
    assert InStep(s.phase[p], s.arrived[p], s.left[p], s.rounds, Resetting(s));
    assert InStep(s.phase[q], s.arrived[q], s.left[q], s.rounds, Resetting(s));
  }

  /** Any two processes are at most one round apart, on the way in and on the way out. */
  lemma RoundsStayClose(s: State, p: nat, q: nat)
    requires Reachable(s) && p < |s.phase| && q < |s.phase|
    ensures Shaped(s) && s.arrived[p] <= s.arrived[q] + 1 && s.left[p] <= s.left[q] + 1
    ensures s.left[p] <= s.arrived[p] <= s.left[p] + 1
  {
    ReachableInv(s);
    assert InStep(s.phase[p], s.arrived[p], s.left[p], s.rounds, Resetting(s));
    assert InStep(s.phase[q], s.arrived[q], s.left[q], s.rounds, Resetting(s));
  }

  /**
    The counter is the number of processes that have arrived in the round now filling up, although
    processes woken from the round before may still be inside.
   */
  lemma CounterCountsThisRound(s: State)
    requires Reachable(s)
    ensures s.waiting == Tally(s.arrived, s.rounds + 1)
    ensures forall p :: 0 <= p < |s.phase| && (s.phase[p].Woken? || s.phase[p].Leaving?) ==>
              p < |s.arrived| && s.arrived[p] == s.rounds
  {
    ReachableInv(s);
    assert AllInStep(s);
  }

  /** No step is possible except entering the barrier, short of a spurious wakeup. */
  ghost predicate Quiet(s: State) {
    forall a: Action :: Enabled(s, a) ==> IsCall(a) || a.Spurious?
  }

  /** When nothing moves any more, somebody has not arrived or everybody is out. */
  lemma NobodyIsLeftBehind(s: State)
    requires Reachable(s) && Quiet(s)
    ensures Shaped(s)
    ensures (forall p, q :: 0 <= p < |s.phase| && 0 <= q < |s.phase| ==> s.arrived[p] == s.arrived[q])
      ==> forall p :: 0 <= p < |s.phase| ==> s.phase[p].Outside? && s.left[p] == s.arrived[p]
  {
    ReachableInv(s);
    QuietRests(s);
    if forall p, q :: 0 <= p < |s.phase| && 0 <= q < |s.phase| ==> s.arrived[p] == s.arrived[q] {
      if |s.phase| > 0 {
        NotAllWait(s);
      }
      OutMeansLeft(s);
    }
  }

  /** Whoever holds the mutex can move on. */
  lemma HolderCanStep(s: State) returns (a: Action)
    requires Inv(s) && s.mutex >= 0
    ensures Enabled(s, a) && !IsCall(a) && !a.Spurious?
  {
    var p: nat := s.mutex;
    assert HoldsMutex(s.phase[p]);
    a := if s.phase[p].Locked? then Count(p)
         else if s.phase[p].Counted? then Compare(p)
         else if s.phase[p].Last? then Broadcast(p)
         else Leave(p);
  }

  // ---------- Termination ----------

  function Remaining(p: Phase): nat {
    match p
    case Outside => 0
    case Leaving => 1
    case Last => 2
    case Woken => 2
    case Waiting => 3
    case Counted => 4
    case Locked => 5
  }

  function Measure(phase: seq<Phase>): nat {
    if phase == [] then 0 else Remaining(phase[0]) + Measure(phase[1..])
  }

  lemma {:induction false} MeasureUpdate(phase: seq<Phase>, p: nat, q: Phase)
    requires p < |phase|
    ensures Measure(phase[p := q]) == Measure(phase) - Remaining(phase[p]) + Remaining(q)
  {
    if p == 0 {
      assert phase[0 := q][1..] == phase[1..];
    } else {
      MeasureUpdate(phase[1..], p - 1, q);
      assert phase[p := q][1..] == phase[1..][p - 1 := q];
    }
  }

  lemma {:induction false} MeasureWake(phase: seq<Phase>)
    ensures Measure(WakeAll(phase)) <= Measure(phase)
  {
    if phase != [] {
      MeasureWake(phase[1..]);
      assert WakeAll(phase)[1..] == WakeAll(phase[1..]);
    }
  }

  /** The steps inside the barrier cannot go on for ever without somebody entering. */
  lemma InternalStepsTerminate(s: State, a: Action)
    requires Enabled(s, a) && !IsCall(a)
    ensures Measure(Apply(s, a).phase) < Measure(s.phase)
  {
    var p := a.process;
    var t := Apply(s, a);
    if a.Broadcast? {
      MeasureWake(s.phase);
      MeasureUpdate(WakeAll(s.phase), p, Leaving);
    } else {
      MeasureUpdate(s.phase, p, t.phase[p]);
    }
  }

  // ---------- Progress ----------

  lemma {:induction false} SameProcesses(s: State, run: seq<Action>)
    requires Shaped(s) && IsRun(s, run)
    ensures Shaped(After(s, run)) && |After(s, run).phase| == |s.phase|
    decreases |run|
  {
    if run != [] {
      SameProcesses(Apply(s, run[0]), run[1..]);
    }
  }

  /** While the mutex is free, every process outside can enter and every woken one can go on. */
  lemma MutexIsForEverybody(processes: nat, run: seq<Action>)
    requires IsRun(Init(processes), run)
    ensures var s := After(Init(processes), run);
      && |s.phase| == processes
      && (s.mutex == FREE ==> forall p | 0 <= p < processes ::
            && (s.phase[p].Outside? ==> Enabled(s, Enter(p)))
            && (s.phase[p].Woken? ==> Enabled(s, Resume(p))))
  {
    SameProcesses(Init(processes), run);
  }

  /** When nothing moves any more, everybody is outside or waits for the round now filling up. */
  lemma QuietMeansWaiting(s: State)
    requires Reachable(s) && Quiet(s)
    ensures s.mutex == FREE && Shaped(s)
    ensures forall p | 0 <= p < |s.phase| :: s.left[p] == s.rounds &&
              if s.phase[p].Waiting? then s.arrived[p] == s.rounds + 1
              else s.phase[p].Outside? && s.arrived[p] == s.rounds
  {
    ReachableInv(s);
    QuietRests(s);
  }

  lemma QuietRests(s: State)
    requires Inv(s) && Quiet(s)
    ensures Resting(s)
    ensures forall p | 0 <= p < |s.phase| :: s.left[p] == s.rounds &&
              s.arrived[p] == if s.phase[p].Waiting? then s.rounds + 1 else s.rounds
  {
    if s.mutex >= 0 {
      var a := HolderCanStep(s);
      assert false;
    }
    forall p | 0 <= p < |s.phase|
      ensures s.phase[p].Outside? || s.phase[p].Waiting?
      ensures s.left[p] == s.rounds && s.arrived[p] == if s.phase[p].Waiting? then s.rounds + 1 else s.rounds
    {
      assert !Enabled(s, Resume(p));
      assert InStep(s.phase[p], s.arrived[p], s.left[p], s.rounds, false);
    }
  }

  predicate Resting(s: State) {
    s.mutex == FREE && forall p | 0 <= p < |s.phase| :: s.phase[p].Outside? || s.phase[p].Waiting?
  }

  /** All are outside and have left every round. */
  predicate AllOut(s: State) {
    Shaped(s) && s.mutex == FREE &&
    forall p | 0 <= p < |s.phase| :: s.phase[p].Outside? && s.arrived[p] == s.left[p] == s.rounds
  }

  ghost predicate RunsTo(s: State, run: seq<Action>, t: State) {
    IsRun(s, run) && NoSpurious(run) && After(s, run) == t
  }

  /** Some run without spurious wakeups leads from s to t. */
  ghost predicate Leads(s: State, t: State) {
    exists run :: RunsTo(s, run, t)
  }

  lemma {:induction false} RunAppend(s: State, run: seq<Action>, a: Action)
    requires IsRun(s, run) && Enabled(After(s, run), a)
    ensures IsRun(s, run + [a]) && After(s, run + [a]) == Apply(After(s, run), a)
    decreases |run|
  {
    hide Enabled, Apply;
    if run == [] {
      assert [] + [a] == [a];
    } else {
      RunAppend(Apply(s, run[0]), run[1..], a);
      assert (run + [a])[1..] == run[1..] + [a];
    }
  }

  lemma Go(s: State, t: State, a: Action) returns (u: State)
    requires Leads(s, t) && Inv(t) && Enabled(t, a) && !a.Spurious?
    ensures u == Apply(t, a) && Leads(s, u) && Inv(u)
  {
    hide Inv, Enabled, Apply, IsRun, After;
    u := Apply(t, a);
    StepInv(t, a);
    var run :| RunsTo(s, run, t);
    RunAppend(s, run, a);
    assert RunsTo(s, run + [a], u);
  }

  /** Inside the barrier everything comes to rest. */
  lemma {:induction false} Settles(s: State, t: State) returns (u: State)
    requires Leads(s, t) && Inv(t)
    ensures Leads(s, u) && Inv(u) && Resting(u) && |u.phase| == |t.phase| && u.rounds >= t.rounds
    decreases Measure(t.phase)
  {
    hide Inv, IsRun, After, Leads, Measure;
    if Quiet(t) {
      QuietRests(t);
      u := t;
    } else {
      var a :| Enabled(t, a) && !IsCall(a) && !a.Spurious?;
      InternalStepsTerminate(t, a);
      u := Go(s, t, a);
      u := Settles(s, u);
    }
  }

  /** One process goes in: to sleep, or on as the last one, waking all others. */
  lemma GoIn(s: State, t: State, p: nat) returns (u: State)
    requires Leads(s, t) && Inv(t) && Shaped(t) && t.mutex == FREE && p < |t.phase| && t.phase[p].Outside?
    ensures Leads(s, u) && Inv(u) && u.mutex == FREE
    ensures || (u.rounds == t.rounds && u.phase == t.phase[p := Waiting])
            || (u.rounds == t.rounds + 1 && u.phase == WakeAll(t.phase)[p := Outside])
  {
    hide Inv, Leads;
    u := Go(s, t, Enter(p));
    u := Go(s, u, Count(p));
    u := Go(s, u, Compare(p));
    if u.phase[p].Last? {
      u := Go(s, u, Broadcast(p));
      u := Go(s, u, Leave(p));
      assert u.phase == WakeAll(t.phase)[p := Outside];
    }
  }

  /** The processes woken go out. */
  lemma AllGoOut(s: State, t: State) returns (u: State)
    requires Leads(s, t) && Inv(t) && t.mutex == FREE
    requires forall p | 0 <= p < |t.phase| :: t.phase[p].Outside? || t.phase[p].Woken?
    ensures Leads(s, u) && AllOut(u) && Inv(u) && u.rounds == t.rounds && |u.phase| == |t.phase|
  {
    u := t;
    for p := 0 to |t.phase|
      invariant Leads(s, u) && Inv(u) && u.mutex == FREE && u.rounds == t.rounds && |u.phase| == |t.phase|
      invariant forall q | 0 <= q < |t.phase| :: u.phase[q] == if q < p then Outside else t.phase[q]
    {
      if u.phase[p].Woken? {
        u := GoOut(s, u, p);
      }
    }
    OutMeansLeft(u);
  }

  lemma GoOut(s: State, t: State, p: nat) returns (u: State)
    requires Leads(s, t) && Inv(t) && Shaped(t) && t.mutex == FREE && p < |t.phase| && t.phase[p].Woken?
    ensures Leads(s, u) && Inv(u) && u.mutex == FREE && u.rounds == t.rounds && u.phase == t.phase[p := Outside]
  {
    hide Inv, Leads;
    u := Go(s, t, Resume(p));
    u := Go(s, u, Leave(p));
  }

  lemma OutMeansLeft(s: State)
    requires Inv(s) && s.mutex == FREE && forall p | 0 <= p < |s.phase| :: s.phase[p].Outside?
    ensures AllOut(s)
  {
    forall p | 0 <= p < |s.phase| ensures s.arrived[p] == s.left[p] == s.rounds {
      assert InStep(s.phase[p], s.arrived[p], s.left[p], s.rounds, false);
    }
  }

  /** The last process to arrive does not wait. */
  lemma NotAllWait(s: State)
    requires Inv(s) && s.mutex == FREE && |s.phase| > 0
    ensures exists p :: 0 <= p < |s.phase| && !s.phase[p].Waiting?
  {
    if forall p | 0 <= p < |s.phase| :: s.phase[p].Waiting? {
      forall p | 0 <= p < |s.arrived| ensures s.arrived[p] == s.rounds + 1 {
        assert InStep(s.phase[p], s.arrived[p], s.left[p], s.rounds, false);
      }
      TallyAll(s.arrived, s.rounds + 1);
    }
  }

  /** From rest, whoever is still missing goes in, and then everybody goes out. */
  lemma RoundCompletes(s: State, t: State) returns (u: State)
    requires Leads(s, t) && Inv(t) && Shaped(t) && Resting(t) && |t.phase| > 0
    ensures Leads(s, u) && AllOut(u) && Inv(u) && u.rounds == t.rounds + 1 && |u.phase| == |t.phase|
  {
    hide Inv, Leads;
    u := t;
    for p := 0 to |t.phase|
      invariant Leads(s, u) && Inv(u) && Resting(u) && u.rounds == t.rounds && |u.phase| == |t.phase|
      invariant forall q | 0 <= q < p :: u.phase[q].Waiting?
    {
      if u.phase[p].Outside? {
        InvShaped(u);
        u := GoIn(s, u, p);
        if u.rounds != t.rounds {
          u := AllGoOut(s, u);
          return;
        }
      }
    }
    NotAllWait(u);
  }

  lemma InvShaped(s: State)
    requires Inv(s)
    ensures Shaped(s)
  {
  }

  /** Any number of rounds more. */
  lemma {:induction false} RoundsComplete(s: State, t: State, r: nat) returns (u: State)
    requires Leads(s, t) && Inv(t) && AllOut(t) && |t.phase| > 0
    ensures Leads(s, u) && AllOut(u) && u.rounds == t.rounds + r && |u.phase| == |t.phase|
    decreases r
  {
    hide Inv, Leads;
    u := t;
    if r > 0 {
      u := RoundCompletes(s, t);
      u := RoundsComplete(s, u, r - 1);
    }
  }

  lemma Stay(s: State)
    ensures Leads(s, s)
  {
    assert RunsTo(s, [], s);
  }

  /** For every number of processes and rounds, some run lets each process leave exactly that many. */
  lemma EveryRoundCompletes(processes: nat, r: nat) returns (s: State)
    ensures Leads(Init(processes), s) && |s.phase| == |s.left| == processes
    ensures forall p | 0 <= p < processes :: s.phase[p].Outside? && s.left[p] == r
  {
    s := Init(processes);
    Stay(s);
    if processes > 0 {
      InitInv(processes);
      s := RoundsComplete(s, s, r);
    }
  }

  /** From every reachable state, some run lets every process leave as many rounds as one likes. */
  lemma NobodyIsStuck(s: State, r: nat) returns (t: State)
    requires Reachable(s)
    ensures Leads(s, t) && Shaped(t) && |t.phase| == |s.phase|
    ensures forall p | 0 <= p < |t.phase| :: t.phase[p].Outside? && t.left[p] >= r
  {
    ReachableInv(s);
    Stay(s);
    t := s;
    if |s.phase| > 0 {
      t := Settles(s, s);
      InvShaped(t);
      t := RoundCompletes(s, t);
      t := RoundsComplete(s, t, r);
    }
  }

  // ---------- Spurious wakeups ----------

  /** No process has left more rounds than any other has arrived in. */
  ghost predicate InTime(s: State) {
    Shaped(s) && forall p, q :: 0 <= p < |s.phase| && 0 <= q < |s.phase| ==> s.left[p] <= s.arrived[q]
  }

  /** A single process never waits, so nothing can wake it. */
  ghost predicate Alone(s: State) {
    Inv(s) && |s.phase| <= 1 && forall i :: 0 <= i < |s.phase| ==> !s.phase[i].Waiting?
  }

  lemma AloneStep(s: State, a: Action)
    requires Alone(s) && Enabled(s, a)
    ensures Alone(Apply(s, a))
  {
    TallyAll(s.arrived, s.rounds + 1);
    assert InStep(s.phase[0], s.arrived[0], s.left[0], s.rounds, Resetting(s));
    StepInv(s, a);
  }

  lemma {:induction false} AloneRun(s: State, run: seq<Action>)
    requires Alone(s) && IsRun(s, run)
    ensures Alone(After(s, run))
    decreases |run|
  {
    if run != [] {
      AloneStep(s, run[0]);
      AloneRun(Apply(s, run[0]), run[1..]);
    }
  }

  lemma AloneInTime(s: State)
    requires Alone(s)
    ensures InTime(s)
  {
    forall p, q | 0 <= p < |s.phase| && 0 <= q < |s.phase| ensures s.left[p] <= s.arrived[q] {
      assert InStep(s.phase[p], s.arrived[p], s.left[p], s.rounds, Resetting(s));
    }
  }

  lemma RunStep(s: State, a: Action, run: seq<Action>)
    requires Enabled(s, a) && IsRun(Apply(s, a), run)
    ensures IsRun(s, [a] + run) && After(s, [a] + run) == After(Apply(s, a), run)
  {
    assert ([a] + run)[1..] == run;
  }

  /** The first of several processes enters, sleeps, is woken by nobody and leaves. */
  lemma SpuriousWakeupLeavesEarly(processes: nat) returns (run: seq<Action>)
    requires processes >= 2
    ensures IsRun(Init(processes), run)
    ensures var s := After(Init(processes), run);
      Shaped(s) && |s.phase| == processes && s.left[0] == 1 && s.arrived[1] == 0
  {
    var s := Init(processes);
    var s1 := Apply(s, Enter(0));
    var s2 := Apply(s1, Count(0));
    var s3 := Apply(s2, Compare(0));
    var s4 := Apply(s3, Spurious(0));
    var s5 := Apply(s4, Resume(0));
    run := [];
    RunStep(s5, Leave(0), run);
    run := [Leave(0)] + run;
    RunStep(s4, Resume(0), run);
    run := [Resume(0)] + run;
    RunStep(s3, Spurious(0), run);
    run := [Spurious(0)] + run;
    RunStep(s2, Compare(0), run);
    run := [Compare(0)] + run;
    RunStep(s1, Count(0), run);
    run := [Count(0)] + run;
    RunStep(s, Enter(0), run);
    run := [Enter(0)] + run;
  }

  /** With spurious wakeups nobody leaves early, in any run, exactly if there is at most one process. */
  lemma RobustExactly(processes: nat)
    ensures (forall run :: IsRun(Init(processes), run) ==> InTime(After(Init(processes), run))) <==> processes <= 1
  {
    if processes <= 1 {
      InitInv(processes);
      forall run | IsRun(Init(processes), run) ensures InTime(After(Init(processes), run)) {
        AloneRun(Init(processes), run);
        AloneInTime(After(Init(processes), run));
      }
    } else {
      var run := SpuriousWakeupLeavesEarly(processes);
      assert !InTime(After(Init(processes), run));
    }
  }
}

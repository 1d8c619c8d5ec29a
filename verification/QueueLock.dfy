/**
  The distributed queue lock of a team: one shared tail word, one `next` word per unit, and one
  empty message per hand-over. Every one-sided atomic operation, local store, send and receive is
  one step, so a run is any interleaving of the units' steps.
 */
module QueueLock {

  const NO_UNIT := -1

  /** Where a unit stands in dart_lock_acquire / try_acquire / release. */
  datatype Phase =
    | Outside               // not inside a call
    | Swapped(pred: nat)    // acquire: now the tail, `next` of the predecessor not yet written
    | Waiting(pred: nat)    // acquire: waiting for the predecessor's message
    | Granted               // acquire or try_acquire: owns the lock, flag not yet set
    | Polling               // release: the tail was somebody else, polling the own `next` word
    | Sending(succ: nat)    // release: the own `next` word has been read
    | Resetting             // release: message sent, own `next` word not yet reset
    | Clearing              // release: only the flag is left to clear

  datatype Message = Message(source: nat, dest: nat)

  /**
    `order`, `left` and `returned` record the history: the units in the order in which they
    became the tail, how many of them have given the lock up (tail reset or message sent), and
    the units in the order in which their acquire returned successfully.
   */
  datatype State = State(
    tail: int,
    next: seq<int>,
    acquired: seq<bool>,
    phase: seq<Phase>,
    messages: multiset<Message>,
    order: seq<nat>,
    left: nat,
    returned: seq<nat>)

  datatype Action =
    | Acquire(unit: nat)
    | TryAcquire(unit: nat)
    | Release(unit: nat)
    | Link(unit: nat)
    | Receive(unit: nat)
    | Return(unit: nat)
    | Poll(unit: nat)
    | Send(unit: nat)
    | Reset(unit: nat)
    | Clear(unit: nat)

  /** Actions by which the application enters a call; all others happen inside a call. */
  predicate IsCall(a: Action) {
    a.Acquire? || a.TryAcquire? || a.Release?
  }

  function Init(units: nat): (s: State)
    ensures |s.phase| == |s.acquired| == units
    ensures forall u :: 0 <= u < units ==> s.phase[u].Outside? && !s.acquired[u]
  {
    State(NO_UNIT, seq(units, i => NO_UNIT), seq(units, i => false), seq(units, i => Outside),
          multiset{}, [], 0, [])
  }

  predicate Shaped(s: State) {
    |s.next| == |s.acquired| == |s.phase|
  }

  predicate Enabled(s: State, a: Action) {
    var u := a.unit;
    Shaped(s) && u < |s.phase| &&
    match a
    case Acquire(_) => s.phase[u].Outside?
    case TryAcquire(_) => s.phase[u].Outside?
    case Release(_) => s.phase[u].Outside?
    case Link(_) => s.phase[u].Swapped? && s.phase[u].pred < |s.next|
    case Receive(_) => s.phase[u].Waiting? && Message(s.phase[u].pred, u) in s.messages
    case Return(_) => s.phase[u].Granted?
    case Poll(_) => s.phase[u].Polling? && s.next[u] >= NO_UNIT
    case Send(_) => s.phase[u].Sending?
    case Reset(_) => s.phase[u].Resetting?
    case Clear(_) => s.phase[u].Clearing?
  }

  /** One step. A refused call and a poll that still reads -1 leave the state as it is. */
  function Apply(s: State, a: Action): State
    requires Enabled(s, a)
  {
    var u := a.unit;
    match a
    case Acquire(_) =>
      if s.acquired[u] then s
      else if s.tail < 0 then s.(tail := u, order := s.order + [u], phase := s.phase[u := Granted])
      else s.(tail := u, order := s.order + [u], phase := s.phase[u := Swapped(s.tail)])
    case TryAcquire(_) =>
      if s.acquired[u] || s.tail != NO_UNIT then s
      else s.(tail := u, order := s.order + [u], phase := s.phase[u := Granted])
    case Release(_) =>
      if !s.acquired[u] then s
      else if s.tail == u then s.(tail := NO_UNIT, left := s.left + 1, phase := s.phase[u := Clearing])
      else s.(phase := s.phase[u := Polling])
    case Link(_) =>
      s.(next := s.next[s.phase[u].pred := u], phase := s.phase[u := Waiting(s.phase[u].pred)])
    case Receive(_) =>
      s.(messages := s.messages - multiset{Message(s.phase[u].pred, u)}, phase := s.phase[u := Granted])
    case Return(_) =>
      s.(acquired := s.acquired[u := true], phase := s.phase[u := Outside], returned := s.returned + [u])
    case Poll(_) =>
      if s.next[u] == NO_UNIT then s else s.(phase := s.phase[u := Sending(s.next[u])])
    case Send(_) =>
      s.(messages := s.messages + multiset{Message(u, s.phase[u].succ)},
         phase := s.phase[u := Resetting], left := s.left + 1)
    case Reset(_) =>
      s.(next := s.next[u := NO_UNIT], phase := s.phase[u := Clearing])
    case Clear(_) =>
      s.(acquired := s.acquired[u := false], phase := s.phase[u := Outside])
  }

  /** A run from `s` taking the actions in order, each one enabled when its turn comes. */
  ghost predicate IsRun(s: State, run: seq<Action>)
    decreases |run|
  {
    Shaped(s) &&
    (run != [] ==> Enabled(s, run[0]) && IsRun(Apply(s, run[0]), run[1..]))
  }

  ghost function After(s: State, run: seq<Action>): State
    requires IsRun(s, run)
    decreases |run|
  {
    if run == [] then s else After(Apply(s, run[0]), run[1..])
  }

  // ---------------------------------------------------------------------------------------------
  // The invariant: one duplicate-free queue explains the whole state

  /** The owner (or next owner) followed by the units behind it. */
  function Queue(s: State): seq<nat>
    requires s.left <= |s.order|
  {
    s.order[s.left..]
  }

  /** Acquire has returned successfully and release has not been called. */
  predicate Holds(s: State, u: nat) {
    Shaped(s) && u < |s.phase| && s.phase[u].Outside? && s.acquired[u]
  }

  predicate Queued(s: State, u: nat)
    requires Shaped(s) && u < |s.phase|
  {
    match s.phase[u]
    case Outside => s.acquired[u]
    case Resetting => false
    case Clearing => false
    case _ => true
  }

  ghost predicate UnitsInRange(s: State) {
    forall i | 0 <= i < |s.order| :: s.order[i] < |s.phase|
  }

  ghost predicate Distinct(q: seq<nat>) {
    forall i, j | 0 <= i < j < |q| :: q[i] != q[j]
  }

  ghost predicate Members(s: State, q: seq<nat>)
    requires Shaped(s)
  {
    forall u {:trigger Queued(s, u)} {:trigger s.phase[u]} | 0 <= u < |s.phase| :: Queued(s, u) <==> u in q
  }

  /** The unit at position j either still has to tell its predecessor, or has done so and waits. */
  ghost predicate Behind(s: State, q: seq<nat>, j: int)
    requires Shaped(s) && forall i | 0 <= i < |q| :: q[i] < |s.phase|
    requires 1 <= j < |q|
  {
    var pred, unit := q[j - 1], q[j];
    || (s.phase[unit] == Swapped(pred) && s.next[pred] == NO_UNIT)
    || (s.phase[unit] == Waiting(pred) && s.next[pred] == unit)
  }

  ghost predicate Line(s: State, q: seq<nat>)
    requires Shaped(s) && forall i | 0 <= i < |q| :: q[i] < |s.phase|
  {
    forall j {:trigger Behind(s, q, j)} | 1 <= j < |q| :: Behind(s, q, j)
  }

  ghost predicate HeadOwns(s: State, q: seq<nat>)
    requires Shaped(s) && forall i | 0 <= i < |q| :: q[i] < |s.phase|
  {
    if q == [] then s.messages == multiset{}
    else
      var head := s.phase[q[0]];
      && !head.Swapped?
      && s.messages == (if head.Waiting? then multiset{Message(head.pred, q[0])} else multiset{})
      && (head.Polling? || head.Sending? ==> |q| >= 2)
      && (head.Sending? ==> head.succ == q[1] && s.phase[q[1]].Waiting?)
  }

  /** Apart from the words that point to a waiting successor, only a releaser's own word is set. */
  ghost predicate NextWords(s: State, q: seq<nat>)
    requires Shaped(s) && forall i | 0 <= i < |q| :: q[i] < |s.phase|
  {
    && (q != [] ==> s.next[q[|q| - 1]] == NO_UNIT)
    && (forall u | 0 <= u < |s.next| && u !in q && !s.phase[u].Resetting? :: s.next[u] == NO_UNIT)
    && (forall u | 0 <= u < |s.next| :: s.next[u] >= NO_UNIT)
  }

  /** Inside a call, the flag is set from the release on. */
  predicate FlagFits(p: Phase, acquired: bool) {
    p.Outside? || (acquired <==> p.Polling? || p.Sending? || p.Resetting? || p.Clearing?)
  }

  ghost predicate Flags(s: State)
    requires Shaped(s)
  {
    forall u | 0 <= u < |s.phase| :: FlagFits(s.phase[u], s.acquired[u])
  }

  /** The head of the queue has returned from acquire. */
  predicate HeadReturned(s: State)
    requires Shaped(s) && s.left <= |s.order|
  {
    s.left < |s.order| && s.order[s.left] < |s.phase| &&
    var head := s.phase[s.order[s.left]];
    head.Outside? || head.Polling? || head.Sending?
  }

  ghost predicate Inv(s: State) {
    && Shaped(s)
    && s.left <= |s.order|
    && UnitsInRange(s)
    && var q := Queue(s);
    && Distinct(q)
    && s.tail == (if q == [] then NO_UNIT else q[|q| - 1])
    && Members(s, q)
    && Line(s, q)
    && HeadOwns(s, q)
    && NextWords(s, q)
    && Flags(s)
    && s.returned == s.order[..if HeadReturned(s) then s.left + 1 else s.left]
  }

  lemma InitInv(units: nat)
    ensures Inv(Init(units))
  {
  }

  lemma LineAt(s: State, j: nat)
    requires Inv(s) && 1 <= j < |Queue(s)|
    ensures Behind(s, Queue(s), j)
  {
  }

  /** A queued unit that is not on its way to the lock stands at the head. */
  lemma HeadOf(s: State, u: nat)
    requires Inv(s) && u < |s.phase| && Queued(s, u)
    requires !s.phase[u].Swapped? && !s.phase[u].Waiting?
    ensures Queue(s) != [] && Queue(s)[0] == u
  {
    var q := Queue(s);
    var j :| 0 <= j < |q| && q[j] == u;
    if j > 0 {
      LineAt(s, j);
    }
  }

  ghost predicate Enqueued(s: State, s': State, u: nat) {
    && Shaped(s) && u < |s.phase| && s.phase[u].Outside? && !s.acquired[u]
    && s' == s.(tail := u, order := s.order + [u],
                phase := s.phase[u := if s.tail < 0 then Granted else Swapped(s.tail)])
  }

  lemma EnqueueMembers(s: State, s': State, u: nat)
    requires Inv(s) && Enqueued(s, s', u)
    ensures UnitsInRange(s') && Queue(s') == Queue(s) + [u]
    ensures u !in Queue(s) && Distinct(Queue(s')) && Members(s', Queue(s'))
  {
    var q, q' := Queue(s), Queue(s');
    assert q' == q + [u];
    assert !Queued(s, u);
    forall v | 0 <= v < |s'.phase| ensures Queued(s', v) <==> v in q' {
      assert Queued(s, v) <==> v in q;
      assert v in q' <==> v in q || v == u;
    }
  }

  lemma EnqueueLine(s: State, s': State, u: nat)
    requires Inv(s) && Enqueued(s, s', u) && UnitsInRange(s')
    ensures Line(s', Queue(s'))
  {
    EnqueueMembers(s, s', u);
    var q, q' := Queue(s), Queue(s');
    forall j | 1 <= j < |q'| ensures Behind(s', q', j) {
      if j < |q| {
        LineAt(s, j);
      }
    }
  }

  lemma EnqueueHead(s: State, s': State, u: nat)
    requires Inv(s) && Enqueued(s, s', u) && UnitsInRange(s') && Queue(s') == Queue(s) + [u]
    ensures HeadOwns(s', Queue(s'))
  {
    hide Line, NextWords, Flags, Distinct;
    var q, q' := Queue(s), Queue(s');
    assert !Queued(s, u);
    assert q != [] ==> q'[0] == q[0] && q[0] in q && q[0] != u;
    assert |q| >= 2 ==> q'[1] == q[1] && q[1] in q && q[1] != u;
  }

  lemma EnqueueWords(s: State, s': State, u: nat)
    requires Inv(s) && Enqueued(s, s', u) && UnitsInRange(s') && Queue(s') == Queue(s) + [u] && u !in Queue(s)
    ensures NextWords(s', Queue(s'))
  {
    hide Line, Members, HeadOwns, Flags, Distinct;
    forall v | 0 <= v < |s'.next| && v !in Queue(s') && !s'.phase[v].Resetting? ensures s'.next[v] == NO_UNIT {
      assert v !in Queue(s);
    }
  }

  lemma EnqueueHistory(s: State, s': State, u: nat)
    requires Inv(s) && Enqueued(s, s', u)
    ensures s'.left <= |s'.order| && HeadReturned(s') == HeadReturned(s) && Flags(s')
    ensures s'.order[..s.left] == s.order[..s.left]
    ensures HeadReturned(s) ==> s'.order[..s.left + 1] == s.order[..s.left + 1]
  {
    hide Line, HeadOwns, NextWords, Distinct;
    if Queue(s) != [] {
      assert s'.order[s.left] == s.order[s.left] == Queue(s)[0];
      assert Queue(s)[0] in Queue(s) && !Queued(s, u);
    }
  }

  lemma EnqueueInv(s: State, s': State, u: nat)
    requires Inv(s) && Enqueued(s, s', u)
    ensures Inv(s')
  {
    hide Line, Members, HeadOwns, NextWords, Flags, Distinct, HeadReturned, UnitsInRange;
    EnqueueMembers(s, s', u);
    EnqueueLine(s, s', u);
    EnqueueHead(s, s', u);
    EnqueueWords(s, s', u);
    EnqueueHistory(s, s', u);
  }

  /** Only unit u has changed, and only its phase and its flag. */
  predicate Touches(s: State, s': State, u: nat) {
    && Shaped(s) && Shaped(s') && |s'.phase| == |s.phase| && u < |s.phase|
    && s'.order == s.order && s'.left == s.left && s'.next == s.next && s'.tail == s.tail
    && s'.phase == s.phase[u := s'.phase[u]] && s'.acquired == s.acquired[u := s'.acquired[u]]
  }

  lemma TouchedLine(s: State, s': State, u: nat)
    requires Inv(s) && Touches(s, s', u)
    requires s.phase[u].Swapped? || s.phase[u].Waiting? ==> Queue(s) != [] && Queue(s)[0] == u
    ensures UnitsInRange(s') && Line(s', Queue(s'))
  {
    hide Members, NextWords, Flags, HeadOwns;
    var q := Queue(s);
    forall j | 1 <= j < |q| ensures Behind(s', q, j) {
      LineAt(s, j);
    }
  }

  lemma TouchedMembers(s: State, s': State, u: nat)
    requires Inv(s) && Touches(s, s', u) && Queued(s', u) == Queued(s, u)
    ensures Members(s', Queue(s'))
  {
    hide Distinct, Line, NextWords, Flags, HeadOwns;
    forall v | 0 <= v < |s'.phase| ensures Queued(s', v) <==> v in Queue(s') {
      assert Queued(s, v) <==> v in Queue(s);
    }
  }

  lemma TouchedWords(s: State, s': State, u: nat)
    requires Inv(s) && Touches(s, s', u)
    requires s.phase[u].Resetting? ==> s'.phase[u].Resetting?
    ensures UnitsInRange(s') && NextWords(s', Queue(s'))
  {
    hide Distinct, Line, Members, Flags, HeadOwns;
  }

  /** A step that touches one unit keeps the invariant if it is right for that unit and the head. */
  lemma TouchedInv(s: State, s': State, u: nat)
    requires Inv(s) && Touches(s, s', u) && Queued(s', u) == Queued(s, u)
    requires s.phase[u].Swapped? || s.phase[u].Waiting? ==> Queue(s) != [] && Queue(s)[0] == u
    requires s.phase[u].Resetting? ==> s'.phase[u].Resetting?
    requires FlagFits(s'.phase[u], s'.acquired[u]) && HeadOwns(s', Queue(s))
    requires s'.returned == s.order[..if HeadReturned(s') then s.left + 1 else s.left]
    ensures Inv(s') && Queue(s') == Queue(s)
  {
    hide Line, NextWords, Members, HeadOwns, HeadReturned, FlagFits, Queued;
    TouchedLine(s, s', u);
    TouchedMembers(s, s', u);
    TouchedWords(s, s', u);
  }

  /** A head that is not on its way to the lock, seen from the queue and from the history. */
  lemma HeadFacts(s: State)
    requires Inv(s) && Queue(s) != []
    ensures s.left < |s.order| && s.order[s.left] == Queue(s)[0] < |s.phase|
    ensures Queued(s, Queue(s)[0]) && s.order[..s.left + 1] == s.order[..s.left] + [Queue(s)[0]]
  {
    assert Queue(s)[0] in Queue(s);
  }

  /** A unit that is not queued does not concern the head. */
  lemma HeadUntouched(s: State, s': State, u: nat)
    requires Inv(s) && Touches(s, s', u) && !Queued(s, u) && s'.messages == s.messages
    ensures HeadOwns(s', Queue(s)) && HeadReturned(s') == HeadReturned(s)
  {
    hide Line, NextWords, Flags;
    var q := Queue(s);
    assert q != [] ==> q[0] in q && s.order[s.left] == q[0];
    assert |q| >= 2 ==> q[1] in q;
  }

  /** The unit is appended to the queue; a unit that holds the lock is refused. */
  lemma AcquireInv(s: State, u: nat)
    requires Inv(s) && Enabled(s, Acquire(u))
    ensures var s' := Apply(s, Acquire(u));
      && Inv(s')
      && if Holds(s, u) then s' == s
         else u !in Queue(s) && Queue(s') == Queue(s) + [u] && (s'.phase[u].Granted? <==> Queue(s) == [])
  {
    hide Line, Members, HeadOwns, NextWords, Flags, Distinct;
    if !s.acquired[u] {
      EnqueueMembers(s, Apply(s, Acquire(u)), u);
      EnqueueInv(s, Apply(s, Acquire(u)), u);
    }
  }

  /** The unit becomes the owner if the queue is empty; otherwise nothing changes. */
  lemma TryAcquireInv(s: State, u: nat)
    requires Inv(s) && Enabled(s, TryAcquire(u))
    ensures var s' := Apply(s, TryAcquire(u));
      && Inv(s')
      && if Queue(s) == [] then Queue(s') == [u] && s'.phase[u].Granted? else s' == s
  {
    hide Line, HeadOwns, NextWords, Flags, Distinct;
    if s.tail == NO_UNIT {
      assert !Queued(s, u);
      EnqueueMembers(s, Apply(s, TryAcquire(u)), u);
      EnqueueInv(s, Apply(s, TryAcquire(u)), u);
    }
  }

  lemma ReleaseLast(s: State, u: nat)
    requires Inv(s) && Enabled(s, Release(u)) && s.acquired[u] && s.tail == u
    ensures Queue(s) == [u] && Inv(Apply(s, Release(u))) && Queue(Apply(s, Release(u))) == []
  {
    HeadOf(s, u);
    HeadFacts(s);
    var s' := Apply(s, Release(u));
    assert Queue(s) == [u] && Queue(s') == [];
    forall v | 0 <= v < |s'.phase| ensures !Queued(s', v) {
      assert Queued(s, v) ==> v == u;
    }
  }

  /**
    A unit that holds the lock is the head. The compare-and-swap of the tail succeeds exactly if
    nobody is behind it, and empties the queue; otherwise the unit goes on to poll its word.
   */
  lemma ReleaseInv(s: State, u: nat)
    requires Inv(s) && Enabled(s, Release(u))
    ensures var s' := Apply(s, Release(u));
      && Inv(s') && (!Holds(s, u) ==> s' == s)
      && (Holds(s, u) ==>
            && Queue(s) != [] && Queue(s)[0] == u
            && if |Queue(s)| == 1 then Queue(s') == [] && s'.tail == NO_UNIT
               else Queue(s') == Queue(s) && s'.phase[u].Polling?)
  {
    hide Line, Members, NextWords, Flags;
    if s.acquired[u] {
      HeadOf(s, u);
      if s.tail == u {
        ReleaseLast(s, u);
      } else {
        HeadFacts(s);
        TouchedInv(s, Apply(s, Release(u)), u);
      }
    }
  }

  /** A unit about to write its predecessor's word is right behind it, and the word is still -1. */
  lemma LinkPosition(s: State, u: nat) returns (k: nat)
    requires Inv(s) && u < |s.phase| && s.phase[u].Swapped?
    ensures 1 <= k < |Queue(s)| && Queue(s)[k] == u && Queue(s)[k - 1] == s.phase[u].pred
    ensures s.next[s.phase[u].pred] == NO_UNIT
  {
    var q := Queue(s);
    assert Queued(s, u);
    k :| 0 <= k < |q| && q[k] == u;
    LineAt(s, k);
  }

  lemma LinkLine(s: State, u: nat, k: nat)
    requires Inv(s) && Enabled(s, Link(u))
    requires 1 <= k < |Queue(s)| && Queue(s)[k] == u && Queue(s)[k - 1] == s.phase[u].pred
    ensures Line(Apply(s, Link(u)), Queue(s))
  {
    hide Members, HeadOwns, NextWords, Flags;
    var q, s' := Queue(s), Apply(s, Link(u));
    forall j | 1 <= j < |q| ensures Behind(s', q, j) {
      LineAt(s, j);
      assert j != k ==> q[j] != u && q[j - 1] != q[k - 1];
    }
  }

  lemma LinkWords(s: State, u: nat, k: nat)
    requires Inv(s) && Enabled(s, Link(u))
    requires 1 <= k < |Queue(s)| && Queue(s)[k] == u && Queue(s)[k - 1] == s.phase[u].pred
    ensures HeadOwns(Apply(s, Link(u)), Queue(s)) && NextWords(Apply(s, Link(u)), Queue(s))
    ensures HeadReturned(Apply(s, Link(u))) == HeadReturned(s)
  {
    hide Line, Members, Flags;
    var q := Queue(s);
    assert q[k - 1] in q && q[k - 1] != q[|q| - 1];
    assert q[0] != u && q[0] == s.order[s.left];
    LineAt(s, k);
  }

  lemma LinkInv(s: State, u: nat)
    requires Inv(s) && Enabled(s, Link(u))
    ensures var s' := Apply(s, Link(u));
      Inv(s') && Queue(s') == Queue(s) && s'.next[s.phase[u].pred] == u
  {
    var k := LinkPosition(s, u);
    LinkLine(s, u, k);
    LinkWords(s, u, k);
    hide Line, HeadOwns, NextWords, HeadReturned;
    assert Members(Apply(s, Link(u)), Queue(s));
  }

  /** The message makes the head of the queue the owner, and no other message is under way. */
  lemma ReceiveInv(s: State, u: nat)
    requires Inv(s) && Enabled(s, Receive(u))
    ensures var s' := Apply(s, Receive(u));
      && Inv(s') && Queue(s') == Queue(s) && s'.phase[u].Granted? && s'.messages == multiset{}
      && Queue(s) != [] && Queue(s)[0] == u
  {
    hide Line, Members, NextWords;
    HeadFacts(s);
    TouchedInv(s, Apply(s, Receive(u)), u);
  }

  lemma ReturnInv(s: State, u: nat)
    requires Inv(s) && Enabled(s, Return(u))
    ensures var s' := Apply(s, Return(u));
      Inv(s') && Queue(s') == Queue(s) && Holds(s', u)
  {
    hide Line, Members, NextWords, Flags;
    HeadOf(s, u);
    HeadFacts(s);
    TouchedInv(s, Apply(s, Return(u)), u);
  }

  /** What is read is either -1, or the next unit of the queue, which waits. */
  lemma PollInv(s: State, u: nat)
    requires Inv(s) && Enabled(s, Poll(u))
    ensures var s' := Apply(s, Poll(u));
      && Inv(s') && Queue(s') == Queue(s) && |Queue(s)| >= 2 && Queue(s)[0] == u
      && (s.next[u] == NO_UNIT ==> s' == s)
      && (s.next[u] != NO_UNIT ==> s'.phase[u] == Sending(Queue(s)[1]) && s.phase[Queue(s)[1]] == Waiting(u))
  {
    hide Members, NextWords, Line;
    HeadOf(s, u);
    HeadFacts(s);
    LineAt(s, 1);
    if s.next[u] != NO_UNIT {
      TouchedInv(s, Apply(s, Poll(u)), u);
    }
  }

  lemma SendQueue(s: State, u: nat)
    requires Inv(s) && Enabled(s, Send(u))
    ensures s.left + 1 < |s.order| && Queue(s)[0] == u && s.phase[u].succ == Queue(s)[1] == s.order[s.left + 1]
    ensures Queue(s) == [u] + Queue(Apply(s, Send(u))) && UnitsInRange(Apply(s, Send(u)))
    ensures s.phase[Queue(s)[1]] == Waiting(u) && s.messages == multiset{}
    ensures s.returned == s.order[..s.left + 1]
  {
    hide Line, Members, NextWords, Flags;
    HeadOf(s, u);
    HeadFacts(s);
    LineAt(s, 1);
  }

  lemma WithoutHead(q: seq<nat>, u: nat, rest: seq<nat>)
    requires q == [u] + rest && Distinct(q)
    ensures Distinct(rest) && forall v :: v in rest <==> v in q && v != u
  {
    forall i | 0 <= i < |rest| ensures rest[i] == q[i + 1] && rest[i] != q[0] {
    }
    forall v | v in q && v != u ensures v in rest {
    }
  }

  lemma SendMembers(s: State, u: nat)
    requires Inv(s) && Enabled(s, Send(u)) && Queue(s) == [u] + Queue(Apply(s, Send(u)))
    ensures Members(Apply(s, Send(u)), Queue(Apply(s, Send(u)))) && Distinct(Queue(Apply(s, Send(u))))
  {
    hide Line, HeadOwns, NextWords, Flags, Distinct;
    var s' := Apply(s, Send(u));
    WithoutHead(Queue(s), u, Queue(s'));
    forall v | 0 <= v < |s'.phase| ensures Queued(s', v) <==> v in Queue(s') {
      assert Queued(s, v) <==> v in Queue(s);
    }
  }

  lemma SendLine(s: State, u: nat)
    requires Inv(s) && Enabled(s, Send(u)) && Queue(s) == [u] + Queue(Apply(s, Send(u)))
    requires UnitsInRange(Apply(s, Send(u)))
    ensures Line(Apply(s, Send(u)), Queue(Apply(s, Send(u))))
  {
    hide Members, HeadOwns, NextWords, Flags, Line;
    var s' := Apply(s, Send(u));
    var q, q' := Queue(s), Queue(s');
    forall j | 1 <= j < |q'| ensures Behind(s', q', j) {
      LineAt(s, j + 1);
      assert q'[j] == q[j + 1] && q'[j - 1] == q[j] && q[0] != q[j + 1];
    }
    AllBehind(s', q');
  }

  lemma AllBehind(s: State, q: seq<nat>)
    requires Shaped(s) && forall i | 0 <= i < |q| :: q[i] < |s.phase|
    requires forall j {:trigger Behind(s, q, j)} | 1 <= j < |q| :: Behind(s, q, j)
    ensures Line(s, q)
  {
  }

  lemma SendWords(s: State, u: nat)
    requires Inv(s) && Enabled(s, Send(u)) && Queue(s) == [u] + Queue(Apply(s, Send(u)))
    requires UnitsInRange(Apply(s, Send(u))) && |Queue(s)| >= 2
    ensures NextWords(Apply(s, Send(u)), Queue(Apply(s, Send(u))))
  {
    hide Line, Members, HeadOwns, Flags, Distinct;
    var s' := Apply(s, Send(u));
    assert Queue(s')[|Queue(s')| - 1] == Queue(s)[|Queue(s)| - 1];
    forall v | 0 <= v < |s'.next| && v !in Queue(s') && !s'.phase[v].Resetting? ensures s'.next[v] == NO_UNIT {
      assert v !in Queue(s);
    }
  }

  /** The sender leaves the queue and the only message is for the new head. */
  lemma SendInv(s: State, u: nat)
    requires Inv(s) && Enabled(s, Send(u))
    ensures var s' := Apply(s, Send(u));
      && Inv(s') && Queue(s') != [] && Queue(s) == [u] + Queue(s')
      && s'.messages == multiset{Message(u, Queue(s')[0])}
  {
    hide Line, Members, NextWords, Distinct;
    SendQueue(s, u);
    SendMembers(s, u);
    SendLine(s, u);
    SendWords(s, u);
    var s' := Apply(s, Send(u));
    assert Queue(s')[0] == Queue(s)[1] == s'.order[s'.left] != u;
  }

  lemma ResetLine(s: State, u: nat)
    requires Inv(s) && Enabled(s, Reset(u))
    ensures Line(Apply(s, Reset(u)), Queue(s)) && Members(Apply(s, Reset(u)), Queue(s))
  {
    hide HeadOwns, NextWords, Flags, Distinct;
    assert !Queued(s, u);
    var q, s' := Queue(s), Apply(s, Reset(u));
    forall j | 1 <= j < |q| ensures Behind(s', q, j) {
      LineAt(s, j);
      assert q[j] in q && q[j - 1] in q;
    }
  }

  lemma ResetHead(s: State, u: nat)
    requires Inv(s) && Enabled(s, Reset(u))
    ensures HeadOwns(Apply(s, Reset(u)), Queue(s)) && HeadReturned(Apply(s, Reset(u))) == HeadReturned(s)
  {
    hide Line, NextWords, Flags, Distinct;
    var q := Queue(s);
    assert !Queued(s, u);
    assert q != [] ==> q[0] in q && s.order[s.left] == q[0];
    assert |q| >= 2 ==> q[1] in q;
  }

  lemma ResetInv(s: State, u: nat)
    requires Inv(s) && Enabled(s, Reset(u))
    ensures var s' := Apply(s, Reset(u));
      Inv(s') && Queue(s') == Queue(s) && s'.next[u] == NO_UNIT
  {
    hide Line, Members, HeadOwns, HeadReturned, Distinct;
    ResetLine(s, u);
    ResetHead(s, u);
  }

  lemma ClearInv(s: State, u: nat)
    requires Inv(s) && Enabled(s, Clear(u))
    ensures var s' := Apply(s, Clear(u));
      Inv(s') && Queue(s') == Queue(s) && u !in Queue(s)
  {
    hide Line, NextWords, Distinct, HeadOwns, HeadReturned;
    assert !Queued(s, u);
    HeadUntouched(s, Apply(s, Clear(u)), u);
    TouchedInv(s, Apply(s, Clear(u)), u);
  }

  // ---------------------------------------------------------------------------------------------
  // Safety over whole runs

  lemma StepInv(s: State, a: Action)
    requires Inv(s) && Enabled(s, a)
    ensures Inv(Apply(s, a))
  {
    match a
    case Acquire(u) => AcquireInv(s, u);
    case TryAcquire(u) => TryAcquireInv(s, u);
    case Release(u) => ReleaseInv(s, u);
    case Link(u) => LinkInv(s, u);
    case Receive(u) => ReceiveInv(s, u);
    case Return(u) => ReturnInv(s, u);
    case Poll(u) => PollInv(s, u);
    case Send(u) => SendInv(s, u);
    case Reset(u) => ResetInv(s, u);
    case Clear(u) => ClearInv(s, u);
  }

  lemma {:induction false} RunInv(s: State, run: seq<Action>)
    requires Inv(s) && IsRun(s, run)
    ensures Inv(After(s, run))
    decreases |run|
  {
    hide Inv, Enabled, Apply;
    if run != [] {
      StepInv(s, run[0]);
      RunInv(Apply(s, run[0]), run[1..]);
    }
  }

  /** However many units and however their steps interleave, two units never hold the lock. */
  lemma MutualExclusion(units: nat, run: seq<Action>, u: nat, v: nat)
    requires IsRun(Init(units), run)
    requires Holds(After(Init(units), run), u) && Holds(After(Init(units), run), v)
    ensures u == v
  {
    hide Inv, IsRun, After, Init;
    InitInv(units);
    RunInv(Init(units), run);
    HeadOf(After(Init(units), run), u);
    HeadOf(After(Init(units), run), v);
  }

  /** Acquires return in exactly the order of the tail swaps, and no unit is overtaken. */
  lemma FirstComeFirstServed(units: nat, run: seq<Action>)
    requires IsRun(Init(units), run)
    ensures After(Init(units), run).returned <= After(Init(units), run).order
    ensures |After(Init(units), run).returned| <= After(Init(units), run).left + 1
  {
    RunInv(Init(units), run);
  }

  /** The raw flag of a unit that no longer owns the lock stays set for a while: it is not exclusive. */
  lemma FlagsOverlapOnlyWhileFinishing(s: State, u: nat, v: nat)
    requires Inv(s) && u < |s.phase| && v < |s.phase| && u != v
    requires s.acquired[u] && s.acquired[v]
    ensures s.phase[u].Resetting? || s.phase[u].Clearing? || s.phase[v].Resetting? || s.phase[v].Clearing?
  {
    if Queued(s, u) && Queued(s, v) {
      HeadOf(s, u);
      HeadOf(s, v);
    }
  }

  lemma ConsRun(s: State, a: Action, rest: seq<Action>)
    requires Shaped(s) && Enabled(s, a) && IsRun(Apply(s, a), rest)
    ensures IsRun(s, [a] + rest) && After(s, [a] + rest) == After(Apply(s, a), rest)
  {
    hide Enabled, Apply, Shaped;
    assert ([a] + rest)[1..] == rest;
  }

  lemma FlagsDoOverlap() returns (run: seq<Action>)
    ensures IsRun(Init(2), run) && Shaped(After(Init(2), run))
    ensures After(Init(2), run).acquired == [true, true]
  {
    var s0 := Init(2);
    var s2 := State(0, [-1, -1], [true, false], [Outside, Outside], multiset{}, [0], 0, [0]);
    var s5 := State(1, [-1, -1], [true, true], [Clearing, Outside], multiset{}, [0, 1], 1, [0, 1]);
    var first := FirstUnitHolds(s0, s2);
    var second := SecondUnitFollows(s2, s5);
    AppendRuns(s0, first, second);
    run := first + second;
  }

  lemma FirstUnitHolds(s0: State, s2: State) returns (run: seq<Action>)
    requires s0 == Init(2)
    requires s2 == State(0, [-1, -1], [true, false], [Outside, Outside], multiset{}, [0], 0, [0])
    ensures IsRun(s0, run) && After(s0, run) == s2
  {
    assert s0 == State(-1, [-1, -1], [false, false], [Outside, Outside], multiset{}, [], 0, []);
    var s1 := Apply(s0, Acquire(0));
    assert Apply(s1, Return(0)) == s2;
    ConsRun(s1, Return(0), []);
    ConsRun(s0, Acquire(0), [Return(0)] + []);
    run := [Acquire(0)] + ([Return(0)] + []);
  }

  lemma SecondUnitFollows(s2: State, s5: State) returns (run: seq<Action>)
    requires s2 == State(0, [-1, -1], [true, false], [Outside, Outside], multiset{}, [0], 0, [0])
    requires s5 == State(1, [-1, -1], [true, true], [Clearing, Outside], multiset{}, [0, 1], 1, [0, 1])
    ensures IsRun(s2, run) && After(s2, run) == s5
  {
    var s3 := Apply(s2, Release(0));
    assert s3 == State(-1, [-1, -1], [true, false], [Clearing, Outside], multiset{}, [0], 1, [0]);
    var s4 := Apply(s3, Acquire(1));
    assert s4 == State(1, [-1, -1], [true, false], [Clearing, Granted], multiset{}, [0, 1], 1, [0]);
    assert Apply(s4, Return(1)) == s5;
    ConsRun(s4, Return(1), []);
    ConsRun(s3, Acquire(1), [Return(1)] + []);
    ConsRun(s2, Release(0), [Acquire(1)] + ([Return(1)] + []));
    run := [Release(0)] + ([Acquire(1)] + ([Return(1)] + []));
  }

  lemma {:induction false} AppendRuns(s: State, first: seq<Action>, second: seq<Action>)
    requires IsRun(s, first) && IsRun(After(s, first), second)
    ensures IsRun(s, first + second) && After(s, first + second) == After(After(s, first), second)
    decreases |first|
  {
    hide Enabled, Apply, Shaped;
    if first == [] {
      assert first + second == second;
    } else {
      AppendRuns(Apply(s, first[0]), first[1..], second);
      assert first + second == [first[0]] + (first[1..] + second);
      ConsRun(s, first[0], first[1..] + second);
    }
  }

  /** At most one notification is under way; it is for the next owner, which waits for its sender. */
  lemma OneNotification(s: State, m: Message)
    requires Inv(s) && m in s.messages
    ensures s.messages == multiset{m}
    ensures Queue(s) != [] && m.dest == Queue(s)[0] && s.phase[m.dest] == Waiting(m.source)
  {
  }

  /** A unit that may enter the queue has its own `next` word reset. */
  lemma ResetBeforeReentry(s: State, u: nat)
    requires Inv(s) && u < |s.phase| && s.phase[u].Outside? && !s.acquired[u]
    ensures s.next[u] == NO_UNIT
  {
    assert !Queued(s, u);
  }

  /** The history only grows, and at most one unit leaves the queue. */
  lemma LeftAdvances(s: State, a: Action)
    requires Inv(s) && Enabled(s, a)
    ensures s.order <= Apply(s, a).order && s.left <= |s.order|
    ensures s.left <= Apply(s, a).left <= s.left + 1 && Apply(s, a).left <= |Apply(s, a).order|
  {
    hide Line, Members, HeadOwns, NextWords, Flags, Distinct;
    if s.left != Apply(s, a).left {
      HeadOf(s, a.unit);
    }
  }

  /** The queue position of a queued unit drops by one when the head leaves and never grows. */
  lemma PositionNeverGrows(s: State, a: Action, k: nat)
    requires Inv(s) && Enabled(s, a) && k < |Queue(s)|
    ensures var s' := Apply(s, a);
      && s.left <= s'.left <= s.left + 1 && s'.left <= |s'.order|
      && (k >= s'.left - s.left ==>
            k - (s'.left - s.left) < |Queue(s')| && Queue(s')[k - (s'.left - s.left)] == Queue(s)[k])
  {
    hide Inv, Apply, Enabled;
    LeftAdvances(s, a);
    var s' := Apply(s, a);
    if k >= s'.left - s.left {
      assert Queue(s')[k - (s'.left - s.left)] == s'.order[s.left + k];
    }
  }

  // ---------------------------------------------------------------------------------------------
  // Progress: every accepted release hands over, whatever the schedule

  ghost predicate Reachable(s: State) {
    exists units: nat, run: seq<Action> :: IsRun(Init(units), run) && After(Init(units), run) == s
  }

  lemma ReachableInv(s: State)
    requires Reachable(s)
    ensures Inv(s)
  {
    hide Inv, IsRun, After, Init;
    var units: nat, run :| IsRun(Init(units), run) && After(Init(units), run) == s;
    InitInv(units);
    RunInv(Init(units), run);
  }

  lemma ReachableShaped(s: State)
    requires Reachable(s)
    ensures Shaped(s)
  {
    ReachableInv(s);
  }

  lemma StepShaped(s: State, a: Action)
    requires Enabled(s, a)
    ensures Shaped(s) && Shaped(Apply(s, a))
  {
  }

  lemma ReachableStep(s: State, a: Action)
    requires Reachable(s) && Enabled(s, a)
    ensures Reachable(Apply(s, a))
  {
    hide Enabled, Apply, Init, Shaped;
    var units: nat, run :| IsRun(Init(units), run) && After(Init(units), run) == s;
    StepShaped(s, a);
    ConsRun(s, a, []);
    AppendRuns(Init(units), run, [a] + []);
  }

  predicate GivingUp(p: Phase) {
    p.Polling? || p.Sending?
  }

  /** How many releases have been accepted so far; `order[Turn(s)]` is the unit whose turn it is. */
  function Turn(s: State): nat {
    if s.left < |s.order| && s.order[s.left] < |s.phase| && GivingUp(s.phase[s.order[s.left]])
    then s.left + 1 else s.left
  }

  /** The lemma below for a step that enters no call, or enters one that is refused. */
  lemma SameTurn(s: State, a: Action)
    requires Enabled(s, a) && !a.Send?
    requires IsCall(a) ==> Apply(s, a) == s
    ensures Turn(Apply(s, a)) == Turn(s)
  {
  }

  lemma EnqueueTurn(s: State, s': State, u: nat)
    requires Reachable(s) && Enqueued(s, s', u)
    ensures Turn(s') == Turn(s)
  {
    ReachableInv(s);
    if s.left < |s.order| {
      assert s.order[s.left] == Queue(s)[0] && Queue(s)[0] in Queue(s);
      assert Queued(s, s.order[s.left]) && !Queued(s, u);
      assert s'.order[s.left] == s.order[s.left];
    }
  }

  lemma ReleaseTurn(s: State, u: nat)
    requires Reachable(s) && Enabled(s, Release(u)) && s.acquired[u]
    ensures Turn(Apply(s, Release(u))) == Turn(s) + 1
  {
    ReachableInv(s);
    HeadOf(s, u);
    assert s.order[s.left] == u;
    assert s.tail == u ==> |Queue(s)| == 1;
  }

  lemma SendTurn(s: State, u: nat)
    requires Reachable(s) && Enabled(s, Send(u))
    ensures Turn(Apply(s, Send(u))) == Turn(s)
  {
    ReachableInv(s);
    HeadOf(s, u);
    LineAt(s, 1);
    assert s.order[s.left] == u && s.order[s.left + 1] == Queue(s)[1];
  }

  lemma OnlyReleasesAdvanceTheTurn(s: State, a: Action)
    requires Reachable(s) && Enabled(s, a)
    ensures Turn(Apply(s, a)) == Turn(s) + if a.Release? && s.acquired[a.unit] then 1 else 0
    ensures s.order <= Apply(s, a).order
    ensures !IsCall(a) ==> Apply(s, a).order == s.order
  {
    var s' := Apply(s, a);
    match a {
      case Acquire(u) => if !s.acquired[u] { EnqueueTurn(s, s', u); }
      case TryAcquire(u) => if !s.acquired[u] && s.tail == NO_UNIT { EnqueueTurn(s, s', u); }
      case Release(u) => if s.acquired[u] { ReleaseTurn(s, u); }
      case Send(u) => SendTurn(s, u);
      case _ => SameTurn(s, a);
    }
  }

  /** Steps a unit still has to take inside its current call. */
  function Remaining(p: Phase): nat {
    match p
    case Outside => 0
    case Swapped(_) => 3
    case Waiting(_) => 2
    case Granted => 1
    case Polling => 4
    case Sending(_) => 3
    case Resetting => 2
    case Clearing => 1
  }

  function Measure(phases: seq<Phase>): nat {
    if phases == [] then 0 else Remaining(phases[0]) + Measure(phases[1..])
  }

  lemma {:induction false} MeasureUpdate(phases: seq<Phase>, u: nat, p: Phase)
    requires u < |phases|
    ensures Measure(phases[u := p]) == Measure(phases) - Remaining(phases[u]) + Remaining(p)
  {
    if u == 0 {
      assert phases[u := p][1..] == phases[1..];
    } else {
      assert phases[u := p][1..] == phases[1..][u - 1 := p];
      MeasureUpdate(phases[1..], u - 1, p);
    }
  }

  /** Inside calls, every step that changes anything brings some call nearer to its return. */
  lemma InternalStepsTerminate(s: State, a: Action)
    requires Enabled(s, a) && !IsCall(a) && Apply(s, a) != s
    ensures Measure(Apply(s, a).phase) == Measure(s.phase) - 1
  {
    PhaseMoves(s, a);
    hide Enabled, Apply, Remaining, Measure;
    MeasureUpdate(s.phase, a.unit, Apply(s, a).phase[a.unit]);
  }

  lemma PhaseMoves(s: State, a: Action)
    requires Enabled(s, a) && !IsCall(a) && Apply(s, a) != s
    ensures var s', u := Apply(s, a), a.unit;
      && u < |s.phase| == |s'.phase| && s'.phase == s.phase[u := s'.phase[u]]
      && Remaining(s'.phase[u]) == Remaining(s.phase[u]) - 1
  {
  }

  /** No step inside a call can change anything. */
  ghost predicate Quiet(s: State) {
    forall a | Enabled(s, a) && !IsCall(a) :: Apply(s, a) == s
  }

  /** The unit whose turn it is holds the lock; whoever else is in a call waits in line behind it. */
  ghost predicate HandedOver(s: State) {
    && Turn(s) <= |s.order|
    && (Turn(s) < |s.order| ==> Holds(s, s.order[Turn(s)]))
    && (forall u | 0 <= u < |s.phase| && !s.phase[u].Outside? ::
          s.phase[u].Waiting? && Turn(s) < |s.order| && u in s.order[Turn(s) + 1..])
  }

  /** Outside any call, or in one that only somebody else's step can move on. */
  predicate Resting(s: State, u: nat)
    requires Shaped(s) && u < |s.phase|
  {
    match s.phase[u]
    case Outside => true
    case Polling => s.next[u] == NO_UNIT
    case Waiting(p) => Message(p, u) !in s.messages
    case _ => false
  }

  lemma CanMove(s: State, u: nat) returns (a: Action)
    requires Inv(s) && u < |s.phase| && !Resting(s, u)
    ensures Enabled(s, a) && !IsCall(a) && Apply(s, a) != s
  {
    match s.phase[u] {
      case Swapped(_) => var k := LinkPosition(s, u); a := Link(u);
      case Waiting(_) => a := Receive(u);
      case Granted => a := Return(u);
      case Polling => a := Poll(u);
      case Sending(_) => a := Send(u);
      case Resetting => a := Reset(u);
      case Clearing => a := Clear(u);
    }
    assert Apply(s, a).phase[u] != s.phase[u];
  }

  lemma QuietUnit(s: State, u: nat)
    requires Inv(s) && Quiet(s) && u < |s.phase|
    ensures Resting(s, u)
  {
    if !Resting(s, u) {
      var a := CanMove(s, u);
    }
  }

  /** There is no deadlock: when nothing can move, the lock is free or its rightful owner holds it. */
  lemma QuietMeansHandedOver(s: State)
    requires Reachable(s) && Quiet(s)
    ensures HandedOver(s) && Turn(s) == s.left
  {
    hide Line, Flags, Distinct, Quiet, Reachable;
    ReachableInv(s);
    var q := Queue(s);
    if q != [] {
      assert q[0] == s.order[s.left];
      QuietUnit(s, q[0]);
      if s.phase[q[0]].Polling? {
        LineAt(s, 1);
        QuietUnit(s, q[1]);
      }
      assert q[0] in q && Queued(s, q[0]);
    }
    forall u | 0 <= u < |s.phase| && !s.phase[u].Outside?
      ensures s.phase[u].Waiting? && Turn(s) < |s.order| && u in s.order[Turn(s) + 1..]
    {
      QuietUnit(s, u);
      assert Queued(s, u);
      if s.phase[u].Polling? {
        HeadOf(s, u);
      }
      var k :| 0 <= k < |q| && q[k] == u;
      assert s.order[s.left + 1..][k - 1] == u;
    }
  }

  /**
    From every reachable state, letting the calls in progress run (in any order that changes
    something, see InternalStepsTerminate) reaches a state in which the unit whose turn it is
    holds the lock. With OnlyReleasesAdvanceTheTurn: after r accepted releases that is the r-th
    unit to have swapped the tail.
   */
  lemma {:induction false} LockIsHandedOver(s: State) returns (run: seq<Action>)
    requires Reachable(s)
    ensures IsRun(s, run) && |run| <= Measure(s.phase)
    ensures forall i | 0 <= i < |run| :: !IsCall(run[i])
    ensures var s' := After(s, run);
      Turn(s') == Turn(s) && s'.order == s.order && HandedOver(s')
    decreases Measure(s.phase)
  {
    hide Reachable, HandedOver, Enabled, Apply, Measure, Turn;
    if Quiet(s) {
      QuietMeansHandedOver(s);
      ReachableShaped(s);
      run := [];
    } else {
      var a :| Enabled(s, a) && !IsCall(a) && Apply(s, a) != s;
      InternalStepsTerminate(s, a);
      OnlyReleasesAdvanceTheTurn(s, a);
      ReachableStep(s, a);
      ReachableShaped(s);
      var rest := LockIsHandedOver(Apply(s, a));
      run := [a] + rest;
      ConsRun(s, a, rest);
    }
  }

  // ---------------------------------------------------------------------------------------------
  // Calls: nobody is kept from entering one, and everybody's turn comes

  lemma {:induction false} SameUnits(s: State, run: seq<Action>)
    requires IsRun(s, run)
    ensures Shaped(After(s, run)) && |After(s, run).phase| == |s.phase|
    decreases |run|
  {
    if run != [] {
      SameUnits(Apply(s, run[0]), run[1..]);
    }
  }

  /**
    In every reachable state of any number of units, every unit outside a call can enter each of
    the three, whatever the others are doing.
   */
  lemma CallsAreAlwaysPossible(units: nat, run: seq<Action>)
    requires IsRun(Init(units), run)
    ensures var s := After(Init(units), run);
      && |s.phase| == units
      && forall u | 0 <= u < units && s.phase[u].Outside? ::
           Enabled(s, Acquire(u)) && Enabled(s, TryAcquire(u)) && Enabled(s, Release(u))
  {
    SameUnits(Init(units), run);
  }

  /** A unit that holds the lock is the one whose turn it is. */
  lemma HolderHasTheTurn(s: State, u: nat)
    requires Reachable(s) && Holds(s, u)
    ensures Inv(s) && Queue(s) != [] && Queue(s)[0] == u
    ensures Turn(s) == s.left < |s.order| && s.order[s.left] == u && Enabled(s, Release(u))
  {
    hide Reachable, Line, HeadOwns, NextWords, Flags, Distinct, HeadReturned;
    ReachableInv(s);
    HeadOf(s, u);
    HeadFacts(s);
  }

  /** The release by the holder, as an accepted call: the turn passes on and the order stays. */
  lemma ReleasePasses(s: State, u: nat) returns (s': State)
    requires Reachable(s) && Holds(s, u)
    ensures Enabled(s, Release(u)) && s' == Apply(s, Release(u)) && Reachable(s')
    ensures Turn(s') == Turn(s) + 1 && s'.order == s.order
  {
    hide Reachable, Inv, Turn;
    HolderHasTheTurn(s, u);
    s' := Apply(s, Release(u));
    ReachableStep(s, Release(u));
    ReleaseTurn(s, u);
  }

  /**
    When the holder releases with somebody behind it, the calls in progress hand the lock to the
    next unit of the queue, without any other call.
   */
  lemma ReleaseHandsOver(s: State, u: nat) returns (run: seq<Action>)
    requires Reachable(s) && Holds(s, u) && s.left + 1 < |s.order|
    ensures run != [] && run[0] == Release(u) && IsRun(s, run)
    ensures forall i | 1 <= i < |run| :: !IsCall(run[i])
    ensures After(s, run).order == s.order && Holds(After(s, run), s.order[s.left + 1])
  {
    hide Reachable, Inv, Enabled, Apply, Holds, Turn, Measure;
    HolderHasTheTurn(s, u);
    ReachableShaped(s);
    var s' := ReleasePasses(s, u);
    var rest := LockIsHandedOver(s');
    run := [Release(u)] + rest;
    ConsRun(s, Release(u), rest);
  }

  /**
    Everybody's turn comes: from every reachable state some run in which nobody acquires, and only
    holders release, leads to a state where the i-th unit to have swapped the tail holds the lock.
   */
  lemma {:induction false} TurnComes(s: State, i: nat) returns (run: seq<Action>)
    requires Reachable(s) && Turn(s) <= i < |s.order|
    ensures IsRun(s, run) && After(s, run).order == s.order && Holds(After(s, run), s.order[i])
    ensures forall j | 0 <= j < |run| :: IsCall(run[j]) ==> run[j].Release?
    decreases i - Turn(s)
  {
    hide Reachable, Inv, Enabled, Apply, Holds, Turn, Measure;
    run := LockIsHandedOver(s);
    var s1 := After(s, run);
    if Turn(s) < i {
      ReachableRun(s, run);
      var u := s.order[Turn(s)];
      var s2 := ReleasePasses(s1, u);
      var rest := TurnComes(s2, i);
      ReachableShaped(s1);
      ConsRun(s1, Release(u), rest);
      AppendRuns(s, run, [Release(u)] + rest);
      run := run + ([Release(u)] + rest);
    }
  }

  lemma ReachableRun(s: State, run: seq<Action>)
    requires Reachable(s) && IsRun(s, run)
    ensures Reachable(After(s, run))
  {
    hide IsRun, After, Init;
    var units: nat, first :| IsRun(Init(units), first) && After(Init(units), first) == s;
    AppendRuns(Init(units), first, run);
  }
}

/** The timer thread protocol of src/timer.cpp: one worker, one controlling thread, a mutex,
    a condition variable and the `running` flag, interleaved step by step. */
module TimerThread {
  import opened Options

  datatype Thread = Worker | Owner

  /** Where the worker is. `Testing`, `Firing` hold the mutex. */
  datatype WorkerAt =
    | Absent                      // no thread, or joined
    | Locking                     // about to take the mutex for the first time
    | Testing(timedOut: bool)     // evaluating the wait predicate
    | Blocked                     // inside the wait, mutex released
    | Woken(timedOut: bool)       // woken, has to take the mutex again
    | Firing                      // wait returned false, about to unlock
    | Unlocked                    // about to begin the callback
    | Calling                     // the callback runs
    | Relocking                   // callback ended, about to take the mutex again
    | Finished                    // thread function returned, not joined yet

  /** Where the controlling thread is; `Clearing` holds the mutex. */
  datatype OwnerAt = Idle | StopEntry | Clearing | Notifying | Joining

  datatype State = State(running: bool, mutex: Option<Thread>, worker: WorkerAt, owner: OwnerAt,
                         active: nat, begunAfterClear: nat, stopsReturned: nat)

  datatype Action =
    | Start | Lock | Test | Wake(timedOut: bool) | Unlock | Begin | End(threw: bool)
    | CallStop | LockForStop | Clear | Notify | Join

  const Init := State(true, None, Absent, Idle, 0, 0, 0)

  predicate Enabled(s: State, a: Action) {
    match a
    case Start => s.owner == Idle && s.worker == Absent
    case Lock => (s.worker == Locking || s.worker.Woken? || s.worker == Relocking) && s.mutex == None
    case Test => s.worker.Testing?
    case Wake(_) => s.worker == Blocked
    case Unlock => s.worker == Firing
    case Begin => s.worker == Unlocked
    case End(_) => s.worker == Calling
    case CallStop => s.owner == Idle
    case LockForStop => s.owner == StopEntry && s.mutex == None
    case Clear => s.owner == Clearing
    case Notify => s.owner == Notifying
    case Join => s.owner == Joining && (s.worker == Absent || s.worker == Finished)
  }

  function Next(s: State, a: Action): State
    requires Enabled(s, a)
  {
    match a
    case Start => s.(worker := Locking)
    case Lock => s.(mutex := Some(Worker), worker := Testing(s.worker.Woken? && s.worker.timedOut))
    case Test =>
      if !s.running then s.(mutex := None, worker := Finished)
      else if s.worker.timedOut then s.(worker := Firing)
      else s.(mutex := None, worker := Blocked)
    case Wake(timedOut) => s.(worker := Woken(timedOut))
    case Unlock => s.(mutex := None, worker := Unlocked)
    case Begin =>
      s.(worker := Calling, active := s.active + 1,
         begunAfterClear := if s.running then s.begunAfterClear else s.begunAfterClear + 1)
    case End(_) => s.(worker := Relocking, active := if s.active > 0 then s.active - 1 else 0)
    case CallStop => s.(owner := StopEntry)
    case LockForStop => s.(mutex := Some(Owner), owner := Clearing)
    case Clear => s.(running := false, mutex := None, owner := Notifying)
    case Notify => s.(owner := Joining, worker := if s.worker == Blocked then Woken(false) else s.worker)
    case Join => s.(worker := Absent, owner := Idle, stopsReturned := s.stopsReturned + 1)
  }

  /** The state after an interleaving, None if some step was not possible. */
  function After(trace: seq<Action>): Option<State> {
    if trace == [] then Some(Init)
    else
      var before := After(trace[..|trace| - 1]);
      if before.Some? && Enabled(before.value, trace[|trace| - 1])
      then Some(Next(before.value, trace[|trace| - 1])) else None
  }

  // ---------------------------------------------------------------- what every step keeps

  ghost predicate Inv(s: State) {
    && (s.mutex == Some(Worker) <==> s.worker.Testing? || s.worker == Firing)
    && (s.mutex == Some(Owner) <==> s.owner == Clearing)
    && (s.worker == Firing ==> s.running)
    && s.active == (if s.worker == Calling then 1 else 0)
    && (s.running ==> s.begunAfterClear == 0 && s.stopsReturned == 0 && !s.owner.Notifying? && !s.owner.Joining?)
    && s.begunAfterClear + (if !s.running && s.worker == Unlocked then 1 else 0) <= 1
    && (s.stopsReturned > 0 ==> s.worker != Unlocked && s.worker != Calling && s.worker != Firing)
    && (s.stopsReturned > 0 ==> s.worker != Relocking)
    && (s.owner == Joining ==> s.worker != Blocked)
  }

  lemma StepKeepsInv(s: State, a: Action)
    requires Inv(s) && Enabled(s, a)
    ensures Inv(Next(s, a))
  {
  }

  lemma {:induction false} RunKeepsInv(trace: seq<Action>)
    requires After(trace).Some?
    ensures Inv(After(trace).value)
  {
    if trace != [] {
      RunKeepsInv(trace[..|trace| - 1]);
      StepKeepsInv(After(trace[..|trace| - 1]).value, trace[|trace| - 1]);
    }
  }

  function Begins(trace: seq<Action>): nat {
    if trace == [] then 0
    else Begins(trace[..|trace| - 1]) + (if trace[|trace| - 1] == Begin then 1 else 0)
  }

  /** Extending a run leaves its earlier part a run. */
  lemma {:induction false} PrefixRuns(a: seq<Action>, b: seq<Action>)
    requires After(a + b).Some?
    ensures After(a).Some?
  {
    if b == [] {
      assert a + b == a;
    } else {
      assert (a + b)[..|a + b| - 1] == a + b[..|b| - 1];
      PrefixRuns(a, b[..|b| - 1]);
    }
  }

  /** What `trace` did to the flag is not undone by `more`. */
  lemma {:induction false} FlagsOnlyMove(trace: seq<Action>, more: seq<Action>)
    requires After(trace + more).Some?
    ensures After(trace).Some?
    ensures var s, t := After(trace).value, After(trace + more).value;
            && (!s.running ==> !t.running)
            && s.stopsReturned <= t.stopsReturned
            && (!s.running ==> t.begunAfterClear == s.begunAfterClear + Begins(more))
  {
    PrefixRuns(trace, more);
    if more == [] {
      assert trace + more == trace;
    } else {
      assert (trace + more)[..|trace + more| - 1] == trace + more[..|more| - 1];
      FlagsOnlyMove(trace, more[..|more| - 1]);
    }
  }

  /** Callbacks never overlap; once `running` is cleared at most one more begins, however long
      the run goes on; once a `stop` has returned none runs and none ever begins again, not
      even after another `start`. */
  lemma TimerSafety(trace: seq<Action>, more: seq<Action>)
    requires After(trace + more).Some?
    ensures After(trace).Some?
    ensures After(trace).value.active <= 1
    ensures !After(trace).value.running ==> Begins(more) <= 1
    ensures After(trace).value.stopsReturned > 0 ==> Begins(more) == 0 && After(trace + more).value.active == 0
  {
    FlagsOnlyMove(trace, more);
    RunKeepsInv(trace);
    RunKeepsInv(trace + more);
    if After(trace).value.stopsReturned > 0 {
      NoBeginAfterStop(trace, more);
    }
  }

  lemma {:induction false} NoBeginAfterStop(trace: seq<Action>, more: seq<Action>)
    requires After(trace + more).Some? && After(trace).Some? && After(trace).value.stopsReturned > 0
    ensures Begins(more) == 0
  {
    if more != [] {
      var init := more[..|more| - 1];
      assert (trace + more)[..|trace + more| - 1] == trace + init;
      NoBeginAfterStop(trace, init);
      FlagsOnlyMove(trace, init);
      RunKeepsInv(trace + init);
    }
  }

  // ---------------------------------------------------------------- stop cannot hang

  /** Worker steps still possible once `running` is false. */
  function Rank(w: WorkerAt): nat {
    match w
    case Unlocked => 5
    case Calling => 4
    case Firing => 6
    case Blocked => 4
    case Relocking => 3
    case Locking => 3
    case Woken(_) => 3
    case Testing(_) => 2
    case Finished => 0
    case Absent => 0
  }

  predicate WorkerAction(a: Action) {
    a == Lock || a == Test || a.Wake? || a == Unlock || a == Begin || a.End?
  }

  /** After the flag is cleared every worker step brings the thread closer to its end. While `stop`
      waits for the thread, either the join can happen or the worker can move without the interval
      running out or a spurious wakeup: no wakeup is lost and there is no deadlock. */
  lemma StopMakesProgress(trace: seq<Action>, a: Action)
    requires After(trace).Some? && !After(trace).value.running
    ensures Enabled(After(trace).value, a) && WorkerAction(a)
        ==> Rank(Next(After(trace).value, a).worker) < Rank(After(trace).value.worker)
    ensures After(trace).value.owner == Joining
        ==> Enabled(After(trace).value, Join)
            || exists b :: WorkerAction(b) && !b.Wake? && Enabled(After(trace).value, b)
  {
    RunKeepsInv(trace);
    var s := After(trace).value;
    if s.owner == Joining && !Enabled(s, Join) {
      var b := WorkerCanMove(s);
    }
  }

  lemma WorkerCanMove(s: State) returns (b: Action)
    requires Inv(s) && s.owner == Joining && s.worker != Absent && s.worker != Finished
    ensures WorkerAction(b) && !b.Wake? && Enabled(s, b)
  {
    assert s.mutex == None || s.mutex == Some(Worker) || s.mutex == Some(Owner) by {
      match s.mutex
      case None =>
      case Some(who) => assert who == Worker || who == Owner;
    }
    match s.worker
    case Testing(_) => b := Test;
    case Firing => b := Unlock;
    case Unlocked => b := Begin;
    case Calling => b := End(true);
    case Locking => b := Lock;
    case Woken(_) => b := Lock;
    case Relocking => b := Lock;
  }

  // ---------------------------------------------------------------- when callbacks begin

  /** No interval has run out that a callback has not begun for. */
  predicate NotDue(w: WorkerAt) {
    w != Woken(true) && w != Testing(true) && w != Firing && w != Unlocked
  }

  lemma {:induction false} StaysNotDue(p: seq<Action>, b: seq<Action>)
    requires After(p + b).Some? && After(p).Some? && NotDue(After(p).value.worker)
    requires Wake(true) !in b
    ensures NotDue(After(p + b).value.worker)
  {
    if b == [] {
      assert p + b == p;
    } else {
      var init, x := b[..|b| - 1], b[|b| - 1];
      assert b == init + [x] && (p + b)[..|p + b| - 1] == p + init;
      StaysNotDue(p, init);
    }
  }

  /** Every callback begins after an interval of its own: one ran out before the first, and one
      between any two. */
  lemma IntervalBeforeEachBegin(a: seq<Action>, b: seq<Action>)
    requires After(a + [Begin] + b + [Begin]).Some?
    ensures Wake(true) in a && Wake(true) in b
  {
    var p := a + [Begin];
    PrefixRuns(p + b, [Begin]);
    PrefixRuns(p, b);
    PrefixRuns(a, [Begin]);
    assert p[..|a|] == a && (p + b + [Begin])[..|p + b|] == p + b && [] + a == a;
    if Wake(true) !in a { StaysNotDue([], a); }
    if Wake(true) !in b { StaysNotDue(p, b); }
  }

  lemma Extend(trace: seq<Action>, a: Action)
    requires After(trace).Some? && Enabled(After(trace).value, a)
    ensures After(trace + [a]) == Some(Next(After(trace).value, a))
    ensures Begins(trace + [a]) == Begins(trace) + (if a == Begin then 1 else 0)
  {
    assert (trace + [a])[..|trace|] == trace;
  }

  /** One interval and its callback, from wait to wait. */
  lemma OneRound(start: seq<Action>) returns (trace: seq<Action>)
    requires After(start).Some?
    requires var s := After(start).value; s.running && s.mutex == None && s.worker == Blocked
    ensures After(trace).Some? && Begins(trace) == Begins(start) + 1
    ensures var s := After(trace).value; s.running && s.mutex == None && s.worker == Blocked
  {
    hide After;
    Extend(start, Wake(true));
    trace := start + [Wake(true)];
    Extend(trace, Lock);
    trace := trace + [Lock];
    Extend(trace, Test);
    trace := trace + [Test];
    Extend(trace, Unlock);
    trace := trace + [Unlock];
    trace := CallbackRound(trace);
  }

  lemma CallbackRound(start: seq<Action>) returns (trace: seq<Action>)
    requires After(start).Some?
    requires var s := After(start).value; s.running && s.mutex == None && s.worker == Unlocked
    ensures After(trace).Some? && Begins(trace) == Begins(start) + 1
    ensures var s := After(trace).value; s.running && s.mutex == None && s.worker == Blocked
  {
    hide After;
    Extend(start, Begin);
    trace := start + [Begin];
    Extend(trace, End(true));
    trace := trace + [End(true)];
    Extend(trace, Lock);
    trace := trace + [Lock];
    Extend(trace, Test);
    trace := trace + [Test];
  }

  /** Callbacks go on as long as intervals run out, even if each of them throws. */
  lemma AnyNumberOfBegins(n: nat) returns (trace: seq<Action>)
    ensures After(trace).Some? && Begins(trace) == n
  {
    Extend([], Start);
    Extend([] + [Start], Lock);
    Extend([] + [Start] + [Lock], Test);
    trace := [] + [Start] + [Lock] + [Test];
    var k := 0;
    while k < n
      invariant 0 <= k <= n && After(trace).Some? && Begins(trace) == k
      invariant var s := After(trace).value; s.running && s.mutex == None && s.worker == Blocked
    {
      trace := OneRound(trace);
      k := k + 1;
    }
  }
}

/** What every step of the serving loop keeps, and what follows for every run. */
module ResponderSafety {
  import opened Bytes
  import opened Options
  import opened ResponderMachine

  // ---------------------------------------------------------------- descriptors and the table

  lemma HoldKeepsTable(s: State, fd: Fd)
    requires TableInv(s) && s.at == Accepting && fd !in s.openCalls
    ensures TableInv(Hold(s, fd))
  {
    OpenBalances(s.sockets, s.openCalls, s.closeCalls, fd);
  }

  lemma PlaceKeepsTable(s: State, nonBlocking: bool)
    requires TableInv(s) && s.at.Holding?
    ensures TableInv(PlaceHeld(s, nonBlocking))
  {
    var live := s.sockets + [s.at.fd];
    CloseBalances(live, s.openCalls, s.closeCalls, |s.sockets|);
    assert live[..|s.sockets|] + live[|s.sockets| + 1..] == s.sockets;
  }

  /** Erasing a client entry leaves the listening socket in front. */
  lemma EraseKeepsFront(s: seq<Fd>, i: nat)
    requires 1 <= i < |s|
    ensures var t := s[..i] + s[i + 1..]; |t| == |s| - 1 && t[0] == s[0]
  {
  }

  lemma DropKeepsTable(s: State)
    requires TableInv(s) && CanServe(s) && s.i >= 1
    ensures TableInv(Drop(s))
  {
    hide Balanced, TableInv, PassDone;
    var t := Drop(s);
    EraseKeepsFront(s.sockets, s.i);
    ServingBalanced(s);
    CloseBalances(s.sockets, s.openCalls, s.closeCalls, s.i);
    ErasedTable(s, t);
  }

  lemma ServingBalanced(s: State)
    requires TableInv(s) && Serving(s)
    ensures s.sockets != [] && Balanced(s.sockets, s.openCalls, s.closeCalls)
  {
    assert Live(s) == s.sockets;
  }

  lemma ErasedTable(s: State, t: State)
    requires TableInv(s) && s.at != Asleep && t.at == Visit
    requires t.listen == s.listen && t.maxConnections == s.maxConnections
    requires 0 < |t.sockets| <= |s.sockets| && t.sockets[0] == s.sockets[0]
    requires Balanced(t.sockets, t.openCalls, t.closeCalls)
    ensures TableInv(t)
  {
  }

  lemma CloseKeepsTable(s: State)
    requires TableInv(s) && s.at.Closing? && s.at.k < |s.sockets|
    ensures TableInv(CloseAt(s))
  {
    CloseFrontBalances(s.sockets, s.at.k, s.openCalls, s.closeCalls);
  }

  lemma CloseDoneKeepsTable(s: State)
    requires TableInv(s) && s.at.Closing? && s.at.k == |s.sockets|
    ensures TableInv(s.(at := Asleep, sockets := []))
  {
  }

  lemma LeaveKeepsTable(s: State)
    requires TableInv(s) && s.at == Top
    ensures TableInv(LeaveOrServe(s))
  {
    assert s.sockets[0..] == s.sockets;
  }

  /** Steps that open, place and close nothing. */
  lemma QuietKeepsTable(s: State, t: State)
    requires TableInv(s) && t.sockets == s.sockets && t.listen == s.listen && t.maxConnections == s.maxConnections
    requires t.openCalls == s.openCalls && t.closeCalls == s.closeCalls
    requires t.at == s.at || (!s.at.Holding? && !s.at.Closing? && s.at != Asleep
                              && !t.at.Holding? && !t.at.Closing? && t.at != Asleep)
    ensures TableInv(t)
  {
  }

  lemma StepKeepsTable(answers: Answers, s: State, a: Action)
    requires TableInv(s) && Enabled(answers, s, a) && (Serving(s) ==> s.i >= 1)
    ensures TableInv(Next(answers, s, a))
  {
    var t := Next(answers, s, a);
    match a
    case TestTop => LeaveKeepsTable(s);
    case AcceptOk(fd) => HoldKeepsTable(s, fd);
    case Place(nonBlocking) => PlaceKeepsTable(s, nonBlocking);
    case RecvClosed => DropKeepsTable(s);
    case RecvFailed => DropKeepsTable(s);
    case Build(reply) => if reply == None { DropKeepsTable(s); } else { QuietKeepsTable(s, t); }
    case Send(n) =>
      var l := LogSent(s, n);
      QuietKeepsTable(s, l);
      if n == |s.at.reply| { QuietKeepsTable(l, t); } else { DropKeepsTable(l); }
    case CloseNext => CloseKeepsTable(s);
    case CloseDone => CloseDoneKeepsTable(s);
    case _ => QuietKeepsTable(s, t);
  }

  // ---------------------------------------------------------------- steps without an event

  predicate Eventful(a: Action) {
    a == Watchdog || a == TestTop || a == AcceptNone || a == TestVisit || a.RecvChunk? || a.Send?
  }

  /** The other steps leave the log and validity alone and begin no service. */
  ghost predicate Quiet(answers: Answers, s: State, t: State) {
    && t.log == s.log && t.sum == s.sum && t.valid == s.valid
    && (Serving(t) ==> Serving(s) && t.i == s.i && t.got == s.got && t.sockets == s.sockets)
    && (t.at.Sending? ==> answers(t.got, Some(t.at.reply)))
    && (t.at.Closing? || t.at == Asleep <==> s.at.Closing? || s.at == Asleep)
  }

  lemma EndOfServiceIsQuiet(answers: Answers, s: State)
    requires CanServe(s)
    ensures Quiet(answers, s, Drop(s)) && Quiet(answers, s, Keep(s))
  {
  }

  lemma BuildingIsQuiet(answers: Answers, s: State, reply: seq<Byte>)
    requires s.at == Receiving || (s.at == Building && answers(s.got, Some(reply)))
    ensures Quiet(answers, s, if s.at == Receiving then s.(at := Building) else s.(at := Sending(reply)))
  {
  }

  lemma OutsideIsQuiet(answers: Answers, s: State, t: State)
    requires t.log == s.log && t.sum == s.sum && t.valid == s.valid && !Serving(t)
    requires t.at.Closing? || t.at == Asleep <==> s.at.Closing? || s.at == Asleep
    ensures Quiet(answers, s, t)
  {
  }

  lemma QuietStep(answers: Answers, s: State, a: Action)
    requires Enabled(answers, s, a) && !Eventful(a)
    ensures Quiet(answers, s, Next(answers, s, a))
  {
    hide Quiet, Drop, Keep;
    var t := Next(answers, s, a);
    match a
    case RecvClosed => EndOfServiceIsQuiet(answers, s);
    case RecvFailed => EndOfServiceIsQuiet(answers, s);
    case RecvAgain => EndOfServiceIsQuiet(answers, s); BuildingIsQuiet(answers, s, []);
    case Build(reply) =>
      if reply == None { EndOfServiceIsQuiet(answers, s); } else { BuildingIsQuiet(answers, s, reply.value); }
    case AcceptOk(_) => OutsideIsQuiet(answers, s, t);
    case AcceptAborted => OutsideIsQuiet(answers, s, t);
    case AcceptFatal => OutsideIsQuiet(answers, s, t);
    case Place(_) => OutsideIsQuiet(answers, s, t);
    case Poll(_) => OutsideIsQuiet(answers, s, t);
    case CloseNext => OutsideIsQuiet(answers, s, t);
    case CloseDone => OutsideIsQuiet(answers, s, t);
  }

  // ---------------------------------------------------------------- validity

  /** Steps that leave the log alone and do not begin a service. */
  lemma QuietKeepsLoss(s: State, t: State)
    requires LossInv(s) && t.valid == s.valid && t.sum == s.sum
    requires Serving(t) ==> Serving(s)
    requires t.at.Closing? || t.at == Asleep <==> s.at.Closing? || s.at == Asleep
    ensures LossInv(t)
  {
  }

  lemma ReceiveKeepsLoss(s: State, c: seq<Byte>)
    requires LossInv(s) && s.at == Receiving && CanServe(s)
    ensures LossInv(Receive(s, c))
  {
  }

  lemma SendKeepsLoss(s: State, n: int)
    requires LossInv(s) && s.at.Sending? && CanServe(s)
    ensures LossInv(SendReply(s, n))
  {
  }

  lemma VisitKeepsLoss(s: State)
    requires LossInv(s) && s.at == Visit
    ensures LossInv(VisitOrEnd(s))
  {
  }

  lemma LeaveKeepsLoss(s: State)
    requires LossInv(s) && s.at == Top
    ensures LossInv(LeaveOrServe(s))
  {
  }

  lemma LoseKeepsLoss(s: State)
    requires LossInv(s) && s.valid
    ensures LossInv(Lose(s))
  {
  }

  lemma StartKeepsLoss(s: State)
    requires LossInv(s) && s.at == Accepting && s.sockets != []
    ensures LossInv(StartPass(s))
  {
  }

  lemma StepKeepsLoss(answers: Answers, s: State, a: Action)
    requires LossInv(s) && Enabled(answers, s, a)
    ensures LossInv(Next(answers, s, a))
  {
    hide LossInv;
    if !Eventful(a) {
      QuietStep(answers, s, a);
      QuietKeepsLoss(s, Next(answers, s, a));
      return;
    }
    match a
    case Watchdog => LoseKeepsLoss(s);
    case TestTop => LeaveKeepsLoss(s);
    case AcceptNone => StartKeepsLoss(s);
    case TestVisit => VisitKeepsLoss(s);
    case RecvChunk(c) => ReceiveKeepsLoss(s, c);
    case Send(n) => SendKeepsLoss(s, n);
  }

  // ---------------------------------------------------------------- the handling pass

  lemma StartKeepsPass(s: State)
    requires TableInv(s) && s.at == Accepting
    ensures PassInv(StartPass(s))
  {
    assert s.sockets == [s.listen] + [] + s.sockets[1..];
  }

  lemma VisitKeepsPass(s: State)
    requires PassInv(s) && s.at == Visit
    ensures PassInv(VisitOrEnd(s))
  {
  }

  /** The connection in service is the one at the iterator. */
  lemma InService(s: State)
    requires PassInv(s) && Serving(s)
    ensures 1 <= s.i < |s.sockets| && s.pass.todo != [] && s.sockets[s.i] == s.pass.todo[0]
  {
  }

  lemma KeepShape(s: State)
    requires PassShape(s) && CanServe(s)
    ensures PassShape(Keep(s))
  {
    var p, c := s.pass, s.pass.todo[0];
    SelectAppend(p.done, p.kept, c, true);
    Regroup([s.listen] + p.done, p.todo);
    Regroup([s.listen] + Select(p.done, p.kept), p.todo);
    Shift([s.listen], p.done, c);
    Shift([s.listen], Select(p.done, p.kept), c);
  }

  lemma DropShape(s: State)
    requires PassShape(s) && CanServe(s)
    ensures PassShape(Drop(s))
  {
    var p, c := s.pass, s.pass.todo[0];
    SelectAppend(p.done, p.kept, c, false);
    assert Select(p.done, p.kept) + [] == Select(p.done, p.kept);
    Regroup([s.listen] + p.done, p.todo);
    Shift([s.listen], p.done, c);
    EraseMiddle([s.listen] + Select(p.done, p.kept), p.todo);
  }

  lemma Regroup<T>(a: seq<T>, b: seq<T>)
    requires b != []
    ensures a + b == a + [b[0]] + b[1..]
  {
  }

  lemma Shift<T>(a: seq<T>, b: seq<T>, c: T)
    ensures a + b + [c] == a + (b + [c])
  {
  }

  lemma EraseMiddle<T>(a: seq<T>, b: seq<T>)
    requires b != []
    ensures (a + b)[..|a|] + (a + b)[|a| + 1..] == a + b[1..]
    ensures (a + b)[|a|] == b[0]
  {
  }

  /** Keeping or dropping the connection in service, with `sum` the summary afterwards. */
  lemma FinishKeepsPass(s: State, t: State)
    requires PassInv(s) && CanServe(s) && t.at == Visit && PassShape(t)
    requires t.pass.done == s.pass.done + [s.pass.todo[0]]
    requires t.sum.visits == s.sum.visits
    requires t.sum.senders == s.sum.senders || t.sum.senders == s.sum.senders + [s.pass.todo[0]]
    ensures PassInv(t)
  {
  }

  /** Steps of a service that do not end it. */
  lemma QuietKeepsPass(s: State, t: State)
    requires PassInv(s) && t.pass == s.pass && t.sockets == s.sockets && t.listen == s.listen && t.i == s.i
    requires t.sum.visits == s.sum.visits && t.sum.senders == s.sum.senders
    requires InPass(t) ==> InPass(s) && Serving(t) == Serving(s) && (t.at == Polling ==> s.at == Polling)
    requires t.valid ==> s.valid
    ensures PassInv(t)
  {
  }

  lemma SendKeepsPass(s: State, n: int)
    requires PassInv(s) && s.at.Sending? && CanServe(s)
    ensures PassInv(SendReply(s, n))
  {
    var l := LogSent(s, n);
    InService(s);
    assert PassShape(l);
    if n == |s.at.reply| { KeepShape(l); } else { DropShape(l); }
    FinishKeepsPass(s, SendReply(s, n));
  }

  lemma DropKeepsPass(s: State)
    requires PassInv(s) && CanServe(s)
    ensures PassInv(Drop(s))
  {
    DropShape(s);
    FinishKeepsPass(s, Drop(s));
  }

  lemma KeepKeepsPass(s: State)
    requires PassInv(s) && CanServe(s)
    ensures PassInv(Keep(s))
  {
    KeepShape(s);
    FinishKeepsPass(s, Keep(s));
  }

  lemma StepKeepsPass(answers: Answers, s: State, a: Action)
    requires PassInv(s) && TableInv(s) && Enabled(answers, s, a)
    ensures PassInv(Next(answers, s, a))
  {
    hide PassInv, TableInv, Drop, Keep, SendReply, VisitOrEnd;
    if a == Watchdog {
      QuietKeepsPass(s, Lose(s));
    } else if a == AcceptNone {
      StartKeepsPass(s);
    } else if a == TestVisit {
      VisitKeepsPass(s);
    } else if Serving(s) {
      ServiceKeepsPass(answers, s, a);
    } else {
      StaysOutside(answers, s, a);
    }
  }

  lemma StaysOutside(answers: Answers, s: State, a: Action)
    requires Enabled(answers, s, a) && !Serving(s) && a != Watchdog && a != AcceptNone && a != TestVisit
    ensures PassInv(Next(answers, s, a))
  {
    hide PassInv;
    OutsidePass(Next(answers, s, a));
  }

  lemma ServiceKeepsPass(answers: Answers, s: State, a: Action)
    requires PassInv(s) && Enabled(answers, s, a) && Serving(s) && a != Watchdog
    ensures PassInv(Next(answers, s, a))
  {
    hide PassInv, Drop, Keep, SendReply;
    match a
    case RecvChunk(c) => QuietKeepsPass(s, Receive(s, c));
    case RecvClosed => DropKeepsPass(s);
    case RecvFailed => DropKeepsPass(s);
    case RecvAgain => if s.got == [] { KeepKeepsPass(s); } else { QuietKeepsPass(s, s.(at := Building)); }
    case Build(reply) => if reply == None { DropKeepsPass(s); } else { QuietKeepsPass(s, s.(at := Sending(reply.value))); }
    case Send(n) => SendKeepsPass(s, n);
  }

  lemma OutsidePass(s: State)
    requires !InPass(s)
    ensures PassInv(s)
  {
  }

  // ---------------------------------------------------------------- queries and replies

  /** Steps without an event that do not begin a service or a send. */
  lemma QuietKeepsRecv(answers: Answers, s: State, t: State)
    requires RecvInv(answers, s) && t.log == s.log && t.sum == s.sum
    requires Serving(t) ==> Serving(s) && t.i == s.i && t.got == s.got && t.sockets == s.sockets
    requires t.at.Sending? ==> answers(t.got, Some(t.at.reply))
    ensures RecvInv(answers, t)
  {
  }

  /** Steps with an event outside a service, or the watchdog's. */
  lemma EmitKeepsRecv(answers: Answers, s: State, t: State, e: Event)
    requires RecvInv(answers, s) && t.log == s.log + [e] && t.sum == Add(s.sum, e)
    requires e == PassStarted || e == Invalidated || e == LoopLeft
    requires Serving(t) ==> t.at == s.at && t.i == s.i && t.got == s.got && t.sockets == s.sockets
    ensures RecvInv(answers, t)
  {
    EmitLog(answers, s.log, e);
  }

  lemma VisitKeepsRecv(answers: Answers, s: State)
    requires RecvInv(answers, s) && s.at == Visit
    ensures RecvInv(answers, VisitOrEnd(s))
  {
    if s.valid && s.i < |s.sockets| {
      EmitLog(answers, s.log, Visited(s.sockets[s.i]));
    }
  }

  lemma ReceiveKeepsRecv(answers: Answers, s: State, c: seq<Byte>)
    requires RecvInv(answers, s) && s.at == Receiving && CanServe(s) && |c| <= BufferSize - |s.got|
    ensures RecvInv(answers, Receive(s, c))
  {
    EmitLog(answers, s.log, Received(s.sockets[s.i], c));
  }

  lemma SendKeepsRecv(answers: Answers, s: State, n: int)
    requires RecvInv(answers, s) && s.at.Sending? && CanServe(s)
    ensures RecvInv(answers, SendReply(s, n))
  {
    EmitLog(answers, s.log, Sent(s.sockets[s.i], s.got, s.at.reply, n));
  }

  lemma StepKeepsRecv(answers: Answers, s: State, a: Action)
    requires RecvInv(answers, s) && Enabled(answers, s, a)
    ensures RecvInv(answers, Next(answers, s, a))
  {
    hide RecvInv;
    var t := Next(answers, s, a);
    if !Eventful(a) {
      QuietStep(answers, s, a);
      QuietKeepsRecv(answers, s, t);
      return;
    }
    match a
    case Watchdog => EmitKeepsRecv(answers, s, t, Invalidated);
    case TestTop => if s.valid { QuietKeepsRecv(answers, s, t); } else { EmitKeepsRecv(answers, s, t, LoopLeft); }
    case AcceptNone => EmitKeepsRecv(answers, s, t, PassStarted);
    case TestVisit => VisitKeepsRecv(answers, s);
    case RecvChunk(c) => ReceiveKeepsRecv(answers, s, c);
    case Send(n) => SendKeepsRecv(answers, s, n);
  }

  // ---------------------------------------------------------------- every run

  ghost predicate Inv(answers: Answers, s: State) {
    TableInv(s) && LossInv(s) && PassInv(s) && RecvInv(answers, s)
  }

  lemma StepKeepsInv(answers: Answers, s: State, a: Action)
    requires Inv(answers, s) && Enabled(answers, s, a)
    ensures Inv(answers, Next(answers, s, a))
  {
    hide TableInv, LossInv, PassInv, RecvInv, Next, Enabled;
    if Serving(s) { InService(s); }
    StepKeepsTable(answers, s, a);
    StepKeepsLoss(answers, s, a);
    StepKeepsPass(answers, s, a);
    StepKeepsRecv(answers, s, a);
  }

  lemma {:induction false} RunKeepsInv(answers: Answers, listen: Fd, max: int, trace: seq<Action>)
    requires After(answers, Init(listen, max), trace).Some?
    ensures Inv(answers, After(answers, Init(listen, max), trace).value)
    ensures var s := After(answers, Init(listen, max), trace).value; s.listen == listen && s.maxConnections == max
  {
    if trace != [] {
      RunKeepsInv(answers, listen, max, trace[..|trace| - 1]);
      var s := After(answers, Init(listen, max), trace[..|trace| - 1]).value;
      StepKeepsInv(answers, s, trace[|trace| - 1]);
      StepKeepsParameters(answers, s, trace[|trace| - 1]);
    }
  }

  lemma StepKeepsParameters(answers: Answers, s: State, a: Action)
    requires Enabled(answers, s, a)
    ensures Next(answers, s, a).listen == s.listen && Next(answers, s, a).maxConnections == s.maxConnections
  {
  }

  /** Runs can be cut anywhere. */
  lemma {:induction false} PrefixRuns(answers: Answers, init: State, a: seq<Action>, b: seq<Action>)
    requires After(answers, init, a + b).Some?
    ensures After(answers, init, a).Some?
  {
    if b == [] {
      assert a + b == a;
    } else {
      assert (a + b)[..|a + b| - 1] == a + b[..|b| - 1];
      PrefixRuns(answers, init, a, b[..|b| - 1]);
    }
  }

  // ---------------------------------------------------------------- theorem: descriptors

  /** Over every run each descriptor is opened at most once; once opened it is live exactly once or
      was closed exactly once; the listening socket stays in front of the table until shutdown; the
      clients never exceed a limit that is not negative; and when the loop sleeps all are closed. */
  lemma DescriptorsAreConserved(answers: Answers, listen: Fd, max: int, trace: seq<Action>)
    requires After(answers, Init(listen, max), trace).Some?
    ensures var s := After(answers, Init(listen, max), trace).value;
            && (forall fd :: s.openCalls[fd] <= 1 && multiset(Live(s))[fd] + s.closeCalls[fd] == s.openCalls[fd])
            && (s.at != Asleep ==> s.sockets != [] && s.sockets[0] == listen)
            && (0 <= AsSize(max) ==> |s.sockets| - 1 <= AsSize(max))
            && (0 <= max ==> |s.sockets| - 1 <= max)
            && (s.at == Asleep ==> s.sockets == [] && s.closeCalls == s.openCalls)
  {
    RunKeepsInv(answers, listen, max, trace);
    var s := After(answers, Init(listen, max), trace).value;
    assert Balanced(Live(s), s.openCalls, s.closeCalls);
  }

  lemma Extend(answers: Answers, init: State, trace: seq<Action>, a: Action)
    requires After(answers, init, trace).Some? && Enabled(answers, After(answers, init, trace).value, a)
    ensures After(answers, init, trace + [a]) == Some(Next(answers, After(answers, init, trace).value, a))
  {
    assert (trace + [a])[..|trace|] == trace;
  }

  /** One more client, as long as the limit allows. */
  lemma AddClient(answers: Answers, init: State, trace: seq<Action>, fd: Fd) returns (longer: seq<Action>)
    requires After(answers, init, trace).Some?
    requires var s := After(answers, init, trace).value;
             s.at == Accepting && fd !in s.openCalls && |s.sockets| <= AsSize(s.maxConnections)
    ensures After(answers, init, longer).Some?
    ensures var s, t := After(answers, init, trace).value, After(answers, init, longer).value;
            && t.at == Accepting && t.sockets == s.sockets + [fd]
            && t.openCalls == s.openCalls + multiset{fd} && t.maxConnections == s.maxConnections && t.valid == s.valid
  {
    Extend(answers, init, trace, AcceptOk(fd));
    Extend(answers, init, trace + [AcceptOk(fd)], Place(true));
    longer := trace + [AcceptOk(fd)] + [Place(true)];
  }

  /** Up to the limit read as an unsigned number every count of clients is reached: a limit that is
      not negative is tight, and a negative one is as good as none. */
  lemma LimitIsReached(answers: Answers, max: int, n: nat) returns (trace: seq<Action>)
    requires -0x8000_0000 <= max < 0x8000_0000 && n <= AsSize(max)
    ensures After(answers, Init(0, max), trace).Some?
    ensures |After(answers, Init(0, max), trace).value.sockets| - 1 == n
  {
    var init := Init(0, max);
    Extend(answers, init, [], TestTop);
    trace := [] + [TestTop];
    var k := 0;
    while k < n
      invariant 0 <= k <= n && After(answers, init, trace).Some?
      invariant var s := After(answers, init, trace).value;
                && s.at == Accepting && |s.sockets| == k + 1 && s.maxConnections == max
                && forall fd | fd > k :: fd !in s.openCalls
    {
      trace := AddClient(answers, init, trace, k + 1);
      k := k + 1;
    }
  }

  // ---------------------------------------------------------------- theorem: validity

  function Sends(trace: seq<Action>): nat {
    if trace == [] then 0
    else Sends(trace[..|trace| - 1]) + (if trace[|trace| - 1].Send? then 1 else 0)
  }

  /** Without validity, no step brings it back, and each send is counted against the loss. */
  lemma StepAfterLoss(answers: Answers, s: State, a: Action)
    requires LossInv(s) && !s.valid && Enabled(answers, s, a)
    ensures !Next(answers, s, a).valid
    ensures Next(answers, s, a).sum.sentAfterLoss == s.sum.sentAfterLoss + (if a.Send? then 1 else 0)
    ensures s.sum.left ==> (a == CloseNext || a == CloseDone) && Next(answers, s, a).sum.left
  {
  }

  lemma {:induction false} RunAfterLoss(answers: Answers, listen: Fd, max: int, trace: seq<Action>, more: seq<Action>)
    requires After(answers, Init(listen, max), trace + more).Some?
    requires After(answers, Init(listen, max), trace).Some? && !After(answers, Init(listen, max), trace).value.valid
    ensures var s, t := After(answers, Init(listen, max), trace).value, After(answers, Init(listen, max), trace + more).value;
            && !t.valid
            && t.sum.sentAfterLoss == s.sum.sentAfterLoss + Sends(more)
            && (s.sum.left ==> t.sum.left && forall a | a in more :: a == CloseNext || a == CloseDone)
  {
    hide TableInv, LossInv, PassInv, RecvInv, Next, Enabled, Init;
    if more == [] {
      assert trace + more == trace;
    } else {
      var init, last := more[..|more| - 1], more[|more| - 1];
      assert (trace + more)[..|trace + more| - 1] == trace + init;
      PrefixRuns(answers, Init(listen, max), trace + init, [last]);
      RunAfterLoss(answers, listen, max, trace, init);
      RunKeepsInv(answers, listen, max, trace + init);
      StepAfterLoss(answers, After(answers, Init(listen, max), trace + init).value, last);
      assert more == init + [last];
    }
  }

  function Tests(trace: seq<Action>): nat {
    if trace == [] then 0
    else Tests(trace[..|trace| - 1]) + (if trace[|trace| - 1] == TestTop then 1 else 0)
  }

  /** The next test of validity in `start` leaves the loop. */
  lemma {:induction false} OneTestAfterLoss(answers: Answers, listen: Fd, max: int, trace: seq<Action>, more: seq<Action>)
    requires After(answers, Init(listen, max), trace + more).Some?
    requires After(answers, Init(listen, max), trace).Some? && !After(answers, Init(listen, max), trace).value.valid
    ensures Tests(more) <= 1
    ensures Tests(more) == 1 ==> After(answers, Init(listen, max), trace + more).value.sum.left
  {
    hide TableInv, LossInv, PassInv, RecvInv, Init, Next, Enabled;
    if more != [] {
      var init, last := more[..|more| - 1], more[|more| - 1];
      assert (trace + more)[..|trace + more| - 1] == trace + init;
      PrefixRuns(answers, Init(listen, max), trace + init, [last]);
      OneTestAfterLoss(answers, listen, max, trace, init);
      RunAfterLoss(answers, listen, max, trace, init);
      RunKeepsInv(answers, listen, max, trace + init);
      var s := After(answers, Init(listen, max), trace + init).value;
      StepAfterLoss(answers, s, last);
      if last == TestTop { TestLeaves(answers, s); }
    }
  }

  lemma TestLeaves(answers: Answers, s: State)
    requires LossInv(s) && !s.valid && Enabled(answers, s, TestTop)
    ensures !s.sum.left && Next(answers, s, TestTop).sum.left
  {
  }

  /** Over every interleaving with the watchdog: validity never returns, at most one more reply is
      sent once it is lost, validity is tested at most once more in `start`, and once the serving loop is left only the sockets are closed: no
      accept, recv or send follows, and at the end every descriptor is closed. */
  lemma LostValidityIsFinal(answers: Answers, listen: Fd, max: int, trace: seq<Action>, more: seq<Action>)
    requires After(answers, Init(listen, max), trace + more).Some?
    ensures After(answers, Init(listen, max), trace).Some?
    ensures var s, t := After(answers, Init(listen, max), trace).value, After(answers, Init(listen, max), trace + more).value;
            && (!s.valid ==> !t.valid && Sends(more) <= 1 && Tests(more) <= 1)
            && (!s.valid && Tests(more) == 1 ==> t.at.Closing? || t.at == Asleep)
            && (s.at.Closing? || s.at == Asleep ==>
                  && (t.at.Closing? || t.at == Asleep)
                  && forall a | a in more :: a == CloseNext || a == CloseDone)
            && (t.at == Asleep ==> t.closeCalls == t.openCalls)
  {
    PrefixRuns(answers, Init(listen, max), trace, more);
    RunKeepsInv(answers, listen, max, trace);
    RunKeepsInv(answers, listen, max, trace + more);
    var s := After(answers, Init(listen, max), trace).value;
    if !s.valid {
      RunAfterLoss(answers, listen, max, trace, more);
      OneTestAfterLoss(answers, listen, max, trace, more);
    }
    DescriptorsAreConserved(answers, listen, max, trace + more);
  }

  // ---------------------------------------------------------------- theorem: one handling pass

  ghost predicate Distinct(fds: seq<Fd>) {
    forall fd :: multiset(fds)[fd] <= 1
  }

  lemma TableFixed(answers: Answers, s: State, a: Action)
    requires Enabled(answers, s, a) && a != AcceptNone
    ensures Next(answers, s, a).pass.table == s.pass.table
  {
  }

  lemma {:induction false} PassTableIsDistinct(answers: Answers, listen: Fd, max: int, trace: seq<Action>)
    requires After(answers, Init(listen, max), trace).Some?
    ensures Distinct(After(answers, Init(listen, max), trace).value.pass.table)
  {
    if trace != [] {
      var init, a := trace[..|trace| - 1], trace[|trace| - 1];
      PassTableIsDistinct(answers, listen, max, init);
      RunKeepsInv(answers, listen, max, init);
      var s := After(answers, Init(listen, max), init).value;
      StepKeepsDistinct(answers, s, a);
    }
  }

  lemma TableIsDistinct(s: State)
    requires TableInv(s) && s.at == Accepting
    ensures Distinct(s.sockets)
  {
    forall fd ensures multiset(s.sockets)[fd] <= 1 {
      assert s.openCalls[fd] <= 1;
    }
  }

  lemma StepKeepsDistinct(answers: Answers, s: State, a: Action)
    requires TableInv(s) && Enabled(answers, s, a) && Distinct(s.pass.table)
    ensures Distinct(Next(answers, s, a).pass.table)
  {
    hide TableInv, Distinct;
    if a == AcceptNone { TableIsDistinct(s); } else { TableFixed(answers, s, a); }
  }

  /** A handling pass, at every moment: it has visited a prefix of the clients in table order, no one
      twice, all of them if it ends with validity intact; it has sent each at most one reply; and
      the table is the listening socket, those that stayed, and those not yet done, in their order. */
  lemma PassVisitsInOrder(answers: Answers, listen: Fd, max: int, trace: seq<Action>)
    requires After(answers, Init(listen, max), trace).Some?
    requires InPass(After(answers, Init(listen, max), trace).value)
    ensures var s := After(answers, Init(listen, max), trace).value;
            var p := s.pass;
            && Distinct(p.table)
            && p.table == [listen] + p.done + p.todo
            && |p.kept| == |p.done|
            && s.sockets == [listen] + Select(p.done, p.kept) + p.todo
            && Summarize(s.log).visits <= p.done + p.todo
            && (s.at == Polling && s.valid ==> Summarize(s.log).visits == p.done + p.todo)
            && (forall fd :: multiset(Summarize(s.log).senders)[fd] <= 1)
            && (forall fd | fd in Summarize(s.log).senders :: fd in Summarize(s.log).visits)
  {
    hide TableInv, LossInv, GoodLog, Select, Next, Enabled, Distinct;
    RunKeepsInv(answers, listen, max, trace);
    PassTableIsDistinct(answers, listen, max, trace);
    var s := After(answers, Init(listen, max), trace).value;
    var p := s.pass;
    SendersAreVisited(p.table, listen, p.done, p.todo, s.sum.senders);
    VisitsArePrefix(p.done, p.todo, Serving(s));
  }

  lemma VisitsArePrefix(done: seq<Fd>, todo: seq<Fd>, serving: bool)
    requires serving ==> todo != []
    ensures var visits := done + (if serving then [todo[0]] else []);
            visits <= done + todo && forall fd | fd in done :: fd in visits
  {
    if serving { assert todo == [todo[0]] + todo[1..]; }
  }

  lemma SendersAreVisited(table: seq<Fd>, listen: Fd, done: seq<Fd>, todo: seq<Fd>, senders: seq<Fd>)
    requires Distinct(table) && table == [listen] + done + todo
    requires multiset(senders) <= multiset(done)
    ensures forall fd :: multiset(senders)[fd] <= 1
    ensures forall fd | fd in senders :: fd in done
  {
    assert multiset(table) == multiset{listen} + multiset(done) + multiset(todo);
    forall fd ensures multiset(senders)[fd] <= 1 {
      assert multiset(done)[fd] <= multiset(table)[fd];
    }
    forall fd | fd in senders ensures fd in done {
      assert fd in multiset(senders);
    }
  }

  /** Work left in a pass; it shrinks with every step of the serving thread although the table is
      edited while it is walked. */
  function PassRank(s: State): int {
    match s.at
    case Visit => |s.pass.todo| * 61445 + 1
    case Receiving => (|s.pass.todo| - 1) * 61445 + 4 + 61440 - |s.got|
    case Building => (|s.pass.todo| - 1) * 61445 + 3
    case Sending(_) => (|s.pass.todo| - 1) * 61445 + 2
    case _ => 0
  }

  lemma VisitRank(s: State)
    requires s.at == Visit && PassShape(s)
    ensures InPass(VisitOrEnd(s)) && 0 <= PassRank(VisitOrEnd(s)) < PassRank(s)
  {
    assert |s.sockets| == s.i + |s.pass.todo|;
  }

  lemma FinishRank(s: State, t: State)
    requires CanServe(s) && |s.got| <= BufferSize && t.at == Visit && |t.pass.todo| == |s.pass.todo| - 1
    ensures InPass(t) && 0 <= PassRank(t) < PassRank(s)
  {
  }

  lemma PassStepShrinks(answers: Answers, s: State, a: Action)
    requires Serving(s) && |s.got| <= BufferSize && Enabled(answers, s, a) && a != Watchdog
    ensures InPass(Next(answers, s, a))
    ensures 0 <= PassRank(Next(answers, s, a)) < PassRank(s)
  {
    var t := Next(answers, s, a);
    if t.at == Visit { FinishRank(s, t); }
  }

  /** On every run the pass ends: each step of the serving thread stays in it and shrinks its rank. */
  lemma PassTerminates(answers: Answers, listen: Fd, max: int, trace: seq<Action>, a: Action)
    requires After(answers, Init(listen, max), trace).Some? && a != Watchdog
    requires var s := After(answers, Init(listen, max), trace).value;
             InPass(s) && s.at != Polling && Enabled(answers, s, a)
    ensures var s := After(answers, Init(listen, max), trace).value;
            InPass(Next(answers, s, a)) && 0 <= PassRank(Next(answers, s, a)) < PassRank(s)
  {
    RunKeepsInv(answers, listen, max, trace);
    var s := After(answers, Init(listen, max), trace).value;
    if s.at == Visit { VisitRank(s); } else { PassStepShrinks(answers, s, a); }
  }

  // ---------------------------------------------------------------- theorem: replies

  lemma {:induction false} EventAt(answers: Answers, log: seq<Event>, k: nat)
    requires GoodLog(answers, log) && k < |log|
    ensures GoodEvent(answers, Summarize(log[..k]), log[k])
  {
    if k < |log| - 1 {
      EventAt(answers, log[..|log| - 1], k);
      assert log[..|log| - 1][..k] == log[..k];
    }
  }

  /** The bytes received in a stretch of the log, whatever the connection. */
  function Chunks(events: seq<Event>): seq<Byte> {
    if events == [] then []
    else
      var last := events[|events| - 1];
      Chunks(events[..|events| - 1]) + (if last.Received? then last.chunk else [])
  }

  /** Since event `v`, the visit of `fd`, no other visit began, and all bytes received came from `fd`. */
  ghost predicate OneVisit(log: seq<Event>, v: nat, fd: Fd) {
    && v < |log| && log[v] == Visited(fd)
    && forall j | v < j < |log| :: !log[j].Visited? && (log[j].Received? ==> log[j].fd == fd)
  }

  lemma {:induction false} SinceVisit(answers: Answers, log: seq<Event>, fd: Fd) returns (v: nat)
    requires GoodLog(answers, log) && Summarize(log).current == Some(fd)
    ensures OneVisit(log, v, fd) && Summarize(log).chunks == Chunks(log[v + 1..])
    decreases |log|
  {
    var init, e := log[..|log| - 1], log[|log| - 1];
    assert log == init + [e];
    if e.Visited? {
      v := |init|;
    } else {
      v := SinceVisit(answers, init, fd);
      VisitGoesOn(init, e, v, fd);
    }
  }

  lemma VisitGoesOn(init: seq<Event>, e: Event, v: nat, fd: Fd)
    requires OneVisit(init, v, fd) && !e.Visited? && (e.Received? ==> e.fd == fd)
    ensures OneVisit(init + [e], v, fd)
    ensures Chunks((init + [e])[v + 1..]) == Chunks(init[v + 1..]) + (if e.Received? then e.chunk else [])
  {
    var events := init[v + 1..] + [e];
    assert (init + [e])[v + 1..] == events;
    assert events[..|events| - 1] == init[v + 1..];
  }

  /** Whatever chunks recv delivers, and whatever the shared buffer held before: a reply goes to the
      connection visited last and answers the concatenation of the chunks received since that visit
      began, every one of them from this very connection and together no more than the buffer. */
  lemma RepliesAnswerReceivedBytes(answers: Answers, listen: Fd, max: int, trace: seq<Action>, k: nat) returns (v: nat)
    requires After(answers, Init(listen, max), trace).Some?
    requires k < |After(answers, Init(listen, max), trace).value.log|
    requires After(answers, Init(listen, max), trace).value.log[k].Sent?
    ensures var log := After(answers, Init(listen, max), trace).value.log;
            && v < k && OneVisit(log[..k], v, log[k].fd)
            && log[k].query == Chunks(log[v + 1..k])
            && |log[k].query| <= 61440
            && answers(log[k].query, Some(log[k].reply))
  {
    RunKeepsInv(answers, listen, max, trace);
    var log := After(answers, Init(listen, max), trace).value.log;
    EventAt(answers, log, k);
    GoodPrefix(answers, log, k);
    v := SinceVisit(answers, log[..k], log[k].fd);
    assert log[..k][v + 1..] == log[v + 1..k];
  }

  lemma {:induction false} GoodPrefix(answers: Answers, log: seq<Event>, k: nat)
    requires GoodLog(answers, log) && k <= |log|
    ensures GoodLog(answers, log[..k])
  {
    if k == |log| {
      assert log[..k] == log;
    } else {
      GoodPrefix(answers, log[..|log| - 1], k);
      assert log[..|log| - 1][..k] == log[..k];
    }
  }
}

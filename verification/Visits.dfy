/** How the visit of a connection ends, over every run of the serving loop. */
module Visits {
  import opened Bytes
  import opened Options
  import opened ResponderMachine
  import ResponderSafety

  /** The end of a visit: the peer closed, recv failed, there was nothing to read, the query was
      refused, or a reply was handed to send with this result. */
  datatype VisitEnd = PeerClosed | RecvError | Silent | Refused | Replied(reply: seq<Byte>, result: int)

  // ---------------------------------------------------------------- what the serving thread did

  /** The steps of the serving thread, without the watchdog's. */
  function Strip(trace: seq<Action>): seq<Action> {
    if trace == [] then []
    else
      var last := trace[|trace| - 1];
      Strip(trace[..|trace| - 1]) + (if last == Watchdog then [] else [last])
  }

  lemma StripStep(trace: seq<Action>, a: Action)
    ensures Strip(trace + [a]) == Strip(trace) + (if a == Watchdog then [] else [a])
  {
    assert (trace + [a])[..|trace|] == trace;
  }

  ghost predicate OnlyChunks(c: seq<Action>) {
    forall a | a in c :: a.RecvChunk?
  }

  /** The bytes that these calls of recv delivered. */
  function Got(c: seq<Action>): seq<Byte> {
    if c == [] then []
    else
      var last := c[|c| - 1];
      Got(c[..|c| - 1]) + (if last.RecvChunk? then last.chunk else [])
  }

  lemma GotStep(c: seq<Action>, chunk: seq<Byte>)
    ensures Got(c + [RecvChunk(chunk)]) == Got(c) + chunk
  {
    assert (c + [RecvChunk(chunk)])[..|c|] == c;
  }

  lemma GotOne(chunk: seq<Byte>)
    ensures Got([RecvChunk(chunk)]) == chunk
  {
    var c := [RecvChunk(chunk)];
    assert c[..|c| - 1] == [];
    assert Got(c) == Got([]) + chunk;
  }

  lemma GotNone()
    ensures Got([]) == []
  {
  }

  lemma {:induction false} GotAppend(c: seq<Action>, d: seq<Action>)
    ensures Got(c + d) == Got(c) + Got(d)
  {
    if d == [] {
      assert c + d == c;
    } else {
      assert (c + d)[..|c + d| - 1] == c + d[..|d| - 1];
      GotAppend(c, d[..|d| - 1]);
    }
  }

  /** What happens after the last chunk. */
  function EndActions(e: VisitEnd): seq<Action> {
    match e
    case PeerClosed => [RecvClosed]
    case RecvError => [RecvFailed]
    case Silent => [RecvAgain]
    case Refused => [RecvAgain, Build(None)]
    case Replied(reply, result) => [RecvAgain, Build(Some(reply)), Send(result)]
  }

  /** Which ends the received bytes allow. */
  ghost predicate Fitting(answers: Answers, query: seq<Byte>, e: VisitEnd) {
    match e
    case PeerClosed => true
    case RecvError => true
    case Silent => query == []
    case Refused => query != [] && answers(query, None)
    case Replied(reply, result) => query != [] && answers(query, Some(reply)) && -1 <= result <= |reply|
  }

  /** The connection stays if there was nothing to read or the whole reply was sent. */
  predicate Stays(e: VisitEnd) {
    e == Silent || (e.Replied? && e.result == |e.reply|)
  }

  /** The table and the iterator after a visit at `i`. */
  function TableAfter(sockets: seq<Fd>, i: nat, e: VisitEnd): seq<Fd>
    requires i < |sockets|
  {
    if Stays(e) then sockets else sockets[..i] + sockets[i + 1..]
  }

  function IteratorAfter(i: nat, e: VisitEnd): nat {
    if Stays(e) then i + 1 else i
  }

  // ---------------------------------------------------------------- what the log says

  /** The log without the watchdog's entries. */
  function NoLoss(log: seq<Event>): seq<Event> {
    if log == [] then []
    else
      var last := log[|log| - 1];
      NoLoss(log[..|log| - 1]) + (if last == Invalidated then [] else [last])
  }

  lemma NoLossStep(log: seq<Event>, e: Event)
    ensures NoLoss(log + [e]) == NoLoss(log) + (if e == Invalidated then [] else [e])
  {
    assert (log + [e])[..|log|] == log;
  }

  function Receipts(fd: Fd, c: seq<Action>): seq<Event> {
    if c == [] then []
    else
      var last := c[|c| - 1];
      Receipts(fd, c[..|c| - 1]) + (if last.RecvChunk? then [Received(fd, last.chunk)] else [])
  }

  lemma ReceiptsStep(fd: Fd, c: seq<Action>, chunk: seq<Byte>)
    ensures Receipts(fd, c + [RecvChunk(chunk)]) == Receipts(fd, c) + [Received(fd, chunk)]
  {
    assert (c + [RecvChunk(chunk)])[..|c|] == c;
  }

  function Sendings(fd: Fd, query: seq<Byte>, e: VisitEnd): seq<Event> {
    if e.Replied? then [Sent(fd, query, e.reply, e.result)] else []
  }

  // ---------------------------------------------------------------- during a visit

  /** `s0` began the visit, `s` is reached by the steps `b`, of which `c` received the bytes. */
  ghost predicate Underway(answers: Answers, s0: State, s: State, b: seq<Action>, c: seq<Action>) {
    && CanServe(s) && s.sockets == s0.sockets && s.i == s0.i && s.closeCalls == s0.closeCalls
    && OnlyChunks(c) && s.got == Got(c)
    && NoLoss(s.log) == NoLoss(s0.log) + Receipts(s.sockets[s.i], c)
    && match s.at
       case Receiving => Strip(b) == c
       case Building => s.got != [] && Strip(b) == c + [RecvAgain]
       case Sending(reply) =>
         s.got != [] && Strip(b) == c + [RecvAgain, Build(Some(reply))] && answers(s.got, Some(reply))
       case _ => false
  }

  /** The visit is over, with the end `e`. */
  ghost predicate Ended(answers: Answers, s0: State, t: State, b: seq<Action>, c: seq<Action>, e: VisitEnd)
    requires s0.i < |s0.sockets|
  {
    var fd := s0.sockets[s0.i];
    && OnlyChunks(c) && Strip(b) == c + EndActions(e)
    && Fitting(answers, Got(c), e)
    && t.sockets == TableAfter(s0.sockets, s0.i, e)
    && t.i == IteratorAfter(s0.i, e)
    && t.closeCalls == (if Stays(e) then s0.closeCalls else s0.closeCalls + multiset{fd})
    && NoLoss(t.log) == NoLoss(s0.log) + Receipts(fd, c) + Sendings(fd, Got(c), e)
  }

  lemma Begins(answers: Answers, s: State)
    requires s.at == Receiving && CanServe(s) && s.got == []
    ensures Underway(answers, s, s, [], [])
  {
    assert NoLoss(s.log) + [] == NoLoss(s.log);
  }

  lemma GoesOn(answers: Answers, s0: State, s: State, b: seq<Action>, c: seq<Action>, a: Action)
    returns (c': seq<Action>)
    requires Underway(answers, s0, s, b, c) && Enabled(answers, s, a) && Serving(Next(answers, s, a))
    ensures Underway(answers, s0, Next(answers, s, a), b + [a], c')
  {
    c' := c;
    StripStep(b, a);
    match a
    case Watchdog =>
      NoLossStep(s.log, Invalidated);
      assert Strip(b) + [] == Strip(b) && NoLoss(s.log) + [] == NoLoss(s.log);
    case RecvChunk(chunk) =>
      var fd := s.sockets[s.i];
      c' := c + [a];
      GotStep(c, chunk);
      ReceiptsStep(fd, c, chunk);
      NoLossStep(s.log, Received(fd, chunk));
      Regroup3(NoLoss(s0.log), Receipts(fd, c), Received(fd, chunk));
    case RecvAgain =>
    case Build(reply) => Append2(c, RecvAgain, a);
  }

  lemma Regroup3<T>(x: seq<T>, y: seq<T>, z: T)
    ensures x + y + [z] == x + (y + [z])
  {
  }

  lemma Append2<T>(x: seq<T>, y: T, z: T)
    ensures x + [y] + [z] == x + [y, z]
  {
  }

  lemma Finishes(answers: Answers, s0: State, s: State, b: seq<Action>, c: seq<Action>, a: Action) returns (e: VisitEnd)
    requires Underway(answers, s0, s, b, c) && Enabled(answers, s, a) && Next(answers, s, a).at == Visit
    ensures Ended(answers, s0, Next(answers, s, a), b + [a], c, e)
  {
    if a.Send? {
      e := FinishesSending(answers, s0, s, b, c, a.result);
    } else if s.at == Building {
      e := FinishesRefused(answers, s0, s, b, c, a);
    } else {
      e := FinishesReceiving(answers, s0, s, b, c, a);
    }
  }

  lemma FinishesReceiving(answers: Answers, s0: State, s: State, b: seq<Action>, c: seq<Action>, a: Action) returns (e: VisitEnd)
    requires Underway(answers, s0, s, b, c) && s.at == Receiving && Enabled(answers, s, a) && Next(answers, s, a).at == Visit
    ensures Ended(answers, s0, Next(answers, s, a), b + [a], c, e)
  {
    hide Strip, NoLoss, Receipts, Got;
    StripStep(b, a);
    assert NoLoss(s.log) + [] == NoLoss(s.log);
    e := if a == RecvClosed then PeerClosed else if a == RecvFailed then RecvError else Silent;
  }

  lemma FinishesRefused(answers: Answers, s0: State, s: State, b: seq<Action>, c: seq<Action>, a: Action) returns (e: VisitEnd)
    requires Underway(answers, s0, s, b, c) && s.at == Building && Enabled(answers, s, a) && Next(answers, s, a).at == Visit
    ensures Ended(answers, s0, Next(answers, s, a), b + [a], c, e)
  {
    hide Strip, NoLoss, Receipts, Got;
    StripStep(b, a);
    assert NoLoss(s.log) + [] == NoLoss(s.log);
    Append2(c, RecvAgain, a);
    e := Refused;
  }

  lemma FinishesSending(answers: Answers, s0: State, s: State, b: seq<Action>, c: seq<Action>, n: int) returns (e: VisitEnd)
    requires Underway(answers, s0, s, b, c) && s.at.Sending? && Enabled(answers, s, Send(n))
    ensures Ended(answers, s0, Next(answers, s, Send(n)), b + [Send(n)], c, e)
  {
    e := Replied(s.at.reply, n);
    StripStep(b, Send(n));
    NoLossStep(s.log, Sent(s.sockets[s.i], s.got, s.at.reply, n));
    assert c + [RecvAgain, Build(Some(s.at.reply))] + [Send(n)] == c + EndActions(e);
  }

  // ---------------------------------------------------------------- the theorem

  /** The steps `b` of the run `a + b` are inside one visit. */
  ghost predicate Inside(answers: Answers, init: State, a: seq<Action>, b: seq<Action>) {
    forall k | 0 <= k < |b| :: After(answers, init, a + b[..k]).Some? && Serving(After(answers, init, a + b[..k]).value)
  }

  lemma {:induction false} RunUnderway(answers: Answers, init: State, a: seq<Action>, b: seq<Action>) returns (c: seq<Action>)
    requires After(answers, init, a + b).Some? && Serving(After(answers, init, a + b).value)
    requires After(answers, init, a).Some?
    requires Inside(answers, init, a, b)
    requires var s := After(answers, init, a).value; s.at == Receiving && CanServe(s) && s.got == []
    ensures Underway(answers, After(answers, init, a).value, After(answers, init, a + b).value, b, c)
    decreases |b|
  {
    hide Underway, Next, Enabled;
    var s0 := After(answers, init, a).value;
    if b == [] {
      assert a + b == a;
      Begins(answers, s0);
      c := [];
    } else {
      var front, x := b[..|b| - 1], b[|b| - 1];
      assert b == front + [x] && (a + b)[..|a + b| - 1] == a + front;
      assert forall k | 0 <= k < |front| :: front[..k] == b[..k];
      assert b[..|front|] == front;
      c := RunUnderway(answers, init, a, front);
      c := GoesOn(answers, s0, After(answers, init, a + front).value, front, c, x);
    }
  }

  /** Over every run, every visit: after the chunks it received, either the peer closed or recv failed;
      or there was nothing, and nothing else happened; or the message builder was asked exactly once,
      with all the bytes received, and if it answered, exactly that reply was handed to send. The
      connection stays in the table if there was nothing to read or all of the reply was sent, and is
      closed and erased otherwise. The log has the chunks and the reply, and nothing else. */
  lemma VisitOutcome(answers: Answers, listen: Fd, max: int, a: seq<Action>, b: seq<Action>)
    returns (c: seq<Action>, e: VisitEnd)
    requires After(answers, Init(listen, max), a + b).Some? && After(answers, Init(listen, max), a).Some?
    requires var s := After(answers, Init(listen, max), a).value; s.at == Receiving && s.got == []
    requires Inside(answers, Init(listen, max), a, b)
    requires After(answers, Init(listen, max), a + b).value.at == Visit
    ensures CanServe(After(answers, Init(listen, max), a).value)
    ensures Ended(answers, After(answers, Init(listen, max), a).value, After(answers, Init(listen, max), a + b).value, b, c, e)
  {
    hide Underway, Next, Enabled, Ended, Init, ResponderSafety.Inv, TableInv, LossInv, RecvInv, PassInv;
    var init := Init(listen, max);
    var s0 := After(answers, init, a).value;
    ResponderSafety.RunKeepsInv(answers, listen, max, a);
    Servable(answers, s0);
    assert a + [] == a;
    var front, x := b[..|b| - 1], b[|b| - 1];
    assert b == front + [x] && (a + b)[..|a + b| - 1] == a + front;
    assert forall k | 0 <= k < |front| :: front[..k] == b[..k];
    assert b[..|front|] == front;
    c := RunUnderway(answers, init, a, front);
    e := Finishes(answers, s0, After(answers, init, a + front).value, front, c, x);
  }

  lemma Servable(answers: Answers, s: State)
    requires ResponderSafety.Inv(answers, s) && Serving(s)
    ensures CanServe(s)
  {
    ResponderSafety.InService(s);
  }

  // ---------------------------------------------------------------- admission

  ghost predicate OnlyWatchdog(w: seq<Action>) {
    forall a | a in w :: a == Watchdog
  }

  lemma {:induction false} HoldsOn(answers: Answers, init: State, p: seq<Action>, w: seq<Action>)
    requires After(answers, init, p + w).Some? && OnlyWatchdog(w)
    requires After(answers, init, p).Some?
    ensures var s, t := After(answers, init, p).value, After(answers, init, p + w).value;
            && t.at == s.at && t.sockets == s.sockets && t.closeCalls == s.closeCalls && t.openCalls == s.openCalls
            && t.maxConnections == s.maxConnections
  {
    hide Next, Enabled;
    if w == [] {
      assert p + w == p;
    } else {
      var front, x := w[..|w| - 1], w[|w| - 1];
      assert w == front + [x] && (p + w)[..|p + w| - 1] == p + front;
      assert x in w && forall y | y in front :: y in w;
      ResponderSafety.PrefixRuns(answers, init, p + front, [x]);
      assert p + front + [x] == p + w;
      HoldsOn(answers, init, p, front);
      WatchdogHolds(answers, After(answers, init, p + front).value);
    }
  }

  lemma WatchdogHolds(answers: Answers, s: State)
    requires Enabled(answers, s, Watchdog)
    ensures var t := Next(answers, s, Watchdog);
            && t.at == s.at && t.sockets == s.sockets && t.closeCalls == s.closeCalls && t.openCalls == s.openCalls
            && t.maxConnections == s.maxConnections
  {
  }

  /** Over every run: an accepted connection gets into the table, at its end, if and only if the
      clients are below the limit read as unsigned and it could be made non-blocking; otherwise it is
      closed at once. */
  lemma AdmissionOutcome(answers: Answers, listen: Fd, max: int, a: seq<Action>, fd: Fd, w: seq<Action>, nonBlocking: bool)
    requires OnlyWatchdog(w)
    requires After(answers, Init(listen, max), a + [AcceptOk(fd)] + w + [Place(nonBlocking)]).Some?
    ensures After(answers, Init(listen, max), a).Some?
    ensures var s := After(answers, Init(listen, max), a).value;
            var t := After(answers, Init(listen, max), a + [AcceptOk(fd)] + w + [Place(nonBlocking)]).value;
            var limit := if max < 0 then max + 0x1_0000_0000_0000_0000 else max;
            var admitted := nonBlocking && |s.sockets| - 1 < limit;
            && t.at == Accepting
            && t.sockets == (if admitted then s.sockets + [fd] else s.sockets)
            && t.closeCalls == (if admitted then s.closeCalls else s.closeCalls + multiset{fd})
            && t.openCalls == s.openCalls + multiset{fd}
  {
    hide Next, Enabled, Init;
    var init, p := Init(listen, max), a + [AcceptOk(fd)];
    ResponderSafety.PrefixRuns(answers, init, p + w, [Place(nonBlocking)]);
    ResponderSafety.PrefixRuns(answers, init, p, w);
    ResponderSafety.PrefixRuns(answers, init, a, [AcceptOk(fd)]);
    assert p[..|a|] == a && (p + w + [Place(nonBlocking)])[..|p + w|] == p + w;
    AfterParameters(answers, listen, max, a);
    HoldsOn(answers, init, p, w);
    AdmissionSteps(answers, After(answers, init, a).value, After(answers, init, p + w).value, fd, nonBlocking);
  }

  lemma AfterParameters(answers: Answers, listen: Fd, max: int, a: seq<Action>)
    requires After(answers, Init(listen, max), a).Some?
    ensures After(answers, Init(listen, max), a).value.maxConnections == max
  {
    ResponderSafety.RunKeepsInv(answers, listen, max, a);
  }

  lemma AdmissionSteps(answers: Answers, s: State, u: State, fd: Fd, nonBlocking: bool)
    requires Enabled(answers, s, AcceptOk(fd)) && Enabled(answers, u, Place(nonBlocking))
    requires var h := Next(answers, s, AcceptOk(fd));
             && u.at == h.at && u.sockets == h.sockets && u.closeCalls == h.closeCalls && u.openCalls == h.openCalls
             && u.maxConnections == h.maxConnections
    ensures var t := Next(answers, u, Place(nonBlocking));
            var max := s.maxConnections;
            var limit := if max < 0 then max + 0x1_0000_0000_0000_0000 else max;
            var admitted := nonBlocking && |s.sockets| - 1 < limit;
            && t.at == Accepting
            && t.sockets == (if admitted then s.sockets + [fd] else s.sockets)
            && t.closeCalls == (if admitted then s.closeCalls else s.closeCalls + multiset{fd})
            && t.openCalls == s.openCalls + multiset{fd}
  {
  }

  /** Any burst that the buffer of 61440 bytes can hold can be received on a visit. */
  lemma AnyBurstCanArrive(answers: Answers, burst: seq<Byte>) returns (trace: seq<Action>)
    requires 1 <= |burst| <= 61440
    ensures After(answers, Init(0, 1), trace).Some?
    ensures After(answers, Init(0, 1), trace).value.at == Receiving && After(answers, Init(0, 1), trace).value.got == burst
  {
    var init := Init(0, 1);
    hide After;
    EmptyRun(answers, init);
    ResponderSafety.Extend(answers, init, [], TestTop);
    trace := ResponderSafety.AddClient(answers, init, [] + [TestTop], 1);
    ResponderSafety.Extend(answers, init, trace, AcceptNone);
    trace := trace + [AcceptNone];
    ResponderSafety.Extend(answers, init, trace, TestVisit);
    trace := trace + [TestVisit];
    ResponderSafety.Extend(answers, init, trace, RecvChunk(burst));
    trace := trace + [RecvChunk(burst)];
    assert [] + burst == burst;
  }

  lemma EmptyRun(answers: Answers, init: State)
    ensures After(answers, init, []) == Some(init)
  {
  }
}

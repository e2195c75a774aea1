/** The serving loop of src/responder.cpp as a step machine: one step per system call, per look at
    the validity flag, and per run of the watchdog that clears it. */
module ResponderMachine {
  import opened Bytes
  import opened Options

  /** File descriptors are fresh handles: accept never returns one twice. */
  type Fd = int

  /** Which results `createResponse` may have on a query, None standing for -1. */
  type Answers = (seq<Byte>, Option<seq<Byte>>) -> bool

  const BufferSize: nat := 61440

  /** What happens, in order. `Sent` records the query it answers and the result of send. */
  datatype Event =
    | PassStarted | Visited(fd: Fd) | Received(fd: Fd, chunk: seq<Byte>)
    | Sent(fd: Fd, query: seq<Byte>, reply: seq<Byte>, result: int)
    | Invalidated | LoopLeft

  datatype At =
    | Top                            // about to test validity in `start`
    | Accepting                      // about to call accept
    | Holding(fd: Fd)                // accepted, not placed yet
    | Visit                          // about to test validity in the handling pass
    | Receiving                      // about to call recv
    | Building                       // about to create the response
    | Sending(reply: seq<Byte>)      // about to call send
    | Polling                        // about to call poll
    | Closing(k: nat)                // loop left, k sockets closed
    | Asleep                         // sleeping for ever
    | Exited                         // exit(EXIT_FAILURE)

  /** The current handling pass: the table it started with, the connections it is done with and
      whether each of them stayed, and those still to be visited, the one in service first. */
  datatype Pass = Pass(table: seq<Fd>, done: seq<Fd>, kept: seq<bool>, todo: seq<Fd>)

  /** What the event log says so far. */
  datatype Summary = Summary(lost: bool, sentAfterLoss: nat, left: bool,
                             visits: seq<Fd>, senders: seq<Fd>,          // since the pass started
                             current: Option<Fd>, chunks: seq<Byte>)     // since the last visit began

  /** `i` is the iterator position and `got` the filled part of the receive buffer. `openCalls` and
      `closeCalls` count, per descriptor, the calls that opened it and that closed it. */
  datatype State = State(listen: Fd, maxConnections: int, at: At, i: nat, got: seq<Byte>,
                         sockets: seq<Fd>, valid: bool, openCalls: multiset<Fd>, closeCalls: multiset<Fd>,
                         pass: Pass, log: seq<Event>, sum: Summary)

  datatype Action =
    | Watchdog
    | TestTop
    | AcceptOk(fd: Fd) | AcceptNone | AcceptAborted | AcceptFatal
    | Place(nonBlocking: bool)
    | TestVisit
    | RecvChunk(chunk: seq<Byte>) | RecvClosed | RecvFailed | RecvAgain
    | Build(reply: Option<seq<Byte>>)
    | Send(result: int)
    | Poll(ok: bool)
    | CloseNext | CloseDone

  // ---------------------------------------------------------------- the log

  const Blank: Summary := Summary(false, 0, false, [], [], None, [])

  function Add(s: Summary, e: Event): Summary {
    match e
    case PassStarted => s.(visits := [], senders := [])
    case Visited(fd) => s.(visits := s.visits + [fd], current := Some(fd), chunks := [])
    case Received(_, chunk) => s.(chunks := s.chunks + chunk)
    case Sent(fd, _, _, _) =>
      s.(senders := s.senders + [fd], sentAfterLoss := if s.lost then s.sentAfterLoss + 1 else s.sentAfterLoss)
    case Invalidated => s.(lost := true)
    case LoopLeft => s.(left := true)
  }

  function Summarize(log: seq<Event>): Summary {
    if log == [] then Blank else Add(Summarize(log[..|log| - 1]), log[|log| - 1])
  }

  function Emit(s: State, e: Event): State {
    s.(log := s.log + [e], sum := Add(s.sum, e))
  }

  // ---------------------------------------------------------------- the steps

  function Init(listen: Fd, maxConnections: int): State {
    State(listen, maxConnections, Top, 0, [], [listen], true, multiset{listen}, multiset{},
          Pass([], [], [], []), [], Blank)
  }

  /** A signed limit compared with a `size_t`. */
  function AsSize(n: int): int {
    if n < 0 then n + 0x1_0000_0000_0000_0000 else n
  }

  function Lose(s: State): State {
    Emit(s, Invalidated).(valid := false)
  }

  function LeaveOrServe(s: State): State {
    if s.valid then s.(at := Accepting) else Emit(s, LoopLeft).(at := Closing(0))
  }

  function Hold(s: State, fd: Fd): State {
    s.(at := Holding(fd), openCalls := s.openCalls + multiset{fd})
  }

  /** Over the limit or not made non-blocking: closed. Otherwise added to the table. */
  function PlaceHeld(s: State, nonBlocking: bool): State
    requires s.at.Holding?
  {
    if |s.sockets| > AsSize(s.maxConnections) || !nonBlocking
    then s.(at := Accepting, closeCalls := s.closeCalls + multiset{s.at.fd})
    else s.(at := Accepting, sockets := s.sockets + [s.at.fd])
  }

  function StartPass(s: State): State
    requires s.sockets != []
  {
    Emit(s, PassStarted).(at := Visit, i := 1, pass := Pass(s.sockets, [], [], s.sockets[1..]))
  }

  function VisitOrEnd(s: State): State {
    if s.valid && s.i < |s.sockets|
    then Emit(s, Visited(s.sockets[s.i])).(at := Receiving, got := [])
    else s.(at := Polling)
  }

  predicate Serving(s: State) {
    s.at == Receiving || s.at == Building || s.at.Sending?
  }

  predicate CanServe(s: State) {
    Serving(s) && s.i < |s.sockets| && s.pass.todo != []
  }

  function PassDone(p: Pass, stays: bool): Pass
    requires p.todo != []
  {
    p.(done := p.done + [p.todo[0]], kept := p.kept + [stays], todo := p.todo[1..])
  }

  /** Done with the connection in service, which stays. */
  function Keep(s: State): State
    requires CanServe(s)
  {
    s.(at := Visit, i := s.i + 1, pass := PassDone(s.pass, true))
  }

  /** Done with the connection in service: closed and erased, so that the next one moves into its place. */
  function Drop(s: State): State
    requires CanServe(s)
  {
    s.(at := Visit, sockets := s.sockets[..s.i] + s.sockets[s.i + 1..],
       closeCalls := s.closeCalls + multiset{s.sockets[s.i]}, pass := PassDone(s.pass, false))
  }

  function Receive(s: State, chunk: seq<Byte>): State
    requires CanServe(s)
  {
    Emit(s, Received(s.sockets[s.i], chunk)).(got := s.got + chunk)
  }

  function NoMoreData(s: State): State
    requires CanServe(s)
  {
    if s.got == [] then Keep(s) else s.(at := Building)
  }

  function Built(s: State, reply: Option<seq<Byte>>): State
    requires CanServe(s)
  {
    if reply == None then Drop(s) else s.(at := Sending(reply.value))
  }

  function LogSent(s: State, result: int): State
    requires CanServe(s) && s.at.Sending?
  {
    Emit(s, Sent(s.sockets[s.i], s.got, s.at.reply, result))
  }

  function SendReply(s: State, result: int): State
    requires CanServe(s) && s.at.Sending?
  {
    if result == |s.at.reply| then Keep(LogSent(s, result)) else Drop(LogSent(s, result))
  }

  function CloseAt(s: State): State
    requires s.at.Closing? && s.at.k < |s.sockets|
  {
    s.(at := Closing(s.at.k + 1), closeCalls := s.closeCalls + multiset{s.sockets[s.at.k]})
  }

  predicate Enabled(answers: Answers, s: State, a: Action) {
    match a
    case Watchdog => s.valid
    case TestTop => s.at == Top
    case AcceptOk(fd) => s.at == Accepting && fd !in s.openCalls
    case AcceptNone => s.at == Accepting && s.sockets != []
    case AcceptAborted => s.at == Accepting
    case AcceptFatal => s.at == Accepting
    case Place(_) => s.at.Holding?
    case TestVisit => s.at == Visit
    case RecvChunk(c) => s.at == Receiving && CanServe(s) && 1 <= |c| <= BufferSize - |s.got|
    case RecvClosed => s.at == Receiving && CanServe(s)
    case RecvFailed => s.at == Receiving && CanServe(s)
    case RecvAgain => s.at == Receiving && CanServe(s)
    case Build(reply) => s.at == Building && CanServe(s) && answers(s.got, reply)
    case Send(n) => s.at.Sending? && CanServe(s) && -1 <= n <= |s.at.reply|
    case Poll(_) => s.at == Polling
    case CloseNext => s.at.Closing? && s.at.k < |s.sockets|
    case CloseDone => s.at.Closing? && s.at.k == |s.sockets|
  }

  function Next(answers: Answers, s: State, a: Action): State
    requires Enabled(answers, s, a)
  {
    match a
    case Watchdog => Lose(s)
    case TestTop => LeaveOrServe(s)
    case AcceptOk(fd) => Hold(s, fd)
    case AcceptNone => StartPass(s)
    case AcceptAborted => s
    case AcceptFatal => s.(at := Exited)
    case Place(nonBlocking) => PlaceHeld(s, nonBlocking)
    case TestVisit => VisitOrEnd(s)
    case RecvChunk(c) => Receive(s, c)
    case RecvClosed => Drop(s)
    case RecvFailed => Drop(s)
    case RecvAgain => NoMoreData(s)
    case Build(reply) => Built(s, reply)
    case Send(n) => SendReply(s, n)
    case Poll(ok) => s.(at := if ok then Top else Exited)
    case CloseNext => CloseAt(s)
    case CloseDone => s.(at := Asleep, sockets := [])
  }

  /** The state after an interleaving, None if some step was not possible. */
  function After(answers: Answers, init: State, trace: seq<Action>): Option<State> {
    if trace == [] then Some(init)
    else
      var before := After(answers, init, trace[..|trace| - 1]);
      if before.Some? && Enabled(answers, before.value, trace[|trace| - 1])
      then Some(Next(answers, before.value, trace[|trace| - 1])) else None
  }

  // ---------------------------------------------------------------- descriptors

  /** Descriptors that are open: the table, plus one in hand, minus those a shutdown has closed. */
  function Live(s: State): seq<Fd> {
    match s.at
    case Holding(fd) => s.sockets + [fd]
    case Closing(k) => if k <= |s.sockets| then s.sockets[k..] else []
    case _ => s.sockets
  }

  /** Every descriptor was opened once at most, and what was opened is live or was closed, once. */
  ghost predicate Balanced(live: seq<Fd>, openCalls: multiset<Fd>, closeCalls: multiset<Fd>) {
    openCalls == multiset(live) + closeCalls && forall fd :: openCalls[fd] <= 1
  }

  lemma OpenBalances(live: seq<Fd>, o: multiset<Fd>, c: multiset<Fd>, fd: Fd)
    requires Balanced(live, o, c) && fd !in o
    ensures Balanced(live + [fd], o + multiset{fd}, c)
  {
  }

  lemma CloseBalances(live: seq<Fd>, o: multiset<Fd>, c: multiset<Fd>, i: nat)
    requires Balanced(live, o, c) && i < |live|
    ensures Balanced(live[..i] + live[i + 1..], o, c + multiset{live[i]})
  {
    assert live == live[..i] + [live[i]] + live[i + 1..];
  }

  lemma CloseFrontBalances(sockets: seq<Fd>, k: nat, o: multiset<Fd>, c: multiset<Fd>)
    requires k < |sockets| && Balanced(sockets[k..], o, c)
    ensures Balanced(sockets[k + 1..], o, c + multiset{sockets[k]})
  {
    assert sockets[k..] == [sockets[k]] + sockets[k + 1..];
  }

  ghost predicate TableInv(s: State) {
    && (s.at != Asleep ==> s.sockets != [] && s.sockets[0] == s.listen)
    && (s.at == Asleep ==> s.sockets == [])
    && (s.at.Closing? ==> s.at.k <= |s.sockets|)
    && (0 <= AsSize(s.maxConnections) ==> |s.sockets| <= AsSize(s.maxConnections) + 1)
    && Balanced(Live(s), s.openCalls, s.closeCalls)
  }

  // ---------------------------------------------------------------- validity

  ghost predicate LossInv(s: State) {
    && s.valid == !s.sum.lost
    && (s.sum.left <==> s.at.Closing? || s.at == Asleep)
    && (s.sum.left ==> s.sum.lost)
    && s.sum.sentAfterLoss + (if s.sum.lost && Serving(s) then 1 else 0) <= 1
    && (s.valid ==> s.sum.sentAfterLoss == 0)
  }

  // ---------------------------------------------------------------- the handling pass

  /** The elements whose mark is set, in order. */
  function Select(fds: seq<Fd>, marks: seq<bool>): seq<Fd>
    requires |fds| == |marks|
  {
    if fds == [] then []
    else Select(fds[..|fds| - 1], marks[..|marks| - 1]) + (if marks[|marks| - 1] then [fds[|fds| - 1]] else [])
  }

  lemma SelectAppend(fds: seq<Fd>, marks: seq<bool>, fd: Fd, mark: bool)
    requires |fds| == |marks|
    ensures Select(fds + [fd], marks + [mark]) == Select(fds, marks) + (if mark then [fd] else [])
  {
    assert (fds + [fd])[..|fds|] == fds && (marks + [mark])[..|marks|] == marks;
  }

  ghost predicate InPass(s: State) {
    s.at == Visit || Serving(s) || s.at == Polling
  }

  /** The old table is done and to do; the present one is what stayed and to do. */
  ghost predicate PassShape(s: State) {
    var p := s.pass;
    && |p.kept| == |p.done|
    && p.table == [s.listen] + p.done + p.todo
    && s.sockets == [s.listen] + Select(p.done, p.kept) + p.todo
    && s.i == 1 + |Select(p.done, p.kept)|
  }

  ghost predicate PassInv(s: State) {
    InPass(s) ==>
      var p := s.pass;
      && PassShape(s)
      && (Serving(s) ==> p.todo != [])
      && s.sum.visits == p.done + (if Serving(s) then [p.todo[0]] else [])
      && multiset(s.sum.senders) <= multiset(p.done)
      && (s.at == Polling && s.valid ==> p.todo == [])
  }

  // ---------------------------------------------------------------- queries and replies

  /** Bytes come from the connection being visited, and a reply goes to it and answers them. */
  ghost predicate GoodEvent(answers: Answers, sum: Summary, e: Event) {
    && (e.Received? ==> Some(e.fd) == sum.current)
    && (e.Sent? ==> Some(e.fd) == sum.current && e.query == sum.chunks && |e.query| <= BufferSize
                    && answers(e.query, Some(e.reply)))
  }

  /** Every reply in the log answers exactly the bytes received since the visit began. */
  ghost predicate GoodLog(answers: Answers, log: seq<Event>) {
    log != [] ==>
      var init := log[..|log| - 1];
      GoodLog(answers, init) && GoodEvent(answers, Summarize(init), log[|log| - 1])
  }

  ghost predicate RecvInv(answers: Answers, s: State) {
    && s.sum == Summarize(s.log)
    && GoodLog(answers, s.log)
    && (Serving(s) ==>
          && s.i < |s.sockets|
          && s.sum.current == Some(s.sockets[s.i])
          && s.got == s.sum.chunks && |s.got| <= BufferSize)
    && (s.at.Sending? ==> answers(s.got, Some(s.at.reply)))
  }

  lemma EmitLog(answers: Answers, log: seq<Event>, e: Event)
    requires GoodLog(answers, log) && GoodEvent(answers, Summarize(log), e)
    ensures GoodLog(answers, log + [e])
    ensures Summarize(log + [e]) == Add(Summarize(log), e)
  {
    assert (log + [e])[..|log|] == log;
  }
}

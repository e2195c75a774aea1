/** `Responder` of src/responder.cpp with its loops and buffers. Every system call and every look at
    the validity flag is one step of the machine; before each the watchdog may have run. */
module ResponderService {
  import opened Bytes
  import opened Options
  import opened Protocol
  import opened Tlvs
  import opened ResponderMachine
  import opened Visits
  import ResponderSafety
  import MessageBuilder

  /** The results the message builder may give on a query, over all device and timer inputs. */
  ghost function ServerAnswers(md5: Md5): Answers {
    (query, reply) => exists inp :: Respond(md5, query, BufferSize, inp) == reply
  }

  lemma Witness(md5: Md5, query: seq<Byte>, inp: Inputs, reply: Option<seq<Byte>>)
    requires Respond(md5, query, BufferSize, inp) == reply
    ensures ServerAnswers(md5)(query, reply)
  {
  }

  /** A query that gets an answer is exactly one message. */
  lemma AnswerMeans(md5: Md5, query: seq<Byte>, reply: seq<Byte>)
    requires ServerAnswers(md5)(query, Some(reply))
    ensures MinMsgSize <= |query| <= MaxMsgSize && FromLE(query[..4]) == |query|
    ensures exists inp :: Respond(md5, query, BufferSize, inp) == Some(reply)
  {
    var inp :| Respond(md5, query, BufferSize, inp) == Some(reply);
    AnsweredIsWellFormed(md5, query, BufferSize, inp);
  }

  datatype RecvResult = Data(n: nat) | ClosedByPeer | WouldBlock | Failed

  class Responder {
    const md5: Md5
    const maxConnections: int
    const listen: Fd
    const recvBuffer: array<Byte>
    const sendBuffer: array<Byte>
    var sockets: seq<Fd>
    var valid: bool                 // the timer's flag; only the watchdog writes it
    var nextFd: int                 // descriptors from here on were never handed out
    ghost var state: State
    ghost var trace: seq<Action>

    ghost predicate Valid()
      reads this
    {
      && recvBuffer.Length == BufferSize && sendBuffer.Length == BufferSize && recvBuffer != sendBuffer
      && state.sockets == sockets && state.valid == valid && state.maxConnections == maxConnections
      && (forall fd | fd in state.openCalls :: fd < nextFd)
      && After(ServerAnswers(md5), Init(listen, maxConnections), trace) == Some(state)
    }

    /** The state `setupServer` leaves behind on success. */
    constructor (md5: Md5, maxConnections: int, listen: Fd)
      ensures Valid() && state == Init(listen, maxConnections) && trace == []
      ensures fresh(recvBuffer) && fresh(sendBuffer)
    {
      this.md5, this.maxConnections, this.listen := md5, maxConnections, listen;
      recvBuffer, sendBuffer := new Byte[BufferSize], new Byte[BufferSize];
      sockets, valid, nextFd := [listen], true, listen + 1;
      state, trace := Init(listen, maxConnections), [];
    }

    /** Records a step of the machine. */
    ghost method Do(a: Action)
      requires After(ServerAnswers(md5), Init(listen, maxConnections), trace) == Some(state)
      requires Enabled(ServerAnswers(md5), state, a)
      modifies this`state, this`trace
      ensures state == Next(ServerAnswers(md5), old(state), a) && trace == old(trace) + [a]
      ensures After(ServerAnswers(md5), Init(listen, maxConnections), trace) == Some(state)
      ensures Strip(trace) == Strip(old(trace)) + (if a == Watchdog then [] else [a])
    {
      StripStep(trace, a);
      ResponderSafety.Extend(ServerAnswers(md5), Init(listen, maxConnections), trace, a);
      state, trace := Next(ServerAnswers(md5), state, a), trace + [a];
    }

    /** The watchdog thread may run here. */
    method Interfere()
      requires Valid()
      modifies this`valid, this`state, this`trace
      ensures Valid() && old(trace) <= trace
      ensures state == old(state) || state == Lose(old(state))
      ensures Strip(trace) == Strip(old(trace))
    {
      hide After, Strip, Summarize, Select;
      if * {
        if valid {
          valid := false;
          Do(Watchdog);
        }
      }
    }

    /** What becomes of an accepted descriptor. */
    method PlaceAccepted(fd: Fd)
      requires Valid() && state.at == Holding(fd) && sockets != []
      modifies this`sockets, this`valid, this`state, this`trace
      ensures Valid() && old(trace) <= trace && state.at == Accepting && sockets != [] && old(sockets) <= sockets
    {
      hide After, Strip, Summarize, Select;
      Interfere();
      var nonBlocking: bool := *;
      if |sockets| > AsSize(maxConnections) || !nonBlocking {
        Do(Place(nonBlocking));
      } else {
        sockets := sockets + [fd];
        Do(Place(nonBlocking));
      }
    }

    /** One call of accept that does not report an empty queue; false where the source exits. */
    method AcceptOne() returns (ok: bool)
      requires Valid() && state.at == Accepting && sockets != []
      modifies this`sockets, this`valid, this`nextFd, this`state, this`trace
      ensures Valid() && old(trace) <= trace
      ensures if ok then state.at == Accepting && sockets != [] else state.at == Exited
      ensures old(sockets) <= sockets
    {
      hide After, Strip, Summarize, Select;
      var aborted: bool, fatal: bool := *, *;
      if fatal {
        Do(AcceptFatal);
        return false;
      } else if aborted {
        Do(AcceptAborted);
      } else {
        var fd: int :| fd >= nextFd;
        nextFd := fd + 1;
        Do(AcceptOk(fd));
        PlaceAccepted(fd);
      }
      return true;
    }

    /** `acceptNewClients`: `pending` connection attempts are waiting, a finite number.
        Returns false where the source exits. */
    method AcceptNewClients() returns (ok: bool)
      requires Valid() && state.at == Accepting && sockets != []
      modifies this`sockets, this`valid, this`nextFd, this`state, this`trace
      ensures Valid() && old(trace) <= trace
      ensures if ok then state.at == Visit && state.i == 1 && state.pass.table == sockets else state.at == Exited
      ensures old(sockets) <= sockets && (0 <= maxConnections ==> |sockets| - 1 <= maxConnections)
    {
      hide After, Strip, Summarize, Select;
      var pending: nat := *;
      while pending > 0
        invariant Valid() && old(trace) <= trace && state.at == Accepting && sockets != [] && old(sockets) <= sockets
      {
        Interfere();
        ok := AcceptOne();
        if !ok {
          WithinLimit();
          return;
        }
        pending := pending - 1;
      }
      Interfere();
      Do(AcceptNone);
      WithinLimit();
      return true;
    }

    /** The kernel writes `n` bytes of its choice. */
    static method Fill(buffer: array<Byte>, at: nat, n: nat) returns (chunk: seq<Byte>)
      requires at + n <= buffer.Length
      modifies buffer
      ensures |chunk| == n && buffer[..at + n] == old(buffer[..at]) + chunk
    {
      chunk := [];
      for k := 0 to n
        invariant |chunk| == k && buffer[..at] == old(buffer[..at])
        invariant buffer[at..at + k] == chunk
      {
        var b: Byte := *;
        buffer[at + k] := b;
        chunk := chunk + [b];
      }
      assert buffer[..at + n] == buffer[..at] + buffer[at..at + n];
    }

    /** recv into the buffer at `at`, at most up to its end. */
    method Recv(at: nat) returns (r: RecvResult, ghost c: seq<Action>)
      requires Valid() && state.at == Receiving && CanServe(state)
      requires at <= BufferSize && state.got == recvBuffer[..at]
      modifies this`valid, this`state, this`trace, recvBuffer
      ensures Valid() && old(trace) <= trace
      ensures state.at == Receiving && CanServe(state) && state.i == old(state.i) && state.pass == old(state.pass)
      ensures r.Data? ==> 1 <= r.n <= BufferSize - at && state.got == recvBuffer[..at + r.n]
      ensures !r.Data? ==> state.got == recvBuffer[..at]
      ensures Strip(trace) == Strip(old(trace)) + c && OnlyChunks(c) && state.got == old(state.got) + Got(c)
    {
      hide After, Strip, Summarize, Select, Got;
      c := [];
      GotNone();
      Interfere();
      var n: nat := *;
      if 1 <= n <= BufferSize - at {
        var chunk := Fill(recvBuffer, at, n);
        Do(RecvChunk(chunk));
        c := [RecvChunk(chunk)];
        GotOne(chunk);
        return Data(n), c;
      }
      var closed: bool, again: bool := *, *;
      return if closed then ClosedByPeer else if again then WouldBlock else Failed, c;
    }

    /** The recv loop of lines 200-209: everything that is there, as far as the buffer goes. */
    method ReceiveAll() returns (r: RecvResult, recvSize: nat, ghost c: seq<Action>)
      requires Valid() && state.at == Receiving && CanServe(state) && state.got == []
      modifies this`valid, this`state, this`trace, recvBuffer
      ensures Valid() && old(trace) <= trace && !r.Data?
      ensures state.at == Receiving && CanServe(state) && state.i == old(state.i) && state.pass == old(state.pass)
      ensures recvSize <= BufferSize && state.got == recvBuffer[..recvSize]
      ensures Strip(trace) == Strip(old(trace)) + c && OnlyChunks(c) && Got(c) == recvBuffer[..recvSize]
    {
      hide After, Strip, Got;
      recvSize := 0;
      r, c := Recv(0);
      while r.Data? && recvSize < BufferSize
        invariant Valid() && old(trace) <= trace
        invariant state.at == Receiving && CanServe(state) && state.i == old(state.i) && state.pass == old(state.pass)
        invariant recvSize <= BufferSize
        invariant r.Data? ==> 1 <= r.n <= BufferSize - recvSize && state.got == recvBuffer[..recvSize + r.n]
        invariant !r.Data? ==> state.got == recvBuffer[..recvSize]
        invariant Strip(trace) == Strip(old(trace)) + c && OnlyChunks(c) && state.got == Got(c)
        decreases BufferSize - recvSize, r.Data?
      {
        recvSize := recvSize + r.n;
        ghost var more, before := c, Strip(old(trace));
        r, more := Recv(recvSize);
        GotAppend(c, more);
        Assoc(before, c, more);
        c := c + more;
      }
    }

    /** Closes the connection at the iterator and erases it from the table. */
    method CloseAndErase(i: nat, ghost a: Action)
      requires Valid() && CanServe(state) && state.i == i && Enabled(ServerAnswers(md5), state, a)
      requires a == RecvClosed || a == RecvFailed || a == Build(None) || (a.Send? && a.result != |state.at.reply|)
      modifies this`sockets, this`state, this`trace
      ensures Valid() && old(trace) <= trace && state.at == Visit && state.i == i
      ensures sockets == old(sockets[..i] + sockets[i + 1..]) && Strip(trace) == Strip(old(trace)) + [a]
      ensures |state.pass.todo| < |old(state.pass.todo)| && state.pass.table == old(state.pass.table)
    {
      hide After, Strip, Summarize, Select;
      sockets := sockets[..i] + sockets[i + 1..];
      Do(a);
    }

    /** Tries to send the reply in `sendBuffer[..sendSize]`; the new iterator position. */
    method SendReplyTo(i: nat, sendSize: nat) returns (next: nat, ghost e: VisitEnd)
      requires Valid() && CanServe(state) && state.i == i && state.at.Sending?
      requires sendSize <= BufferSize && state.at.reply == sendBuffer[..sendSize]
      modifies this`sockets, this`valid, this`state, this`trace
      ensures Valid() && old(trace) <= trace && state.at == Visit && state.i == next
      ensures e.Replied? && e.reply == old(state.at.reply) && -1 <= e.result <= sendSize
      ensures Strip(trace) == Strip(old(trace)) + [Send(e.result)]
      ensures next == IteratorAfter(i, e) && sockets == TableAfter(old(sockets), i, e)
      ensures |state.pass.todo| < |old(state.pass.todo)| && state.pass.table == old(state.pass.table)
    {
      hide After, Strip, Summarize, Select;
      Interfere();
      var result: int :| -1 <= result <= sendSize;
      e := Replied(state.at.reply, result);
      if result == sendSize {
        Do(Send(result));
        return i + 1, e;
      }
      CloseAndErase(i, Send(result));
      return i, e;
    }

    /** Lines 235-278: answers the received bytes. Whatever the send buffer held before, what is sent
        is the message builder's answer to `recvBuffer[..recvSize]`. */
    method AnswerQuery(i: nat, recvSize: nat) returns (next: nat, ghost e: VisitEnd)
      requires Valid() && state.at == Building && CanServe(state) && state.i == i
      requires 0 < recvSize <= BufferSize && state.got == recvBuffer[..recvSize]
      modifies this`sockets, this`valid, this`state, this`trace, sendBuffer
      ensures Valid() && old(trace) <= trace && state.at == Visit && state.i == next
      ensures (e == Refused || e.Replied?) && Fitting(ServerAnswers(md5), recvBuffer[..recvSize], e)
      ensures Strip(trace) == Strip(old(trace)) + EndActions(e)[1..]
      ensures next == IteratorAfter(i, e) && sockets == TableAfter(old(sockets), i, e)
      ensures |state.pass.todo| < |old(state.pass.todo)| && state.pass.table == old(state.pass.table)
    {
      hide After, Respond, ServerAnswers, Strip;
      Interfere();
      var inp: Inputs := *;
      ghost var query := recvBuffer[..recvSize];
      var sendSize := MessageBuilder.CreateResponse(md5, inp, recvBuffer, recvSize, sendBuffer, BufferSize);
      if sendSize == -1 {
        Witness(md5, query, inp, None);
        CloseAndErase(i, Build(None));
        return i, Refused;
      }
      Witness(md5, query, inp, Some(sendBuffer[..sendSize]));
      Do(Build(Some(sendBuffer[..sendSize])));
      next, e := SendReplyTo(i, sendSize);
    }

    /** Lines 211-278: what becomes of the connection after the recv loop. */
    method HandleReceived(i: nat, r: RecvResult, recvSize: nat) returns (next: nat, ghost e: VisitEnd)
      requires Valid() && state.at == Receiving && CanServe(state) && state.i == i && !r.Data?
      requires recvSize <= BufferSize && state.got == recvBuffer[..recvSize]
      modifies this`sockets, this`valid, this`state, this`trace, sendBuffer
      ensures Valid() && old(trace) <= trace && state.at == Visit && state.i == next
      ensures (r == ClosedByPeer <==> e == PeerClosed) && (r == Failed <==> e == RecvError)
      ensures Fitting(ServerAnswers(md5), recvBuffer[..recvSize], e)
      ensures Strip(trace) == Strip(old(trace)) + EndActions(e)
      ensures next == IteratorAfter(i, e) && sockets == TableAfter(old(sockets), i, e)
      ensures |state.pass.todo| < |old(state.pass.todo)| && state.pass.table == old(state.pass.table)
    {
      hide After, ServerAnswers, Strip;
      if r == ClosedByPeer {
        CloseAndErase(i, RecvClosed);
        return i, PeerClosed;
      } else if r == Failed {
        CloseAndErase(i, RecvFailed);
        return i, RecvError;
      }
      Do(RecvAgain);
      if recvSize == 0 {
        return i + 1, Silent;
      }
      next, e := AnswerQuery(i, recvSize);
      assert [RecvAgain] + EndActions(e)[1..] == EndActions(e);
    }

    /** One visit: what the serving thread did is `c`, the chunks, and then what the end `e` says, which
        fits the bytes received: they were answered once if there were any and recv ended in order. */
    method ServeConnection(i: nat) returns (next: nat, ghost c: seq<Action>, ghost e: VisitEnd)
      requires Valid() && state.at == Receiving && CanServe(state) && state.got == [] && state.i == i
      modifies this`sockets, this`valid, this`state, this`trace, recvBuffer, sendBuffer
      ensures Valid() && old(trace) <= trace && state.at == Visit && state.i == next
      ensures OnlyChunks(c) && Fitting(ServerAnswers(md5), Got(c), e)
      ensures Strip(trace) == Strip(old(trace)) + c + EndActions(e)
      ensures next == IteratorAfter(i, e) && sockets == TableAfter(old(sockets), i, e)
      ensures |state.pass.todo| < |old(state.pass.todo)| && state.pass.table == old(state.pass.table)
    {
      hide After, ServerAnswers, Strip, Got;
      var r, recvSize;
      r, recvSize, c := ReceiveAll();
      Interfere();
      next, e := HandleReceived(i, r, recvSize);
    }

    /** What a pass over `table` leaves: the clients were visited in table order, a prefix of them once
        each and all of them if validity holds; the table is the listening socket, those visited
        that stayed, and those not visited. */
    ghost predicate PassResult(table: seq<Fd>)
      reads this
    {
      var p := state.pass;
      && p.table == table == [listen] + p.done + p.todo
      && |p.kept| == |p.done|
      && sockets == [listen] + Select(p.done, p.kept) + p.todo
      && Summarize(state.log).visits == p.done
      && (valid ==> p.todo == [])
    }

    lemma PassIsOver()
      requires Valid() && state.at == Polling
      ensures PassResult(state.pass.table)
    {
      ResponderSafety.RunKeepsInv(ServerAnswers(md5), listen, maxConnections, trace);
      assert state.pass.done + [] == state.pass.done;
    }

    /** `handleQueriesAndCleanUpConnections`: the iterator walks the table while it is edited. */
    method HandleQueriesAndCleanUpConnections()
      requires Valid() && state.at == Visit && state.i == 1
      modifies this`sockets, this`valid, this`state, this`trace, recvBuffer, sendBuffer
      ensures Valid() && old(trace) <= trace && state.at == Polling && PassResult(old(state.pass.table))
    {
      hide After, ResponderSafety.Inv, RecvInv, TableInv, LossInv, PassInv, PassResult;
      var i := 1;
      while true
        invariant Valid() && old(trace) <= trace && state.at == Visit && state.i == i
        invariant state.pass.table == old(state.pass.table)
        decreases |state.pass.todo|
      {
        Interfere();
        Do(TestVisit);
        if !valid || i >= |sockets| {
          PassIsOver();
          return;
        }
        Reachable();
        ghost var c, e;
        i, c, e := ServeConnection(i);
      }
    }

    /** In a reachable state the connection in service is the one at the iterator. */
    lemma Reachable()
      requires Valid()
      ensures Serving(state) ==> CanServe(state)
    {
      ResponderSafety.RunKeepsInv(ServerAnswers(md5), listen, maxConnections, trace);
      if Serving(state) { ResponderSafety.InService(state); }
    }

    lemma WithinLimit()
      requires Valid()
      ensures 0 <= maxConnections ==> |sockets| - 1 <= maxConnections
    {
      ResponderSafety.RunKeepsInv(ServerAnswers(md5), listen, maxConnections, trace);
    }

    lemma TableNotEmpty()
      requires Valid() && state.at != Asleep
      ensures sockets != []
    {
      ResponderSafety.RunKeepsInv(ServerAnswers(md5), listen, maxConnections, trace);
    }

    /** Lines 39-44: closes every socket and empties the table. */
    method CloseAll()
      requires Valid() && state.at == Closing(0)
      modifies this`sockets, this`state, this`trace
      ensures Valid() && old(trace) <= trace && state.at == Asleep && sockets == []
    {
      hide After, Strip, Summarize, Select;
      for k := 0 to |sockets|
        invariant Valid() && old(trace) <= trace && state.at == Closing(k) && sockets == old(sockets)
      {
        Do(CloseNext);
      }
      sockets := [];
      Do(CloseDone);
    }

    /** Accepting, one handling pass and the wait for activity. */
    method ServeOnce() returns (ok: bool)
      requires Valid() && state.at == Accepting
      modifies this`sockets, this`valid, this`nextFd, this`state, this`trace, recvBuffer, sendBuffer
      ensures Valid() && old(trace) <= trace && state.at == if ok then Top else Exited
    {
      hide After, Strip, Summarize, Select;
      TableNotEmpty();
      ok := AcceptNewClients();
      if !ok { return; }
      HandleQueriesAndCleanUpConnections();
      Interfere();
      ok := *;
      Do(Poll(ok));
    }

    /** One turn of the loop in `start`; false once the loop is left. */
    method Turn() returns (more: bool)
      requires Valid() && state.at == Top
      modifies this`sockets, this`valid, this`nextFd, this`state, this`trace, recvBuffer, sendBuffer
      ensures Valid() && old(trace) <= trace
      ensures more ==> state.at == Top
      ensures !more ==> state.at == Exited || (state.at == Asleep && sockets == [] && !valid)
      ensures !old(valid) ==> !more && state.at == Asleep
    {
      hide After, Strip, Summarize, Select;
      Interfere();
      Do(TestTop);
      if !valid {
        CloseAll();
        return false;
      }
      more := ServeOnce();
    }

    /** `start`, for any number of turns of its loop: asleep with everything closed if validity was
        found lost, exited on a fatal error, otherwise about to test validity again. */
    method Start(turns: nat)
      requires Valid() && state.at == Top
      modifies this`sockets, this`valid, this`nextFd, this`state, this`trace, recvBuffer, sendBuffer
      ensures Valid() && old(trace) <= trace
      ensures state.at == Top || state.at == Exited || (state.at == Asleep && sockets == [] && !valid)
    {
      hide After, Strip, Summarize, Select;
      for turn := 0 to turns
        invariant Valid() && old(trace) <= trace && state.at == Top
      {
        var more := Turn();
        if !more { return; }
      }
    }
  }

  /** What the machine proves of any run holds of the object's: every reply it has sent answers
      exactly one message, whose length prefix is the number of bytes received since the visit of
      that connection began, all of them on that connection. */
  lemma RepliesAnswerOneMessage(md5: Md5, listen: Fd, max: int, trace: seq<Action>, k: nat) returns (v: nat)
    requires After(ServerAnswers(md5), Init(listen, max), trace).Some?
    requires k < |After(ServerAnswers(md5), Init(listen, max), trace).value.log|
    requires After(ServerAnswers(md5), Init(listen, max), trace).value.log[k].Sent?
    ensures var log := After(ServerAnswers(md5), Init(listen, max), trace).value.log;
            && v < k && ResponderSafety.OneVisit(log[..k], v, log[k].fd)
            && log[k].query == ResponderSafety.Chunks(log[v + 1..k])
            && MinMsgSize <= |log[k].query| <= MaxMsgSize
            && FromLE(log[k].query[..4]) == |log[k].query|
            && exists inp :: Respond(md5, log[k].query, BufferSize, inp) == Some(log[k].reply)
  {
    hide After, ServerAnswers, Respond, ResponderSafety.OneVisit;
    v := ResponderSafety.RepliesAnswerReceivedBytes(ServerAnswers(md5), listen, max, trace, k);
    var e := After(ServerAnswers(md5), Init(listen, max), trace).value.log[k];
    AnswerMeans(md5, e.query, e.reply);
  }
}

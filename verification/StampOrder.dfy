/** The reads of a reply in a run of the cache: which moment and which update each value belongs to,
    and when the last-updated stamp is at most TX. The stamp is read after TX, in a critical section
    of its own, so that an update may slip in between. */
module StampOrder {
  import opened Bytes
  import opened Options
  import opened DeviceIdCache

  // ---------------------------------------------------------------- late updates

  /** In the run `p + b`, step `i` of `b` reads the update's clock at a time after `tx`. */
  ghost predicate LateAt(m: U64, p: seq<Action>, tx: U64, b: seq<Action>, i: nat)
    requires i < |b|
  {
    b[i] == ReadClock && After(m, p + b[..i]).Some? && Now(After(m, p + b[..i]).value) > tx
  }

  ghost predicate LateRead(m: U64, p: seq<Action>, tx: U64, b: seq<Action>) {
    exists i | 0 <= i < |b| :: LateAt(m, p, tx, b, i)
  }

  /** Some update reads its clock in `b` after `tx` and stores the stamp before `b` ends. */
  ghost predicate LateUpdate(m: U64, p: seq<Action>, tx: U64, b: seq<Action>) {
    exists i, j | 0 <= i < j < |b| :: LateAt(m, p, tx, b, i) && b[j] == StoreStamp
  }

  lemma LateAtPrefix(m: U64, p: seq<Action>, tx: U64, b: seq<Action>, x: Action, i: nat)
    requires i < |b|
    ensures LateAt(m, p, tx, b + [x], i) == LateAt(m, p, tx, b, i)
  {
    assert (b + [x])[..i] == b[..i];
  }

  lemma LateAtEnd(m: U64, p: seq<Action>, tx: U64, b: seq<Action>, x: Action)
    requires After(m, p + b).Some?
    ensures LateAt(m, p, tx, b + [x], |b|) <==> x == ReadClock && Now(After(m, p + b).value) > tx
  {
    assert (b + [x])[..|b|] == b;
  }

  lemma LateReadStep(m: U64, p: seq<Action>, tx: U64, b: seq<Action>, x: Action)
    requires After(m, p + b).Some?
    ensures LateRead(m, p, tx, b + [x])
       <==> LateRead(m, p, tx, b) || (x == ReadClock && Now(After(m, p + b).value) > tx)
  {
    hide LateAt, After;
    LateAtEnd(m, p, tx, b, x);
    forall i | 0 <= i < |b| ensures LateAt(m, p, tx, b + [x], i) == LateAt(m, p, tx, b, i) {
      LateAtPrefix(m, p, tx, b, x, i);
    }
  }

  lemma LateUpdateStep(m: U64, p: seq<Action>, tx: U64, b: seq<Action>, x: Action)
    ensures LateUpdate(m, p, tx, b + [x])
       <==> LateUpdate(m, p, tx, b) || (x == StoreStamp && LateRead(m, p, tx, b))
  {
    hide LateAt;
    forall i | 0 <= i < |b| ensures LateAt(m, p, tx, b + [x], i) == LateAt(m, p, tx, b, i) {
      LateAtPrefix(m, p, tx, b, x, i);
    }
    if x == StoreStamp && LateRead(m, p, tx, b) {
      var i :| 0 <= i < |b| && LateAt(m, p, tx, b, i);
      assert LateAt(m, p, tx, b + [x], i) && (b + [x])[|b|] == StoreStamp;
    }
    if LateUpdate(m, p, tx, b) {
      var i, j :| 0 <= i < j < |b| && LateAt(m, p, tx, b, i) && b[j] == StoreStamp;
      assert LateAt(m, p, tx, b + [x], i) && (b + [x])[j] == StoreStamp;
    }
  }

  // ---------------------------------------------------------------- what every step after TX keeps

  /** `read` and `stored` say whether a late clock was read, and its stamp stored. The cached stamp
      is late exactly if one was stored; a stamp about to be stored, exactly if one was read. */
  ghost predicate Tracks(s: State, tx: U64, read: bool, stored: bool) {
    && (s.stamp > tx <==> stored)
    && (stored ==> read)
    && (s.updater.Stamping? ==> (s.updater.stamp > tx <==> read))
    && (read ==> Now(s) > tx)
  }

  lemma StepTracks(s: State, x: Action, tx: U64, read: bool, stored: bool)
    requires Inv(s) && Enabled(s, x) && Tracks(s, tx, read, stored)
    ensures Tracks(Next(s, x), tx, read || (x == ReadClock && Now(s) > tx), stored || (x == StoreStamp && read))
  {
    if x.Tick? { NowAdvances(s, x.ticks); }
  }

  lemma {:induction false} RunTracks(m: U64, p: seq<Action>, tx: U64, b: seq<Action>)
    requires After(m, p + b).Some?
    requires After(m, p).Some? && Tracks(After(m, p).value, tx, false, false)
    ensures Tracks(After(m, p + b).value, tx, LateRead(m, p, tx, b), LateUpdate(m, p, tx, b))
  {
    hide LateAt, Tracks, Inv, Now;
    if b == [] {
      assert p + b == p;
    } else {
      var init, x := b[..|b| - 1], b[|b| - 1];
      assert b == init + [x] && (p + b)[..|p + b| - 1] == p + init;
      RunTracks(m, p, tx, init);
      RunKeepsInv(m, p + init);
      StepTracks(After(m, p + init).value, x, tx, LateRead(m, p, tx, init), LateUpdate(m, p, tx, init));
      LateReadStep(m, p, tx, init, x);
      LateUpdateStep(m, p, tx, init, x);
    }
  }

  /** When TX is read, neither the cached stamp nor one about to be stored is later. */
  lemma TracksAtTx(s: State)
    requires Inv(s) && Enabled(s, ReadTx)
    ensures Tracks(Next(s, ReadTx), Now(s), false, false)
  {
  }

  // ---------------------------------------------------------------- where a reply's reads are in the run

  /** The reply that is in the making read its TX at the last `ReadTx` of the run. */
  lemma {:induction false} FindReadTx(m: U64, trace: seq<Action>) returns (a: seq<Action>, b: seq<Action>)
    requires After(m, trace).Some? && !After(m, trace).value.replier.Waiting?
    requires After(m, trace).value.replier.r.tx.Some?
    ensures trace == a + [ReadTx] + b && NextQuery !in b
    decreases |trace|
  {
    var init, x := trace[..|trace| - 1], trace[|trace| - 1];
    assert trace == init + [x];
    if x == ReadTx {
      a, b := init, [];
    } else {
      TxStays(After(m, init).value, x);
      a, b := FindReadTx(m, init);
      b := b + [x];
    }
  }

  lemma TxStays(s: State, x: Action)
    requires s.updates != [] && Enabled(s, x) && x != ReadTx
    requires !Next(s, x).replier.Waiting? && Next(s, x).replier.r.tx.Some?
    ensures !s.replier.Waiting? && s.replier.r.tx == Next(s, x).replier.r.tx && x != NextQuery
  {
  }

  lemma StampStays(s: State, x: Action)
    requires s.updates != [] && Enabled(s, x) && x != ReadStamp
    requires !Next(s, x).replier.Waiting? && Next(s, x).replier.r.lastUpdated.Some?
    ensures !s.replier.Waiting? && s.replier.r.lastUpdated == Next(s, x).replier.r.lastUpdated && x != NextQuery
  {
  }

  /** The stamp is read once, and TX not after it. */
  lemma StampEndsReads(s: State, x: Action)
    requires Inv(s) && Enabled(s, x) && !s.replier.Waiting? && s.replier.r.lastUpdated.Some?
    ensures x != ReadTx && x != ReadStamp
  {
  }

  lemma {:induction false} FindReadStamp(m: U64, trace: seq<Action>) returns (p: seq<Action>, c: seq<Action>)
    requires After(m, trace).Some? && !After(m, trace).value.replier.Waiting?
    requires After(m, trace).value.replier.r.lastUpdated.Some?
    ensures trace == p + [ReadStamp] + c && NextQuery !in c
    ensures After(m, p).Some? && !After(m, p).value.replier.Waiting?
    ensures var s, t := After(m, p).value, After(m, trace).value;
            t.replier.r.lastUpdated == Some(s.stamp) && t.replier.r.tx == s.replier.r.tx
    decreases |trace|
  {
    hide Inv;
    var init, x := trace[..|trace| - 1], trace[|trace| - 1];
    assert trace == init + [x];
    if x == ReadStamp {
      p, c := init, [];
    } else {
      var s := After(m, init).value;
      StampStays(s, x);
      RunKeepsInv(m, init);
      StampEndsReads(s, x);
      TxUntouched(s, x);
      p, c := FindReadStamp(m, init);
      c := c + [x];
    }
  }

  lemma TxUntouched(s: State, x: Action)
    requires s.updates != [] && Enabled(s, x) && x != ReadTx && x != NextQuery
    requires !s.replier.Waiting?
    ensures !Next(s, x).replier.Waiting? && Next(s, x).replier.r.tx == s.replier.r.tx
  {
  }

  lemma StampUntouched(s: State, x: Action)
    requires Inv(s) && Enabled(s, x) && x != NextQuery
    requires !s.replier.Waiting? && s.replier.r.lastUpdated.Some?
    ensures !Next(s, x).replier.Waiting? && Next(s, x).replier.r.tx == s.replier.r.tx
    ensures Next(s, x).replier.r.lastUpdated == s.replier.r.lastUpdated
  {
  }

  lemma {:induction false} PrefixRuns(m: U64, p: seq<Action>, b: seq<Action>)
    requires After(m, p + b).Some?
    ensures After(m, p).Some?
  {
    if b == [] {
      assert p + b == p;
    } else {
      assert (p + b)[..|p + b| - 1] == p + b[..|b| - 1];
      PrefixRuns(m, p, b[..|b| - 1]);
    }
  }

  /** A TX time once read stays with its reply. */
  lemma {:induction false} KeepsTx(m: U64, p: seq<Action>, b: seq<Action>)
    requires After(m, p + b).Some? && NextQuery !in b
    requires After(m, p).Some? && !After(m, p).value.replier.Waiting? && After(m, p).value.replier.r.tx.Some?
    ensures !After(m, p + b).value.replier.Waiting?
    ensures After(m, p + b).value.replier.r.tx == After(m, p).value.replier.r.tx
  {
    if b == [] {
      assert p + b == p;
    } else {
      var init, x := b[..|b| - 1], b[|b| - 1];
      assert b == init + [x] && (p + b)[..|p + b| - 1] == p + init;
      KeepsTx(m, p, init);
      TxUntouched(After(m, p + init).value, x);
    }
  }

  /** So does a last-updated stamp, and TX with it. */
  lemma {:induction false} KeepsStamp(m: U64, p: seq<Action>, c: seq<Action>)
    requires After(m, p + c).Some? && NextQuery !in c
    requires After(m, p).Some? && !After(m, p).value.replier.Waiting? && After(m, p).value.replier.r.lastUpdated.Some?
    ensures !After(m, p + c).value.replier.Waiting?
    ensures After(m, p + c).value.replier.r.tx == After(m, p).value.replier.r.tx
    ensures After(m, p + c).value.replier.r.lastUpdated == After(m, p).value.replier.r.lastUpdated
  {
    hide Inv;
    if c == [] {
      assert p + c == p;
    } else {
      var init, x := c[..|c| - 1], c[|c| - 1];
      assert c == init + [x] && (p + c)[..|p + c| - 1] == p + init;
      KeepsStamp(m, p, init);
      RunKeepsInv(m, p + init);
      StampUntouched(After(m, p + init).value, x);
    }
  }

  // ---------------------------------------------------------------- the theorem

  /** A run `a + [x] + b` makes the step `x` from the state `a` leads to. */
  lemma StepInRun(m: U64, a: seq<Action>, x: Action, b: seq<Action>)
    requires After(m, a + [x] + b).Some?
    ensures After(m, a).Some? && After(m, a).value.updates != [] && Enabled(After(m, a).value, x)
    ensures After(m, a + [x]) == Some(Next(After(m, a).value, x))
  {
    PrefixRuns(m, a + [x], b);
    assert (a + [x])[..|a|] == a;
  }

  /** The cached stamp is at most the TX read earlier in the run exactly if no late update was
      stored since. */
  lemma CachedStampSinceTx(m: U64, a: seq<Action>, b: seq<Action>)
    requires After(m, a + [ReadTx] + b).Some? && After(m, a).Some?
    ensures After(m, a + [ReadTx] + b).value.stamp <= Now(After(m, a).value)
       <==> !LateUpdate(m, a + [ReadTx], Now(After(m, a).value), b)
  {
    hide LateUpdate, LateRead, Inv, Now, Next, Enabled, After;
    var s := After(m, a).value;
    RunKeepsInv(m, a);
    StepInRun(m, a, ReadTx, b);
    TracksAtTx(s);
    RunTracks(m, a + [ReadTx], Now(s), b);
  }

  /** Over every run in which a reply reads TX and then its last-updated stamp: the stamp is at most
      TX if and only if no update that read its clock after TX was stored between the two reads. */
  lemma StampAtMostTxIff(m: U64, a: seq<Action>, b: seq<Action>, c: seq<Action>)
    requires After(m, a + [ReadTx] + b + [ReadStamp] + c).Some?
    requires NextQuery !in b && NextQuery !in c
    ensures After(m, a).Some?
    ensures var t := After(m, a + [ReadTx] + b + [ReadStamp] + c).value;
            var tx := Now(After(m, a).value);
            && !t.replier.Waiting?
            && t.replier.r.tx == Some(tx)
            && t.replier.r.lastUpdated.Some?
            && (t.replier.r.lastUpdated.value <= tx <==> !LateUpdate(m, a + [ReadTx], tx, b))
            && (StoreStamp !in b ==> t.replier.r.lastUpdated.value <= tx)
  {
    hide LateRead, LateAt, Now, After, Inv;
    var p := a + [ReadTx] + b;
    PrefixRuns(m, p, [ReadStamp] + c);
    assert p + ([ReadStamp] + c) == p + [ReadStamp] + c;
    StepInRun(m, a, ReadTx, b);
    StepInRun(m, p, ReadStamp, c);
    KeepsTx(m, a + [ReadTx], b);
    CachedStampSinceTx(m, a, b);
    KeepsStamp(m, p + [ReadStamp], c);
  }

  /** The TX a reply reports is the clock at its `ReadTx`. */
  lemma ReplyReadsTx(m: U64, a: seq<Action>, b: seq<Action>)
    requires After(m, a + [ReadTx] + b).Some? && NextQuery !in b
    ensures After(m, a).Some?
    ensures var t := After(m, a + [ReadTx] + b).value;
            !t.replier.Waiting? && t.replier.r.tx == Some(Now(After(m, a).value))
  {
    StepInRun(m, a, ReadTx, b);
    KeepsTx(m, a + [ReadTx], b);
  }

  /** The stamp a reply reports is the cached one at its `ReadStamp`, that of the latest update. */
  lemma ReplyReadsStamp(m: U64, a: seq<Action>, c: seq<Action>)
    requires After(m, a + [ReadStamp] + c).Some? && NextQuery !in c
    ensures After(m, a).Some? && After(m, a).value.updates != []
    ensures var s, t := After(m, a).value, After(m, a + [ReadStamp] + c).value;
            !t.replier.Waiting? && t.replier.r.lastUpdated == Some(s.updates[|s.updates| - 1].stamp)
  {
    StepInRun(m, a, ReadStamp, c);
    RunKeepsInv(m, a);
    KeepsStamp(m, a + [ReadStamp], c);
  }

  /** Every reply with both values is such a reply: its two reads are in the run, in this order. */
  lemma EveryReplyReadsTxThenStamp(m: U64, trace: seq<Action>)
    returns (a: seq<Action>, b: seq<Action>, c: seq<Action>)
    requires After(m, trace).Some? && !After(m, trace).value.replier.Waiting?
    requires After(m, trace).value.replier.r.tx.Some? && After(m, trace).value.replier.r.lastUpdated.Some?
    ensures trace == a + [ReadTx] + b + [ReadStamp] + c && NextQuery !in b && NextQuery !in c
  {
    var p;
    p, c := FindReadStamp(m, trace);
    a, b := FindReadTx(m, p);
  }

  // ---------------------------------------------------------------- the beginning of a reply

  /** What a reply keeps from its first step on: its RX time, and that no update older than the
      `n` there were at that time is the one it takes the Device-ID from. */
  ghost predicate Began(s: State, rx: U64, n: nat) {
    && !s.replier.Waiting?
    && s.replier.r.rx == rx
    && n <= |s.updates|
    && (s.replier.GotRx? || s.replier.r.from >= n - 1)
  }

  lemma StepKeepsBegan(s: State, x: Action, rx: U64, n: nat)
    requires Began(s, rx, n) && s.updates != [] && Enabled(s, x) && x != NextQuery
    ensures Began(Next(s, x), rx, n)
  {
  }

  lemma {:induction false} RunKeepsBegan(m: U64, p: seq<Action>, b: seq<Action>, rx: U64, n: nat)
    requires After(m, p + b).Some? && NextQuery !in b
    requires After(m, p).Some? && Began(After(m, p).value, rx, n)
    ensures Began(After(m, p + b).value, rx, n)
  {
    hide Began;
    if b == [] {
      assert p + b == p;
    } else {
      var init, x := b[..|b| - 1], b[|b| - 1];
      assert b == init + [x] && (p + b)[..|p + b| - 1] == p + init;
      RunKeepsBegan(m, p, init, rx, n);
      StepKeepsBegan(After(m, p + init).value, x, rx, n);
    }
  }

  lemma {:induction false} UpdatesGrow(m: U64, p: seq<Action>, b: seq<Action>)
    requires After(m, p + b).Some?
    ensures After(m, p).Some?
    ensures After(m, p).value.updates <= After(m, p + b).value.updates
  {
    if b == [] {
      assert p + b == p;
    } else {
      assert (p + b)[..|p + b| - 1] == p + b[..|b| - 1];
      UpdatesGrow(m, p, b[..|b| - 1]);
    }
  }

  /** Over every run in which a reply begins: its RX is the clock at that moment, no update stored
      by then has a later stamp, and once it has its Device-ID, no such update is newer than the one
      the Device-ID came from. */
  lemma ReplyBegins(m: U64, a: seq<Action>, b: seq<Action>)
    requires After(m, a + [ReadRx] + b).Some? && NextQuery !in b
    ensures After(m, a).Some?
    ensures var s, t := After(m, a).value, After(m, a + [ReadRx] + b).value;
            && !t.replier.Waiting?
            && t.replier.r.rx == Now(s)
            && s.updates <= t.updates
            && (forall w | w in s.updates :: w.stamp <= t.replier.r.rx)
            && (t.replier.Done? ==>
                  && t.replier.r.from < |t.updates|
                  && forall w | w in s.updates :: w.stamp <= t.updates[t.replier.r.from].stamp)
  {
    hide After;
    StepInRun(m, a, ReadRx, b);
    var s, t := After(m, a).value, After(m, a + [ReadRx] + b).value;
    RunKeepsInv(m, a);
    RunKeepsInv(m, a + [ReadRx] + b);
    RunKeepsBegan(m, a + [ReadRx], b, Now(s), |s.updates|);
    UpdatesGrow(m, a + [ReadRx], b);
    hide Now;
    EarlierStamps(s, Now(s));
    if t.replier.Done? {
      NotNewer(s.updates, t.updates, t.replier.r.from);
    }
  }

  lemma EarlierStamps(s: State, now: U64)
    requires StampInv(s) && now == Now(s)
    ensures forall w | w in s.updates :: w.stamp <= now
  {
    forall w | w in s.updates ensures w.stamp <= now {
      var i :| 0 <= i < |s.updates| && s.updates[i] == w;
      assert s.updates[i].stamp <= s.updates[Last(s)].stamp;
    }
  }

  lemma NotNewer(first: seq<Update>, all: seq<Update>, k: nat)
    requires first <= all && |first| - 1 <= k < |all|
    requires forall i, j | 0 <= i <= j < |all| :: all[i].stamp <= all[j].stamp
    ensures forall w | w in first :: w.stamp <= all[k].stamp
  {
    forall w | w in first ensures w.stamp <= all[k].stamp {
      var i :| 0 <= i < |first| && first[i] == w;
      assert all[i] == w;
    }
  }

  /** Every reply has begun in its run. */
  lemma {:induction false} EveryReplyBegins(m: U64, trace: seq<Action>) returns (a: seq<Action>, b: seq<Action>)
    requires After(m, trace).Some? && !After(m, trace).value.replier.Waiting?
    ensures trace == a + [ReadRx] + b && NextQuery !in b
    decreases |trace|
  {
    var init, x := trace[..|trace| - 1], trace[|trace| - 1];
    assert trace == init + [x];
    if x == ReadRx {
      a, b := init, [];
    } else {
      HadBegun(After(m, init).value, x);
      a, b := EveryReplyBegins(m, init);
      b := b + [x];
    }
  }

  lemma HadBegun(s: State, x: Action)
    requires s.updates != [] && Enabled(s, x) && x != ReadRx && !Next(s, x).replier.Waiting?
    ensures !s.replier.Waiting? && x != NextQuery
  {
  }

  // ---------------------------------------------------------------- the end of an update

  ghost predicate Carries(s: State, id: Digest) {
    (s.updater.HasId? || s.updater.Writing? || s.updater.Stamping?) && s.updater.id == id
  }

  lemma {:induction false} RunCarries(m: U64, p: seq<Action>, b: seq<Action>, id: Digest)
    requires After(m, p + b).Some? && StoreStamp !in b
    requires After(m, p).Some? && Carries(After(m, p).value, id)
    ensures Carries(After(m, p + b).value, id)
  {
    if b == [] {
      assert p + b == p;
    } else {
      var init, x := b[..|b| - 1], b[|b| - 1];
      assert b == init + [x] && (p + b)[..|p + b| - 1] == p + init;
      RunCarries(m, p, init, id);
    }
  }

  /** Over every run: a usable name that the TPM gave is what the next stored update holds, cached
      whole the moment it is stored. */
  lemma FetchedIsStored(m: U64, a: seq<Action>, name: seq<Byte>, b: seq<Action>)
    requires After(m, a + [Fetch(Some(name))] + b + [StoreStamp]).Some?
    requires DeviceIdOf(name).Some? && StoreStamp !in b
    ensures var t := After(m, a + [Fetch(Some(name))] + b + [StoreStamp]).value;
            && t.id == DeviceIdOf(name).value
            && t.updates != [] && t.updates[|t.updates| - 1].id == DeviceIdOf(name).value
  {
    hide After, DeviceIdOf;
    var p := a + [Fetch(Some(name))];
    PrefixRuns(m, p + b, [StoreStamp]);
    StepInRun(m, a, Fetch(Some(name)), b);
    RunCarries(m, p, b, DeviceIdOf(name).value);
    assert p + b + [StoreStamp] + [] == p + b + [StoreStamp];
    StepInRun(m, p + b, StoreStamp, []);
    RunKeepsInv(m, p + b + [StoreStamp]);
  }
}

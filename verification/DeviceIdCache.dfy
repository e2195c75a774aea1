/** The Device-ID cache of src/tpmwatcher.cpp, alone and interleaved with a reply in progress. */
module DeviceIdCache {
  import opened Bytes
  import opened Options
  import opened Clock

  // ---------------------------------------------------------------- the name and its fold

  predicate HasAlgorithmPrefix(name: seq<Byte>) {
    |name| >= 2 && name[0] == 0x00 && name[1] == 0x0B
  }

  /** The 32 bytes the Device-ID is made from, if the TPM name holds that many. */
  function Source(name: seq<Byte>): Option<seq<Byte>> {
    var offset := if HasAlgorithmPrefix(name) then 2 else 0;
    if |name| - offset < 32 then None else Some(name[offset..offset + 32])
  }

  function Fold(s: seq<Byte>): Digest
    requires |s| == 32
  {
    XorDigest(s[..16], s[16..])
  }

  function DeviceIdOf(name: seq<Byte>): Option<Digest> {
    var s := Source(name);
    if s.Some? && |s.value| == 32 then Some(Fold(s.value)) else None
  }

  /** The fold keeps half of the digest: with the other half it gives all of it back. */
  lemma FoldLosesOneHalf(s: seq<Byte>)
    requires |s| == 32
    ensures XorDigest(Fold(s), s[..16]) == s[16..]
  {
    XorDigestCancels(s[..16], s[16..]);
  }

  /** A 34-byte SHA-256 name and its bare digest give the same Device-ID, unless the digest itself
      starts like a prefix: then the bare one is too short to be used at all. */
  lemma PrefixIsIgnored(digest: seq<Byte>)
    requires |digest| == 32
    ensures DeviceIdOf([0x00, 0x0B] + digest) == Some(Fold(digest))
    ensures DeviceIdOf(digest) == DeviceIdOf([0x00, 0x0B] + digest) <==> !HasAlgorithmPrefix(digest)
  {
    var name := [0x00, 0x0B] + digest;
    assert name[2..34] == digest;
    assert digest[0..32] == digest;
  }

  /** Exactly the names with 32 bytes after an optional prefix 0x00 0x0B give a Device-ID; byte i of it
      is the XOR of bytes i and i + 16, and what follows the 32 bytes does not matter. */
  lemma DeviceIdBytes(name: seq<Byte>, more: seq<Byte>)
    ensures var o := if |name| >= 2 && name[0] == 0x00 && name[1] == 0x0B then 2 else 0;
            && (DeviceIdOf(name).Some? <==> |name| >= o + 32)
            && (DeviceIdOf(name).Some? ==>
                  && (forall i | 0 <= i < 16 :: DeviceIdOf(name).value[i] == Xor(name[o + i], name[o + i + 16]))
                  && DeviceIdOf(name + more) == DeviceIdOf(name))
  {
    if DeviceIdOf(name).Some? {
      var o := if HasAlgorithmPrefix(name) then 2 else 0;
      var s := name[o..o + 32];
      assert forall i | 0 <= i < 16 :: s[..16][i] == name[o + i] && s[16..][i] == name[o + i + 16];
      assert HasAlgorithmPrefix(name + more) == HasAlgorithmPrefix(name);
      assert (name + more)[o..o + 32] == s;
    }
  }

  class TpmWatcher {
    const deviceId: array<Byte>
    var lastUpdated: U64

    constructor ()
      ensures deviceId.Length == 16 && deviceId[..] == ZeroDigest && lastUpdated == 0
      ensures fresh(deviceId)
    {
      var cache := new Byte[16](i => 0);
      deviceId, lastUpdated := cache, 0;
      new;
      assert deviceId[..] == ZeroDigest;
    }

    /** `update` once the TPM has answered; None stands for any TPM failure, `now` for the clock. */
    method Update(answer: Option<seq<Byte>>, now: U64) returns (ok: bool)
      requires deviceId.Length == 16
      modifies this`lastUpdated, deviceId
      ensures ok <==> answer.Some? && DeviceIdOf(answer.value).Some?
      ensures ok ==> deviceId[..] == DeviceIdOf(answer.value).value && lastUpdated == now
      ensures !ok ==> deviceId[..] == old(deviceId[..]) && lastUpdated == old(lastUpdated)
    {
      if answer.None? { return false; }
      var name, offset := answer.value, 0;
      if |name| >= 2 && name[0] == 0x00 && name[1] == 0x0B { offset := 2; }
      if |name| - offset < 32 { return false; }
      ghost var src := name[offset..offset + 32];
      for i := 0 to 16
        invariant forall k | 0 <= k < i :: deviceId[k] == Fold(src)[k]
      {
        deviceId[i] := Xor(name[offset + i], name[offset + i + 16]);
        assert src[..16][i] == name[offset + i] && src[16..][i] == name[offset + i + 16];
      }
      lastUpdated := now;
      return true;
    }

    method GetId(out: array<Byte>)
      requires deviceId.Length == 16 && out.Length >= 16 && out != deviceId
      modifies out
      ensures out[..16] == deviceId[..]
      ensures out[16..] == old(out[16..])
    {
      for i := 0 to 16
        invariant out[..i] == deviceId[..i]
        invariant out[16..] == old(out[16..])
      {
        out[i] := deviceId[i];
      }
    }
  }

  // ---------------------------------------------------------------- the interleaved protocol

  datatype Thread = Updater | Replier

  /** A successful update: the Device-ID it stored and the stamp it stored with it. */
  datatype Update = Update(id: Digest, stamp: U64)

  datatype UpdaterAt =
    | Away                                 // between updates, or talking to the TPM
    | HasId(id: Digest)                    // name accepted, about to lock
    | Writing(id: Digest, done: nat)       // locked, `done` bytes stored
    | Stamping(id: Digest, stamp: U64)     // locked, clock read, about to store it
    | Leaving                              // locked, about to unlock

  /** A reply in the making. `from` and `stampFrom` index the updates its data came from. */
  datatype Reply = Reply(rx: U64, from: nat, id: seq<Byte>, tx: Option<U64>, lastUpdated: Option<U64>, stampFrom: nat)

  datatype ReplierAt =
    | Waiting                              // no query
    | GotRx(r: Reply)                      // about to lock for the Device-ID
    | Copying(r: Reply)                    // locked, copying byte by byte
    | GotId(r: Reply)                      // unlocked; may read TX or go for the stamp
    | ReadingStamp(r: Reply)               // locked again
    | GotStamp(r: Reply)                   // stamp read, about to unlock
    | Done(r: Reply)

  datatype State = State(multiplier: U64, ticks: U64, mutex: Option<Thread>, id: seq<Byte>, stamp: U64,
                         updates: seq<Update>, updater: UpdaterAt, replier: ReplierAt)

  datatype Action =
    | Tick(ticks: U64)
    | Fetch(answer: Option<seq<Byte>>) | LockUpdate | WriteByte | ReadClock | StoreStamp | UnlockUpdate
    | ReadRx | LockId | CopyByte | UnlockId | ReadTx | LockStamp | ReadStamp | UnlockStamp | Finish | NextQuery

  function Init(multiplier: U64): State {
    State(multiplier, 0, None, ZeroDigest, 0, [Update(ZeroDigest, 0)], Away, Waiting)
  }

  function Now(s: State): U64 {
    Get(s.ticks, s.multiplier)
  }

  /** The time-stamp counter never decreases and the clock product stays below 2^96. Queries are
      taken only once `start` has made a first successful update. */
  predicate Enabled(s: State, a: Action) {
    match a
    case Tick(t) => s.ticks <= t && t * s.multiplier < Two96
    case Fetch(_) => s.updater == Away
    case LockUpdate => s.updater.HasId? && s.mutex == None
    case WriteByte => s.updater.Writing? && s.updater.done < 16 && |s.id| == 16
    case ReadClock => s.updater.Writing? && s.updater.done == 16
    case StoreStamp => s.updater.Stamping?
    case UnlockUpdate => s.updater == Leaving
    case ReadRx => s.replier == Waiting && |s.updates| > 1
    case LockId => s.replier.GotRx? && s.mutex == None
    case CopyByte => s.replier.Copying? && |s.replier.r.id| < 16 && |s.id| == 16
    case UnlockId => s.replier.Copying? && |s.replier.r.id| == 16
    case ReadTx => s.replier.GotId? && s.replier.r.tx == None
    case LockStamp => s.replier.GotId? && s.mutex == None
    case ReadStamp => s.replier.ReadingStamp?
    case UnlockStamp => s.replier.GotStamp?
    case Finish => s.replier.GotId?
    case NextQuery => s.replier.Done?
  }

  function Last(s: State): int {
    |s.updates| - 1
  }

  function Next(s: State, a: Action): State
    requires Enabled(s, a) && s.updates != []
  {
    match a
    case Tick(t) => s.(ticks := t)
    case Fetch(answer) =>
      if answer.Some? && DeviceIdOf(answer.value).Some?
      then s.(updater := HasId(DeviceIdOf(answer.value).value)) else s
    case LockUpdate => s.(mutex := Some(Updater), updater := Writing(s.updater.id, 0))
    case WriteByte =>
      var k := s.updater.done;
      s.(id := s.id[k := s.updater.id[k]], updater := Writing(s.updater.id, k + 1))
    case ReadClock => s.(updater := Stamping(s.updater.id, Now(s)))
    case StoreStamp =>
      s.(stamp := s.updater.stamp, updates := s.updates + [Update(s.updater.id, s.updater.stamp)], updater := Leaving)
    case UnlockUpdate => s.(mutex := None, updater := Away)
    case ReadRx => s.(replier := GotRx(Reply(Now(s), 0, [], None, None, 0)))
    case LockId => s.(mutex := Some(Replier), replier := Copying(s.replier.r.(from := Last(s))))
    case CopyByte =>
      var r := s.replier.r;
      s.(replier := Copying(r.(id := r.id + [s.id[|r.id|]])))
    case UnlockId => s.(mutex := None, replier := GotId(s.replier.r))
    case ReadTx => s.(replier := GotId(s.replier.r.(tx := Some(Now(s)))))
    case LockStamp => s.(mutex := Some(Replier), replier := ReadingStamp(s.replier.r))
    case ReadStamp =>
      s.(replier := GotStamp(s.replier.r.(lastUpdated := Some(s.stamp), stampFrom := Last(s))))
    case UnlockStamp => s.(mutex := None, replier := Done(s.replier.r))
    case Finish => s.(replier := Done(s.replier.r))
    case NextQuery => s.(replier := Waiting)
  }

  function After(multiplier: U64, trace: seq<Action>): Option<State> {
    if trace == [] then Some(Init(multiplier))
    else
      var before := After(multiplier, trace[..|trace| - 1]);
      if before.Some? && before.value.updates != [] && Enabled(before.value, trace[|trace| - 1])
      then Some(Next(before.value, trace[|trace| - 1])) else None
  }

  // ---------------------------------------------------------------- what every step keeps

  ghost predicate LockInv(s: State) {
    && (s.mutex == Some(Updater) <==> s.updater.Writing? || s.updater.Stamping? || s.updater == Leaving)
    && (s.mutex == Some(Replier) <==> s.replier.Copying? || s.replier.ReadingStamp? || s.replier.GotStamp?)
  }

  /** Stamps never decrease and never lie in the future. */
  ghost predicate StampInv(s: State) {
    && s.updates != []
    && s.ticks * s.multiplier < Two96
    && (forall i, j | 0 <= i <= j < |s.updates| :: s.updates[i].stamp <= s.updates[j].stamp)
    && s.updates[Last(s)].stamp <= Now(s)
    && (s.updater.Stamping? ==> s.updates[Last(s)].stamp <= s.updater.stamp <= Now(s))
  }

  /** Outside an update the cached pair is the latest successful update's. */
  ghost predicate CacheInv(s: State)
    requires s.updates != []
  {
    var last := s.updates[Last(s)];
    && |s.id| == 16
    && s.stamp == last.stamp
    && match s.updater
       case Writing(id, k) => k <= 16 && forall i | 0 <= i < k :: s.id[i] == id[i]
       case Stamping(id, _) => s.id == id
       case _ => s.id == last.id
  }

  /** A reply's Device-ID and stamps come from updates, in order. */
  ghost predicate ReplyInv(s: State)
    requires s.updates != []
  {
    s.replier.Waiting? ||
      var r := s.replier.r;
      && r.rx <= Now(s)
      && |s.updates| > 1
      && (!s.replier.GotRx? ==> r.from >= 1)
      && (s.replier.GotRx? ==> r.tx == None && r.id == [] && r.lastUpdated == None)
      && (s.replier.GotId? || s.replier.ReadingStamp? ==> r.lastUpdated == None)
      && (s.replier.Copying? ==>
            r.tx == None && r.lastUpdated == None && r.from == Last(s) && r.id <= s.updates[r.from].id)
      && (!s.replier.GotRx? && !s.replier.Copying? ==>
            && r.from < |s.updates| && r.id == s.updates[r.from].id
            && (r.tx.Some? ==> r.rx <= r.tx.value <= Now(s) && s.updates[r.from].stamp <= r.tx.value)
            && (r.lastUpdated.Some? ==>
                  r.from <= r.stampFrom < |s.updates| && r.lastUpdated.value == s.updates[r.stampFrom].stamp))
  }

  ghost predicate Inv(s: State) {
    LockInv(s) && StampInv(s) && CacheInv(s) && ReplyInv(s)
  }

  lemma NowAdvances(s: State, t: U64)
    requires s.ticks <= t && t * s.multiplier < Two96
    ensures Now(s) <= Now(s.(ticks := t))
  {
    GetMonotone(s.ticks, t, s.multiplier);
  }

  lemma StepKeepsStamps(s: State, a: Action)
    requires Inv(s) && Enabled(s, a)
    ensures LockInv(Next(s, a)) && StampInv(Next(s, a))
  {
    if a.Tick? { NowAdvances(s, a.ticks); }
  }

  lemma StepKeepsCache(s: State, a: Action)
    requires Inv(s) && Enabled(s, a)
    ensures Next(s, a).updates != [] && CacheInv(Next(s, a))
  {
    if a == ReadClock {
      assert s.id == s.updater.id;
    }
  }

  lemma StepKeepsReply(s: State, a: Action)
    requires Inv(s) && Enabled(s, a)
    ensures Next(s, a).updates != [] && ReplyInv(Next(s, a))
  {
    if a.Tick? { NowAdvances(s, a.ticks); }
    if a == CopyByte {
      var r := s.replier.r;
      assert s.mutex == Some(Replier) && s.id == s.updates[Last(s)].id;
      assert r.id + [s.id[|r.id|]] <= s.id;
    }
  }

  lemma {:induction false} RunKeepsInv(multiplier: U64, trace: seq<Action>)
    requires After(multiplier, trace).Some?
    ensures Inv(After(multiplier, trace).value)
    ensures After(multiplier, trace).value.multiplier == multiplier
  {
    if trace != [] {
      var s, a := After(multiplier, trace[..|trace| - 1]).value, trace[|trace| - 1];
      RunKeepsInv(multiplier, trace[..|trace| - 1]);
      StepKeepsStamps(s, a);
      StepKeepsCache(s, a);
      StepKeepsReply(s, a);
    }
  }

  // ---------------------------------------------------------------- where a Device-ID comes from

  /** The TPM has answered with a name of this Device-ID. */
  ghost predicate FromTpm(trace: seq<Action>, id: Digest) {
    exists name :: Fetch(Some(name)) in trace && DeviceIdOf(name) == Some(id)
  }

  ghost predicate Sourced(trace: seq<Action>, s: State) {
    && (forall k | 1 <= k < |s.updates| :: FromTpm(trace, s.updates[k].id))
    && (s.updater.HasId? || s.updater.Writing? || s.updater.Stamping? ==> FromTpm(trace, s.updater.id))
  }

  lemma StillFromTpm(trace: seq<Action>, a: Action, id: Digest)
    requires FromTpm(trace, id)
    ensures FromTpm(trace + [a], id)
  {
    var name :| Fetch(Some(name)) in trace && DeviceIdOf(name) == Some(id);
    assert Fetch(Some(name)) in trace + [a];
  }

  lemma StepKeepsSourced(trace: seq<Action>, s: State, a: Action)
    requires Sourced(trace, s) && Enabled(s, a) && s.updates != []
    ensures Sourced(trace + [a], Next(s, a))
  {
    hide FromTpm;
    forall k | 1 <= k < |s.updates| ensures FromTpm(trace + [a], s.updates[k].id) {
      StillFromTpm(trace, a, s.updates[k].id);
    }
    if s.updater.HasId? || s.updater.Writing? || s.updater.Stamping? {
      StillFromTpm(trace, a, s.updater.id);
    }
    if a.Fetch? && a.answer.Some? && DeviceIdOf(a.answer.value).Some? {
      FetchedFromTpm(trace, a.answer.value);
    }
  }

  lemma FetchedFromTpm(trace: seq<Action>, name: seq<Byte>)
    requires DeviceIdOf(name).Some?
    ensures FromTpm(trace + [Fetch(Some(name))], DeviceIdOf(name).value)
  {
    assert Fetch(Some(name)) in trace + [Fetch(Some(name))];
  }

  /** Apart from the zero pair of the constructor, every pair the cache ever held was folded from a
      name the TPM gave. */
  lemma {:induction false} UpdatesComeFromTpm(multiplier: U64, trace: seq<Action>)
    requires After(multiplier, trace).Some?
    ensures Sourced(trace, After(multiplier, trace).value)
  {
    if trace != [] {
      var init, a := trace[..|trace| - 1], trace[|trace| - 1];
      UpdatesComeFromTpm(multiplier, init);
      StepKeepsSourced(init, After(multiplier, init).value, a);
      assert trace == init + [a];
    }
  }

  /** Over every interleaving: with the mutex free the cached pair is one successful update's; a
      finished reply reports the Device-ID of one update and a stamp that is that update's or a
      later one's; RX and that Device-ID's stamp are at most TX. */
  lemma CacheConsistency(multiplier: U64, trace: seq<Action>)
    requires After(multiplier, trace).Some?
    ensures var s := After(multiplier, trace).value;
            && s.updates != []
            && (s.mutex == None ==> s.id == s.updates[|s.updates| - 1].id && s.stamp == s.updates[|s.updates| - 1].stamp)
            && (s.replier.Done? ==>
                  var r := s.replier.r;
                  && 1 <= r.from < |s.updates|
                  && r.id == s.updates[r.from].id
                  && (r.lastUpdated.Some? ==>
                        && r.from <= r.stampFrom < |s.updates|
                        && r.lastUpdated.value == s.updates[r.stampFrom].stamp
                        && s.updates[r.from].stamp <= r.lastUpdated.value)
                  && (r.tx.Some? ==> r.rx <= r.tx.value && s.updates[r.from].stamp <= r.tx.value))
  {
    RunKeepsInv(multiplier, trace);
  }

  // ---------------------------------------------------------------- what does not hold

  lemma Extend(multiplier: U64, trace: seq<Action>, a: Action)
    requires After(multiplier, trace).Some? && After(multiplier, trace).value.updates != []
    requires Enabled(After(multiplier, trace).value, a)
    ensures After(multiplier, trace + [a]) == Some(Next(After(multiplier, trace).value, a))
  {
    assert (trace + [a])[..|trace|] == trace;
  }

  /** Repeats `CopyByte` or `WriteByte` until the Device-ID is through. */
  lemma CopyAll(m: U64, start: seq<Action>) returns (trace: seq<Action>)
    requires After(m, start).Some? && After(m, start).value.replier.Copying?
    ensures After(m, trace).Some?
    ensures var s, t := After(m, start).value, After(m, trace).value;
            t.replier.Copying? && |t.replier.r.id| == 16 && t == s.(replier := t.replier)
            && t.replier.r == s.replier.r.(id := t.replier.r.id)
  {
    trace := start;
    RunKeepsInv(m, trace);
    while |After(m, trace).value.replier.r.id| < 16
      invariant After(m, trace).Some? && Inv(After(m, trace).value)
      invariant var s, t := After(m, start).value, After(m, trace).value;
                t.replier.Copying? && t == s.(replier := t.replier) && t.replier.r == s.replier.r.(id := t.replier.r.id)
      decreases 16 - |After(m, trace).value.replier.r.id|
    {
      Extend(m, trace, CopyByte);
      trace := trace + [CopyByte];
      RunKeepsInv(m, trace);
    }
  }

  lemma WriteAll(m: U64, start: seq<Action>) returns (trace: seq<Action>)
    requires After(m, start).Some? && After(m, start).value.updater.Writing?
    ensures After(m, trace).Some?
    ensures var s, t := After(m, start).value, After(m, trace).value;
            t.updater == Writing(s.updater.id, 16) && t == s.(updater := t.updater, id := t.id)
  {
    trace := start;
    RunKeepsInv(m, trace);
    while After(m, trace).value.updater.done < 16
      invariant After(m, trace).Some? && Inv(After(m, trace).value)
      invariant var s, t := After(m, start).value, After(m, trace).value;
                t.updater.Writing? && t.updater.id == s.updater.id && t == s.(updater := t.updater, id := t.id)
      decreases 16 - After(m, trace).value.updater.done
    {
      Extend(m, trace, WriteByte);
      trace := trace + [WriteByte];
      RunKeepsInv(m, trace);
    }
  }

  lemma ReplyUpToTx(m: U64, start: seq<Action>) returns (trace: seq<Action>)
    requires After(m, start).Some?
    requires var s := After(m, start).value;
             && |s.updates| > 1 && s.replier == Waiting && s.mutex == None
             && s.ticks == 0 && s.multiplier == m && s.updater == Away
    ensures After(m, trace).Some?
    ensures var s := After(m, trace).value;
            s.replier.GotId? && s.replier.r.tx == Some(0) && s.ticks == 0 && s.mutex == None && s.updater == Away
  {
    Extend(m, start, ReadRx);
    Extend(m, start + [ReadRx], LockId);
    trace := CopyAll(m, start + [ReadRx] + [LockId]);
    trace := CopyToTx(m, trace);
  }

  lemma CopyToTx(m: U64, start: seq<Action>) returns (trace: seq<Action>)
    requires After(m, start).Some?
    requires var s := After(m, start).value;
             && s.updates != [] && s.replier.Copying? && |s.replier.r.id| == 16 && s.replier.r.tx == None
             && s.ticks == 0 && s.multiplier == m && s.updater == Away
    ensures After(m, trace).Some?
    ensures var s := After(m, trace).value;
            s.replier.GotId? && s.replier.r.tx == Some(0) && s.ticks == 0 && s.mutex == None && s.updater == Away
  {
    Extend(m, start, UnlockId);
    Extend(m, start + [UnlockId], ReadTx);
    trace := start + [UnlockId] + [ReadTx];
  }

  /** A whole update, run while a reply is between its two critical sections. */
  lemma WholeUpdate(m: U64, start: seq<Action>) returns (trace: seq<Action>)
    requires After(m, start).Some?
    requires After(m, start).value.updater == Away && After(m, start).value.mutex == None
    ensures After(m, trace).Some?
    ensures var s, t := After(m, start).value, After(m, trace).value;
            && t.replier == s.replier && t.updater == Away && t.mutex == None && t.stamp == Now(s)
            && t.ticks == s.ticks && t.multiplier == s.multiplier && |t.updates| > 1
  {
    var name: seq<Byte> := seq(32, _ => 0);
    assert Source(name) == Some(name[0..32]) && name[0..32] == name;
    RunKeepsInv(m, start);
    Extend(m, start, Fetch(Some(name)));
    trace := start + [Fetch(Some(name))];
    Extend(m, trace, LockUpdate);
    trace := WriteAll(m, trace + [LockUpdate]);
    Extend(m, trace, ReadClock);
    trace := trace + [ReadClock];
    Extend(m, trace, StoreStamp);
    trace := trace + [StoreStamp];
    Extend(m, trace, UnlockUpdate);
    trace := trace + [UnlockUpdate];
  }

  /** The reported stamp may lie after TX: it is read after TX, and an update can fit in between. */
  lemma LastUpdatedMayExceedTx() returns (trace: seq<Action>)
    ensures After(Two32, trace).Some? && After(Two32, trace).value.replier.Done?
    ensures var r := After(Two32, trace).value.replier.r;
            r.tx.Some? && r.lastUpdated.Some? && r.tx.value < r.lastUpdated.value
  {
    trace := WholeUpdate(Two32, []);
    trace := ReplyUpToTx(Two32, trace);
    RunKeepsInv(Two32, trace);
    Extend(Two32, trace, Tick(1));
    assert Now(After(Two32, trace + [Tick(1)]).value) == 1;
    trace := WholeUpdate(Two32, trace + [Tick(1)]);
    RunKeepsInv(Two32, trace);
    trace := ReportStamp(Two32, trace);
  }

  lemma ReportStamp(m: U64, start: seq<Action>) returns (trace: seq<Action>)
    requires After(m, start).Some?
    requires var s := After(m, start).value; s.updates != [] && s.replier.GotId? && s.mutex == None
    ensures After(m, trace).Some?
    ensures var s, t := After(m, start).value, After(m, trace).value;
            t.replier.Done? && t.replier.r.tx == s.replier.r.tx && t.replier.r.lastUpdated == Some(s.stamp)
  {
    Extend(m, start, LockStamp);
    Extend(m, start + [LockStamp], ReadStamp);
    Extend(m, start + [LockStamp] + [ReadStamp], UnlockStamp);
    trace := start + [LockStamp] + [ReadStamp] + [UnlockStamp];
  }
}

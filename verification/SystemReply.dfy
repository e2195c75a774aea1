/** The whole system: what a client may conclude from a reply built while the Device-ID cache was
    being updated by another thread. */
module SystemReply {
  import opened Bytes
  import opened Options
  import opened Tlvs
  import opened ClientCodec
  import opened Protocol
  import opened EndToEnd
  import Cache = DeviceIdCache
  import StampOrder
  import Machine = ResponderMachine
  import ResponderSafety

  /** The message builder was fed by the reads of the reply `r`; the second and third happen only
      if the query asks for them. */
  ghost predicate FedBy(inp: Inputs, r: Cache.Reply, records: seq<Tlv>) {
    && inp.deviceId == r.id && inp.rx == r.rx
    && (Has(records, TimerTxQ) ==> r.tx == Some(inp.tx))
    && (Has(records, LastUpdatedQ) ==> r.lastUpdated == Some(inp.lastUpdated))
  }

  /** What the decoded body records `ts` say about one update of the cache and the time `rx`. */
  ghost predicate SpeaksOf(ts: seq<Tlv>, u: Cache.Update, rx: U64) {
    && (forall t | t in ts && t.tag == 0x11 :: t.value == u.id)
    && (forall t | t in ts && t.tag == 0x12 :: FromLE(t.value) == rx)
    && (forall t | t in ts && t.tag == 0x13 :: rx <= FromLE(t.value) && u.stamp <= FromLE(t.value))
    && (forall t | t in ts && t.tag == 0x14 :: u.stamp <= FromLE(t.value))
  }

  /** After the steps `a` of the run a reply begins. No update stored by then is newer than `u`, or
      stamped later than the clock showed. */
  ghost predicate BeginsAfter(m: U64, run: seq<Cache.Action>, a: seq<Cache.Action>, u: Cache.Update) {
    && a + [Cache.ReadRx] <= run
    && Cache.After(m, a).Some?
    && forall w | w in Cache.After(m, a).value.updates ::
         w.stamp <= u.stamp && w.stamp <= Cache.Now(Cache.After(m, a).value)
  }

  lemma FindBeginning(m: U64, run: seq<Cache.Action>) returns (a: seq<Cache.Action>)
    requires Cache.After(m, run).Some? && Cache.After(m, run).value.replier.Done?
    ensures var t := Cache.After(m, run).value;
            && t.replier.r.from < |t.updates|
            && BeginsAfter(m, run, a, t.updates[t.replier.r.from])
            && t.replier.r.rx == Cache.Now(Cache.After(m, a).value)
  {
    var b;
    a, b := StampOrder.EveryReplyBegins(m, run);
    hide Cache.After, Cache.Now;
    StampOrder.ReplyBegins(m, a, b);
  }

  /** A request for a time stamp among accepted records is what `Has` reports. */
  lemma RequestedIsHas(records: seq<Tlv>, max: nat, t: Tlv)
    requires AllAccepted(records, max) && t in records && Supported(t.tag)
    ensures Has(records, t.tag)
  {
    FindIsMembership(records, max, t);
  }

  /** Where a decoded body record comes from: its tag tells which input it carries. */
  lemma AnswerCarries(records: seq<Tlv>, max: nat, inp: Inputs, body: seq<Tlv>, t: Tlv)
    requires AllAccepted(records, max) && t in body
    requires Members(body) == Answers(records, inp)
    ensures t.tag == 0x11 ==> t.value == inp.deviceId
    ensures t.tag == 0x12 ==> FromLE(t.value) == inp.rx
    ensures t.tag == 0x13 ==> FromLE(t.value) == inp.tx && Has(records, TimerTxQ)
    ensures t.tag == 0x14 ==> FromLE(t.value) == inp.lastUpdated && Has(records, LastUpdatedQ)
  {
    assert t in Members(body);
    var q :| q in records && Supported(q.tag) && Answer(q, inp) == t;
    RequestedIsHas(records, max, q);
    U64RoundTrip(inp.rx);
    U64RoundTrip(inp.tx);
    U64RoundTrip(inp.lastUpdated);
  }

  /** Over every interleaving of updates with the reply: the Device-ID the client recovers, from the
      record or from the checksum, was folded from a name the TPM gave and stored by a single
      successful update, no older than any there was when the reply began; that update's stamp is at
      most the TX and the last-updated values the client reads. RX is the clock when the reply began,
      not below the stamp of any update there was, and at most TX. */
  lemma ClientSeesOneUpdate(md5: Md5, flags: Byte, records: seq<Tlv>, max: nat, inp: Inputs,
                            multiplier: U64, trace: seq<Cache.Action>)
    returns (a: seq<Cache.Action>, u: Cache.Update)
    requires flags == 0 || flags == 2
    requires Short(records) && MinMsgSize + |EncodeAll(records)| <= MaxMsgSize
    requires max >= MinMsgSize && inp.queryDigestOk && inp.replyDigestOk && AllAccepted(records, max)
    requires Cache.After(multiplier, trace).Some? && Cache.After(multiplier, trace).value.replier.Done?
    requires FedBy(inp, Cache.After(multiplier, trace).value.replier.r, records)
    ensures u in Cache.After(multiplier, trace).value.updates && Cache.FromTpm(trace, u.id)
    ensures BeginsAfter(multiplier, trace, a, u)
    ensures var reply := Respond(md5, QueryOf(md5, flags, records), max, inp);
            && reply.Some? && Decode(md5, reply.value).Some?
            && var d := Decode(md5, reply.value).value;
               && |d.tlvs| >= 4
               && SpeaksOf(d.tlvs[4..], u, Cache.Now(Cache.After(multiplier, a).value))
               && (flags == 2 ==> d.xored == u.id)
  {
    hide Respond, Decode, AllAccepted, QueryOf, ReplyFlags, Short, Cache.After, Cache.FromTpm, SpeaksOf, Cache.Now;
    a := FindBeginning(multiplier, trace);
    EndToEndReply(md5, flags, records, max, inp);
    Cache.CacheConsistency(multiplier, trace);
    Cache.UpdatesComeFromTpm(multiplier, trace);
    var s := Cache.After(multiplier, trace).value;
    var d := Decode(md5, Respond(md5, QueryOf(md5, flags, records), max, inp).value).value;
    u := s.updates[s.replier.r.from];
    BodySpeaksOf(records, max, inp, d.tlvs[4..], s.replier.r, u);
    assert u in s.updates;
  }

  lemma BodySpeaksOf(records: seq<Tlv>, max: nat, inp: Inputs, body: seq<Tlv>, r: Cache.Reply, u: Cache.Update)
    requires AllAccepted(records, max) && FedBy(inp, r, records)
    requires Members(body) == Answers(records, inp)
    requires r.id == u.id
    requires r.tx.Some? ==> r.rx <= r.tx.value && u.stamp <= r.tx.value
    requires r.lastUpdated.Some? ==> u.stamp <= r.lastUpdated.value
    ensures SpeaksOf(body, u, r.rx)
  {
    forall t | t in body
      ensures t.tag == 0x11 ==> t.value == inp.deviceId
      ensures t.tag == 0x12 ==> FromLE(t.value) == inp.rx
      ensures t.tag == 0x13 ==> FromLE(t.value) == inp.tx && Has(records, TimerTxQ)
      ensures t.tag == 0x14 ==> FromLE(t.value) == inp.lastUpdated && Has(records, LastUpdatedQ)
    {
      AnswerCarries(records, max, inp, body, t);
    }
  }

  // ---------------------------------------------------------------- every reply the server sends

  /** The same for a query as received: what is read depends on the verdict on its body. */
  ghost predicate FedFor(inp: Inputs, r: Cache.Reply, q: seq<Byte>, max: nat) {
    && inp.deviceId == r.id && inp.rx == r.rx
    && (|q| >= MinMsgSize ==>
          var v := Judge(Tile(q[22..|q| - 16]), max);
          && (v.Full? && v.wants.tx ==> r.tx == Some(inp.tx))
          && (v.Full? && v.wants.updated ==> r.lastUpdated == Some(inp.lastUpdated)))
  }

  lemma WantedSpeaksOf(w: Wants, inp: Inputs, r: Cache.Reply, u: Cache.Update)
    requires inp.deviceId == r.id == u.id && inp.rx == r.rx
    requires w.tx ==> r.tx == Some(inp.tx)
    requires w.updated ==> r.lastUpdated == Some(inp.lastUpdated)
    requires r.tx.Some? ==> r.rx <= r.tx.value && u.stamp <= r.tx.value
    requires r.lastUpdated.Some? ==> u.stamp <= r.lastUpdated.value
    ensures SpeaksOf(ReplyBody(w, inp), u, r.rx)
  {
    var body := ReplyBody(w, inp);
    forall t | t in body
      ensures t.tag == 0x11 ==> t.value == u.id
      ensures t.tag == 0x12 ==> FromLE(t.value) == inp.rx
      ensures t.tag == 0x13 ==> FromLE(t.value) == inp.tx && w.tx
      ensures t.tag == 0x14 ==> FromLE(t.value) == inp.lastUpdated && w.updated
    {
      WantedCarries(w, inp, t);
    }
  }

  lemma WantedCarries(w: Wants, inp: Inputs, t: Tlv)
    requires t in ReplyBody(w, inp)
    ensures t.tag == 0x11 ==> t.value == inp.deviceId
    ensures t.tag == 0x12 ==> FromLE(t.value) == inp.rx
    ensures t.tag == 0x13 ==> FromLE(t.value) == inp.tx && w.tx
    ensures t.tag == 0x14 ==> FromLE(t.value) == inp.lastUpdated && w.updated
  {
    hide LE, FromLE;
    InReply(w, inp, t);
    U64RoundTrip(inp.rx);
    U64RoundTrip(inp.tx);
    U64RoundTrip(inp.lastUpdated);
  }

  /** What the client reads in a reply to `q`, whatever `q` is. */
  ghost predicate ClientReads(md5: Md5, q: seq<Byte>, reply: seq<Byte>, u: Cache.Update, rx: U64) {
    && |q| >= MinMsgSize
    && Decode(md5, reply).Some?
    && var d := Decode(md5, reply).value;
       && |d.tlvs| >= 4
       && SpeaksOf(d.tlvs[4..], u, rx)
       && d.xored == (if q[21] == 2 then u.id else ZeroDigest)
  }

  lemma ReplySpeaksOf(md5: Md5, q: seq<Byte>, max: nat, inp: Inputs, r: Cache.Reply, u: Cache.Update)
    requires Respond(md5, q, max, inp).Some? && FedFor(inp, r, q, max)
    requires r.id == u.id
    requires r.tx.Some? ==> r.rx <= r.tx.value && u.stamp <= r.tx.value
    requires r.lastUpdated.Some? ==> u.stamp <= r.lastUpdated.value
    ensures ClientReads(md5, q, Respond(md5, q, max, inp).value, u, r.rx)
  {
    hide Decode, Judge, ReplyBody, ReplyFrame, EncodeAll, Tile, SpeaksOf, FromLE, Header, Short;
    AnsweredIsWellFormed(md5, q, max, inp);
    var tiled := q[22..|q| - 16];
    var v := Judge(Tile(tiled), max);
    var body := ReplyRecords(v, inp);
    ReplyRecordsSize(tiled, max, inp);
    ClientReadsReply(md5, q[21], body, inp.deviceId);
    FourHeaders(ReplyFlags(q[21]));
    HeaderThenBody(Header(ReplyFlags(q[21])), body);
    if v.Full? { WantedSpeaksOf(v.wants, inp, r, u); } else { NothingSpeaks(u, r.rx); }
  }

  lemma FourHeaders(flags: Byte)
    ensures |Header(flags)| == 4
  {
  }

  lemma NothingSpeaks(u: Cache.Update, rx: U64)
    ensures SpeaksOf([], u, rx)
  {
  }

  /** At the moment `p` of the cache's run a reply has finished its reads, and `reply` is the message
      builder's answer to `query` with what was read. */
  ghost predicate Feeds(md5: Md5, m: U64, p: seq<Cache.Action>, query: seq<Byte>, reply: Option<seq<Byte>>, inp: Inputs) {
    && Cache.After(m, p).Some? && Cache.After(m, p).value.replier.Done?
    && FedFor(inp, Cache.After(m, p).value.replier.r, query, Machine.BufferSize)
    && Respond(md5, query, Machine.BufferSize, inp) == reply
  }

  /** The answers a server can give that reads the cache during the run `run` of it. */
  ghost function CacheAnswers(md5: Md5, m: U64, run: seq<Cache.Action>): Machine.Answers {
    (query, reply) => exists n: nat, inp :: n <= |run| && Feeds(md5, m, run[..n], query, reply, inp)
  }

  /** Over every run of the serving loop beside any run of the cache: every reply that was sent, to
      whatever query, decodes at the client, and what it says is about one update of the cache that
      stored a Device-ID folded from a name the TPM gave, no older than any there was when the reply
      began, and about the clock at that moment. */
  lemma EverySentReplySpeaksOfOneUpdate(md5: Md5, m: U64, run: seq<Cache.Action>,
                                        listen: Machine.Fd, max: int, trace: seq<Machine.Action>, k: nat)
    returns (a: seq<Cache.Action>, u: Cache.Update)
    requires Cache.After(m, run).Some?
    requires Machine.After(CacheAnswers(md5, m, run), Machine.Init(listen, max), trace).Some?
    requires k < |Machine.After(CacheAnswers(md5, m, run), Machine.Init(listen, max), trace).value.log|
    requires Machine.After(CacheAnswers(md5, m, run), Machine.Init(listen, max), trace).value.log[k].Sent?
    ensures u in Cache.After(m, run).value.updates && Cache.FromTpm(run, u.id)
    ensures BeginsAfter(m, run, a, u)
    ensures var e := Machine.After(CacheAnswers(md5, m, run), Machine.Init(listen, max), trace).value.log[k];
            ClientReads(md5, e.query, e.reply, u, Cache.Now(Cache.After(m, a).value))
  {
    hide Machine.After, Machine.Init, Cache.After, ClientReads, Feeds, Cache.Now;
    var v := ResponderSafety.RepliesAnswerReceivedBytes(CacheAnswers(md5, m, run), listen, max, trace, k);
    var e := Machine.After(CacheAnswers(md5, m, run), Machine.Init(listen, max), trace).value.log[k];
    a, u := AnswerSpeaksOf(md5, m, run, e.query, e.reply);
  }

  lemma AnswerSpeaksOf(md5: Md5, m: U64, run: seq<Cache.Action>, query: seq<Byte>, reply: seq<Byte>)
    returns (a: seq<Cache.Action>, u: Cache.Update)
    requires Cache.After(m, run).Some? && CacheAnswers(md5, m, run)(query, Some(reply))
    ensures u in Cache.After(m, run).value.updates && Cache.FromTpm(run, u.id)
    ensures BeginsAfter(m, run, a, u)
    ensures ClientReads(md5, query, reply, u, Cache.Now(Cache.After(m, a).value))
  {
    hide Cache.After, Feeds, ClientReads, Cache.FromTpm, Cache.Now;
    var n: nat, inp :| n <= |run| && Feeds(md5, m, run[..n], query, Some(reply), inp);
    assert run == run[..n] + run[n..];
    StampOrder.UpdatesGrow(m, run[..n], run[n..]);
    Cache.UpdatesComeFromTpm(m, run);
    var k;
    a, k := FedSpeaksOf(md5, m, run[..n], query, reply, inp);
    u := Cache.After(m, run).value.updates[k];
    assert a + [Cache.ReadRx] <= run[..n] <= run;
  }

  /** A reply fed by the cache speaks of the update that its Device-ID came from. */
  lemma FedSpeaksOf(md5: Md5, m: U64, p: seq<Cache.Action>, query: seq<Byte>, reply: seq<Byte>, inp: Inputs)
    returns (a: seq<Cache.Action>, k: nat)
    requires Feeds(md5, m, p, query, Some(reply), inp)
    ensures Cache.After(m, p).Some? && 1 <= k < |Cache.After(m, p).value.updates|
    ensures BeginsAfter(m, p, a, Cache.After(m, p).value.updates[k])
    ensures ClientReads(md5, query, reply, Cache.After(m, p).value.updates[k], Cache.Now(Cache.After(m, a).value))
  {
    hide Cache.After, ClientReads, Respond, FedFor, Cache.Now;
    Cache.CacheConsistency(m, p);
    a := FindBeginning(m, p);
    var s := Cache.After(m, p).value;
    k := s.replier.r.from;
    ReplySpeaksOf(md5, query, Machine.BufferSize, inp, s.replier.r, s.updates[k]);
  }
}

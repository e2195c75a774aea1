/** The two ends together: client frame, server reply, client decoding. */
module EndToEnd {
  import opened Bytes
  import opened Options
  import opened Tlvs
  import opened ClientCodec
  import opened Protocol
  import MessageBuilder

  /** The query bytes the client serializes for a header and body records. */
  function QueryOf(md5: Md5, flags: Byte, records: seq<Tlv>): seq<Byte> {
    Frame(md5, Header(flags) + records)
  }

  /** The reply record that answers a supported query record. */
  function Answer(t: Tlv, inp: Inputs): Tlv
    requires Supported(t.tag)
  {
    if t.tag == UserDataQ then Tlv(0x05, t.value)
    else if t.tag == DeviceIdQ then Tlv(0x11, inp.deviceId)
    else if t.tag == TimerRxQ then Tlv(0x12, LE(inp.rx, 8))
    else if t.tag == TimerTxQ then Tlv(0x13, LE(inp.tx, 8))
    else Tlv(0x14, LE(inp.lastUpdated, 8))
  }

  /** The records that answer a query: one for each supported request. */
  function Answers(records: seq<Tlv>, inp: Inputs): set<Tlv> {
    set t | t in records && Supported(t.tag) :: Answer(t, inp)
  }

  function Members(ts: seq<Tlv>): set<Tlv> {
    set t | t in ts
  }

  // ---------------------------------------------------------------- both decoders agree

  /** Splits a well-formed query's record area into header records and body. */
  lemma QueryTiling(md5: Md5, q: seq<Byte>, max: nat, inp: Inputs)
    requires WellFormed(md5, q, max, inp)
    ensures var body := Tile(q[22..|q| - 16]);
            Tile(q[4..|q| - 16]) == Tiling(Header(q[21]) + body.records, body.rest)
  {
    HeaderBytes(q[21]);
    TileAfterRecords(Header(q[21]), q[22..|q| - 16]);
    SplitAt(q, 4, 22, |q| - 16);
  }

  lemma SplitAt<T>(s: seq<T>, a: nat, b: nat, c: nat)
    requires a <= b <= c <= |s|
    ensures s[a..c] == s[a..b] + s[b..c]
  {
  }

  /** The client decodes a well-formed query exactly when its body is tiled by records,
      and then sees the header followed by the records the server's scan walks over. */
  lemma ClientReadsQuery(md5: Md5, q: seq<Byte>, max: nat, inp: Inputs)
    requires WellFormed(md5, q, max, inp)
    ensures var body := Tile(q[22..|q| - 16]);
            && (Decode(md5, q).Some? <==> body.rest == [])
            && (body.rest == [] ==> Decode(md5, q).value.tlvs == Header(q[21]) + body.records)
  {
    QueryTiling(md5, q, max, inp);
  }

  /** On bodies without a rejected record the server accepts just what the client decodes. */
  lemma ServerAcceptsWhatClientDecodes(md5: Md5, q: seq<Byte>, max: nat, inp: Inputs)
    requires WellFormed(md5, q, max, inp) && inp.replyDigestOk
    requires AllAccepted(Tile(q[22..|q| - 16]).records, max)
    ensures Respond(md5, q, max, inp).Some? <==> Decode(md5, q).Some?
  {
    ClientReadsQuery(md5, q, max, inp);
  }

  // ---------------------------------------------------------------- end to end

  /** A frame the client builds around well-sized records is a well-formed query. */
  lemma ClientQueryIsWellFormed(md5: Md5, flags: Byte, records: seq<Tlv>, max: nat, inp: Inputs)
    requires flags == 0 || flags == 2
    requires Short(records) && MinMsgSize + |EncodeAll(records)| <= MaxMsgSize
    requires max >= MinMsgSize && inp.queryDigestOk
    ensures var q := QueryOf(md5, flags, records);
            && WellFormed(md5, q, max, inp)
            && q[21] == flags
            && Tile(q[22..|q| - 16]) == Tiling(records, [])
  {
    var ts, q := Header(flags) + records, QueryOf(md5, flags, records);
    var body := EncodeAll(records);
    var size, head := AnnouncedSize(ts), EncodeAll(Header(flags));
    hide EncodeAll, Tile, LE, FromLE;
    assert Short(ts) && EncodeAll(ts) == head + body && size == MinMsgSize + |body| && |head| == 18 && head[17] == flags by {
      HeaderBytes(flags);
      EncodeAllAppend(Header(flags), records);
      RecordBytesIsLength(ts);
    }
    assert FromLE(LE(size, 4)) == size by {
      Pow256Values();
      FromLERoundTrip(size, 4);
    }
    Assoc(LE(size, 4), head, body);
    QueryParts(md5, LE(size, 4), head, body);
    TileInvertsEncode(records);
  }

  lemma QueryParts(md5: Md5, size: seq<Byte>, head: seq<Byte>, body: seq<Byte>)
    requires |size| == 4 && |head| == 18
    ensures var p := size + head + body;
            var q := p + md5(p);
            && |q| == 38 + |body| && q[..4] == size && q[4..22] == head && q[21] == head[17]
            && q[22..|q| - 16] == body && q[..|q| - 16] == p && q[|q| - 16..] == md5(p)
  {
    var p := size + head + body;
    Slices(size, head, body, md5(p));
    Slices(p, md5(p), [], []);
    assert p + md5(p) + [] + [] == p + md5(p);
  }

  /** Any reply frame decodes to its records, with the Device-ID in the XORed checksum. */
  lemma ClientReadsReply(md5: Md5, flags: Byte, body: seq<Tlv>, deviceId: Digest)
    requires flags == 0 || flags == 2
    requires Short(body) && |EncodeAll(body)| <= 305
    ensures var reply := ReplyFrame(md5, flags, body, deviceId);
            && Decode(md5, reply).Some?
            && var d := Decode(md5, reply).value;
               && d.tlvs == Header(if flags == 2 then 1 else 0) + body
               && d.xored == (if flags == 2 then deviceId else ZeroDigest)
               && d.consumed == |reply|
  {
    var ts := Header(ReplyFlags(flags)) + body;
    var payload := Payload(ts);
    var sum := ReplySum(md5, flags, deviceId, payload);
    ReplyListSize(ReplyFlags(flags), body);
    DecodeFrame(md5, ts, sum, []);
    assert payload + sum + [] == ReplyFrame(md5, flags, body, deviceId);
    XorDigestCancels(md5(payload), deviceId);
    FrameLength(md5, flags, body, deviceId);
  }

  /** What the client asked, the server answers and the client reads back: the header,
      the requested records with their values, and the Device-ID if flag 0x02 was set. */
  lemma EndToEndReply(md5: Md5, flags: Byte, records: seq<Tlv>, max: nat, inp: Inputs)
    requires flags == 0 || flags == 2
    requires Short(records) && MinMsgSize + |EncodeAll(records)| <= MaxMsgSize
    requires max >= MinMsgSize && inp.queryDigestOk && inp.replyDigestOk
    requires AllAccepted(records, max)
    ensures var reply := Respond(md5, QueryOf(md5, flags, records), max, inp);
            && reply.Some?
            && Decode(md5, reply.value).Some?
            && var d := Decode(md5, reply.value).value;
               && |d.tlvs| >= 4
               && d.tlvs[..4] == Header(if flags == 2 then 1 else 0)
               && Members(d.tlvs[4..]) == Answers(records, inp)
               && (forall i, j | 4 <= i < j < |d.tlvs| :: d.tlvs[i].tag < d.tlvs[j].tag)
               && d.xored == (if flags == 2 then inp.deviceId else ZeroDigest)
               && d.consumed == |reply.value|
  {
    var q := QueryOf(md5, flags, records);
    ClientQueryIsWellFormed(md5, flags, records, max, inp);
    var body := ReplyBody(WantsOf(records), inp);
    ReplyRecordsSize(q[22..|q| - 16], max, inp);
    ClientReadsReply(md5, flags, body, inp.deviceId);
    ReplyAnswersRequests(records, max, inp);
    ReplyOrder(WantsOf(records), inp);
    HeaderThenBody(Header(ReplyFlags(flags)), body);
  }

  /** The same request by request: user data 0x04 comes back as 0x05, and the empty queries 0x91 to
      0x94 get the Device-ID and the three clock values under their tag less 0x80. */
  lemma AnswersByTag(records: seq<Tlv>, max: nat, inp: Inputs, body: seq<Tlv>)
    requires AllAccepted(records, max) && Members(body) == Answers(records, inp)
    ensures forall v :: Tlv(0x05, v) in body <==> Tlv(0x04, v) in records
    ensures forall v :: Tlv(0x11, v) in body <==> v == inp.deviceId && Tlv(0x91, []) in records
    ensures forall v :: Tlv(0x12, v) in body <==> |v| == 8 && FromLE(v) == inp.rx && Tlv(0x92, []) in records
    ensures forall v :: Tlv(0x13, v) in body <==> |v| == 8 && FromLE(v) == inp.tx && Tlv(0x93, []) in records
    ensures forall v :: Tlv(0x14, v) in body <==> |v| == 8 && FromLE(v) == inp.lastUpdated && Tlv(0x94, []) in records
    ensures forall t | t in body :: t.tag == 0x05 || 0x11 <= t.tag <= 0x14
  {
    hide Members, Answers, AllAccepted, LE, FromLE;
    forall v ensures Tlv(0x05, v) in body <==> Tlv(0x04, v) in records {
      UserDataAnswer(records, inp, body, v);
    }
    forall v ensures Tlv(0x11, v) in body <==> v == inp.deviceId && Tlv(0x91, []) in records {
      EmptyQueryAnswer(records, max, inp, body, 0x91, v);
    }
    forall v ensures Tlv(0x12, v) in body <==> |v| == 8 && FromLE(v) == inp.rx && Tlv(0x92, []) in records {
      EmptyQueryAnswer(records, max, inp, body, 0x92, v);
      IsLE(v, inp.rx);
    }
    forall v ensures Tlv(0x13, v) in body <==> |v| == 8 && FromLE(v) == inp.tx && Tlv(0x93, []) in records {
      EmptyQueryAnswer(records, max, inp, body, 0x93, v);
      IsLE(v, inp.tx);
    }
    forall v ensures Tlv(0x14, v) in body <==> |v| == 8 && FromLE(v) == inp.lastUpdated && Tlv(0x94, []) in records {
      EmptyQueryAnswer(records, max, inp, body, 0x94, v);
      IsLE(v, inp.lastUpdated);
    }
    forall t | t in body ensures t.tag == 0x05 || 0x11 <= t.tag <= 0x14 {
      var r := RequestOf(records, inp, body, t);
    }
  }

  lemma IsLE(v: seq<Byte>, n: U64)
    ensures v == LE(n, 8) <==> |v| == 8 && FromLE(v) == n
  {
    U64RoundTrip(n);
    LERoundTrip(v);
  }

  lemma RequestOf(records: seq<Tlv>, inp: Inputs, body: seq<Tlv>, t: Tlv) returns (r: Tlv)
    requires Members(body) == Answers(records, inp) && t in body
    ensures r in records && Supported(r.tag) && Answer(r, inp) == t
  {
    assert t in Members(body);
    r :| r in records && Supported(r.tag) && Answer(r, inp) == t;
  }

  lemma AnswerIsIn(records: seq<Tlv>, inp: Inputs, body: seq<Tlv>, r: Tlv)
    requires Members(body) == Answers(records, inp) && r in records && Supported(r.tag)
    ensures Answer(r, inp) in body
  {
    assert Answer(r, inp) in Answers(records, inp);
    assert Answer(r, inp) in Members(body);
  }

  lemma UserDataAnswer(records: seq<Tlv>, inp: Inputs, body: seq<Tlv>, v: seq<Byte>)
    requires Members(body) == Answers(records, inp)
    ensures Tlv(0x05, v) in body <==> Tlv(0x04, v) in records
  {
    hide Members, Answers;
    if Tlv(0x05, v) in body { var r := RequestOf(records, inp, body, Tlv(0x05, v)); }
    if Tlv(0x04, v) in records { AnswerIsIn(records, inp, body, Tlv(0x04, v)); }
  }

  lemma EmptyQueryAnswer(records: seq<Tlv>, max: nat, inp: Inputs, body: seq<Tlv>, tag: Byte, v: seq<Byte>)
    requires AllAccepted(records, max) && Members(body) == Answers(records, inp) && 0x91 <= tag <= 0x94
    ensures Tlv(tag - 0x80, v) in body <==> Tlv(tag, []) in records && Answer(Tlv(tag, []), inp) == Tlv(tag - 0x80, v)
  {
    hide Members, Answers, LE, AllAccepted;
    var q := Tlv(tag, []);
    if Tlv(tag - 0x80, v) in body {
      var r := RequestOf(records, inp, body, Tlv(tag - 0x80, v));
      AcceptedIsWellSized(records, max, r);
      assert r == q;
    }
    if q in records { AnswerIsIn(records, inp, body, q); }
  }

  lemma HeaderThenBody(h: seq<Tlv>, body: seq<Tlv>)
    requires |h| == 4
    ensures (h + body)[..4] == h && (h + body)[4..] == body
    ensures forall i | 4 <= i < |h + body| :: (h + body)[i] == body[i - 4]
  {
  }

  // ---------------------------------------------------------------- what a reply holds

  /** In accepted records a supported tag occurs once, so looking it up is membership. */
  lemma {:induction false} FindIsMembership(seen: seq<Tlv>, max: nat, t: Tlv)
    requires AllAccepted(seen, max) && Supported(t.tag)
    ensures Find(seen, t.tag) == Some(t.value) <==> t in seen
    ensures multiset(seen)[t] <= 1
  {
    if seen != [] {
      var init, last := seen[..|seen| - 1], seen[|seen| - 1];
      assert seen == init + [last];
      FindIsMembership(init, max, t);
      if last.tag == t.tag {
        FindAbsent(init, t);
      }
    }
  }

  lemma {:induction false} FindAbsent(seen: seq<Tlv>, t: Tlv)
    requires !Has(seen, t.tag)
    ensures t !in seen
  {
    if seen != [] {
      assert seen == seen[..|seen| - 1] + [seen[|seen| - 1]];
      FindAbsent(seen[..|seen| - 1], t);
    }
  }

  lemma AcceptedIsWellSized(seen: seq<Tlv>, max: nat, t: Tlv)
    requires AllAccepted(seen, max) && Supported(t.tag) && t in seen
    ensures WellSized(t)
  {
    var init, last := seen[..|seen| - 1], seen[|seen| - 1];
    assert seen == init + [last];
    if t != last {
      AcceptedIsWellSized(init, max, t);
    }
  }

  /** Membership in the reply, record by record. */
  lemma InReply(w: Wants, inp: Inputs, t: Tlv)
    ensures t in ReplyBody(w, inp) <==>
              || (w.user != [] && t == Tlv(0x05, w.user))
              || (w.device && t == Tlv(0x11, inp.deviceId))
              || (w.rx && t == Tlv(0x12, LE(inp.rx, 8)))
              || (w.tx && t == Tlv(0x13, LE(inp.tx, 8)))
              || (w.updated && t == Tlv(0x14, LE(inp.lastUpdated, 8)))
  {
  }

  /** A reply record answers some request. */
  lemma AnswerHasRequest(records: seq<Tlv>, max: nat, inp: Inputs, t: Tlv) returns (r: Tlv)
    requires AllAccepted(records, max) && t in ReplyBody(WantsOf(records), inp)
    ensures r in records && Supported(r.tag) && Answer(r, inp) == t
  {
    InReply(WantsOf(records), inp, t);
    AcceptedUserData(records, max);
    var tag: Byte := if t.tag == 0x05 then UserDataQ else if t.tag == 0x11 then DeviceIdQ
                     else if t.tag == 0x12 then TimerRxQ else if t.tag == 0x13 then TimerTxQ else LastUpdatedQ;
    r := Tlv(tag, Find(records, tag).value);
    FindIsMembership(records, max, r);
  }

  /** Every supported request is answered. */
  lemma RequestHasAnswer(records: seq<Tlv>, max: nat, inp: Inputs, t: Tlv)
    requires AllAccepted(records, max) && t in records && Supported(t.tag)
    ensures Answer(t, inp) in ReplyBody(WantsOf(records), inp)
  {
    InReply(WantsOf(records), inp, Answer(t, inp));
    AcceptedUserData(records, max);
    FindIsMembership(records, max, t);
  }

  lemma ReplyAnswersRequests(records: seq<Tlv>, max: nat, inp: Inputs)
    requires AllAccepted(records, max)
    ensures Members(ReplyBody(WantsOf(records), inp)) == Answers(records, inp)
  {
    var body := ReplyBody(WantsOf(records), inp);
    forall t | t in body ensures t in Answers(records, inp) {
      var r := AnswerHasRequest(records, max, inp, t);
    }
    forall t | t in records && Supported(t.tag) ensures Answer(t, inp) in body {
      RequestHasAnswer(records, max, inp, t);
    }
  }

  ghost predicate TagsBelow(ts: seq<Tlv>, tag: int) {
    && (forall i, j | 0 <= i < j < |ts| :: ts[i].tag < ts[j].tag)
    && (forall i | 0 <= i < |ts| :: ts[i].tag < tag)
  }

  lemma AppendTag(ts: seq<Tlv>, wanted: bool, t: Tlv)
    requires TagsBelow(ts, t.tag)
    ensures TagsBelow(ts + Part(wanted, t), t.tag + 1)
  {
  }

  lemma ReplyOrder(w: Wants, inp: Inputs)
    ensures var b := ReplyBody(w, inp); forall i, j | 0 <= i < j < |b| :: b[i].tag < b[j].tag
  {
    var s1 := Part(w.user != [], Tlv(0x05, w.user));
    var s2 := s1 + Part(w.device, Tlv(0x11, inp.deviceId));
    var s3 := s2 + Part(w.rx, Tlv(0x12, LE(inp.rx, 8)));
    var s4 := s3 + Part(w.tx, Tlv(0x13, LE(inp.tx, 8)));
    AppendTag(s1, w.device, Tlv(0x11, inp.deviceId));
    AppendTag(s2, w.rx, Tlv(0x12, LE(inp.rx, 8)));
    AppendTag(s3, w.tx, Tlv(0x13, LE(inp.tx, 8)));
    AppendTag(s4, w.updated, Tlv(0x14, LE(inp.lastUpdated, 8)));
  }

  // ---------------------------------------------------------------- rejected records

  /** The first rejected record decides: ending the body exactly it earns the bare header,
      with anything after it, well formed or not, the whole query is refused. */
  lemma RejectedRecord(md5: Md5, q: seq<Byte>, max: nat, inp: Inputs, seen: seq<Tlv>, bad: Tlv, left: seq<Byte>)
    requires WellFormed(md5, q, max, inp) && inp.replyDigestOk
    requires Short(seen + [bad]) && q[22..|q| - 16] == EncodeAll(seen + [bad]) + left
    requires AllAccepted(seen, max) && Rejects(seen, bad, max)
    ensures Respond(md5, q, max, inp)
         == if left == [] then Some(ReplyFrame(md5, q[21], [], inp.deviceId)) else None
  {
    TileAfterRecords(seen + [bad], left);
    MessageBuilder.JudgeRejected(q[22..|q| - 16], seen, bad, left, max);
  }

  // ---------------------------------------------------------------- order and unsupported records

  /** The same supported records, each as often; unsupported ones and the order are free. */
  ghost predicate SameRequests(r1: seq<Tlv>, r2: seq<Tlv>) {
    forall t: Tlv | Supported(t.tag) :: multiset(r1)[t] == multiset(r2)[t]
  }

  /** User data is not empty, the four queries 0x91 to 0x94 are, and none of the five is repeated. */
  ghost predicate Clean(seen: seq<Tlv>) {
    && (forall t | t in seen :: (t.tag == 0x04 ==> |t.value| >= 1) && (0x91 <= t.tag <= 0x94 ==> t.value == []))
    && (forall t | t in seen && (t.tag == 0x04 || 0x91 <= t.tag <= 0x94) :: multiset(seen)[t] <= 1)
    && (forall t, u | t in seen && u in seen && (t.tag == 0x04 || 0x91 <= t.tag <= 0x94) && t.tag == u.tag :: t == u)
  }

  lemma AcceptedIsClean(seen: seq<Tlv>, max: nat)
    requires AllAccepted(seen, max)
    ensures Clean(seen)
  {
    forall t | t in seen && Supported(t.tag) ensures WellSized(t) && multiset(seen)[t] <= 1 {
      AcceptedIsWellSized(seen, max, t);
      FindIsMembership(seen, max, t);
    }
    forall t, u | t in seen && u in seen && Supported(t.tag) && t.tag == u.tag ensures t == u {
      FindIsMembership(seen, max, t);
      FindIsMembership(seen, max, u);
    }
  }

  lemma {:induction false} CleanIsAccepted(seen: seq<Tlv>, max: nat)
    requires Clean(seen) && Ledger(seen) <= max
    ensures AllAccepted(seen, max)
  {
    if seen != [] {
      var init, last := seen[..|seen| - 1], seen[|seen| - 1];
      assert seen == init + [last];
      assert Clean(init) by {
        assert forall t | t in init :: t in seen && multiset(init)[t] <= multiset(seen)[t];
      }
      CleanIsAccepted(init, max);
      if Supported(last.tag) && Has(init, last.tag) {
        var u := Tlv(last.tag, Find(init, last.tag).value);
        FindIsMembership(init, max, u);
        assert false;
      }
    }
  }

  lemma SameRequestsSymmetric(r1: seq<Tlv>, r2: seq<Tlv>)
    requires SameRequests(r1, r2)
    ensures SameRequests(r2, r1)
    ensures forall t: Tlv | Supported(t.tag) :: t in r1 <==> t in r2
  {
    forall t: Tlv | Supported(t.tag) ensures t in r1 <==> t in r2 {
      assert t in r1 <==> multiset(r1)[t] > 0;
      assert t in r2 <==> multiset(r2)[t] > 0;
    }
  }

  lemma SameFind(r1: seq<Tlv>, m1: nat, r2: seq<Tlv>, m2: nat, tag: Byte)
    requires SameRequests(r1, r2) && Supported(tag)
    requires AllAccepted(r1, m1) && AllAccepted(r2, m2)
    ensures Find(r1, tag) == Find(r2, tag)
  {
    SameRequestsSymmetric(r1, r2);
    if Has(r1, tag) {
      FindIsMembership(r1, m1, Tlv(tag, Find(r1, tag).value));
      FindIsMembership(r2, m2, Tlv(tag, Find(r1, tag).value));
    }
    if Has(r2, tag) {
      FindIsMembership(r2, m2, Tlv(tag, Find(r2, tag).value));
      FindIsMembership(r1, m1, Tlv(tag, Find(r2, tag).value));
    }
  }

  lemma SameWants(r1: seq<Tlv>, m1: nat, r2: seq<Tlv>, m2: nat)
    requires SameRequests(r1, r2)
    requires AllAccepted(r1, m1) && AllAccepted(r2, m2)
    ensures WantsOf(r1) == WantsOf(r2) && Ledger(r1) == Ledger(r2)
  {
    SameFind(r1, m1, r2, m2, UserDataQ);
    SameFind(r1, m1, r2, m2, DeviceIdQ);
    SameFind(r1, m1, r2, m2, TimerRxQ);
    SameFind(r1, m1, r2, m2, TimerTxQ);
    SameFind(r1, m1, r2, m2, LastUpdatedQ);
    LedgerIsReplySize(r1, m1);
    LedgerIsReplySize(r2, m2);
  }

  lemma AcceptanceIgnoresOrder(r1: seq<Tlv>, r2: seq<Tlv>, max: nat)
    requires SameRequests(r1, r2) && max >= MinMsgSize
    requires AllAccepted(r1, max)
    ensures AllAccepted(r2, max) && WantsOf(r1) == WantsOf(r2)
  {
    AcceptedIsClean(r1, max);
    SameRequestsSymmetric(r1, r2);
    assert Clean(r2);
    CleanIsAccepted(r2, Ledger(r2));
    SameWants(r1, max, r2, Ledger(r2));
    LedgerFits(r1, max);
    CleanIsAccepted(r2, max);
  }

  /** Permuting the body records, or adding and dropping unsupported ones, leaves the reply bytes unchanged. */
  lemma ReplyIgnoresOrderAndUnsupported(md5: Md5, flags: Byte, r1: seq<Tlv>, r2: seq<Tlv>, max: nat, inp: Inputs)
    requires flags == 0 || flags == 2
    requires Short(r1) && MinMsgSize + |EncodeAll(r1)| <= MaxMsgSize
    requires Short(r2) && MinMsgSize + |EncodeAll(r2)| <= MaxMsgSize
    requires max >= MinMsgSize && inp.queryDigestOk && inp.replyDigestOk
    requires SameRequests(r1, r2) && AllAccepted(r1, max)
    ensures Respond(md5, QueryOf(md5, flags, r1), max, inp) == Respond(md5, QueryOf(md5, flags, r2), max, inp)
    ensures Respond(md5, QueryOf(md5, flags, r1), max, inp).Some?
  {
    ClientQueryIsWellFormed(md5, flags, r1, max, inp);
    ClientQueryIsWellFormed(md5, flags, r2, max, inp);
    AcceptanceIgnoresOrder(r1, r2, max);
  }
}

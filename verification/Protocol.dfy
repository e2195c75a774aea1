/** What a query means and what it is answered with, stated over decoded records. */
module Protocol {
  import opened Bytes
  import opened Options
  import opened Tlvs
  import opened ClientCodec

  const MinMsgSize: nat := 38
  const MaxMsgSize: nat := 32768

  const UserDataQ: Byte := 0x04
  const DeviceIdQ: Byte := 0x91
  const TimerRxQ: Byte := 0x92
  const TimerTxQ: Byte := 0x93
  const LastUpdatedQ: Byte := 0x94

  /** Everything a reply may depend on besides the query bytes. */
  datatype Inputs = Inputs(deviceId: Digest, rx: U64, tx: U64, lastUpdated: U64,
                           queryDigestOk: bool, replyDigestOk: bool)

  /** What a query body asks for. No user data is the empty string, as in the source. */
  datatype Wants = Wants(user: seq<Byte>, device: bool, rx: bool, tx: bool, updated: bool)

  datatype Verdict = Refuse | HeaderOnly | Full(wants: Wants)

  // ---------------------------------------------------------------- records of a query

  predicate Supported(tag: Byte) {
    tag == UserDataQ || tag == DeviceIdQ || tag == TimerRxQ || tag == TimerTxQ || tag == LastUpdatedQ
  }

  predicate WellSized(t: Tlv) {
    if t.tag == UserDataQ then |t.value| >= 1 else |t.value| == 0
  }

  /** Bytes a record adds to the reply. */
  function Cost(t: Tlv): nat {
    if t.tag == UserDataQ then 2 + |t.value|
    else if t.tag == DeviceIdQ then 18
    else if Supported(t.tag) then 10
    else 0
  }

  function Ledger(seen: seq<Tlv>): nat {
    if seen == [] then MinMsgSize else Ledger(seen[..|seen| - 1]) + Cost(seen[|seen| - 1])
  }

  /** The value under `tag`, if the records hold one. */
  function Find(seen: seq<Tlv>, tag: Byte): Option<seq<Byte>> {
    if seen == [] then None
    else if seen[|seen| - 1].tag == tag then Some(seen[|seen| - 1].value)
    else Find(seen[..|seen| - 1], tag)
  }

  predicate Has(seen: seq<Tlv>, tag: Byte) {
    Find(seen, tag).Some?
  }

  /** A supported record is rejected when repeated, wrongly sized, or too big for the reply. */
  predicate Rejects(seen: seq<Tlv>, t: Tlv, max: nat) {
    Supported(t.tag) && (Has(seen, t.tag) || !WellSized(t) || Ledger(seen) + Cost(t) > max)
  }

  predicate AllAccepted(seen: seq<Tlv>, max: nat) {
    seen != [] ==>
      var init := seen[..|seen| - 1];
      AllAccepted(init, max) && !Rejects(init, seen[|seen| - 1], max)
  }

  function WantsOf(seen: seq<Tlv>): Wants {
    var user := Find(seen, UserDataQ);
    Wants(if user.Some? then user.value else [],
          Has(seen, DeviceIdQ), Has(seen, TimerRxQ), Has(seen, TimerTxQ), Has(seen, LastUpdatedQ))
  }

  /** Full reply: exact tiling, nothing rejected. Header only: the first rejected record
      ends the body exactly. Refused: everything else. */
  function Judge(body: Tiling, max: nat): Verdict {
    if body.rest != [] then Refuse
    else if AllAccepted(body.records, max) then Full(WantsOf(body.records))
    else if AllAccepted(body.records[..|body.records| - 1], max) then HeaderOnly
    else Refuse
  }

  // ---------------------------------------------------------------- bytes of a reply

  function Header(flags: Byte): seq<Tlv> {
    [Tlv(0, [0x4E, 0x48, 0x41, 0x31]), Tlv(1, [0, 0, 0, 1]), Tlv(2, [1]), Tlv(3, [flags])]
  }

  function Part(wanted: bool, t: Tlv): seq<Tlv> {
    if wanted then [t] else []
  }

  /** Reply records, in the fixed order of the writer. */
  function ReplyBody(w: Wants, inp: Inputs): seq<Tlv> {
    Part(w.user != [], Tlv(0x05, w.user))
    + Part(w.device, Tlv(0x11, inp.deviceId))
    + Part(w.rx, Tlv(0x12, LE(inp.rx, 8)))
    + Part(w.tx, Tlv(0x13, LE(inp.tx, 8)))
    + Part(w.updated, Tlv(0x14, LE(inp.lastUpdated, 8)))
  }

  function ReplyRecords(v: Verdict, inp: Inputs): seq<Tlv>
    requires v != Refuse
  {
    if v.Full? then ReplyBody(v.wants, inp) else []
  }

  function ReplyFlags(flags: Byte): Byte {
    if flags == 2 then 1 else 0
  }

  function ReplySum(md5: Md5, flags: Byte, deviceId: Digest, payload: seq<Byte>): Digest {
    if flags == 2 then XorDigest(md5(payload), deviceId) else md5(payload)
  }

  function ReplyFrame(md5: Md5, flags: Byte, body: seq<Tlv>, deviceId: Digest): seq<Byte> {
    var payload := Payload(Header(ReplyFlags(flags)) + body);
    payload + ReplySum(md5, flags, deviceId, payload)
  }

  /** Size, header and checksum of a query are as they must be. */
  predicate WellFormed(md5: Md5, q: seq<Byte>, max: nat, inp: Inputs) {
    && MinMsgSize <= |q| <= MaxMsgSize
    && max >= MinMsgSize
    && FromLE(q[..4]) == |q|
    && (q[21] == 0 || q[21] == 2)
    && q[4..22] == EncodeAll(Header(q[21]))
    && inp.queryDigestOk
    && q[|q| - 16..] == md5(q[..|q| - 16])
  }

  function Respond(md5: Md5, q: seq<Byte>, max: nat, inp: Inputs): Option<seq<Byte>> {
    if !WellFormed(md5, q, max, inp) then None
    else
      var v := Judge(Tile(q[22..|q| - 16]), max);
      if v == Refuse || !inp.replyDigestOk then None
      else Some(ReplyFrame(md5, q[21], ReplyRecords(v, inp), inp.deviceId))
  }

  /** Only a well-formed query is answered: exactly one message, announced size and all. */
  lemma AnsweredIsWellFormed(md5: Md5, q: seq<Byte>, max: nat, inp: Inputs)
    requires Respond(md5, q, max, inp).Some?
    ensures WellFormed(md5, q, max, inp)
  {
  }

  /** A burst is answered only if it is exactly one message: what is answered on its own is refused
      with anything after it, and so is every part of it. */
  lemma BurstIsRefused(md5: Md5, m: seq<Byte>, rest: seq<Byte>, n: nat, max: nat, inp: Inputs, other: Inputs)
    requires Respond(md5, m, max, inp).Some?
    ensures Respond(md5, m + rest, max, inp) == if rest == [] then Respond(md5, m, max, inp) else None
    ensures rest != [] ==> Respond(md5, m + rest, max, other) == None
    ensures n < |m| ==> Respond(md5, m[..n], max, other) == None
  {
    AnsweredIsWellFormed(md5, m, max, inp);
    if rest == [] {
      assert m + rest == m;
    } else {
      PrefixOfAppend(m, rest, 4);
    }
    if 4 <= n < |m| { assert m[..n][..4] == m[..4]; }
  }

  // ---------------------------------------------------------------- the ledger

  /** Reply size as a function of what is wanted. */
  function ReplySize(w: Wants): nat {
    MinMsgSize + (if w.user != [] then 2 + |w.user| else 0) + (if w.device then 18 else 0)
    + (if w.rx then 10 else 0) + (if w.tx then 10 else 0) + (if w.updated then 10 else 0)
  }

  /** Accepted user data is never empty. */
  lemma {:induction false} AcceptedUserData(seen: seq<Tlv>, max: nat)
    requires AllAccepted(seen, max)
    ensures Has(seen, UserDataQ) <==> WantsOf(seen).user != []
  {
    if seen != [] {
      AcceptedUserData(seen[..|seen| - 1], max);
    }
  }

  /** The size accumulated record by record is the size of what will be asked of the writer. */
  lemma {:induction false} LedgerIsReplySize(seen: seq<Tlv>, max: nat)
    requires AllAccepted(seen, max)
    ensures Ledger(seen) == ReplySize(WantsOf(seen))
  {
    if seen != [] {
      var init := seen[..|seen| - 1];
      LedgerIsReplySize(init, max);
      AcceptedUserData(init, max);
    }
  }

  lemma {:induction false} LedgerFits(seen: seq<Tlv>, max: nat)
    requires AllAccepted(seen, max) && max >= MinMsgSize
    ensures Ledger(seen) <= max
  {
    if seen != [] {
      LedgerFits(seen[..|seen| - 1], max);
    }
  }

  lemma EncodeCons(t: Tlv, ts: seq<Tlv>)
    ensures EncodeAll([t] + ts) == Encode(t) + EncodeAll(ts)
  {
    assert ([t] + ts)[1..] == ts;
  }

  lemma EncodeOne(t: Tlv)
    ensures EncodeAll([t]) == Encode(t)
  {
    assert EncodeAll([t]) == Encode(t) + EncodeAll([]);
  }

  function PartSize(wanted: bool, t: Tlv): nat {
    if wanted then 2 + |t.value| else 0
  }

  lemma AppendPart(ts: seq<Tlv>, wanted: bool, t: Tlv)
    requires Short(ts) && |t.value| <= 255
    ensures |EncodeAll(ts + Part(wanted, t))| == |EncodeAll(ts)| + PartSize(wanted, t)
    ensures Short(ts + Part(wanted, t))
  {
    EncodeAllAppend(ts, Part(wanted, t));
    EncodeOne(t);
  }

  lemma FiveParts(w: Wants, a: Tlv, b: Tlv, c: Tlv, d: Tlv, e: Tlv)
    requires Short([a, b, c, d, e])
    ensures var ts := Part(w.user != [], a) + Part(w.device, b) + Part(w.rx, c) + Part(w.tx, d) + Part(w.updated, e);
            && |EncodeAll(ts)| == PartSize(w.user != [], a) + PartSize(w.device, b) + PartSize(w.rx, c)
                                + PartSize(w.tx, d) + PartSize(w.updated, e)
            && Short(ts)
  {
    var l := [a, b, c, d, e];
    assert l[0] in l && l[1] in l && l[2] in l && l[3] in l && l[4] in l;
    var s1 := Part(w.user != [], a);
    AppendPart([], w.user != [], a);
    assert [] + s1 == s1;
    var s2 := s1 + Part(w.device, b);
    AppendPart(s1, w.device, b);
    var s3 := s2 + Part(w.rx, c);
    AppendPart(s2, w.rx, c);
    var s4 := s3 + Part(w.tx, d);
    AppendPart(s3, w.tx, d);
    AppendPart(s4, w.updated, e);
  }

  /** What the writer lays down has the size the ledger promised. */
  lemma ReplyBodySize(w: Wants, inp: Inputs)
    requires |w.user| <= 255
    ensures MinMsgSize + |EncodeAll(ReplyBody(w, inp))| == ReplySize(w) <= 343
    ensures Short(ReplyBody(w, inp))
  {
    FiveParts(w, Tlv(0x05, w.user), Tlv(0x11, inp.deviceId), Tlv(0x12, LE(inp.rx, 8)),
              Tlv(0x13, LE(inp.tx, 8)), Tlv(0x14, LE(inp.lastUpdated, 8)));
  }

  lemma {:induction false} FindIsShort(seen: seq<Tlv>, tag: Byte)
    requires Short(seen)
    ensures Has(seen, tag) ==> |Find(seen, tag).value| <= 255
  {
    if seen != [] {
      assert forall t | t in seen[..|seen| - 1] :: t in seen;
      FindIsShort(seen[..|seen| - 1], tag);
    }
  }

  lemma HeaderBytes(flags: Byte)
    ensures EncodeAll(Header(flags)) == [0, 4, 0x4E, 0x48, 0x41, 0x31, 1, 4, 0, 0, 0, 1, 2, 1, 1, 3, 1, flags]
    ensures Short(Header(flags))
  {
    var h := Header(flags);
    EncodeOne(h[3]);
    EncodeCons(h[2], [h[3]]);
    EncodeCons(h[1], [h[2], h[3]]);
    EncodeCons(h[0], [h[1], h[2], h[3]]);
    assert h == [h[0]] + [h[1], h[2], h[3]];
    assert [h[1], h[2], h[3]] == [h[1]] + [h[2], h[3]];
    assert [h[2], h[3]] == [h[2]] + [h[3]];
  }

  /** The reply's record list: well sized, and its announced size is its real size. */
  lemma ReplyListSize(flags: Byte, body: seq<Tlv>)
    requires Short(body) && |EncodeAll(body)| <= 305
    ensures var ts := Header(flags) + body;
            Short(ts) && 20 + RecordBytes(ts) == AnnouncedSize(ts) == MinMsgSize + |EncodeAll(body)|
    ensures EncodeAll(Header(flags) + body) == EncodeAll(Header(flags)) + EncodeAll(body)
  {
    var ts := Header(flags) + body;
    HeaderBytes(flags);
    EncodeAllAppend(Header(flags), body);
    RecordBytesIsLength(ts);
  }

  /** Records a query can have asked for give a reply body of at most 305 bytes. */
  lemma ReplyRecordsSize(tiled: seq<Byte>, max: nat, inp: Inputs)
    requires max >= MinMsgSize
    requires Judge(Tile(tiled), max) != Refuse
    ensures var v := Judge(Tile(tiled), max);
            var body := ReplyRecords(v, inp);
            && Short(body)
            && MinMsgSize + |EncodeAll(body)| == (if v.Full? then Ledger(Tile(tiled).records) else MinMsgSize)
            && MinMsgSize + |EncodeAll(body)| <= max
            && |EncodeAll(body)| <= 305
  {
    var v, records := Judge(Tile(tiled), max), Tile(tiled).records;
    if v.Full? {
      EncodeInvertsTile(tiled);
      FindIsShort(records, UserDataQ);
      ReplyBodySize(v.wants, inp);
      LedgerIsReplySize(records, max);
      LedgerFits(records, max);
    }
  }

  /** Size ledger: the scan's total, the length prefix and the bytes laid down agree,
      and lie between 38 and the smaller of `max` and 343. */
  lemma SizeLedger(md5: Md5, q: seq<Byte>, max: nat, inp: Inputs)
    requires Respond(md5, q, max, inp).Some?
    ensures var reply := Respond(md5, q, max, inp).value;
            var body := Tile(q[22..|q| - 16]);
            && MinMsgSize <= |reply| <= max
            && |reply| <= 343
            && FromLE(reply[..4]) == |reply|
            && |reply| == (if AllAccepted(body.records, max) then Ledger(body.records) else MinMsgSize)
  {
    var tiled := q[22..|q| - 16];
    var v := Judge(Tile(tiled), max);
    var body := ReplyRecords(v, inp);
    ReplyRecordsSize(tiled, max, inp);
    ReplyListSize(ReplyFlags(q[21]), body);
    FrameLength(md5, q[21], body, inp.deviceId);
  }

  lemma FrameLength(md5: Md5, flags: Byte, body: seq<Tlv>, deviceId: Digest)
    requires Short(body) && |EncodeAll(body)| <= 305
    ensures var f := ReplyFrame(md5, flags, body, deviceId);
            |f| == MinMsgSize + |EncodeAll(body)| && FromLE(f[..4]) == |f|
  {
    var ts := Header(ReplyFlags(flags)) + body;
    ReplyListSize(ReplyFlags(flags), body);
    PayloadLength(ts);
    var payload := Payload(ts);
    PrefixOfAppend(payload, ReplySum(md5, flags, deviceId, payload), 4);
  }

  lemma PayloadLength(ts: seq<Tlv>)
    requires Short(ts) && 20 + RecordBytes(ts) < MaxU32
    ensures |Payload(ts)| + 16 == 20 + RecordBytes(ts)
    ensures FromLE(Payload(ts)[..4]) == 20 + RecordBytes(ts)
  {
    RecordBytesIsLength(ts);
    Pow256Values();
    FromLERoundTrip(AnnouncedSize(ts), 4);
    assert Payload(ts)[..4] == LE(AnnouncedSize(ts), 4);
  }
}

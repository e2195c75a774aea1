/** Exactly which byte strings the server answers. */
module Acceptance {
  import opened Bytes
  import opened Options
  import opened Tlvs
  import opened ClientCodec
  import opened Protocol
  import opened EndToEnd

  // ---------------------------------------------------------------- bodies

  /** Nothing in the body is rejected: sizes right, nothing repeated, and the reply fits. */
  ghost predicate Fine(body: seq<Tlv>, max: nat) {
    Clean(body) && Ledger(body) <= max
  }

  /** Nothing is rejected, or the last record at most. */
  ghost predicate Tolerable(body: seq<Tlv>, max: nat) {
    Fine(body, max) || (body != [] && Fine(body[..|body| - 1], max))
  }

  lemma AcceptedIffFine(body: seq<Tlv>, max: nat)
    requires max >= MinMsgSize
    ensures AllAccepted(body, max) <==> Fine(body, max)
  {
    if AllAccepted(body, max) {
      AcceptedIsClean(body, max);
      LedgerFits(body, max);
    }
    if Fine(body, max) { CleanIsAccepted(body, max); }
  }

  lemma AnswerableIffTolerable(body: seq<Tlv>, max: nat)
    requires max >= MinMsgSize
    ensures Judge(Tiling(body, []), max) != Refuse <==> Tolerable(body, max)
  {
    hide AllAccepted, Fine, WantsOf;
    AcceptedIffFine(body, max);
    if body == [] {
      NothingAccepted(max);
    } else {
      AcceptedIffFine(body[..|body| - 1], max);
    }
  }

  lemma NothingAccepted(max: nat)
    ensures AllAccepted([], max)
  {
  }

  // ---------------------------------------------------------------- checksums

  /** The XOR of two digests is zero only if they are equal. */
  lemma XorZeroIff(a: Digest, b: Digest)
    ensures XorDigest(a, b) == ZeroDigest <==> a == b
  {
    XorDigestCancels(a, b);
    XorDigestCancels(a, a);
  }

  // ---------------------------------------------------------------- from the decoded message

  /** What the client's decoder must say of a query for the server to answer it. */
  ghost predicate ReadsAsQuery(md5: Md5, q: seq<Byte>, max: nat) {
    && Decode(md5, q).Some?
    && var d := Decode(md5, q).value;
       && d.consumed == |q|
       && d.xored == ZeroDigest
       && |d.tlvs| >= 4
       && (d.tlvs[..4] == Header(0) || d.tlvs[..4] == Header(2))
       && Tolerable(d.tlvs[4..], max)
  }

  /** A query is answered if and only if the digests can be computed, it has at most 32768 bytes, the
      reply buffer holds a header and checksum, and the client's own decoder reads all of it as a
      message with a correct checksum, a header with flags 0 or 2, and a body of which at most the
      last record is rejected. */
  lemma AnsweredIff(md5: Md5, q: seq<Byte>, max: nat, inp: Inputs)
    ensures Respond(md5, q, max, inp).Some?
       <==> && inp.queryDigestOk && inp.replyDigestOk && 38 <= max && |q| <= 32768
            && ReadsAsQuery(md5, q, max)
  {
    if Respond(md5, q, max, inp).Some? {
      AnsweredReads(md5, q, max, inp);
    } else if inp.queryDigestOk && inp.replyDigestOk && 38 <= max && |q| <= 32768 && ReadsAsQuery(md5, q, max) {
      ReadsIsWellFormed(md5, q, max, inp);
      AnswerableIffTolerable(Decode(md5, q).value.tlvs[4..], max);
    }
  }

  lemma AnsweredReads(md5: Md5, q: seq<Byte>, max: nat, inp: Inputs)
    requires Respond(md5, q, max, inp).Some?
    ensures ReadsAsQuery(md5, q, max) && 38 <= max && |q| <= 32768
  {
    hide Judge, Tolerable, Tile, FromLE, EncodeAll, XorDigest, Header, ReplyFrame;
    AnsweredIsWellFormed(md5, q, max, inp);
    var body := Tile(q[22..|q| - 16]);
    RefusedWithRest(body, max);
    ClientReadsQuery(md5, q, max, inp);
    AnswerableIffTolerable(body.records, max);
    assert body == Tiling(body.records, []);
    var d := Decode(md5, q).value;
    FourHeaders(q[21]);
    HeaderThenBody(Header(q[21]), body.records);
    XorZeroIff(d.received, d.calculated);
    assert q[|q| - 16..|q|] == q[|q| - 16..];
  }

  lemma FourHeaders(flags: Byte)
    ensures |Header(flags)| == 4
  {
  }

  lemma RefusedWithRest(body: Tiling, max: nat)
    requires Judge(body, max) != Refuse
    ensures body.rest == []
  {
  }

  /** The parts of a query, found again from the records of the whole. */
  lemma ReadsIsWellFormed(md5: Md5, q: seq<Byte>, max: nat, inp: Inputs)
    requires ReadsAsQuery(md5, q, max) && inp.queryDigestOk && 38 <= max && |q| <= 32768
    ensures WellFormed(md5, q, max, inp)
    ensures Tile(q[22..|q| - 16]) == Tiling(Decode(md5, q).value.tlvs[4..], [])
  {
    hide Tolerable, Tile, FromLE, EncodeAll, Header;
    var d := Decode(md5, q).value;
    var head, body := d.tlvs[..4], d.tlvs[4..];
    var area := q[4..|q| - 16];
    assert d.tlvs == head + body;
    EncodeInvertsTile(area);
    assert EncodeAll(d.tlvs) == area by { assert EncodeAll(d.tlvs) + [] == EncodeAll(d.tlvs); }
    EncodeAllAppend(head, body);
    HeaderBytes(if head == Header(0) then 0 else 2);
    Areas(q, EncodeAll(head), EncodeAll(body));
    assert Short(body);
    TileInvertsEncode(body);
    XorZeroIff(d.received, d.calculated);
    assert q[|q| - 16..|q|] == q[|q| - 16..];
  }

  lemma Areas(q: seq<Byte>, head: seq<Byte>, body: seq<Byte>)
    requires |q| >= 20 && q[4..|q| - 16] == head + body && |head| == 18
    ensures |q| == 38 + |body| && q[4..22] == head && q[22..|q| - 16] == body && q[21] == head[17]
  {
    var area := q[4..|q| - 16];
    assert |area| == |q| - 20;
    SliceOfSlice(q, 4, |q| - 16, 0, 18);
    SliceOfSlice(q, 4, |q| - 16, 18, |area|);
    Slices(head, body, [], []);
    assert head + body + [] + [] == head + body;
    assert area[18..|area|] == area[18..] && area[0..18] == area[..18];
    assert q[4..22][17] == q[21];
  }

  /** The server answers exactly frames that the client would write: header with flags 0 or 2 and
      tolerable records of at most 255 bytes, 32768 bytes in all. */
  lemma AnswersExactlyClientFrames(md5: Md5, q: seq<Byte>, max: nat, inp: Inputs)
    requires inp.queryDigestOk && inp.replyDigestOk && 38 <= max
    ensures Respond(md5, q, max, inp).Some?
       <==> exists flags: Byte, records :: ClientFrame(md5, q, flags, records) && Tolerable(records, max)
  {
    hide Tolerable, Respond, Decode;
    AnsweredIff(md5, q, max, inp);
    if ReadsAsQuery(md5, q, max) && |q| <= 32768 {
      var flags, records := FrameOf(md5, q, max);
      assert ClientFrame(md5, q, flags, records);
    }
    forall flags: Byte, records | ClientFrame(md5, q, flags, records) && Tolerable(records, max)
      ensures ReadsAsQuery(md5, q, max) && |q| <= 32768
    {
      FrameReads(md5, q, flags, records, max);
    }
  }

  /** `q` is what the client serializes for these records, within the server's size limit. */
  ghost predicate ClientFrame(md5: Md5, q: seq<Byte>, flags: Byte, records: seq<Tlv>) {
    && (flags == 0 || flags == 2)
    && Short(records)
    && q == QueryOf(md5, flags, records)
    && |q| <= 32768
  }

  lemma FrameReads(md5: Md5, q: seq<Byte>, flags: Byte, records: seq<Tlv>, max: nat)
    requires ClientFrame(md5, q, flags, records) && Tolerable(records, max)
    ensures ReadsAsQuery(md5, q, max)
  {
    hide Tolerable, Decode, Payload, EncodeAll;
    var ts := Header(flags) + records;
    HeaderThenBody(Header(flags), records);
    assert Short(ts);
    FrameBytes(md5, ts);
    RoundTripIffShort(md5, ts);
  }

  lemma FrameBytes(md5: Md5, ts: seq<Tlv>)
    ensures |Frame(md5, ts)| == 20 + |EncodeAll(ts)|
  {
  }

  lemma FrameOf(md5: Md5, q: seq<Byte>, max: nat) returns (flags: Byte, records: seq<Tlv>)
    requires ReadsAsQuery(md5, q, max) && |q| <= 32768
    ensures ClientFrame(md5, q, flags, records) && Tolerable(records, max)
  {
    hide Tolerable, Tile, FromLE, EncodeAll, Payload, Header;
    var d := Decode(md5, q).value;
    flags := if d.tlvs[..4] == Header(0) then 0 else 2;
    records := d.tlvs[4..];
    ReserializeReproduces(md5, q);
    DecodedIsShort(md5, q);
    assert d.tlvs == d.tlvs[..4] + records;
    XorZeroIff(d.received, d.calculated);
    assert q == q[..|q| - 16] + q[|q| - 16..|q|];
  }

  /** A query whose last sixteen bytes are not the digest of the rest is never answered. */
  lemma CorruptIsRefused(md5: Md5, q: seq<Byte>, max: nat, inp: Inputs)
    requires |q| >= 16 && q[|q| - 16..] != md5(q[..|q| - 16])
    ensures Respond(md5, q, max, inp) == None
  {
  }
}

/** When a reply keeps the order of the query, as doc/NHA_IF.md asks under "Message body". */
module QueryOrder {
  import opened Bytes
  import opened Options
  import opened Tlvs
  import opened ClientCodec
  import opened Protocol
  import opened EndToEnd

  /** The answers to the supported requests, in the order of the query. */
  function Requested(records: seq<Tlv>, inp: Inputs): seq<Tlv> {
    if records == [] then []
    else
      var last := records[|records| - 1];
      Requested(records[..|records| - 1], inp) + (if Supported(last.tag) then [Answer(last, inp)] else [])
  }

  ghost predicate Ascending(ts: seq<Tlv>) {
    forall i, j | 0 <= i < j < |ts| :: ts[i].tag < ts[j].tag
  }

  /** The supported requests stand in ascending tag order; what is between them does not matter. */
  ghost predicate RequestsAscend(records: seq<Tlv>) {
    forall i, j | 0 <= i < j < |records| && Supported(records[i].tag) && Supported(records[j].tag) ::
      records[i].tag < records[j].tag
  }

  // ---------------------------------------------------------------- ascending lists

  lemma LastIsGreatest(ts: seq<Tlv>, t: Tlv)
    requires Ascending(ts) && t in ts
    ensures t == ts[|ts| - 1] || t.tag < ts[|ts| - 1].tag
  {
  }

  /** Without its last element an ascending list has one member less. */
  lemma InitMembers(ts: seq<Tlv>)
    requires Ascending(ts) && ts != []
    ensures Ascending(ts[..|ts| - 1])
    ensures Members(ts[..|ts| - 1]) == Members(ts) - {ts[|ts| - 1]}
  {
    var init, last := ts[..|ts| - 1], ts[|ts| - 1];
    assert ts == init + [last];
    assert last !in init;
  }

  lemma SameLast(a: seq<Tlv>, b: seq<Tlv>)
    requires Ascending(a) && Ascending(b) && Members(a) == Members(b) && a != []
    ensures b != [] && a[|a| - 1] == b[|b| - 1]
  {
    assert a[|a| - 1] in Members(a);
    assert b != [] && b[|b| - 1] in Members(b);
    LastIsGreatest(a, b[|b| - 1]);
    LastIsGreatest(b, a[|a| - 1]);
  }

  /** Two ascending lists with the same members are the same list. */
  lemma {:induction false} AscendingUnique(a: seq<Tlv>, b: seq<Tlv>)
    requires Ascending(a) && Ascending(b) && Members(a) == Members(b)
    ensures a == b
    decreases |a|
  {
    hide Ascending, Members;
    if a == [] {
      if b != [] { HasMember(b); }
    } else {
      SameLast(a, b);
      InitMembers(a);
      InitMembers(b);
      AscendingUnique(a[..|a| - 1], b[..|b| - 1]);
      assert a == a[..|a| - 1] + [a[|a| - 1]] && b == b[..|b| - 1] + [b[|b| - 1]];
    }
  }

  lemma HasMember(b: seq<Tlv>)
    requires b != []
    ensures Members(b) != Members([])
  {
    assert b[0] in Members(b);
  }

  lemma AppendAscends(ts: seq<Tlv>, t: Tlv)
    ensures Ascending(ts + [t]) <==> Ascending(ts) && forall x | x in ts :: x.tag < t.tag
  {
    var all := ts + [t];
    if Ascending(all) {
      assert forall i | 0 <= i < |ts| :: all[i] == ts[i] && all[i].tag < all[|ts|].tag;
    }
  }

  // ---------------------------------------------------------------- requests and answers

  lemma {:induction false} RequestedMembers(records: seq<Tlv>, inp: Inputs)
    ensures Members(Requested(records, inp)) == Answers(records, inp)
  {
    if records != [] {
      var init, last := records[..|records| - 1], records[|records| - 1];
      assert records == init + [last];
      RequestedMembers(init, inp);
      MembersAppend(Requested(init, inp), if Supported(last.tag) then [Answer(last, inp)] else []);
      AnswersAppend(init, last, inp);
    }
  }

  lemma MembersAppend(a: seq<Tlv>, b: seq<Tlv>)
    ensures Members(a + b) == Members(a) + Members(b)
  {
  }

  lemma AnswersAppend(init: seq<Tlv>, last: Tlv, inp: Inputs)
    ensures Answers(init + [last], inp)
         == Answers(init, inp) + Members(if Supported(last.tag) then [Answer(last, inp)] else [])
  {
  }

  /** The writer's tags are ordered like the tags of the requests they answer. */
  lemma AnswerOrder(q: Tlv, r: Tlv, inp: Inputs)
    requires Supported(q.tag) && Supported(r.tag)
    ensures Answer(q, inp).tag < Answer(r, inp).tag <==> q.tag < r.tag
  {
  }

  lemma AnswersBelow(records: seq<Tlv>, last: Tlv, inp: Inputs)
    requires Supported(last.tag)
    ensures (forall x | x in Requested(records, inp) :: x.tag < Answer(last, inp).tag)
       <==> (forall q | q in records && Supported(q.tag) :: q.tag < last.tag)
  {
    RequestedMembers(records, inp);
    forall x ensures x in Requested(records, inp) <==> x in Answers(records, inp) {
      assert x in Requested(records, inp) <==> x in Members(Requested(records, inp));
    }
    forall q | q in records && Supported(q.tag)
      ensures Answer(q, inp) in Answers(records, inp)
      ensures Answer(q, inp).tag < Answer(last, inp).tag <==> q.tag < last.tag
    {
      AnswerOrder(q, last, inp);
    }
  }

  lemma RequestsAppend(init: seq<Tlv>, last: Tlv)
    ensures RequestsAscend(init + [last])
       <==> RequestsAscend(init) && (Supported(last.tag) ==> forall q | q in init && Supported(q.tag) :: q.tag < last.tag)
  {
    var all := init + [last];
    if RequestsAscend(all) && Supported(last.tag) {
      forall q | q in init && Supported(q.tag) ensures q.tag < last.tag {
        var i :| 0 <= i < |init| && init[i] == q;
        assert all[i] == q && all[|init|] == last;
      }
    }
    if RequestsAscend(all) {
      assert forall i | 0 <= i < |init| :: all[i] == init[i];
    }
  }

  lemma {:induction false} RequestedAscends(records: seq<Tlv>, inp: Inputs)
    ensures Ascending(Requested(records, inp)) <==> RequestsAscend(records)
  {
    hide Ascending, RequestsAscend;
    if records == [] {
      EmptyAscends(inp);
    } else {
      var init, last := records[..|records| - 1], records[|records| - 1];
      assert records == init + [last];
      RequestedAscends(init, inp);
      RequestsAppend(init, last);
      if Supported(last.tag) {
        AppendAscends(Requested(init, inp), Answer(last, inp));
        AnswersBelow(init, last, inp);
      } else {
        assert Requested(records, inp) == Requested(init, inp);
      }
    }
  }

  lemma EmptyAscends(inp: Inputs)
    ensures Ascending(Requested([], inp)) && RequestsAscend([])
  {
  }

  // ---------------------------------------------------------------- the theorem

  /** The answers the client decodes come in query order if and only if the supported requests of
      the query are in ascending tag order. */
  lemma QueryOrderKeptIff(md5: Md5, flags: Byte, records: seq<Tlv>, max: nat, inp: Inputs)
    requires flags == 0 || flags == 2
    requires Short(records) && MinMsgSize + |EncodeAll(records)| <= MaxMsgSize
    requires max >= MinMsgSize && inp.queryDigestOk && inp.replyDigestOk
    requires AllAccepted(records, max)
    ensures var reply := Respond(md5, QueryOf(md5, flags, records), max, inp);
            && reply.Some? && Decode(md5, reply.value).Some?
            && var d := Decode(md5, reply.value).value;
               |d.tlvs| >= 4 && (d.tlvs[4..] == Requested(records, inp) <==> RequestsAscend(records))
  {
    hide Respond, Decode, QueryOf, AllAccepted, Short, Header, RequestsAscend, Answers, Members;
    EndToEndReply(md5, flags, records, max, inp);
    var d := Decode(md5, Respond(md5, QueryOf(md5, flags, records), max, inp).value).value;
    var body := d.tlvs[4..];
    BodyAscends(d.tlvs);
    RequestedMembers(records, inp);
    RequestedAscends(records, inp);
    if RequestsAscend(records) { AscendingUnique(body, Requested(records, inp)); }
  }

  lemma BodyAscends(ts: seq<Tlv>)
    requires |ts| >= 4 && forall i, j | 4 <= i < j < |ts| :: ts[i].tag < ts[j].tag
    ensures Ascending(ts[4..])
  {
    assert forall i | 0 <= i < |ts| - 4 :: ts[4..][i] == ts[i + 4];
  }

  /** Asking for TX before RX gets RX first. */
  lemma TxBeforeRxIsReordered(md5: Md5, inp: Inputs)
    requires inp.queryDigestOk && inp.replyDigestOk
    ensures var records := [Tlv(TimerTxQ, []), Tlv(TimerRxQ, [])];
            var reply := Respond(md5, QueryOf(md5, 0, records), 343, inp);
            && reply.Some? && Decode(md5, reply.value).Some?
            && var d := Decode(md5, reply.value).value;
               && |d.tlvs| >= 4
               && d.tlvs[4..] == [Tlv(0x12, LE(inp.rx, 8)), Tlv(0x13, LE(inp.tx, 8))]
               && Requested(records, inp) == [Tlv(0x13, LE(inp.tx, 8)), Tlv(0x12, LE(inp.rx, 8))]
  {
    var tx, rx := Tlv(TimerTxQ, []), Tlv(TimerRxQ, []);
    TwoTimersAccepted(tx, rx);
    TwoTimersAccepted(rx, tx);
    hide Respond, Decode, AllAccepted, Requested, QueryOf, EncodeAll, LE;
    OtherOrder(md5, inp, tx, rx);
    TwoRequested(tx, rx, inp);
    PairInOrder(md5, inp, rx, tx);
  }

  lemma PairInOrder(md5: Md5, inp: Inputs, a: Tlv, b: Tlv)
    requires inp.queryDigestOk && inp.replyDigestOk
    requires Supported(a.tag) && Supported(b.tag) && a.tag < b.tag
    requires AllAccepted([a, b], 343) && Short([a, b]) && |EncodeAll([a, b])| == 4
    ensures var reply := Respond(md5, QueryOf(md5, 0, [a, b]), 343, inp);
            && reply.Some? && Decode(md5, reply.value).Some?
            && var d := Decode(md5, reply.value).value;
               |d.tlvs| >= 4 && d.tlvs[4..] == [Answer(a, inp), Answer(b, inp)]
  {
    hide Respond, Decode, AllAccepted, Requested, QueryOf, EncodeAll, Answer, Short;
    TwoRequested(a, b, inp);
    QueryOrderKeptIff(md5, 0, [a, b], 343, inp);
  }

  lemma TwoTimersAccepted(a: Tlv, b: Tlv)
    requires a.value == [] && b.value == [] && a.tag != b.tag
    requires (a.tag == TimerTxQ || a.tag == TimerRxQ) && (b.tag == TimerTxQ || b.tag == TimerRxQ)
    ensures AllAccepted([a, b], 343) && Short([a, b]) && |EncodeAll([a, b])| == 4
  {
    var ab := [a, b];
    assert ab[..|ab| - 1] == [a];
    assert AllAccepted([a], 343) by { assert AllAccepted([], 343) && !Rejects([], a, 343); }
    assert Ledger([a]) == 48 by { assert Ledger([]) == 38; }
    assert Find([a], b.tag) == None;
    EncodeOne(b);
    assert ab == [a] + [b];
    EncodeCons(a, [b]);
  }

  lemma TwoRequested(a: Tlv, b: Tlv, inp: Inputs)
    requires Supported(a.tag) && Supported(b.tag)
    ensures Requested([a, b], inp) == [Answer(a, inp), Answer(b, inp)]
  {
    var ab := [a, b];
    assert ab[..|ab| - 1] == [a];
    assert Requested([a], inp) == Requested([], inp) + [Answer(a, inp)];
  }

  /** Both orders of a query get the same reply. */
  lemma OtherOrder(md5: Md5, inp: Inputs, a: Tlv, b: Tlv)
    requires inp.queryDigestOk && inp.replyDigestOk
    requires AllAccepted([a, b], 343) && Short([a, b]) && |EncodeAll([a, b])| == 4
    requires Short([b, a]) && |EncodeAll([b, a])| == 4
    ensures Respond(md5, QueryOf(md5, 0, [a, b]), 343, inp) == Respond(md5, QueryOf(md5, 0, [b, a]), 343, inp)
  {
    hide Respond, AllAccepted;
    assert multiset([a, b]) == multiset([b, a]);
    ReplyIgnoresOrderAndUnsupported(md5, 0, [a, b], [b, a], 343, inp);
  }
}

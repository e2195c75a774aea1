/** `MessageBuilder::createResponse` of src/messagebuilder.cpp, in place on its buffers. */
module MessageBuilder {
  import opened Bytes
  import opened Options
  import opened Tlvs
  import opened ClientCodec
  import opened Protocol

  /** Result of walking a query body. */
  datatype Scan = Malformed | WithoutBody | Body(wants: Wants, size: nat)

  /** `try_add_unsigned` of src/auxiliary.h on 32-bit operands: the bounded add. */
  method TryAddUnsigned(value: nat, increment: nat, maxValue: nat) returns (ok: bool, sum: nat)
    requires value < MaxU32 && increment < MaxU32 && maxValue < MaxU32
    ensures ok <==> value + increment <= maxValue
    ensures sum == if ok then value + increment else value
    ensures sum < MaxU32
  {
    if increment > maxValue {
      return false, value;
    } else if value > maxValue - increment {
      return false, value;
    } else {
      return true, value + increment;
    }
  }

  /** Compares `q[at..]` with `expected`, byte by byte. */
  method Matches(q: seq<Byte>, at: nat, expected: seq<Byte>) returns (same: bool)
    requires at + |expected| <= |q|
    ensures same <==> q[at..at + |expected|] == expected
  {
    for i := 0 to |expected|
      invariant forall k | 0 <= k < i :: q[at + k] == expected[k]
    {
      if q[at + i] != expected[i] {
        assert q[at..at + |expected|][i] != expected[i];
        return false;
      }
    }
    return true;
  }

  /** The header bytes as the source inspects them, piece by piece. */
  lemma HeaderPieces(h: seq<Byte>, flags: Byte)
    requires |h| == 18
    ensures h == EncodeAll(Header(flags))
       <==> && h[0] == 0 && h[1] == 4 && h[2..6] == [0x4E, 0x48, 0x41, 0x31]
            && h[6] == 1 && h[7] == 4 && h[8..12] == [0, 0, 0, 1]
            && h[12] == 2 && h[13] == 1 && h[14] == 1 && h[15] == 3 && h[16] == 1 && h[17] == flags
  {
    hide EncodeAll, Header;
    HeaderBytes(flags);
    FourBytes(h, 2, [0x4E, 0x48, 0x41, 0x31]);
    FourBytes(h, 8, [0, 0, 0, 1]);
  }

  lemma FourBytes(h: seq<Byte>, at: nat, four: seq<Byte>)
    requires at + 4 <= |h| && |four| == 4
    ensures h[at..at + 4] == four
       <==> h[at] == four[0] && h[at + 1] == four[1] && h[at + 2] == four[2] && h[at + 3] == four[3]
  {
    var s := h[at..at + 4];
    assert s[0] == h[at] && s[1] == h[at + 1] && s[2] == h[at + 2] && s[3] == h[at + 3];
  }

  /** The header checks of lines 126-167. */
  method CheckHeader(q: seq<Byte>) returns (ok: bool)
    requires |q| >= 22
    ensures ok <==> (q[21] == 0 || q[21] == 2) && q[4..22] == EncodeAll(Header(q[21]))
  {
    hide EncodeAll, Header;
    var magic := Matches(q, 6, [0x4E, 0x48, 0x41, 0x31]);
    var version := Matches(q, 12, [0, 0, 0, 1]);
    ok := q[4] == 0 && q[5] == 4 && magic && q[10] == 1 && q[11] == 4 && version
          && q[16] == 2 && q[17] == 1 && q[18] == 1 && q[19] == 3 && q[20] == 1
          && (q[21] == 0 || q[21] == 2);
    HeaderPieces(q[4..22], q[21]);
    SliceOfSlice(q, 4, 22, 2, 6);
    SliceOfSlice(q, 4, 22, 8, 12);
  }

  /** The want-flags and the size ledger reflect the accepted records `seen`. */
  ghost predicate Scanned(seen: seq<Tlv>, max: nat, w: Wants, sizeR: nat) {
    AllAccepted(seen, max) && w == WantsOf(seen) && sizeR == Ledger(seen) < MaxU32
  }

  /** One turn of the record switch; `seen` are the records accepted before it. */
  method ScanRecord(w: Wants, sizeR: nat, tag: Byte, value: seq<Byte>, max: nat, ghost seen: seq<Tlv>)
    returns (rejected: bool, w': Wants, sizeR': nat)
    requires max < MaxU32 && |value| <= 255
    requires Scanned(seen, max, w, sizeR)
    ensures rejected <==> Rejects(seen, Tlv(tag, value), max)
    ensures rejected ==> w' == w && sizeR' == sizeR
    ensures !rejected ==> Scanned(seen + [Tlv(tag, value)], max, w', sizeR')
  {
    rejected, w', sizeR' := false, w, sizeR;
    var ok: bool;
    AcceptedUserData(seen, max);
    ghost var now := seen + [Tlv(tag, value)];
    assert now[..|now| - 1] == seen;
    if tag == UserDataQ {
      if w.user != [] || |value| < 1 { return true, w, sizeR; }
      ok, sizeR' := TryAddUnsigned(sizeR, 2 + |value|, max);
      if !ok { return true, w, sizeR; }
      w' := w.(user := value);
    } else if tag == DeviceIdQ {
      if w.device || |value| != 0 { return true, w, sizeR; }
      ok, sizeR' := TryAddUnsigned(sizeR, 2 + 16, max);
      if !ok { return true, w, sizeR; }
      w' := w.(device := true);
    } else if tag == TimerRxQ {
      if w.rx || |value| != 0 { return true, w, sizeR; }
      ok, sizeR' := TryAddUnsigned(sizeR, 2 + 8, max);
      if !ok { return true, w, sizeR; }
      w' := w.(rx := true);
    } else if tag == TimerTxQ {
      if w.tx || |value| != 0 { return true, w, sizeR; }
      ok, sizeR' := TryAddUnsigned(sizeR, 2 + 8, max);
      if !ok { return true, w, sizeR; }
      w' := w.(tx := true);
    } else if tag == LastUpdatedQ {
      if w.updated || |value| != 0 { return true, w, sizeR; }
      ok, sizeR' := TryAddUnsigned(sizeR, 2 + 8, max);
      if !ok { return true, w, sizeR; }
      w' := w.(updated := true);
    }
  }

  lemma {:induction false} AcceptedPrefix(a: seq<Tlv>, b: seq<Tlv>, max: nat)
    requires AllAccepted(a + b, max)
    ensures AllAccepted(a, max)
  {
    if b == [] {
      assert a + b == a;
    } else {
      assert (a + b)[..|a + b| - 1] == a + b[..|b| - 1];
      AcceptedPrefix(a, b[..|b| - 1], max);
    }
  }

  /** Once a record is rejected, only an exactly ended body gets the header-only reply. */
  lemma JudgeRejected(whole: seq<Byte>, seen: seq<Tlv>, bad: Tlv, left: seq<Byte>, max: nat)
    requires Walked(whole, seen + [bad], left)
    requires AllAccepted(seen, max) && Rejects(seen, bad, max)
    ensures Judge(Tile(whole), max) == if left == [] then HeaderOnly else Refuse
  {
    var r := seen + [bad];
    var records, more := Tile(whole).records, Tile(left).records;
    assert r[..|r| - 1] == seen;
    assert !AllAccepted(r, max);
    if AllAccepted(records, max) { AcceptedPrefix(r, more, max); }
    if left == [] {
      assert records == r;
    } else if more != [] {
      assert records[..|records| - 1] == r + more[..|more| - 1];
      if AllAccepted(records[..|records| - 1], max) { AcceptedPrefix(r, more[..|more| - 1], max); }
    } else {
      assert Tile(whole).rest == left;
    }
  }

  /** The record loop of lines 219-308 over `q[start..end]`. */
  method ScanBody(q: seq<Byte>, start: nat, end: nat, max: nat) returns (scan: Scan)
    requires start <= end <= |q| && MinMsgSize <= max < MaxU32
    ensures match Judge(Tile(q[start..end]), max)
            case Refuse => scan == Malformed
            case HeaderOnly => scan == WithoutBody
            case Full(w) => scan == Body(w, Ledger(Tile(q[start..end]).records))
  {
    ghost var whole := q[start..end];
    WalkStart(whole);
    var w := Wants([], false, false, false, false);
    var pos, sizeR, withoutBody := start, MinMsgSize, false;
    ghost var seen: seq<Tlv>, bad := [], Tlv(0, []);
    while end - pos >= 2 && !withoutBody
      invariant start <= pos <= end
      invariant Scanned(seen, max, w, sizeR)
      invariant if withoutBody then Rejects(seen, bad, max) && Walked(whole, seen + [bad], q[pos..end])
                else Walked(whole, seen, q[pos..end])
      decreases end - pos
    {
      var length := Extent(q[pos + 1]);
      if end - pos < length { break; }
      WalkAt(whole, seen, q, pos, end);
      var tag, value := q[pos], q[pos + 2..pos + length];
      bad := Tlv(tag, value);
      withoutBody, w, sizeR := ScanRecord(w, sizeR, tag, value, max, seen);
      if !withoutBody { seen := seen + [bad]; }
      pos := pos + length;
    }
    if withoutBody {
      JudgeRejected(whole, seen, bad, q[pos..end], max);
    } else {
      WalkAt(whole, seen, q, pos, end);
    }
    if end - pos > 0 { return Malformed; }
    if withoutBody { return WithoutBody; }
    return Body(w, sizeR);
  }

  /** Lines 320-348: length prefix and header records. */
  method WriteHeader(response: array<Byte>, sizeR: nat, flagsR: Byte)
    requires response.Length >= 22 && sizeR < MaxU32
    modifies response
    ensures response[..22] == LE(sizeR, 4) + EncodeAll(Header(flagsR))
    ensures forall k | 22 <= k < response.Length :: response[k] == old(response[k])
  {
    PutLE(sizeR, 4, response, 0);
    var e := [0, 4, 0x4E, 0x48, 0x41, 0x31, 1, 4, 0, 0, 0, 1, 2, 1, 1, 3, 1, flagsR];
    Put(response, 4, e);
    HeaderBytes(flagsR);
    assert response[..22] == response[..4] + response[4..22];
  }

  /** One record of lines 355-396: written unless the guard on the 16-bit counter drops it. */
  method WritePart(response: array<Byte>, complete: nat, wanted: bool, t: Tlv) returns (complete': nat)
    requires |t.value| <= 255 && complete + 2 + |t.value| < MaxMsgSize
    requires complete + PartSize(wanted, t) <= response.Length
    modifies response
    ensures complete' == complete + PartSize(wanted, t)
    ensures response[..complete'] == old(response[..complete]) + EncodeAll(Part(wanted, t))
    ensures forall k | complete' <= k < response.Length :: response[k] == old(response[k])
  {
    complete' := complete;
    ghost var before := response[..complete];
    if wanted && complete + 2 + |t.value| < MaxMsgSize {
      Put(response, complete, [t.tag, |t.value| % 256]);
      Put(response, complete + 2, t.value);
      complete' := (complete + 2 + |t.value|) % 0x1_0000;
      EncodeOne(t);
      TwoPuts(response[..], complete, complete + 2, complete');
      assert response[..complete'] == before + Encode(t);
    } else {
      assert before + [] == before;
    }
  }

  lemma TwoPuts(s: seq<Byte>, a: nat, b: nat, c: nat)
    requires a <= b <= c <= |s|
    ensures s[..c] == s[..a] + (s[a..b] + s[b..c])
  {
  }

  /** Lines 353-397: the reply records, in their fixed order. */
  method WriteBody(response: array<Byte>, w: Wants, inp: Inputs) returns (complete: nat)
    requires |w.user| <= 255 && ReplySize(w) <= response.Length
    modifies response
    ensures complete == 22 + |EncodeAll(ReplyBody(w, inp))| == ReplySize(w) - 16
    ensures response[..complete] == old(response[..22]) + EncodeAll(ReplyBody(w, inp))
    ensures forall k | complete <= k < response.Length :: response[k] == old(response[k])
  {
    hide Part, EncodeAll;
    ghost var p := response[..22];
    var a, b := Tlv(0x05, w.user), Tlv(0x11, inp.deviceId);
    var c, d, e := Tlv(0x12, LE(inp.rx, 8)), Tlv(0x13, LE(inp.tx, 8)), Tlv(0x14, LE(inp.lastUpdated, 8));
    complete := 22;
    complete := WritePart(response, complete, w.user != [], a);
    complete := WritePart(response, complete, w.device, b);
    complete := WritePart(response, complete, w.rx, c);
    complete := WritePart(response, complete, w.tx, d);
    complete := WritePart(response, complete, w.updated, e);
    FivePartBytes(p, w, a, b, c, d, e);
    ReplyBodySize(w, inp);
  }

  lemma FivePartBytes(p: seq<Byte>, w: Wants, a: Tlv, b: Tlv, c: Tlv, d: Tlv, e: Tlv)
    ensures p + EncodeAll(Part(w.user != [], a)) + EncodeAll(Part(w.device, b)) + EncodeAll(Part(w.rx, c))
              + EncodeAll(Part(w.tx, d)) + EncodeAll(Part(w.updated, e))
         == p + EncodeAll(Part(w.user != [], a) + Part(w.device, b) + Part(w.rx, c) + Part(w.tx, d) + Part(w.updated, e))
  {
    var s1, s2, s3, s4, s5 := Part(w.user != [], a), Part(w.device, b), Part(w.rx, c), Part(w.tx, d), Part(w.updated, e);
    EncodeAllAppend(s1, s2);
    EncodeAllAppend(s1 + s2, s3);
    EncodeAllAppend(s1 + s2 + s3, s4);
    EncodeAllAppend(s1 + s2 + s3 + s4, s5);
    FiveAssoc(p, EncodeAll(s1), EncodeAll(s2), EncodeAll(s3), EncodeAll(s4), EncodeAll(s5));
  }

  lemma FiveAssoc<T>(p: seq<T>, a: seq<T>, b: seq<T>, c: seq<T>, d: seq<T>, e: seq<T>)
    ensures p + a + b + c + d + e == p + (a + b + c + d + e)
  {
  }

  /** Lines 399-422: the checksum of what was written, XORed with the Device-ID on request. */
  method WriteChecksum(md5: Md5, response: array<Byte>, complete: nat, flags: Byte, deviceId: Digest)
    requires complete + 16 <= response.Length && (flags == 0 || flags == 2)
    modifies response
    ensures response[..complete] == old(response[..complete])
    ensures response[complete..complete + 16] == ReplySum(md5, flags, deviceId, old(response[..complete]))
    ensures forall k | complete + 16 <= k < response.Length :: response[k] == old(response[k])
  {
    var sum := md5(response[..complete]);
    ghost var want := ReplySum(md5, flags, deviceId, response[..complete]);
    for i := 0 to 16
      invariant response[..complete] == old(response[..complete])
      invariant forall k | 0 <= k < i :: response[complete + k] == want[k]
      invariant forall k | complete + 16 <= k < response.Length :: response[k] == old(response[k])
    {
      response[complete + i] := if flags == 2 then Xor(sum[i], deviceId[i]) else sum[i];
    }
  }

  /** Lines 113-201: size, header and checksum of the query. */
  method Validate(md5: Md5, q: seq<Byte>, max: nat, inp: Inputs) returns (ok: bool)
    requires |q| >= 22
    ensures ok <==> WellFormed(md5, q, max, inp)
  {
    var totalSize := FromLE32(q[0], q[1], q[2], q[3]);
    FromLE32IsFromLE(q[..4]);
    if totalSize != |q| || totalSize < MinMsgSize || totalSize > MaxMsgSize { return false; }
    var header := CheckHeader(q);
    if !header { return false; }
    if !inp.queryDigestOk { return false; }
    var sum := md5(q[..|q| - 16]);
    var same := Matches(q, |q| - 16, sum);
    assert q[|q| - 16..|q|] == q[|q| - 16..];
    return same && MinMsgSize <= max;
  }

  /** The reply records a scan calls for, and the reply size its ledger announces. */
  function ScanRecords(scan: Scan, inp: Inputs): seq<Tlv> {
    if scan.Body? then ReplyBody(scan.wants, inp) else []
  }

  function ScanSize(scan: Scan): nat {
    if scan.Body? then scan.size else MinMsgSize
  }

  ghost predicate ScanOk(scan: Scan) {
    scan.Body? ==> |scan.wants.user| <= 255 && scan.size == ReplySize(scan.wants)
  }

  /** Lines 310-397: everything before the checksum. */
  method WritePayload(response: array<Byte>, scan: Scan, flagsR: Byte, inp: Inputs) returns (complete: nat)
    requires ScanOk(scan) && ScanSize(scan) <= response.Length
    modifies response
    ensures complete + 16 == ScanSize(scan)
    ensures complete + 16 <= 343
    ensures response[..complete] == Payload(Header(flagsR) + ScanRecords(scan, inp))
    ensures forall k | complete <= k < response.Length :: response[k] == old(response[k])
  {
    ghost var body := ScanRecords(scan, inp);
    assert Short(body) && MinMsgSize + |EncodeAll(body)| == ScanSize(scan) <= 343 by {
      if scan.Body? { ReplyBodySize(scan.wants, inp); }
    }
    WriteHeader(response, ScanSize(scan), flagsR);
    complete := 22;
    if scan.Body? {
      complete := WriteBody(response, scan.wants, inp);
    } else {
      assert response[..22] == response[..22] + EncodeAll([]);
    }
    HeaderPayload(flagsR, body, ScanSize(scan));
  }

  /** Lines 310-428: writes the reply a scan calls for. */
  method WriteReply(md5: Md5, response: array<Byte>, scan: Scan, flags: Byte, inp: Inputs) returns (r: int)
    requires scan != Malformed && (flags == 0 || flags == 2)
    requires ScanOk(scan) && ScanSize(scan) <= response.Length
    modifies response
    ensures r == if inp.replyDigestOk then ScanSize(scan) else -1
    ensures r >= 0 ==> response[..r] == ReplyFrame(md5, flags, ScanRecords(scan, inp), inp.deviceId)
    ensures forall k | ScanSize(scan) <= k < response.Length :: response[k] == old(response[k])
  {
    var complete := WritePayload(response, scan, ReplyFlags(flags), inp);
    if complete + 16 > MaxMsgSize || !inp.replyDigestOk { return -1; }
    WriteChecksum(md5, response, complete, flags, inp.deviceId);
    assert response[..complete + 16] == response[..complete] + response[complete..complete + 16];
    return complete + 16;
  }

  lemma HeaderPayload(flags: Byte, body: seq<Tlv>, size: nat)
    requires Short(body) && MinMsgSize + |EncodeAll(body)| == size <= 343
    ensures LE(size, 4) + EncodeAll(Header(flags)) + EncodeAll(body) == Payload(Header(flags) + body)
  {
    ReplyListSize(flags, body);
    Assoc(LE(size, 4), EncodeAll(Header(flags)), EncodeAll(body));
  }

  /** The body of `createResponse` once its arguments have been checked. */
  method Answer(md5: Md5, inp: Inputs, q: seq<Byte>, response: array<Byte>, max: nat) returns (r: int)
    requires |q| >= 22 && max <= response.Length && max < MaxU32
    modifies response
    ensures r == -1 || MinMsgSize <= r <= max
    ensures Respond(md5, q, max, inp) == if r == -1 then None else Some(response[..r])
    ensures forall k | (if r >= 0 then r else max) <= k < response.Length :: response[k] == old(response[k])
  {
    hide Tile, Ledger, WantsOf, AllAccepted, ReplyBody, ReplySize, ReplyFrame, Header;
    var ok := Validate(md5, q, max, inp);
    if !ok { return -1; }
    var scan := ScanBody(q, 22, |q| - 16, max);
    if scan == Malformed { return -1; }
    ScanBounds(q[22..|q| - 16], max);
    r := WriteReply(md5, response, scan, q[21], inp);
  }

  /** A signed 32-bit size compared as unsigned, as the source compares it. */
  function AsU32(n: int): int {
    if n < 0 then n + MaxU32 else n
  }

  /** Answers the first `querySize` bytes of `query` into `response[..maxResponseSize]`.
      The reply depends on those bytes and `inp` alone: neither the rest of `query` nor the
      former contents of `response` show through, even when both are the same buffer. */
  method CreateResponse(md5: Md5, inp: Inputs, query: array?<Byte>, querySize: int,
                        response: array?<Byte>, maxResponseSize: nat)
    returns (r: int)
    requires -0x8000_0000 <= querySize < 0x8000_0000 && maxResponseSize < MaxU32
    requires query != null ==> querySize <= query.Length && (querySize < 0 ==> query.Length >= 4)
    requires response != null ==> maxResponseSize <= response.Length
    modifies response
    ensures query == null || response == null || querySize < 0 ==> r == -1
    ensures response != null ==> r == -1 || MinMsgSize <= r <= maxResponseSize
    ensures query != null && response != null && querySize >= 0 ==>
              Respond(md5, old(query[..querySize]), maxResponseSize, inp) == if r == -1 then None else Some(response[..r])
    ensures response != null ==>
              forall k | (if r >= 0 then r else maxResponseSize) <= k < response.Length :: response[k] == old(response[k])
  {
    // A negative size passes the unsigned comparison, but no length prefix up to 32768 equals it.
    if query == null || response == null || AsU32(querySize) < 22 || maxResponseSize < 22 || querySize < 0 {
      return -1;
    }
    r := Answer(md5, inp, query[..querySize], response, maxResponseSize);
  }

  lemma ScanBounds(tiled: seq<Byte>, max: nat)
    requires max >= MinMsgSize
    ensures var v := Judge(Tile(tiled), max);
            v.Full? ==> && |v.wants.user| <= 255
                        && Ledger(Tile(tiled).records) == ReplySize(v.wants)
                        && MinMsgSize <= ReplySize(v.wants) <= max
  {
    var v, records := Judge(Tile(tiled), max), Tile(tiled).records;
    if v.Full? {
      EncodeInvertsTile(tiled);
      FindIsShort(records, UserDataQ);
      LedgerIsReplySize(records, max);
      LedgerFits(records, max);
    }
  }
}

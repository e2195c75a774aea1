/** The client's message codec: `Message` and `TLV` of tools/src/nhac.cpp. */
module ClientCodec {
  import opened Bytes
  import opened Options
  import opened Tlvs

  /** What a successful `Message::deserialize` leaves behind and returns. */
  datatype Decoded = Decoded(tlvs: seq<Tlv>, received: Digest, calculated: Digest, xored: Digest, consumed: nat)

  const MaxU32: nat := 0x1_0000_0000

  // ---------------------------------------------------------------- specification

  function Mod32(n: nat): nat {
    if n < 0x1_0000_0000 then n else n % 0x1_0000_0000
  }

  /** Announced size; each length is narrowed to a byte and the sum to 32 bits. */
  function RecordBytes(ts: seq<Tlv>): nat {
    if ts == [] then 0 else RecordBytes(ts[..|ts| - 1]) + 2 + |ts[|ts| - 1].value| % 256
  }

  function AnnouncedSize(ts: seq<Tlv>): nat {
    Mod32(4 + RecordBytes(ts) + 16)
  }

  /** Everything before the checksum. */
  function Payload(ts: seq<Tlv>): seq<Byte> {
    LE(AnnouncedSize(ts), 4) + EncodeAll(ts)
  }

  function Frame(md5: Md5, ts: seq<Tlv>): seq<Byte> {
    Payload(ts) + md5(Payload(ts))
  }

  /** The decoder as a function of the received bytes; None stands for a thrown error. */
  function Decode(md5: Md5, s: seq<Byte>): Option<Decoded> {
    if |s| < 20 then None
    else
      var size := FromLE(s[..4]);
      if size > |s| || size < 20 then None
      else
        var tiling := Tile(s[4..size - 16]);
        if tiling.rest != [] then None
        else
          var received: Digest := s[size - 16..size];
          var calculated := md5(s[..size - 16]);
          Some(Decoded(tiling.records, received, calculated, XorDigest(received, calculated), size))
  }

  // ---------------------------------------------------------------- round trips

  lemma {:induction false} RecordBytesIsLength(ts: seq<Tlv>)
    requires Short(ts)
    ensures RecordBytes(ts) == |EncodeAll(ts)|
  {
    if ts != [] {
      var init, last := ts[..|ts| - 1], ts[|ts| - 1];
      RecordBytesIsLength(init);
      assert ts == init + [last];
      EncodeAllAppend(init, [last]);
      assert EncodeAll([last]) == Encode(last) + EncodeAll([]);
    }
  }

  /** For well-sized records the announced size is the real one. */
  lemma FrameSize(md5: Md5, ts: seq<Tlv>)
    requires Short(ts) && 20 + RecordBytes(ts) < MaxU32
    ensures |Frame(md5, ts)| == AnnouncedSize(ts) == 20 + |EncodeAll(ts)|
  {
    RecordBytesIsLength(ts);
  }

  /** A frame whose last sixteen bytes carry any checksum decodes to its records. */
  lemma DecodeFrame(md5: Md5, ts: seq<Tlv>, sum: Digest, junk: seq<Byte>)
    requires Short(ts) && 20 + RecordBytes(ts) < MaxU32
    ensures Decode(md5, Payload(ts) + sum + junk)
         == Some(Decoded(ts, sum, md5(Payload(ts)), XorDigest(sum, md5(Payload(ts))), AnnouncedSize(ts)))
  {
    var size := AnnouncedSize(ts);
    var head, body := LE(size, 4), EncodeAll(ts);
    var s := Payload(ts) + sum + junk;
    assert FromLE(head) == size && size == 20 + |body| by {
      RecordBytesIsLength(ts);
      Pow256Values();
      FromLERoundTrip(size, 4);
    }
    assert Tile(body) == Tiling(ts, []) by { TileInvertsEncode(ts); }
    Slices(head, body, sum, junk);
    assert s == head + body + sum + junk;
  }

  /** Deserialize undoes serialize exactly when every value fits its length byte and the whole
      frame its length prefix. */
  lemma RoundTripIffShort(md5: Md5, ts: seq<Tlv>)
    ensures Short(ts) && 20 + |EncodeAll(ts)| < MaxU32
       <==> Decode(md5, Frame(md5, ts))
            == Some(Decoded(ts, md5(Payload(ts)), md5(Payload(ts)), ZeroDigest, |Frame(md5, ts)|))
  {
    var f := Frame(md5, ts);
    if Short(ts) && 20 + |EncodeAll(ts)| < MaxU32 {
      var sum := md5(Payload(ts));
      RecordBytesIsLength(ts);
      DecodeFrame(md5, ts, sum, []);
      assert f == Payload(ts) + sum + [];
      XorDigestCancels(sum, sum);
      FrameSize(md5, ts);
    } else if Decode(md5, f).Some? {
      DecodedIsShort(md5, f);
      ConsumedIsPrefixed(md5, f);
      assert |f| == 20 + |EncodeAll(ts)|;
    }
  }

  lemma ConsumedIsPrefixed(md5: Md5, s: seq<Byte>)
    requires Decode(md5, s).Some?
    ensures Decode(md5, s).value.consumed < MaxU32
  {
    LERoundTrip(s[..4]);
    Pow256Values();
  }

  lemma DecodedIsShort(md5: Md5, s: seq<Byte>)
    requires Decode(md5, s).Some?
    ensures Short(Decode(md5, s).value.tlvs)
  {
    EncodeInvertsTile(s[4..FromLE(s[..4]) - 16]);
  }

  /** Whatever bytes are accepted, re-serializing the decoded list reproduces all of them up to the checksum. */
  lemma ReserializeReproduces(md5: Md5, s: seq<Byte>)
    requires Decode(md5, s).Some?
    ensures var d := Decode(md5, s).value;
            Payload(d.tlvs) == s[..d.consumed - 16]
  {
    var body := s[4..FromLE(s[..4]) - 16];
    EncodeInvertsTile(body);
    assert EncodeAll(Tile(body).records) + [] == EncodeAll(Tile(body).records);
    PayloadOf(s[..4], body, Tile(body).records);
    assert s[..4] + body == s[..FromLE(s[..4]) - 16];
  }

  lemma PayloadOf(head: seq<Byte>, body: seq<Byte>, ts: seq<Tlv>)
    requires |head| == 4 && FromLE(head) == |body| + 20
    requires Short(ts) && EncodeAll(ts) == body
    ensures Payload(ts) == head + body
  {
    RecordBytesIsLength(ts);
    LERoundTrip(head);
    Pow256Values();
  }

  // ---------------------------------------------------------------- buffers that are too small

  /** What becomes of a serialization: an error thrown, the frame written, or a write outside the buffer. */
  datatype Outcome = Thrown | Written(size: nat) | Overrun

  /** The announced size fits `n` bytes but the frame does not, and no test stops the writer
      before its length prefix or its checksum leaves them. */
  predicate Overruns(ts: seq<Tlv>, n: nat) {
    AnnouncedSize(ts) <= n && (n < 4 || 4 + |EncodeAll(ts)| <= n < 20 + |EncodeAll(ts)|)
  }

  /** Narrowed lengths and the 32-bit sum never announce more than is written. */
  lemma {:induction false} RecordBytesAtMostLength(ts: seq<Tlv>)
    ensures RecordBytes(ts) <= |EncodeAll(ts)|
  {
    if ts != [] {
      var init, last := ts[..|ts| - 1], ts[|ts| - 1];
      RecordBytesAtMostLength(init);
      assert ts == init + [last];
      EncodeAllAppend(init, [last]);
      assert EncodeAll([last]) == Encode(last) + EncodeAll([]);
    }
  }

  /** What one more record adds to the announced size: its length narrowed to a byte, the sum to 32 bits. */
  lemma AnnouncedStep(ts: seq<Tlv>, t: Tlv)
    ensures AnnouncedSize([]) == 20
    ensures AnnouncedSize(ts + [t]) == (AnnouncedSize(ts) + 2 + |t.value| % 256) % 0x1_0000_0000
  {
    assert (ts + [t])[..|ts|] == ts;
    Mod32Add(20 + RecordBytes(ts), 2 + |t.value| % 256);
  }

  lemma AnnouncedAtMostReal(ts: seq<Tlv>)
    ensures AnnouncedSize(ts) <= 20 + |EncodeAll(ts)|
  {
    RecordBytesAtMostLength(ts);
  }

  /** With values of at most 255 bytes a buffer of 4 bytes up to nearly 4 GiB is never overrun. */
  lemma ShortNeverOverruns(ts: seq<Tlv>, n: nat)
    requires Short(ts) && 4 <= n < MaxU32 - 16
    ensures !Overruns(ts, n)
  {
    RecordBytesIsLength(ts);
  }

  /** With the client's buffer of 65536 bytes, one value of 65530 bytes announces 272 bytes and the
      checksum would come to lie behind the buffer. */
  lemma LongValueOverruns(v: seq<Byte>)
    requires |v| == 65530
    ensures Overruns([Tlv(0x04, v)], 65536)
  {
    var ts := [Tlv(0x04, v)];
    assert ts[..0] == [] && EncodeAll(ts) == Encode(ts[0]) + EncodeAll([]);
    assert RecordBytes(ts) == RecordBytes([]) + 2 + 65530 % 256;
  }

  // ---------------------------------------------------------------- the class

  /** The client's message: its records and what the last run of the codec made of the checksum. */
  class Message {
    var tlvs: seq<Tlv>
    var receivedMd5: Option<Digest>
    var calculatedMd5: Option<Digest>
    var xoredMd5: Option<Digest>

    constructor ()
      ensures tlvs == [] && receivedMd5 == calculatedMd5 == xoredMd5 == None
    {
      tlvs, receivedMd5, calculatedMd5, xoredMd5 := [], None, None, None;
    }

    method Clear()
      modifies this
      ensures tlvs == [] && receivedMd5 == calculatedMd5 == xoredMd5 == None
    {
      tlvs, receivedMd5, calculatedMd5, xoredMd5 := [], None, None, None;
    }

    method Add(tlv: Tlv)
      modifies this`tlvs
      ensures tlvs == old(tlvs) + [tlv]
    {
      tlvs := tlvs + [tlv];
    }

    method GetCompleteSizeOfMsgInBytes() returns (size: nat)
      ensures size == AnnouncedSize(tlvs)
    {
      hide Mod32;
      Mod32Add(4, 0);
      size := 4;
      for i := 0 to |tlvs|
        invariant size == Mod32(4 + RecordBytes(tlvs[..i]))
      {
        assert tlvs[..i + 1][..i] == tlvs[..i];
        Mod32Add(4 + RecordBytes(tlvs[..i]), 2 + |tlvs[i].value| % 256);
        size := Mod32(size + (2 + |tlvs[i].value| % 256));
      }
      assert tlvs[..|tlvs|] == tlvs;
      Mod32Add(4 + RecordBytes(tlvs), 16);
      size := Mod32(size + 16);
    }

    /** `TLV::serialize` into `t` at `pos`; None when fewer than `n` bytes are left. */
    static method SerializeTlv(tlv: Tlv, t: array<Byte>, pos: nat, n: nat) returns (written: Option<nat>)
      requires pos + n <= t.Length
      modifies t
      ensures written.Some? <==> n >= 2 + |tlv.value|
      ensures written.Some? ==> written.value == |Encode(tlv)| && t[pos..pos + written.value] == Encode(tlv)
      ensures written.None? ==> t[..] == old(t[..])
      ensures t[..pos] == old(t[..pos])
      ensures forall k | pos + n <= k < t.Length :: t[k] == old(t[k])
    {
      if n < 2 + |tlv.value| { return None; }
      Put(t, pos, [tlv.tag, |tlv.value| % 256]);
      Put(t, pos + 2, tlv.value);
      assert t[pos..pos + 2 + |tlv.value|] == t[pos..pos + 2] + t[pos + 2..pos + 2 + |tlv.value|];
      return Some(2 + |tlv.value|);
    }

    /** The record loop of `Message::serialize`, from `start` on. */
    static method SerializeTlvs(tlvs: seq<Tlv>, t: array<Byte>, start: nat, n: nat) returns (end: Option<nat>)
      requires start <= n <= t.Length
      modifies t
      ensures end.Some? <==> start + |EncodeAll(tlvs)| <= n
      ensures end.Some? ==> end.value == start + |EncodeAll(tlvs)| && t[start..end.value] == EncodeAll(tlvs)
      ensures t[..start] == old(t[..start])
      ensures forall k | n <= k < t.Length :: t[k] == old(t[k])
    {
      hide EncodeAll, Encode;
      var pos := start;
      EncodeNone(tlvs);
      for i := 0 to |tlvs|
        invariant start <= pos <= n
        invariant t[..start] == old(t[..start])
        invariant t[start..pos] == EncodeAll(tlvs[..i])
        invariant forall k | n <= k < t.Length :: t[k] == old(t[k])
      {
        ghost var before := t[..];
        var w := SerializeTlv(tlvs[i], t, pos, n - pos);
        EncodeNext(tlvs, i);
        SamePrefix(before, t[..], start, pos);
        if w.None? {
          PrefixFits(tlvs, i + 1);
          return None;
        }
        Extended(t[..], start, pos, pos + w.value);
        pos := pos + w.value;
      }
      assert tlvs[..|tlvs|] == tlvs;
      return Some(pos);
    }

    /** Writes the frame into `t[..n]`, or throws, or leaves the buffer: the size test compares the
        announced size, which is not the written one for long values, and nothing is tested before
        the checksum. The model stops where the source would write outside `t[..n]`. */
    method Serialize(md5: Md5, t: array<Byte>, n: nat) returns (r: Outcome)
      requires n <= t.Length
      modifies this`receivedMd5, this`calculatedMd5, this`xoredMd5, t
      ensures r.Written? <==> 20 + |EncodeAll(tlvs)| <= n
      ensures r.Overrun? <==> Overruns(tlvs, n)
      ensures r.Written? ==> r.size == |Frame(md5, tlvs)| <= n && t[..r.size] == Frame(md5, tlvs)
      ensures r.Written? ==> calculatedMd5 == Some(md5(Payload(tlvs))) && receivedMd5 == xoredMd5 == None
      ensures r.Thrown? ==> receivedMd5 == old(receivedMd5) && calculatedMd5 == old(calculatedMd5) && xoredMd5 == old(xoredMd5)
      ensures forall k | n <= k < t.Length :: t[k] == old(t[k])
    {
      var size := GetCompleteSizeOfMsgInBytes();
      AnnouncedAtMostReal(tlvs);
      if size > n { return Thrown; }
      if n < 4 { return Overrun; }
      Put(t, 0, LE(size, 4));
      var end := SerializeTlvs(tlvs, t, 4, n);
      if end.None? { return Thrown; }
      var pos := end.value;
      ghost var payload := t[..pos];
      assert payload == t[..4] + t[4..pos];
      if pos + 16 > n { return Overrun; }
      var sum := md5(t[..pos]);
      Put(t, pos, sum);
      calculatedMd5, receivedMd5, xoredMd5 := Some(sum), None, None;
      assert t[..pos + 16] == t[..pos] + t[pos..pos + 16];
      return Written(pos + 16);
    }

    static method XorLoop(a: Digest, b: Digest) returns (x: Digest)
      ensures x == XorDigest(a, b)
    {
      x := ZeroDigest;
      for i := 0 to 16
        invariant forall k | 0 <= k < i :: x[k] == Xor(a[k], b[k])
      {
        x := x[i := Xor(a[i], b[i])];
      }
    }

    /** The record loop of `Message::deserialize` over `t[start..endPos]`. */
    static method DeserializeTlvs(t: seq<Byte>, start: nat, endPos: nat) returns (r: Option<seq<Tlv>>)
      requires start <= endPos <= |t|
      ensures r.Some? <==> Tile(t[start..endPos]).rest == []
      ensures r.Some? ==> r.value == Tile(t[start..endPos]).records
    {
      hide Tile, Walked;
      r := Some([]);
      var pos := start;
      ghost var whole := t[start..endPos];
      WalkStart(whole);
      while pos < endPos
        invariant start <= pos <= endPos
        invariant r.Some? && Walked(whole, r.value, t[pos..endPos])
      {
        WalkAt(whole, r.value, t, pos, endPos);
        if endPos - pos < 2 || endPos - pos < Extent(t[pos + 1]) { return None; }
        var length := Extent(t[pos + 1]);
        r := Some(r.value + [Tlv(t[pos], t[pos + 2..pos + length])]);
        pos := pos + length;
      }
      WalkAt(whole, r.value, t, pos, endPos);
    }

    /** Reads one message from the received bytes `t`; on an error no member changes. */
    method Deserialize(md5: Md5, t: seq<Byte>) returns (r: Option<nat>)
      modifies this
      ensures match Decode(md5, t)
              case None => r == None && tlvs == old(tlvs) && receivedMd5 == old(receivedMd5)
                           && calculatedMd5 == old(calculatedMd5) && xoredMd5 == old(xoredMd5)
              case Some(d) => r == Some(d.consumed) && tlvs == d.tlvs && receivedMd5 == Some(d.received)
                              && calculatedMd5 == Some(d.calculated) && xoredMd5 == Some(d.xored)
    {
      if |t| < 20 { return None; }
      var size := FromLE32(t[0], t[1], t[2], t[3]);
      FromLE32IsFromLE(t[..4]);
      if size > |t| || size < 20 { return None; }
      var newTlvs := DeserializeTlvs(t, 4, size - 16);
      if newTlvs.None? { return None; }
      var pos := size - 16;
      var received: Digest := t[pos..pos + 16];
      var calculated := md5(t[..pos]);
      var xored := XorLoop(received, calculated);
      receivedMd5, calculatedMd5, xoredMd5 := Some(received), Some(calculated), Some(xored);
      tlvs := newTlvs.value;
      return Some(pos + 16);
    }
  }

  lemma Mod32Add(a: nat, b: nat)
    ensures Mod32(Mod32(a) + b) == Mod32(a + b)
    ensures a < MaxU32 ==> Mod32(a) == a
  {
  }

  lemma SamePrefix(s: seq<Byte>, t: seq<Byte>, start: nat, pos: nat)
    requires start <= pos <= |s| && |s| == |t| && s[..pos] == t[..pos]
    ensures s[..start] == t[..start] && s[start..pos] == t[start..pos]
  {
    SplitPrefix(s, start, pos);
    SplitPrefix(t, start, pos);
  }

  lemma SplitPrefix(s: seq<Byte>, start: nat, pos: nat)
    requires start <= pos <= |s|
    ensures s[..pos][..start] == s[..start] && s[..pos][start..] == s[start..pos]
  {
  }

  lemma Extended(s: seq<Byte>, start: nat, pos: nat, end: nat)
    requires start <= pos <= end <= |s|
    ensures s[start..end] == s[start..pos] + s[pos..end]
  {
  }

  lemma EncodeNext(ts: seq<Tlv>, i: nat)
    requires i < |ts|
    ensures EncodeAll(ts[..i + 1]) == EncodeAll(ts[..i]) + Encode(ts[i])
    ensures |Encode(ts[i])| == 2 + |ts[i].value|
  {
    assert ts[..i + 1] == ts[..i] + [ts[i]];
    EncodeAllAppend(ts[..i], [ts[i]]);
    assert EncodeAll([ts[i]]) == Encode(ts[i]) + EncodeAll([]);
  }

  lemma EncodeNone(ts: seq<Tlv>)
    ensures EncodeAll(ts[..0]) == []
  {
  }

  lemma PrefixFits(ts: seq<Tlv>, i: nat)
    requires i <= |ts|
    ensures |EncodeAll(ts[..i])| <= |EncodeAll(ts)|
  {
    assert ts == ts[..i] + ts[i..];
    EncodeAllAppend(ts[..i], ts[i..]);
  }
}

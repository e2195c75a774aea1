/** Tag-length-value records: tag byte, one length byte (0..255), value. */
module Tlvs {
  import opened Bytes

  datatype Tlv = Tlv(tag: Byte, value: seq<Byte>)

  /** What is left of a byte string once records have been read off its front. */
  datatype Tiling = Tiling(records: seq<Tlv>, rest: seq<Byte>)

  /** Record bytes; the length byte is narrowed exactly as `TLV::serialize` narrows it. */
  function Encode(t: Tlv): seq<Byte> {
    [t.tag, |t.value| % 256] + t.value
  }

  function EncodeAll(ts: seq<Tlv>): seq<Byte> {
    if ts == [] then [] else Encode(ts[0]) + EncodeAll(ts[1..])
  }

  ghost predicate Short(ts: seq<Tlv>) {
    forall t | t in ts :: |t.value| <= 255
  }

  /** Bytes occupied by a record with this length byte. */
  function Extent(length: Byte): (r: int)
    ensures 2 <= r <= 257
  {
    var n: int := length; 2 + n
  }

  predicate Fits(s: seq<Byte>) {
    |s| >= 2 && |s| >= Extent(s[1])
  }

  function Head(s: seq<Byte>): Tlv
    requires Fits(s)
  {
    Tlv(s[0], s[2..Extent(s[1])])
  }

  function Tail(s: seq<Byte>): (r: seq<Byte>)
    requires Fits(s)
    ensures |r| < |s|
  {
    s[Extent(s[1])..]
  }

  /** Reads records for as long as the next one fits. */
  function Tile(s: seq<Byte>): Tiling {
    if !Fits(s) then Tiling([], s)
    else
      var more := Tile(Tail(s));
      Tiling([Head(s)] + more.records, more.rest)
  }

  lemma ConsAssoc<T>(s: seq<T>, r: seq<T>)
    requires s != []
    ensures s + r == [s[0]] + (s[1..] + r)
  {
  }

  lemma Assoc<T>(a: seq<T>, b: seq<T>, c: seq<T>)
    ensures (a + b) + c == a + (b + c)
  {
  }

  /** The pieces of a four-part concatenation, as slices of the whole. */
  lemma Slices<T>(a: seq<T>, b: seq<T>, c: seq<T>, d: seq<T>)
    ensures var s, i, j, k := a + b + c + d, |a|, |a| + |b|, |a| + |b| + |c|;
            s[..i] == a && s[i..j] == b && s[j..k] == c && s[k..] == d && s[..j] == a + b
  {
  }

  lemma PrefixOfAppend<T>(a: seq<T>, b: seq<T>, n: nat)
    requires n <= |a|
    ensures (a + b)[..n] == a[..n]
  {
  }

  lemma SliceOfSlice<T>(s: seq<T>, a: nat, b: nat, i: nat, j: nat)
    requires a <= b <= |s| && i <= j <= b - a
    ensures s[a..b][i..j] == s[a + i..a + j]
  {
    assert |s[a..b][i..j]| == |s[a + i..a + j]|;
    assert forall k | 0 <= k < j - i :: s[a..b][i..j][k] == s[a + i..a + j][k];
  }

  lemma HeadAndTail(t: Tlv, s: seq<Byte>)
    requires |t.value| <= 255
    ensures Fits(Encode(t) + s)
    ensures Head(Encode(t) + s) == t
    ensures Tail(Encode(t) + s) == s
  {
    var all := Encode(t) + s;
    assert all[0] == t.tag && all[1] == |t.value|;
    assert all[2..Extent(all[1])] == t.value;
    assert all[Extent(all[1])..] == s;
  }

  lemma Unfold(s: seq<Byte>)
    requires Fits(s)
    ensures Encode(Head(s)) + Tail(s) == s
    ensures |Head(s).value| <= 255
  {
    var e := Extent(s[1]);
    assert |s[2..e]| == s[1];
    assert Encode(Head(s)) == s[..2] + s[2..e];
    assert s[..2] + s[2..e] == s[..e];
  }

  lemma TileCons(t: Tlv, s: seq<Byte>)
    requires |t.value| <= 255
    ensures Tile(Encode(t) + s) == Tiling([t] + Tile(s).records, Tile(s).rest)
  {
    HeadAndTail(t, s);
  }

  lemma {:induction false} TileAfterRecords(ts: seq<Tlv>, s: seq<Byte>)
    requires Short(ts)
    ensures Tile(EncodeAll(ts) + s) == Tiling(ts + Tile(s).records, Tile(s).rest)
  {
    if ts == [] {
      assert EncodeAll(ts) + s == s;
      assert ts + Tile(s).records == Tile(s).records;
    } else {
      var head, more := Encode(ts[0]), EncodeAll(ts[1..]);
      assert EncodeAll(ts) + s == head + (more + s) by { Assoc(head, more, s); }
      assert Tile(more + s) == Tiling(ts[1..] + Tile(s).records, Tile(s).rest) by {
        TileAfterRecords(ts[1..], s);
      }
      TileCons(ts[0], more + s);
      ConsAssoc(ts, Tile(s).records);
    }
  }

  /** Well-sized records are read back exactly, with nothing left over. */
  lemma TileInvertsEncode(ts: seq<Tlv>)
    requires Short(ts)
    ensures Tile(EncodeAll(ts)) == Tiling(ts, [])
  {
    TileAfterRecords(ts, []);
    assert EncodeAll(ts) + [] == EncodeAll(ts);
    assert ts + [] == ts;
  }

  /** Whatever was read, re-encoding it gives the bytes back. */
  lemma {:induction false} EncodeInvertsTile(s: seq<Byte>)
    ensures EncodeAll(Tile(s).records) + Tile(s).rest == s
    ensures Short(Tile(s).records)
    ensures !Fits(Tile(s).rest)
  {
    if Fits(s) {
      EncodeInvertsTile(Tail(s));
      Unfold(s);
      var more := Tile(Tail(s));
      assert Tile(s).records[1..] == more.records;
      assert EncodeAll(Tile(s).records) == Encode(Head(s)) + EncodeAll(more.records);
      assert Encode(Head(s)) + EncodeAll(more.records) + more.rest
          == Encode(Head(s)) + (EncodeAll(more.records) + more.rest);
    } else {
      assert EncodeAll([]) + s == s;
    }
  }

  /** A left-to-right walk over `whole` has read `seen` and still has `left` to read. */
  ghost predicate Walked(whole: seq<Byte>, seen: seq<Tlv>, left: seq<Byte>) {
    Tile(whole) == Tiling(seen + Tile(left).records, Tile(left).rest)
  }

  lemma WalkStart(whole: seq<Byte>)
    ensures Walked(whole, [], whole)
  {
    assert [] + Tile(whole).records == Tile(whole).records;
  }

  lemma WalkStep(whole: seq<Byte>, seen: seq<Tlv>, left: seq<Byte>)
    requires Fits(left) && Walked(whole, seen, left)
    ensures Walked(whole, seen + [Head(left)], Tail(left))
  {
    Assoc(seen, [Head(left)], Tile(Tail(left)).records);
  }

  lemma WalkEnd(whole: seq<Byte>, seen: seq<Tlv>, left: seq<Byte>)
    requires !Fits(left) && Walked(whole, seen, left)
    ensures Tile(whole) == Tiling(seen, left)
  {
    assert seen + [] == seen;
  }

  /** The next record, addressed by position in the surrounding buffer. */
  lemma RecordAt(s: seq<Byte>, pos: nat, end: nat)
    requires pos <= end <= |s|
    ensures Fits(s[pos..end]) <==> end - pos >= 2 && end - pos >= Extent(s[pos + 1])
    ensures Fits(s[pos..end]) ==>
              && Head(s[pos..end]) == Tlv(s[pos], s[pos + 2..pos + Extent(s[pos + 1])])
              && Tail(s[pos..end]) == s[pos + Extent(s[pos + 1])..end]
  {
    var left := s[pos..end];
    if |left| >= 2 {
      assert left[0] == s[pos] && left[1] == s[pos + 1];
      var e := Extent(s[pos + 1]);
      if |left| >= e {
        SliceOfSlice(s, pos, end, 2, e);
        SliceOfSlice(s, pos, end, e, |left|);
        assert left[e..] == left[e..|left|];
      }
    }
  }

  /** One step of a walk by position: either the next record is read, or the walk is stuck. */
  lemma WalkAt(whole: seq<Byte>, seen: seq<Tlv>, s: seq<Byte>, pos: nat, end: nat)
    requires pos <= end <= |s| && Walked(whole, seen, s[pos..end])
    ensures if end - pos >= 2 && end - pos >= Extent(s[pos + 1]) then
              var next := pos + Extent(s[pos + 1]);
              Walked(whole, seen + [Tlv(s[pos], s[pos + 2..next])], s[next..end])
            else
              Tile(whole) == Tiling(seen, s[pos..end])
  {
    RecordAt(s, pos, end);
    if Fits(s[pos..end]) {
      WalkStep(whole, seen, s[pos..end]);
    } else {
      WalkEnd(whole, seen, s[pos..end]);
    }
  }

  lemma {:induction false} EncodeAllAppend(a: seq<Tlv>, b: seq<Tlv>)
    ensures EncodeAll(a + b) == EncodeAll(a) + EncodeAll(b)
  {
    if a == [] {
      assert a + b == b;
    } else {
      assert (a + b)[0] == a[0] && (a + b)[1..] == a[1..] + b;
      EncodeAllAppend(a[1..], b);
      Assoc(Encode(a[0]), EncodeAll(a[1..]), EncodeAll(b));
    }
  }
}

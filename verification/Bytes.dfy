/** Bytes, digests, XOR and the little-endian integers of the wire format. */
module Bytes {
  type Byte = x: int | 0 <= x < 256

  /** A `uint64_t` value. */
  type U64 = x: int | 0 <= x < 0x1_0000_0000_0000_0000

  /** Sixteen bytes: an MD5 digest or a Device-ID. */
  type Digest = s: seq<Byte> | |s| == 16 witness ZeroDigest

  /** MD5 is left uninterpreted: any total function to sixteen bytes. */
  type Md5 = seq<Byte> -> Digest

  const ZeroDigest: seq<Byte> := [0, 0, 0, 0, 0, 0, 0, 0, 0, 0, 0, 0, 0, 0, 0, 0]

  function Pow2(k: nat): (r: nat)
    ensures r > 0
  {
    if k == 0 then 1 else 2 * Pow2(k - 1)
  }

  /** Exclusive or of the `k` low bits, bit by bit. */
  function XorBits(a: nat, b: nat, k: nat): (r: nat)
    ensures r < Pow2(k)
  {
    if k == 0 then 0
    else (if a % 2 == b % 2 then 0 else 1) + 2 * XorBits(a / 2, b / 2, k - 1)
  }

  function Xor(a: Byte, b: Byte): Byte {
    assert Pow2(8) == 256 by { assert Pow2(4) == 16; }
    XorBits(a, b, 8)
  }

  lemma {:induction false} XorBitsCancels(a: nat, b: nat, k: nat)
    ensures b < Pow2(k) ==> XorBits(XorBits(a, b, k), a, k) == b
    ensures XorBits(a, a, k) == 0
  {
    if k > 0 {
      XorBitsCancels(a / 2, b / 2, k - 1);
      var x := XorBits(a, b, k);
      assert x / 2 == XorBits(a / 2, b / 2, k - 1);
    }
  }

  lemma XorCancels(a: Byte, b: Byte)
    ensures Xor(Xor(a, b), a) == b
    ensures Xor(a, a) == 0
  {
    assert Pow2(8) == 256 by { assert Pow2(4) == 16; }
    XorBitsCancels(a, b, 8);
  }

  function Bit(n: nat, k: nat): nat {
    if k == 0 then n % 2 else Bit(n / 2, k - 1)
  }

  lemma {:induction false} XorBitsAt(a: nat, b: nat, n: nat, k: nat)
    requires k < n
    ensures Bit(XorBits(a, b, n), k) == if Bit(a, k) == Bit(b, k) then 0 else 1
  {
    var x := XorBits(a, b, n);
    assert x / 2 == XorBits(a / 2, b / 2, n - 1);
    if k > 0 { XorBitsAt(a / 2, b / 2, n - 1, k - 1); }
  }

  /** Bit by bit, exclusive or tells where two bytes differ. */
  lemma XorAt(a: Byte, b: Byte, k: nat)
    requires k < 8
    ensures Bit(Xor(a, b), k) == if Bit(a, k) == Bit(b, k) then 0 else 1
  {
    XorBitsAt(a, b, 8, k);
  }

  function XorDigest(a: Digest, b: Digest): (r: Digest)
  {
    seq(16, i requires 0 <= i < 16 => Xor(a[i], b[i]))
  }

  /** XORing twice with the same digest restores the other operand. */
  lemma XorDigestCancels(a: Digest, b: Digest)
    ensures XorDigest(XorDigest(a, b), a) == b
    ensures XorDigest(a, a) == ZeroDigest
  {
    forall i | 0 <= i < 16
      ensures XorDigest(XorDigest(a, b), a)[i] == b[i]
      ensures XorDigest(a, a)[i] == 0
    {
      XorCancels(a[i], b[i]);
    }
    assert XorDigest(XorDigest(a, b), a) == b;
  }

  function Pow256(k: nat): (r: nat)
  {
    if k == 0 then 1 else 256 * Pow256(k - 1)
  }

  /** The `k` least significant bytes of `n`, least significant first. */
  function LE(n: nat, k: nat): (r: seq<Byte>)
    ensures |r| == k
  {
    if k == 0 then [] else [n % 256] + LE(n / 256, k - 1)
  }

  function FromLE(s: seq<Byte>): nat {
    if s == [] then 0 else s[0] + 256 * FromLE(s[1..])
  }

  lemma {:induction false} FromLERoundTrip(n: nat, k: nat)
    requires n < Pow256(k)
    ensures FromLE(LE(n, k)) == n
  {
    if k > 0 {
      FromLERoundTrip(n / 256, k - 1);
      assert LE(n, k)[1..] == LE(n / 256, k - 1);
    }
  }

  lemma {:induction false} LERoundTrip(s: seq<Byte>)
    ensures LE(FromLE(s), |s|) == s
    ensures FromLE(s) < Pow256(|s|)
  {
    if s != [] {
      LERoundTrip(s[1..]);
      assert FromLE(s) % 256 == s[0] && FromLE(s) / 256 == FromLE(s[1..]);
    }
  }

  lemma Pow256Values()
    ensures Pow256(4) == 0x1_0000_0000
    ensures Pow256(8) == 0x1_0000_0000_0000_0000
  {
    assert Pow256(2) == 0x1_0000;
    assert Pow256(4) == 0x1_0000_0000;
    assert Pow256(6) == 0x1_0000_0000_0000;
  }

  /** A 64-bit value survives its eight-byte encoding. */
  lemma U64RoundTrip(n: U64)
    ensures FromLE(LE(n, 8)) == n
  {
    Pow256Values();
    FromLERoundTrip(n, 8);
  }

  /** The four-byte decoder written with shifts, `fromLE32` on both ends. */
  function FromLE32(a: Byte, b: Byte, c: Byte, d: Byte): nat {
    a + 0x100 * b + 0x1_0000 * c + 0x100_0000 * d
  }

  lemma FromLE32IsFromLE(s: seq<Byte>)
    requires |s| == 4
    ensures FromLE32(s[0], s[1], s[2], s[3]) == FromLE(s)
  {
    assert s[1..][1..] == s[2..] && s[2..][1..] == s[3..] && s[3..][1..] == [];
    assert FromLE(s[2..]) == s[2] + 256 * FromLE(s[3..]);
  }

  /** Copies `s` into `t` at `pos`, byte by byte. */
  method Put(t: array<Byte>, pos: nat, s: seq<Byte>)
    requires pos + |s| <= t.Length
    modifies t
    ensures t[..pos] == old(t[..pos])
    ensures t[pos..pos + |s|] == s
    ensures forall k | pos + |s| <= k < t.Length :: t[k] == old(t[k])
  {
    for i := 0 to |s|
      invariant t[..pos] == old(t[..pos])
      invariant t[pos..pos + i] == s[..i]
      invariant forall k | pos + i <= k < t.Length :: t[k] == old(t[k])
    {
      t[pos + i] := s[i];
      assert t[pos..pos + i + 1] == t[pos..pos + i] + [s[i]];
    }
  }

  /** Stores the `k` low bytes of `num` at `off`, least significant first. */
  method PutLE(num: nat, k: nat, a: array<Byte>, off: nat)
    requires off + k <= a.Length
    modifies a
    ensures a[..off] == old(a[..off])
    ensures a[off..off + k] == LE(num, k)
    ensures forall j | off + k <= j < a.Length :: a[j] == old(a[j])
  {
    var rest := num;
    for i := 0 to k
      invariant a[..off] == old(a[..off])
      invariant a[off..off + i] + LE(rest, k - i) == LE(num, k)
      invariant forall j | off + i <= j < a.Length :: a[j] == old(a[j])
    {
      a[off + i] := rest % 256;
      assert a[off..off + i + 1] == a[off..off + i] + [rest % 256];
      rest := rest / 256;
    }
  }
}

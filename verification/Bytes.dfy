/** Octet strings: concatenation of chunk lists, big-endian integers and XOR. */
module Bytes {

  type byte = x: int | 0 <= x < 256

  type Bytes = seq<byte>

  function Zeros(n: nat): (z: Bytes)
    ensures |z| == n && forall i :: 0 <= i < n ==> z[i] == 0
  {
    seq(n, _ => 0)
  }

  /** The bytes of a list of slices, in order. */
  function Concat(chunks: seq<Bytes>): Bytes {
    if chunks == [] then [] else chunks[0] + Concat(chunks[1..])
  }

  lemma {:induction false} ConcatAppend(a: seq<Bytes>, b: seq<Bytes>)
    ensures Concat(a + b) == Concat(a) + Concat(b)
  {
    if a == [] {
      assert a + b == b;
    } else {
      assert (a + b)[1..] == a[1..] + b;
      ConcatAppend(a[1..], b);
    }
  }

  lemma ConcatSnoc(a: seq<Bytes>, c: Bytes)
    ensures Concat(a + [c]) == Concat(a) + c
  {
    ConcatAppend(a, [c]);
    assert Concat([c]) == c + Concat([]);
  }

  /** The last `k` base-256 digits of `n`, most significant first; higher digits are dropped. */
  function BigEndian(n: nat, k: nat): (s: Bytes)
    ensures |s| == k
  {
    if k == 0 then [] else BigEndian(n / 256, k - 1) + [n % 256]
  }

  function FromBigEndian(s: Bytes): nat {
    if s == [] then 0 else 256 * FromBigEndian(s[..|s| - 1]) + s[|s| - 1]
  }

  function Pow256(k: nat): nat {
    if k == 0 then 1 else 256 * Pow256(k - 1)
  }

  const U64_LIMIT: nat := 0x1_0000_0000_0000_0000

  lemma {:induction false} BigEndianRoundTrip(n: nat, k: nat)
    requires n < Pow256(k)
    ensures FromBigEndian(BigEndian(n, k)) == n
  {
    if k > 0 {
      BigEndianRoundTrip(n / 256, k - 1);
      var s := BigEndian(n, k);
      assert s[..|s| - 1] == BigEndian(n / 256, k - 1);
    }
  }

  /** The first digit counts most. */
  lemma {:induction false} FirstDigit(b: byte, s: Bytes)
    ensures FromBigEndian([b] + s) == b * Pow256(|s|) + FromBigEndian(s)
  {
    var all := [b] + s;
    if s == [] {
      assert all[..0] == [];
    } else {
      FirstDigit(b, s[..|s| - 1]);
      assert all[..|s|] == [b] + s[..|s| - 1];
    }
  }

  /** Two bytes, as in a 16-bit length field. */
  lemma TwoDigits(n: nat)
    ensures BigEndian(n, 2) == [n / 256 % 256, n % 256]
  {
    assert BigEndian(n / 256, 1) == BigEndian(n / 256 / 256, 0) + [n / 256 % 256];
  }

  lemma U64Digits()
    ensures Pow256(8) == U64_LIMIT
  {
    assert Pow256(2) == 0x1_0000;
    assert Pow256(4) == 0x1_0000_0000;
    assert Pow256(6) == 0x1_0000_0000_0000;
  }

  /** `to_be_bytes` on u64 is injective. */
  lemma U64BytesInjective(m: nat, n: nat)
    requires m < U64_LIMIT && n < U64_LIMIT
    requires BigEndian(m, 8) == BigEndian(n, 8)
    ensures m == n
  {
    U64Digits();
    BigEndianRoundTrip(m, 8);
    BigEndianRoundTrip(n, 8);
  }

  /** XOR of the `k` low bits of two numbers, bit by bit. */
  function XorBits(a: nat, b: nat, k: nat): nat {
    if k == 0 then 0 else 2 * XorBits(a / 2, b / 2, k - 1) + (a % 2 + b % 2) % 2
  }

  function Pow2(k: nat): nat {
    if k == 0 then 1 else 2 * Pow2(k - 1)
  }

  lemma Halves(high: nat, low: nat)
    requires low <= 1
    ensures (2 * high + low) / 2 == high && (2 * high + low) % 2 == low
  {
  }

  lemma {:induction false} XorBitsBound(a: nat, b: nat, k: nat)
    ensures XorBits(a, b, k) < Pow2(k)
  {
    if k > 0 {
      XorBitsBound(a / 2, b / 2, k - 1);
    }
  }

  lemma {:induction false} XorBitsInvolutive(a: nat, b: nat, k: nat)
    requires a < Pow2(k)
    ensures XorBits(XorBits(a, b, k), b, k) == a
  {
    if k > 0 {
      var x := XorBits(a, b, k);
      XorHalves(a, b, k);
      calc {
        XorBits(x, b, k);
        2 * XorBits(x / 2, b / 2, k - 1) + (x % 2 + b % 2) % 2;
        2 * XorBits(XorBits(a / 2, b / 2, k - 1), b / 2, k - 1) + a % 2;
        { XorBitsInvolutive(a / 2, b / 2, k - 1); }
        2 * (a / 2) + a % 2;
        a;
      }
    }
  }

  lemma XorHalves(a: nat, b: nat, k: nat)
    requires k > 0
    ensures XorBits(a, b, k) / 2 == XorBits(a / 2, b / 2, k - 1)
    ensures (XorBits(a, b, k) % 2 + b % 2) % 2 == a % 2
  {
    Halves(XorBits(a / 2, b / 2, k - 1), (a % 2 + b % 2) % 2);
  }

  lemma Pow2Of8()
    ensures Pow2(8) == 256
  {
    assert Pow2(4) == 16;
  }

  function Xor(a: byte, b: byte): byte {
    Pow2Of8();
    XorBitsBound(a, b, 8);
    XorBits(a, b, 8)
  }

  /** Bit `i` of a number. */
  function Bit(a: nat, i: nat): nat {
    if i == 0 then a % 2 else Bit(a / 2, i - 1)
  }

  /** A bit of the result is set exactly when the operands differ there. */
  lemma {:induction false} XorBitsAt(a: nat, b: nat, k: nat, i: nat)
    requires i < k
    ensures Bit(XorBits(a, b, k), i) == 1 <==> Bit(a, i) != Bit(b, i)
  {
    Halves(XorBits(a / 2, b / 2, k - 1), (a % 2 + b % 2) % 2);
    if i > 0 {
      XorBitsAt(a / 2, b / 2, k - 1, i - 1);
    }
  }

  lemma XorAt(a: byte, b: byte, i: nat)
    requires i < 8
    ensures Bit(Xor(a, b), i) == 1 <==> Bit(a, i) != Bit(b, i)
  {
    XorBitsAt(a, b, 8, i);
  }

  lemma XorInvolutive(a: byte, b: byte)
    ensures Xor(Xor(a, b), b) == a
  {
    Pow2Of8();
    XorBitsInvolutive(a, b, 8);
  }

  /** XOR does not depend on the order of its operands. */
  lemma {:induction false} XorBitsCommutes(a: nat, b: nat, k: nat)
    ensures XorBits(a, b, k) == XorBits(b, a, k)
  {
    if k > 0 {
      XorBitsCommutes(a / 2, b / 2, k - 1);
    }
  }

  /** Bytewise XOR of two octet strings of the same length. */
  function XorBytes(a: Bytes, b: Bytes): (r: Bytes)
    requires |a| == |b|
    ensures |r| == |a|
  {
    seq(|a|, i requires 0 <= i < |a| => Xor(a[i], b[i]))
  }

  /** XOR with a fixed mask loses nothing: the masked value determines the original. */
  lemma XorBytesInjective(mask: Bytes, a: Bytes, b: Bytes)
    requires |mask| == |a| == |b|
    requires XorBytes(mask, a) == XorBytes(mask, b)
    ensures a == b
  {
    forall i | 0 <= i < |a|
      ensures a[i] == b[i]
    {
      assert XorBytes(mask, a)[i] == XorBytes(mask, b)[i];
      XorBitsCommutes(mask[i], a[i], 8);
      XorBitsCommutes(mask[i], b[i], 8);
      XorInvolutive(a[i], mask[i]);
      XorInvolutive(b[i], mask[i]);
    }
  }

  /** `copy_from_slice` into the part of `dst` that starts at `at`. */
  method CopyInto(dst: array<byte>, at: nat, src: Bytes)
    requires at + |src| <= dst.Length
    modifies dst
    ensures dst[..] == old(dst[..at]) + src + old(dst[at + |src|..])
  {
    for i := 0 to |src|
      invariant forall k :: 0 <= k < i ==> dst[at + k] == src[k]
      invariant forall k :: 0 <= k < dst.Length && !(at <= k < at + i) ==> dst[k] == old(dst[k])
    {
      dst[at + i] := src[i];
    }
  }
}

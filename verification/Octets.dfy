/** Bytes, network byte order and bitwise exclusive or, shared by all other modules. */
module Octets {

  type byte = b: int | 0 <= b < 256

  const UINT16_MAX: int := 0xffff
  const INT_MAX: int := 0x7fff_ffff

  /** The value a C uint16_t holds after being assigned x. */
  function U16(x: int): int { x % 0x1_0000 }

  /** The value a C uint64_t holds after being assigned x. */
  function U64(x: int): int { x % 0x1_0000_0000_0000_0000 }

  datatype Option<+T> = None | Some(value: T)

  function Min(a: int, b: int): int { if a < b then a else b }

  function Max(a: int, b: int): int { if a < b then b else a }

  function Pow2(n: nat): (p: nat)
    ensures p > 0
  {
    if n == 0 then 1 else 2 * Pow2(n - 1)
  }

  /** Exclusive or of the low `width` bits of two numbers, bit by bit. */
  function BitXor(width: nat, a: nat, b: nat): (r: nat)
    ensures r < Pow2(width)
  {
    if width == 0 then 0
    else (if a % 2 == b % 2 then 0 else 1) + 2 * BitXor(width - 1, a / 2, b / 2)
  }

  lemma {:induction false} BitXorCancels(width: nat, a: nat, b: nat)
    requires a < Pow2(width)
    ensures BitXor(width, BitXor(width, a, b), b) == a
  {
    if width > 0 {
      BitXorCancels(width - 1, a / 2, b / 2);
      var x := BitXor(width, a, b);
      assert x / 2 == BitXor(width - 1, a / 2, b / 2);
      assert x % 2 == if a % 2 == b % 2 then 0 else 1;
    }
  }

  /** The number of bits in any byte; taking the byte as an argument keeps uses of Xor folded. */
  function BitsOf(b: byte): (n: nat)
    ensures n == 8 && Pow2(n) == 256
  {
    assert Pow2(8) == 256;
    8 + b / 256
  }

  function Xor(a: byte, b: byte): byte { BitXor(BitsOf(a), a, b) }

  lemma XorCancels(a: byte, b: byte)
    ensures Xor(Xor(a, b), b) == a
  {
    BitXorCancels(BitsOf(a), a, b);
  }

  function XorSeq(a: seq<byte>, b: seq<byte>): (r: seq<byte>)
    requires |a| == |b|
    ensures |r| == |a|
  {
    seq(|a|, i requires 0 <= i < |a| => Xor(a[i], b[i]))
  }

  /** n in `len` bytes, most significant first; higher bytes of n are dropped. */
  function BigEndian(n: nat, len: nat): (s: seq<byte>)
    ensures |s| == len
  {
    if len == 0 then [] else BigEndian(n / 256, len - 1) + [n % 256]
  }

  function FromBigEndian(s: seq<byte>): nat {
    if s == [] then 0 else 256 * FromBigEndian(s[..|s| - 1]) + s[|s| - 1]
  }

  function Pow256(n: nat): (p: nat)
    ensures p > 0
  {
    if n == 0 then 1 else 256 * Pow256(n - 1)
  }

  lemma {:induction false} BigEndianRoundTrip(n: nat, len: nat)
    requires n < Pow256(len)
    ensures FromBigEndian(BigEndian(n, len)) == n
  {
    if len > 0 {
      BigEndianRoundTrip(n / 256, len - 1);
      var s := BigEndian(n, len);
      assert s[..|s| - 1] == BigEndian(n / 256, len - 1);
    }
  }

  /** The byte at the front counts most. */
  lemma {:induction false} FromBigEndianFirst(b: byte, s: seq<byte>)
    ensures FromBigEndian([b] + s) == b * Pow256(|s|) + FromBigEndian(s)
  {
    if s == [] {
      assert [b] + s == [b] && [b][..0] == [];
    } else {
      var n := |s| - 1;
      assert ([b] + s)[..|s|] == [b] + s[..n];
      FromBigEndianFirst(b, s[..n]);
    }
  }

  lemma FromBigEndianFour(a: byte, b: byte, c: byte, d: byte)
    ensures FromBigEndian([a, b, c, d]) == ((a * 256 + b) * 256 + c) * 256 + d
  {
    assert [a, b, c, d] == [a] + [b, c, d] && [b, c, d] == [b] + [c, d] && [c, d] == [c] + [d] && [d] == [d] + [];
    FromBigEndianFirst(a, [b, c, d]);
    FromBigEndianFirst(b, [c, d]);
    FromBigEndianFirst(c, [d]);
    FromBigEndianFirst(d, []);
    assert Pow256(1) == 256 && Pow256(2) == 0x1_0000 && Pow256(3) == 0x100_0000;
  }

  /** Higher digits stand in front of lower ones. */
  lemma {:induction false} BigEndianConcat(hi: nat, k: nat, lo: nat, len: nat)
    requires lo < Pow256(len)
    ensures BigEndian(hi * Pow256(len) + lo, k + len) == BigEndian(hi, k) + BigEndian(lo, len)
  {
    if len == 0 {
      assert BigEndian(hi, k) + [] == BigEndian(hi, k);
    } else {
      var n := hi * Pow256(len) + lo;
      ShiftDigit(hi, Pow256(len - 1), lo);
      BigEndianConcat(hi, k, lo / 256, len - 1);
      assert BigEndian(n, k + len) == BigEndian(n / 256, k + len - 1) + [n % 256];
    }
  }

  lemma ShiftDigit(hi: nat, p: nat, lo: nat)
    ensures (hi * (256 * p) + lo) / 256 == hi * p + lo / 256 && (hi * (256 * p) + lo) % 256 == lo % 256
  {
    assert hi * (256 * p) + lo == 256 * (hi * p + lo / 256) + lo % 256;
  }
}

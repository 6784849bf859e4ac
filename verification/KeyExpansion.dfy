/**
 * Key expansion: HKDF-Expand (section 2.3 of RFC 5869), the label format built
 * on it (the shape of section 7.1 of RFC 8446), and the TLS 1.0 PRF (section 5
 * of RFC 4346). The keyed hash is a parameter.
 */
module KeyExpansion {
  import opened Octets

  const DIGEST_LEN: nat := 32
  const MAX_BLOCKS: nat := 255

  type Digest = s: seq<byte> | |s| == DIGEST_LEN witness seq(DIGEST_LEN, i => 0)

  /** HMAC-SHA256 as a function of key and message. */
  type Hmac = (seq<byte>, seq<byte>) -> Digest

  // ---------------------------------------------------------------------
  // HKDF-Expand
  // ---------------------------------------------------------------------

  /** T(n) of RFC 5869; the counter is a single octet. */
  function T(h: Hmac, secret: seq<byte>, info: seq<byte>, n: nat): (t: seq<byte>)
    ensures |t| == if n == 0 then 0 else DIGEST_LEN
  {
    if n == 0 then [] else h(secret, T(h, secret, info, n - 1) + info + [n % 256])
  }

  /** T(1) | T(2) | ... | T(n) */
  function Blocks(h: Hmac, secret: seq<byte>, info: seq<byte>, n: nat): (s: seq<byte>)
    ensures |s| == n * DIGEST_LEN
  {
    if n == 0 then [] else Blocks(h, secret, info, n - 1) + T(h, secret, info, n)
  }

  /** The first `len` octets of the output keying material. */
  function Expand(h: Hmac, secret: seq<byte>, info: seq<byte>, len: nat): (okm: seq<byte>)
    requires len <= MAX_BLOCKS * DIGEST_LEN
    ensures |okm| == len
  {
    Blocks(h, secret, info, BlocksFor(len))[..len]
  }

  function BlocksFor(len: nat): (n: nat)
    ensures len <= n * DIGEST_LEN < len + DIGEST_LEN
  {
    (len + DIGEST_LEN - 1) / DIGEST_LEN
  }

  lemma {:induction false} BlocksPrefix(h: Hmac, secret: seq<byte>, info: seq<byte>, n: nat, m: nat)
    requires n <= m
    ensures Blocks(h, secret, info, n) <= Blocks(h, secret, info, m)
    decreases m
  {
    if n < m { BlocksPrefix(h, secret, info, n, m - 1); }
  }

  /** The octets of block n sit at offset 32(n-1), however many blocks follow. */
  lemma BlockAt(h: Hmac, secret: seq<byte>, info: seq<byte>, n: nat, m: nat)
    requires 0 < n <= m
    ensures Blocks(h, secret, info, m)[(n - 1) * DIGEST_LEN..n * DIGEST_LEN] == T(h, secret, info, n)
  {
    BlocksPrefix(h, secret, info, n, m);
  }

  lemma SliceOfTake<X>(all: seq<X>, len: nat, from: nat, to: nat, end: nat)
    requires from <= end <= to <= |all| && end <= len <= |all|
    ensures all[..len][from..end] == all[from..to][..end - from]
  {
  }

  /** What stands in front of block i of the output, nothing for the first one. */
  function BlockBefore(okm: seq<byte>, i: nat): seq<byte>
    requires i * DIGEST_LEN <= |okm|
  {
    if i == 0 then [] else okm[(i - 1) * DIGEST_LEN..i * DIGEST_LEN]
  }

  /**
   * The output read by itself: every 32 octets are the keyed hash of the 32
   * octets in front of them, the info and their number, counted from 1; the
   * last ones may be cut short.
   */
  lemma ExpandChains(h: Hmac, secret: seq<byte>, info: seq<byte>, len: nat, i: nat)
    requires len <= MAX_BLOCKS * DIGEST_LEN && i * DIGEST_LEN < len
    ensures var okm := Expand(h, secret, info, len);
            var end := Min(len, (i + 1) * DIGEST_LEN);
            okm[i * DIGEST_LEN..end] ==
              h(secret, BlockBefore(okm, i) + info + [i + 1])[..end - i * DIGEST_LEN]
  {
    var m := BlocksFor(len);
    var okm, all := Expand(h, secret, info, len), Blocks(h, secret, info, m);
    var from, to := i * DIGEST_LEN, (i + 1) * DIGEST_LEN;
    var end := Min(len, to);
    BlockAt(h, secret, info, i + 1, m);
    SliceOfTake(all, len, from, to, end);
    if i > 0 {
      BlockAt(h, secret, info, i, m);
      assert BlockBefore(okm, i) == all[(i - 1) * DIGEST_LEN..i * DIGEST_LEN];
    }
  }

  /** Where block number `block` goes, computed in 32-bit unsigned arithmetic. */
  function BlockOffset(block: byte): (o: nat) {
    if block == 0 then 0x1_0000_0000 - DIGEST_LEN else (block - 1) * DIGEST_LEN
  }

  /** The first k octets are key material, the others are as they were. */
  ghost predicate Filled(out: seq<byte>, was: seq<byte>, okm: seq<byte>, k: nat) {
    && |out| == |was| && k <= |okm|
    && forall i :: 0 <= i < |out| ==> out[i] == if i < k then okm[i] else was[i]
  }

  /** Computes the next block and writes as much of it as there is room for. */
  method WriteBlock(h: Hmac, secret: seq<byte>, info: seq<byte>, out: array<byte>, block: byte, tPrev: seq<byte>,
                    ghost m: nat, ghost was: seq<byte>)
    returns (t: seq<byte>)
    requires 0 < block <= m && BlockOffset(block) < out.Length && m * DIGEST_LEN < out.Length + DIGEST_LEN
    requires tPrev == T(h, secret, info, block - 1)
    requires Filled(out[..], was, Blocks(h, secret, info, m), BlockOffset(block))
    modifies out
    ensures t == T(h, secret, info, block)
    ensures Filled(out[..], was, Blocks(h, secret, info, m), Min(block * DIGEST_LEN, out.Length))
  {
    t := h(secret, tPrev + info + [block]);
    var offset := BlockOffset(block);
    BlockAt(h, secret, info, block, m);
    CopyInto(out, offset, t, Min(DIGEST_LEN, out.Length - offset));
  }

  /**
   * Fills `out` block by block. The counter is eight bits wide, so at most 255
   * blocks are written: the result is the standard's for every length up to
   * 255 * 32, and beyond that the rest of `out` is left as it was.
   */
  method HkdfExpand(h: Hmac, secret: seq<byte>, info: seq<byte>, out: array<byte>)
    requires out.Length <= UINT16_MAX
    modifies out
    ensures var n := Min(out.Length, MAX_BLOCKS * DIGEST_LEN);
            out[..n] == Expand(h, secret, info, n) && out[n..] == old(out[n..])
  {
    ghost var n := Min(out.Length, MAX_BLOCKS * DIGEST_LEN);
    ghost var m := BlocksFor(n);
    ghost var was := out[..];
    var tPrev: seq<byte> := [];
    var block: byte := 1;
    ghost var done: nat := 0;
    while BlockOffset(block) < out.Length
      invariant done <= m && block == (if done == MAX_BLOCKS then 0 else done + 1)
      invariant tPrev == T(h, secret, info, done)
      invariant Filled(out[..], was, Blocks(h, secret, info, m), Min(n, done * DIGEST_LEN))
      decreases m - done
    {
      tPrev := WriteBlock(h, secret, info, out, block, tPrev, m, was);
      done := done + 1;
      block := if block == MAX_BLOCKS then 0 else block + 1;
    }
    assert done == m;
  }

  method CopyInto(out: array<byte>, offset: nat, src: seq<byte>, len: nat)
    requires len <= |src| && offset + len <= out.Length
    modifies out
    ensures forall i :: 0 <= i < out.Length ==>
      out[i] == if offset <= i < offset + len then src[i - offset] else old(out[i])
  {
    forall i | 0 <= i < len {
      out[offset + i] := src[i];
    }
  }

  // ---------------------------------------------------------------------
  // Labels
  // ---------------------------------------------------------------------

  function Ascii(s: string): (b: seq<byte>)
    requires forall i :: 0 <= i < |s| ==> s[i] < 128 as char
    ensures |b| == |s|
  {
    seq(|s|, i requires 0 <= i < |s| => s[i] as int)
  }

  function Prefix(): (p: seq<byte>)
    ensures |p| == 5
  {
    Ascii("ovpn ")
  }

  predicate LabelInRange(lbl: seq<byte>, context: seq<byte>) {
    1 <= |lbl| <= 250 && |context| <= 255
  }

  /** struct { uint16 length; opaque label<6..255>; opaque context<0..255>; } */
  function HkdfLabel(len: nat, lbl: seq<byte>, context: seq<byte>): (info: seq<byte>)
    requires LabelInRange(lbl, context)
  {
    BigEndian(len, 2) + [5 + |lbl|] + Prefix() + lbl + [|context|] + context
  }

  /**
   * The info reads back as the struct it stands for: a length of two octets,
   * then label and context, each behind an octet with its own length.
   */
  lemma HkdfLabelReads(len: nat, lbl: seq<byte>, context: seq<byte>)
    requires LabelInRange(lbl, context) && len <= UINT16_MAX
    ensures var info := HkdfLabel(len, lbl, context);
            && |info| > 3 && FromBigEndian(info[..2]) == len
            && 4 + info[2] <= |info| && info[3..3 + info[2]] == Ascii("ovpn ") + lbl
            && info[3 + info[2]] == |context| && info[4 + info[2]..] == context
  {
    var info := HkdfLabel(len, lbl, context);
    assert info[..2] == BigEndian(len, 2);
    assert Pow256(2) == 0x1_0000;
    BigEndianRoundTrip(len, 2);
    assert info[2] == 5 + |lbl|;
    assert info[3..8 + |lbl|] == Prefix() + lbl;
    assert info[9 + |lbl|..] == context;
  }

  /** Different requests never share an info string. */
  lemma HkdfLabelInjective(len1: nat, lbl1: seq<byte>, context1: seq<byte>,
                           len2: nat, lbl2: seq<byte>, context2: seq<byte>)
    requires LabelInRange(lbl1, context1) && LabelInRange(lbl2, context2)
    requires len1 <= UINT16_MAX && len2 <= UINT16_MAX
    requires HkdfLabel(len1, lbl1, context1) == HkdfLabel(len2, lbl2, context2)
    ensures len1 == len2 && lbl1 == lbl2 && context1 == context2
  {
    var a, b := HkdfLabel(len1, lbl1, context1), HkdfLabel(len2, lbl2, context2);
    assert a[..2] == BigEndian(len1, 2) && b[..2] == BigEndian(len2, 2);
    assert Pow256(2) == 0x1_0000;
    BigEndianRoundTrip(len1, 2);
    BigEndianRoundTrip(len2, 2);
    assert a[2] == 5 + |lbl1| && b[2] == 5 + |lbl2|;
    assert a[8..8 + |lbl1|] == lbl1 && b[8..8 + |lbl2|] == lbl2;
    assert a[9 + |lbl1|..] == context1 && b[9 + |lbl2|..] == context2;
  }

  function ExpandLabel(h: Hmac, secret: seq<byte>, lbl: seq<byte>, context: seq<byte>, len: nat): (okm: seq<byte>)
    requires LabelInRange(lbl, context) && len <= MAX_BLOCKS * DIGEST_LEN
    ensures |okm| == len
  {
    Expand(h, secret, HkdfLabel(len, lbl, context), len)
  }

  predicate IsAscii(s: string) { forall i :: 0 <= i < |s| ==> s[i] < 128 as char }

  /** The first 32 octets for a label without a context, byte for byte what is hashed. */
  lemma FirstBlock(h: Hmac, secret: seq<byte>, lbl: string, len: nat)
    requires IsAscii(lbl) && 1 <= |lbl| <= 250 && len <= MAX_BLOCKS * DIGEST_LEN
    ensures var n := Min(len, 32);
            ExpandLabel(h, secret, Ascii(lbl), [], len)[..n] ==
              h(secret, [len / 256, len % 256, 5 + |lbl|] + Ascii("ovpn " + lbl) + [0, 1])[..n]
  {
    var info := HkdfLabel(len, Ascii(lbl), []);
    assert BigEndian(len, 2) == [len / 256, len % 256] by {
      assert BigEndian(len / 256, 1) == BigEndian(len / 256 / 256, 0) + [len / 256];
    }
    assert Ascii("ovpn " + lbl) == Ascii("ovpn ") + Ascii(lbl);
    assert [] + info + [1] == [len / 256, len % 256, 5 + |lbl|] + Ascii("ovpn " + lbl) + [0, 1];
    if len > 0 { ExpandChains(h, secret, info, len, 0); }
  }

  /**
   * Builds the info string piece by piece in a buffer of the computed size,
   * which it fills exactly, and expands it. Refuses, and leaves `out` alone,
   * when the secret, label or context has a length the format cannot carry.
   */
  method OvpnExpandLabel(h: Hmac, secret: seq<byte>, lbl: seq<byte>, context: seq<byte>, out: array<byte>)
    returns (ok: bool)
    requires out.Length <= UINT16_MAX
    modifies out
    ensures ok <==> |secret| == DIGEST_LEN && LabelInRange(lbl, context)
    ensures !ok ==> out[..] == old(out[..])
    ensures ok && out.Length <= MAX_BLOCKS * DIGEST_LEN ==>
      out[..] == ExpandLabel(h, secret, lbl, context, out.Length)
    ensures ok ==>
      var n := Min(out.Length, MAX_BLOCKS * DIGEST_LEN);
      out[..n] == Expand(h, secret, HkdfLabel(out.Length, lbl, context), n) && out[n..] == old(out[n..])
  {
    if |secret| != 32 || |lbl| > 250 || |context| > 255 || |lbl| < 1 {
      return false;
    }
    var prefixLen: byte := 5;
    var hkdfLabelLen := 2 + prefixLen + 1 + |lbl| + 1 + |context|;
    var buf: seq<byte> := BigEndian(out.Length, 2);
    buf := buf + [(prefixLen + |lbl| % 256) % 256];
    buf := buf + Prefix();
    buf := buf + lbl;
    buf := buf + [|context| % 256];
    if |context| > 0 {
      buf := buf + context;
    }
    assert |buf| == hkdfLabelLen;
    assert buf == HkdfLabel(out.Length, lbl, context);
    HkdfExpand(h, secret, buf, out);
    assert out.Length <= MAX_BLOCKS * DIGEST_LEN ==> out[..] == out[..out.Length];
    return true;
  }

  // ---------------------------------------------------------------------
  // TLS 1.0 PRF
  // ---------------------------------------------------------------------

  /** A keyed hash with its output length. */
  datatype Hash = Hash(len: nat, mac: (seq<byte>, seq<byte>) -> seq<byte>)

  ghost predicate WellSized(hash: Hash) {
    hash.len > 0 && forall k, m :: |hash.mac(k, m)| == hash.len
  }

  /** A(n) of RFC 4346. */
  function A(hash: Hash, secret: seq<byte>, seed: seq<byte>, n: nat): seq<byte> {
    if n == 0 then seed else hash.mac(secret, A(hash, secret, seed, n - 1))
  }

  /** HMAC(secret, A(1) + seed) + ... + HMAC(secret, A(n) + seed) */
  function PBlocks(hash: Hash, secret: seq<byte>, seed: seq<byte>, n: nat): seq<byte> {
    if n == 0 then []
    else PBlocks(hash, secret, seed, n - 1) + hash.mac(secret, A(hash, secret, seed, n) + seed)
  }

  lemma {:induction false} PBlocksLength(hash: Hash, secret: seq<byte>, seed: seq<byte>, n: nat)
    requires WellSized(hash)
    ensures |PBlocks(hash, secret, seed, n)| == n * hash.len
  {
    if n > 0 { PBlocksLength(hash, secret, seed, n - 1); }
  }

  lemma {:induction false} PBlocksPrefix(hash: Hash, secret: seq<byte>, seed: seq<byte>, n: nat, m: nat)
    requires n <= m
    ensures PBlocks(hash, secret, seed, n) <= PBlocks(hash, secret, seed, m)
    decreases m
  {
    if n < m { PBlocksPrefix(hash, secret, seed, n, m - 1); }
  }

  /** The first `len` octets of the infinite stream P_hash(secret, seed). */
  ghost function PStream(hash: Hash, secret: seq<byte>, seed: seq<byte>, len: nat): (s: seq<byte>)
    requires WellSized(hash)
    ensures |s| == len
  {
    PBlocksLength(hash, secret, seed, len);
    assert len * hash.len >= len;
    PBlocks(hash, secret, seed, len)[..len]
  }

  /** The seed and what repeated hashing makes of it. */
  ghost predicate IsChain(hash: Hash, secret: seq<byte>, seed: seq<byte>, chain: seq<seq<byte>>) {
    && chain != [] && chain[0] == seed
    && forall i :: 0 <= i < |chain| - 1 ==> chain[i + 1] == hash.mac(secret, chain[i])
  }

  /** Block k of the stream, read off the output, is the hash of link k + 1 of the chain and the seed. */
  lemma PStreamBlock(hash: Hash, secret: seq<byte>, seed: seq<byte>, len: nat, chain: seq<seq<byte>>, k: nat)
    requires WellSized(hash) && IsChain(hash, secret, seed, chain) && k + 1 < |chain|
    requires k * hash.len < len
    ensures var end := Min(len, (k + 1) * hash.len);
            PStream(hash, secret, seed, len)[k * hash.len..end] ==
              hash.mac(secret, chain[k + 1] + seed)[..end - k * hash.len]
  {
    ChainIsA(hash, secret, seed, chain, k + 1);
    PBlocksLength(hash, secret, seed, k);
    PBlocksLength(hash, secret, seed, k + 1);
    PBlocksLength(hash, secret, seed, len);
    MulAtLeast(k, hash.len);
    MulAtLeast(len, hash.len);
    PBlocksPrefix(hash, secret, seed, k + 1, len);
    var all, from, to := PBlocks(hash, secret, seed, len), k * hash.len, (k + 1) * hash.len;
    assert all[from..to] == PBlocks(hash, secret, seed, k + 1)[from..to];
    SliceOfTake(all, len, from, to, Min(len, to));
  }

  lemma MulAtLeast(k: nat, n: nat)
    requires n > 0
    ensures k * n >= k
  {
  }

  lemma {:induction false} ChainIsA(hash: Hash, secret: seq<byte>, seed: seq<byte>, chain: seq<seq<byte>>, i: nat)
    requires IsChain(hash, secret, seed, chain) && i < |chain|
    ensures chain[i] == A(hash, secret, seed, i)
  {
    if i > 0 {
      ChainIsA(hash, secret, seed, chain, i - 1);
      assert chain[i - 1 + 1] == hash.mac(secret, chain[i - 1]);
    }
  }

  method PHash(hash: Hash, secret: seq<byte>, seed: seq<byte>, olen: nat) returns (out: seq<byte>)
    requires WellSized(hash)
    ensures out == PStream(hash, secret, seed, olen)
  {
    out := [];
    var left := olen;
    var a1 := hash.mac(secret, seed);
    ghost var n: nat := 1;
    while left > hash.len
      invariant n >= 1 && |out| + left == olen && |out| >= n - 1 && (left > 0 || n == 1)
      invariant a1 == A(hash, secret, seed, n)
      invariant out == PBlocks(hash, secret, seed, n - 1)
      decreases left
    {
      out := out + hash.mac(secret, a1 + seed);
      left := left - hash.len;
      a1 := hash.mac(secret, a1);
      n := n + 1;
    }
    a1 := hash.mac(secret, a1 + seed);
    out := out + a1[..left];
    assert out <= PBlocks(hash, secret, seed, n);
    PBlocksLength(hash, secret, seed, olen);
    if olen >= n {
      PBlocksPrefix(hash, secret, seed, n, olen);
    }
  }

  function FirstHalf(s: seq<byte>): seq<byte> { s[..(|s| + 1) / 2] }

  function SecondHalf(s: seq<byte>): seq<byte> { s[|s| / 2..] }

  /** Both halves have the same length, and together they are the secret but for a middle octet they share. */
  lemma HalvesCover(s: seq<byte>)
    ensures var a, b := FirstHalf(s), SecondHalf(s);
            |a| == |b| && |a| + |b| - |s| == |s| % 2 && a + b[|s| % 2..] == s
  {
  }

  /**
   * PRF(secret, seed) = P_MD5(S1, seed) XOR P_SHA1(S2, seed), where the halves
   * share the middle octet of a secret of odd length.
   */
  method Tls1Prf(md5: Hash, sha1: Hash, seed: seq<byte>, secret: seq<byte>, out1: array<byte>) returns (ok: bool)
    requires WellSized(md5) && WellSized(sha1)
    modifies out1
    ensures ok <==> |seed| <= INT_MAX
    ensures !ok ==> out1[..] == old(out1[..])
    ensures ok ==> out1[..] == XorSeq(PStream(md5, FirstHalf(secret), seed, out1.Length),
                                      PStream(sha1, SecondHalf(secret), seed, out1.Length))
  {
    if |seed| > INT_MAX {
      return false;
    }
    var len := |secret| / 2;
    var s2 := secret[len..];
    len := len + |secret| % 2;
    var s1 := secret[..len];
    assert s1 == FirstHalf(secret) && s2 == SecondHalf(secret);
    var p1 := PHash(md5, s1, seed, out1.Length);
    var p2 := PHash(sha1, s2, seed, out1.Length);
    CopyInto(out1, 0, p1, out1.Length);
    assert out1[..] == p1;
    XorInto(out1, p2);
    return true;
  }

  method XorInto(out: array<byte>, other: seq<byte>)
    requires |other| == out.Length
    modifies out
    ensures out[..] == XorSeq(old(out[..]), other)
  {
    for i := 0 to out.Length
      invariant forall k :: 0 <= k < out.Length ==>
        out[k] == if k < i then Xor(old(out[k]), other[k]) else old(out[k])
    {
      out[i] := Xor(out[i], other[i]);
    }
  }
}

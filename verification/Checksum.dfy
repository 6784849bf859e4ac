/**
 * Updating an internet checksum in place (RFC 1624): the words that went away
 * are added to an accumulator, the new ones subtracted, and the result is
 * folded into the checksum.
 */
module Checksum {
  /** One's complement sums are sums modulo this number. */
  const M: nat := 65535

  type word = w: int | 0 <= w < 65536

  /** Two end-around carries, then the low 16 bits. */
  function Fold(v: nat): word {
    var w := v / 65536 + v % 65536;
    (w + w / 65536) % 65536
  }

  /** The checksum after words changed by `acc` in all, old ones less new ones. */
  function Adjust(acc: int, cksum: word): word {
    var v := acc + cksum;
    if v < 0 then M - Fold(-v) else Fold(v)
  }

  /** What the accumulator may hold: two addresses of two words each. */
  predicate InRange(acc: int) { -4 * M <= acc <= 4 * M }

  lemma FoldCongruent(v: nat) returns (k: nat)
    requires v < 0x10_0000
    ensures Fold(v) + k * M == v && (Fold(v) == 0 <==> v == 0)
  {
    var q, r := v / 65536, v % 65536;
    var w := q + r;
    assert v == q * 65536 + r;
    if w < 65536 {
      k := q;
    } else {
      k := q + 1;
      assert w / 65536 == 1 && (w + 1) % 65536 == w - M;
    }
  }

  lemma AdjustCongruent(acc: int, cksum: word) returns (k: int)
    requires InRange(acc)
    ensures Adjust(acc, cksum) == acc + cksum + k * M
  {
    var v := acc + cksum;
    if v < 0 {
      var j := FoldCongruent(-v);
      k := j + 1;
      assert Adjust(acc, cksum) == M - (-v - j * M);
    } else {
      var j: int := FoldCongruent(v);
      k := -j;
    }
  }

  lemma AddMultiple(x: int, k: int)
    ensures (x + k * M) % M == x % M
  {
  }

  /**
   * Whatever the other words of a packet sum up to: with the adjusted checksum
   * the new packet has the same one's complement sum as the old one had, so it
   * is valid exactly if that one was.
   */
  lemma AdjustKeepsSum(rest: nat, before: nat, after: nat, cksum: word)
    requires InRange(before - after)
    ensures (rest + after + Adjust(before - after, cksum)) % M == (rest + before + cksum) % M
  {
    var k := AdjustCongruent(before - after, cksum);
    AddMultiple(rest + before + cksum, k);
  }

  /** Nothing changed, nothing adjusted. */
  lemma AdjustNothing(cksum: word)
    ensures Adjust(0, cksum) == cksum
  {
  }

  /**
   * The checksum becomes zero exactly when the accumulated sum is no more than
   * zero and a multiple of 65535. In particular a UDP packet that carries no
   * checksum, which it says by the value zero, goes on saying so only if the
   * accumulator itself is such a number.
   */
  lemma AdjustedIsZeroIff(acc: int, cksum: word)
    requires InRange(acc)
    ensures Adjust(acc, cksum) == 0 <==> acc + cksum <= 0 && (acc + cksum) % M == 0
  {
    var v := acc + cksum;
    if v >= 0 {
      var k := FoldCongruent(v);
    } else {
      var k := FoldCongruent(-v);
      if Fold(-v) == M {
        AddMultiple(0, -(k + 1));
        assert v == -(k + 1) * M;
      } else {
        NotMultiple(Fold(-v), k);
        assert v == -(Fold(-v) + k * M);
      }
    }
  }

  lemma NotMultiple(r: nat, k: nat)
    requires 0 < r < M
    ensures (-(r + k * M)) % M != 0
  {
    AddMultiple(M - r, -(k + 1));
    assert -(r + k * M) == (M - r) + -(k + 1) * M;
  }

  /** A checksum field of zero does not stay zero when one word grows by 256. */
  lemma ZeroIsNotKept()
    ensures Adjust(-256, 0) == 65279
  {
    assert Fold(256) == 256;
  }
}

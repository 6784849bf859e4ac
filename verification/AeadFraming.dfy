/**
 * How an AEAD packet is laid out on the wire: opcode header, packet id,
 * ciphertext and tag, with the tag behind or in front of the ciphertext. The
 * cipher itself is a parameter.
 */
module AeadFraming {
  import opened Octets
  import opened EpochKeys

  const TAG_LEN: nat := 16

  datatype Sealed = Sealed(text: seq<byte>, tag: seq<byte>)

  /** seal(key, iv, additional data, plaintext) and open(key, iv, additional data, ciphertext, tag). */
  datatype Aead = Aead(
    seal: (seq<byte>, seq<byte>, seq<byte>, seq<byte>) -> Sealed,
    open: (seq<byte>, seq<byte>, seq<byte>, seq<byte>, seq<byte>) -> Option<seq<byte>>,
    ivLen: nat,
    blockSize: nat)

  predicate ValidIvLen(aead: Aead) { 12 <= aead.ivLen <= MAX_IV_LEN }

  /** Opening undoes sealing, and the ciphertext is as long as the plaintext. */
  ghost predicate Correct(aead: Aead) {
    && ValidIvLen(aead)
    && (forall k, iv, ad, p ::
          var c := aead.seal(k, iv, ad, p);
          |c.text| == |p| && |c.tag| == TAG_LEN && aead.open(k, iv, ad, c.text, c.tag) == Some(p))
    && (forall k, iv, ad, c, t ::
          aead.open(k, iv, ad, c, t).Some? ==> |aead.open(k, iv, ad, c, t).value| == |c|)
  }

  datatype Layout = EpochFormat | ShortFormat

  /** 16 bit epoch and 48 bit counter, or a 32 bit counter. */
  function PidLen(layout: Layout): (n: nat)
    ensures n <= 8
  {
    match layout case EpochFormat => 8 case ShortFormat => 4
  }

  /** Packet id, tag and at least one byte of payload. */
  function MinBodyLen(layout: Layout): nat { PidLen(layout) + TAG_LEN + 1 }

  /** The packet id, padded with zeros, masked with the implicit IV. */
  function PacketIv(aead: Aead, key: DataKey, pid: seq<byte>): (iv: seq<byte>)
    requires ValidIvLen(aead) && |pid| <= 8
    ensures |iv| == aead.ivLen
  {
    XorSeq(pid + Zeros(MAX_IV_LEN - |pid|), key.implicitIv)[..aead.ivLen]
  }

  /** Masking the IV once more with the implicit IV uncovers the packet id, padded with zeros. */
  lemma PacketIvUnmasks(aead: Aead, key: DataKey, pid: seq<byte>)
    requires ValidIvLen(aead) && |pid| <= 8
    ensures XorSeq(PacketIv(aead, key, pid), key.implicitIv[..aead.ivLen]) ==
            (pid + Zeros(MAX_IV_LEN - |pid|))[..aead.ivLen]
  {
    var padded := pid + Zeros(MAX_IV_LEN - |pid|);
    forall i | 0 <= i < aead.ivLen ensures Xor(PacketIv(aead, key, pid)[i], key.implicitIv[i]) == padded[i] {
      assert PacketIv(aead, key, pid)[i] == Xor(padded[i], key.implicitIv[i]);
      XorCancels(padded[i], key.implicitIv[i]);
    }
  }

  /** Under one packet id, keys whose implicit IVs differ where they are used give different IVs. */
  lemma PacketIvTellsKeysApart(aead: Aead, key1: DataKey, key2: DataKey, pid: seq<byte>)
    requires ValidIvLen(aead) && |pid| <= 8
    requires PacketIv(aead, key1, pid) == PacketIv(aead, key2, pid)
    ensures key1.implicitIv[..aead.ivLen] == key2.implicitIv[..aead.ivLen]
  {
    var padded := pid + Zeros(MAX_IV_LEN - |pid|);
    forall i | 0 <= i < aead.ivLen ensures key1.implicitIv[i] == key2.implicitIv[i] {
      assert PacketIv(aead, key1, pid)[i] == Xor(padded[i], key1.implicitIv[i]);
      assert PacketIv(aead, key2, pid)[i] == Xor(padded[i], key2.implicitIv[i]);
      XorCommutes(padded[i], key1.implicitIv[i]);
      XorCommutes(padded[i], key2.implicitIv[i]);
      XorCancels(key1.implicitIv[i], padded[i]);
      XorCancels(key2.implicitIv[i], padded[i]);
    }
  }

  lemma {:induction false} BitXorCommutes(width: nat, a: nat, b: nat)
    ensures BitXor(width, a, b) == BitXor(width, b, a)
  {
    if width > 0 { BitXorCommutes(width - 1, a / 2, b / 2); }
  }

  lemma XorCommutes(a: byte, b: byte)
    ensures Xor(a, b) == Xor(b, a)
  {
    BitXorCommutes(BitsOf(a), a, b);
  }

  /** Distinct packet ids give distinct IVs under one data key. */
  lemma PacketIvInjective(aead: Aead, key: DataKey, pid1: seq<byte>, pid2: seq<byte>)
    requires ValidIvLen(aead) && |pid1| == |pid2| <= 8
    requires PacketIv(aead, key, pid1) == PacketIv(aead, key, pid2)
    ensures pid1 == pid2
  {
    var z := Zeros(MAX_IV_LEN - |pid1|);
    forall i | 0 <= i < |pid1| ensures pid1[i] == pid2[i] {
      assert PacketIv(aead, key, pid1)[i] == Xor((pid1 + z)[i], key.implicitIv[i]);
      assert PacketIv(aead, key, pid2)[i] == Xor((pid2 + z)[i], key.implicitIv[i]);
      XorCancels(pid1[i], key.implicitIv[i]);
      XorCancels(pid2[i], key.implicitIv[i]);
    }
  }

  /** With the first four bytes of the implicit IV zero, masking is concatenation. */
  lemma ShortIvConcatenates(aead: Aead, key: DataKey, pid: seq<byte>)
    requires ValidIvLen(aead) && |pid| == 4 && key.implicitIv[..4] == Zeros(4)
    ensures PacketIv(aead, key, pid) == pid + key.implicitIv[4..aead.ivLen]
  {
    var iv, want := PacketIv(aead, key, pid), pid + key.implicitIv[4..aead.ivLen];
    forall i | 0 <= i < aead.ivLen ensures iv[i] == want[i] {
      var p := (pid + Zeros(MAX_IV_LEN - 4))[i];
      assert iv[i] == Xor(p, key.implicitIv[i]);
      if i < 4 {
        assert key.implicitIv[i] == key.implicitIv[..4][i];
        XorZeroRight(pid[i]);
      } else {
        XorZeroLeft(key.implicitIv[i]);
      }
    }
  }

  lemma {:induction false} BitXorZero(width: nat, a: nat)
    requires a < Pow2(width)
    ensures BitXor(width, a, 0) == a && BitXor(width, 0, a) == a
  {
    if width > 0 { BitXorZero(width - 1, a / 2); }
  }

  lemma XorZeroRight(a: byte)
    ensures Xor(a, 0) == a
  {
    BitXorZero(BitsOf(a), a);
  }

  lemma XorZeroLeft(a: byte)
    ensures Xor(0, a) == a
  {
    BitXorZero(BitsOf(0), a);
  }

  function Frame(layout: Layout, aead: Aead, key: DataKey, header: seq<byte>, pid: seq<byte>, payload: seq<byte>)
    : seq<byte>
    requires ValidIvLen(aead) && |pid| == PidLen(layout)
  {
    var ad := header + pid;
    var c := aead.seal(key.cipher, PacketIv(aead, key, pid), ad, payload);
    match layout
    case EpochFormat => ad + c.text + c.tag
    case ShortFormat => ad + c.tag + c.text
  }

  /** Splits the body that follows the header and opens it. */
  function Unframe(layout: Layout, aead: Aead, key: DataKey, header: seq<byte>, body: seq<byte>)
    : Option<seq<byte>>
    requires ValidIvLen(aead) && |body| >= MinBodyLen(layout)
  {
    var pid := body[..PidLen(layout)];
    var rest := body[PidLen(layout)..];
    var cut := |rest| - TAG_LEN;
    match layout
    case EpochFormat => aead.open(key.cipher, PacketIv(aead, key, pid), header + pid, rest[..cut], rest[cut..])
    case ShortFormat => aead.open(key.cipher, PacketIv(aead, key, pid), header + pid, rest[TAG_LEN..], rest[..TAG_LEN])
  }

  /** Packet id and tag: the overhead announced for the cipher when not compensating for old peers. */
  function CryptoOverhead(layout: Layout): nat { PidLen(layout) + TAG_LEN }

  /** Taking a sealed packet apart finds packet id, ciphertext and tag, behind whatever header. */
  lemma UnframeOfFrame(layout: Layout, aead: Aead, key: DataKey, header: seq<byte>, pid: seq<byte>,
                       payload: seq<byte>, other: seq<byte>)
    requires Correct(aead) && |pid| == PidLen(layout) && |payload| > 0
    ensures var wire := Frame(layout, aead, key, header, pid, payload);
            && |wire| == |header| + |payload| + CryptoOverhead(layout)
            && header <= wire && wire[|header|..][..PidLen(layout)] == pid
            && var iv := PacketIv(aead, key, pid);
               var c := aead.seal(key.cipher, iv, header + pid, payload);
               Unframe(layout, aead, key, other, wire[|header|..]) ==
                 aead.open(key.cipher, iv, other + pid, c.text, c.tag)
  {
    var c := aead.seal(key.cipher, PacketIv(aead, key, pid), header + pid, payload);
    var body := Frame(layout, aead, key, header, pid, payload)[|header|..];
    var rest := body[PidLen(layout)..];
    assert rest == if layout.EpochFormat? then c.text + c.tag else c.tag + c.text;
    assert body[..PidLen(layout)] == pid;
    if layout.EpochFormat? {
      assert rest[..|rest| - TAG_LEN] == c.text && rest[|rest| - TAG_LEN..] == c.tag;
    } else {
      assert rest[TAG_LEN..] == c.text && rest[..TAG_LEN] == c.tag;
    }
  }

  /**
   * In both layouts, taking a sealed packet apart finds the same packet id, IV
   * and additional data, returns the payload, and the packet has grown by
   * exactly the announced overhead.
   */
  lemma FrameRoundTrip(layout: Layout, aead: Aead, key: DataKey, header: seq<byte>, pid: seq<byte>, payload: seq<byte>)
    requires Correct(aead) && |pid| == PidLen(layout) && |payload| > 0
    ensures var wire := Frame(layout, aead, key, header, pid, payload);
            && |wire| == |header| + |payload| + CryptoOverhead(layout)
            && header <= wire
            && var body := wire[|header|..];
               && body[..PidLen(layout)] == pid
               && Unframe(layout, aead, key, header, body) == Some(payload)
  {
    UnframeOfFrame(layout, aead, key, header, pid, payload, header);
  }

  /** Where the tag of a packet stands: at its end, or right behind the packet id. */
  lemma TagAt(layout: Layout, aead: Aead, key: DataKey, header: seq<byte>, pid: seq<byte>, payload: seq<byte>)
    requires Correct(aead) && |pid| == PidLen(layout)
    ensures var wire := Frame(layout, aead, key, header, pid, payload);
            var tag := aead.seal(key.cipher, PacketIv(aead, key, pid), header + pid, payload).tag;
            match layout
            case EpochFormat => |wire| >= 16 && wire[|wire| - 16..] == tag
            case ShortFormat => |wire| >= |header| + 20 && wire[|header| + 4..|header| + 20] == tag
  {
  }

  lemma SameFront(a: seq<byte>, b: seq<byte>, c: seq<byte>)
    requires a + c == b + c
    ensures a == b
  {
    assert |a| == |b|;
    assert a == (a + c)[..|a|] && b == (b + c)[..|b|];
  }

  /**
   * The header is authenticated with the packet: a cipher that opens it with no
   * other additional data than it was sealed with does not open it behind
   * another header.
   */
  lemma OtherHeaderRefused(layout: Layout, aead: Aead, key: DataKey, header: seq<byte>, pid: seq<byte>,
                           payload: seq<byte>, other: seq<byte>)
    requires Correct(aead) && |pid| == PidLen(layout) && |payload| > 0
    requires var iv := PacketIv(aead, key, pid);
             var c := aead.seal(key.cipher, iv, header + pid, payload);
             forall ad :: ad != header + pid ==> aead.open(key.cipher, iv, ad, c.text, c.tag).None?
    ensures var wire := Frame(layout, aead, key, header, pid, payload);
            && |wire| - |header| >= MinBodyLen(layout)
            && (Unframe(layout, aead, key, other, wire[|header|..]).Some? <==> other == header)
  {
    UnframeOfFrame(layout, aead, key, header, pid, payload, other);
    if other + pid == header + pid { SameFront(other, header, pid); }
  }
}

/**
 * Epoch data keys as values: the key chains, the contexts derived from them,
 * and what each operation on a peer's key state computes.
 */
module EpochKeys {
  import opened Octets
  import opened KeyExpansion
  import opened PacketId

  const PACKET_ID_EPOCH_MAX: nat := 0x0000_ffff_ffff_ffff
  const VERIFY_FAIL_LIMIT: nat := 0x10_0000_0000
  const VERIFY_FAIL_WARN: nat := 0x8_0000_0000

  const MAX_IV_LEN: nat := 16

  type Iv = s: seq<byte> | |s| == MAX_IV_LEN witness seq(MAX_IV_LEN, i => 0)

  datatype EpochKey = EpochKey(secret: Digest, epoch: nat)

  /** Cipher key and implicit IV; the IV is held in a buffer of the maximal size, padded with zeros. */
  datatype DataKey = DataKey(cipher: seq<byte>, implicitIv: Iv)

  /**
   * How keys are derived: from one epoch's secret the next one, and the data
   * key of an epoch. Everything below holds for any derivation; OvpnSuite is
   * the one in use.
   */
  datatype Suite = Suite(next: Digest -> Digest, derive: Digest -> DataKey)

  /**
   * The suite the program uses: the secret of the next epoch, the cipher key
   * and the implicit IV are three expansions of the present secret, told apart
   * by their labels.
   */
  function OvpnSuite(h: Hmac, keyLen: nat, ivLen: nat): Suite
    requires keyLen <= 64 && ivLen <= MAX_IV_LEN
  {
    Suite(secret => ExpandLabel(h, secret, Ascii("datakey upd"), [], DIGEST_LEN),
          secret => DataKey(ExpandLabel(h, secret, Ascii("data_key"), [], keyLen),
                            ExpandLabel(h, secret, Ascii("data_iv"), [], ivLen) + Zeros(MAX_IV_LEN - ivLen)))
  }

  function Zeros(n: nat): (z: seq<byte>)
    ensures |z| == n
  {
    seq(n, i => 0)
  }

  /** What is hashed for the next secret, byte by byte. */
  lemma NextBytes(h: Hmac, keyLen: nat, ivLen: nat, secret: Digest)
    requires keyLen <= 64 && ivLen <= MAX_IV_LEN
    ensures OvpnSuite(h, keyLen, ivLen).next(secret) == h(secret, [0, 32, 16] + Ascii("ovpn datakey upd") + [0, 1])
  {
    FirstBlock(h, secret, "datakey upd", DIGEST_LEN);
    assert "ovpn " + "datakey upd" == "ovpn datakey upd";
  }

  /** The same for the data key; of a long cipher key, for its first 32 bytes. */
  lemma DeriveBytes(h: Hmac, keyLen: nat, ivLen: nat, secret: Digest)
    requires keyLen <= 64 && ivLen <= MAX_IV_LEN
    ensures var dk, n := OvpnSuite(h, keyLen, ivLen).derive(secret), Min(keyLen, 32);
            && |dk.cipher| == keyLen
            && dk.cipher[..n] == h(secret, [0, keyLen, 13] + Ascii("ovpn data_key") + [0, 1])[..n]
            && dk.implicitIv ==
                 h(secret, [0, ivLen, 12] + Ascii("ovpn data_iv") + [0, 1])[..ivLen] + Zeros(MAX_IV_LEN - ivLen)
  {
    FirstBlock(h, secret, "data_key", keyLen);
    FirstBlock(h, secret, "data_iv", ivLen);
    assert "ovpn " + "data_key" == "ovpn data_key";
    assert "ovpn " + "data_iv" == "ovpn data_iv";
  }

  /** A cipher context; `key` is None when none is loaded, and epoch 0 marks an unused slot. */
  datatype KeyCtx = KeyCtx(key: Option<DataKey>, plaintextBlocks: nat, failedVerifications: nat, epoch: nat)

  const CLEARED := KeyCtx(None, 0, 0, 0)

  /** Releasing a context keeps its count of failed verifications. */
  function Freed(ctx: KeyCtx): KeyCtx { KeyCtx(None, 0, ctx.failedVerifications, 0) }

  // ---------------------------------------------------------------------
  // Key chains
  // ---------------------------------------------------------------------

  function Iterate(suite: Suite, k: EpochKey): EpochKey {
    EpochKey(suite.next(k.secret), U16(k.epoch + 1))
  }

  /** E_n, the (n-1)-fold iterate of E_1. */
  function SecretOf(suite: Suite, e1: Digest, n: nat): Digest
    requires n >= 1
  {
    if n == 1 then e1 else suite.next(SecretOf(suite, e1, n - 1))
  }

  function InitCtx(suite: Suite, k: EpochKey): KeyCtx {
    KeyCtx(Some(suite.derive(k.secret)), 0, 0, k.epoch)
  }

  /** The data key of epoch e in the chain that starts at e1. */
  function KeyOf(suite: Suite, e1: Digest, e: nat): DataKey
    requires e >= 1
  {
    suite.derive(SecretOf(suite, e1, e))
  }

  function IterateTo(suite: Suite, k: EpochKey, epoch: nat): (r: EpochKey)
    requires epoch <= UINT16_MAX
    decreases epoch - k.epoch
  {
    if epoch <= k.epoch then k else IterateTo(suite, Iterate(suite, k), epoch)
  }

  predicate OnChain(suite: Suite, e1: Digest, k: EpochKey) {
    k.epoch >= 1 && k.secret == SecretOf(suite, e1, k.epoch)
  }

  lemma {:induction false} IterateToOnChain(suite: Suite, e1: Digest, k: EpochKey, epoch: nat)
    requires OnChain(suite, e1, k) && k.epoch <= epoch <= UINT16_MAX
    ensures IterateTo(suite, k, epoch) == EpochKey(SecretOf(suite, e1, epoch), epoch)
    decreases epoch - k.epoch
  {
    if k.epoch < epoch { IterateToOnChain(suite, e1, Iterate(suite, k), epoch); }
  }

  // ---------------------------------------------------------------------
  // The state of one peer
  // ---------------------------------------------------------------------

  datatype State = State(
    encrypt: KeyCtx, decrypt: KeyCtx,
    sendKey: EpochKey, recvKey: EpochKey,
    limit: nat,
    future: seq<KeyCtx>,
    retiring: KeyCtx, retiringRec: ReplayRec,
    sendId: nat, rec: ReplayRec)

  predicate LimitReached(limit: nat, ctx: KeyCtx, highestPid: nat) {
    limit > 0 && U64(ctx.plaintextBlocks + highestPid) > limit
  }

  predicate VerifyFailExceeded(ctx: KeyCtx) { ctx.failedVerifications > VERIFY_FAIL_LIMIT }

  predicate VerifyFailWarn(ctx: KeyCtx) { ctx.failedVerifications > VERIFY_FAIL_WARN }

  function IterateSendKey(suite: Suite, s: State): State
  {
    var k := Iterate(suite, s.sendKey);
    s.(sendKey := k, encrypt := InitCtx(suite, k), sendId := 0)
  }

  /** The send key is used up. */
  predicate SendPressure(s: State) { LimitReached(s.limit, s.encrypt, s.sendId) }

  /** The peer's key is used up or under attack, and we have not moved ahead of it yet. */
  predicate ReceivePressure(s: State) {
    && s.limit > 0
    && s.encrypt.epoch == s.decrypt.epoch
    && (LimitReached(s.limit, s.decrypt, s.rec.id) || VerifyFailWarn(s.decrypt))
  }

  function CheckSendIterate(suite: Suite, s: State): State
  {
    if s.sendKey.epoch == UINT16_MAX then s
    else
      var t := if SendPressure(s) || ReceivePressure(s) then IterateSendKey(suite, s) else s;
      if t.sendId == PACKET_ID_EPOCH_MAX then IterateSendKey(suite, t) else t
  }

  datatype Slot = Current | Retiring | Future(index: nat)

  /** Which context decrypts packets of the given epoch. */
  function Lookup(s: State, epoch: nat): (r: Option<Slot>)
    ensures r.Some? && r.value.Future? ==> r.value.index < |s.future|
  {
    if s.decrypt.epoch == epoch then Some(Current)
    else if s.retiring.epoch != 0 && s.retiring.epoch == epoch then Some(Retiring)
    else if s.decrypt.epoch < epoch <= s.decrypt.epoch + |s.future| then
      if epoch > UINT16_MAX - |s.future| - 1 then None
      else Some(Future(epoch - (s.decrypt.epoch + 1)))
    else None
  }

  function CtxAt(s: State, slot: Slot): KeyCtx
    requires slot.Future? ==> slot.index < |s.future|
  {
    match slot
    case Current => s.decrypt
    case Retiring => s.retiring
    case Future(i) => s.future[i]
  }

  function WithCtx(s: State, slot: Slot, ctx: KeyCtx): State
    requires slot.Future? ==> slot.index < |s.future|
  {
    match slot
    case Current => s.(decrypt := ctx)
    case Retiring => s.(retiring := ctx)
    case Future(i) => s.(future := s.future[i := ctx])
  }

  /** Moves the send chain up to a received epoch when it is behind. */
  function CatchUpSend(suite: Suite, s: State, epoch: nat): State
    requires epoch <= UINT16_MAX
  {
    if s.encrypt.epoch < epoch then
      var k := IterateTo(suite, s.sendKey, epoch);
      s.(sendKey := k, encrypt := InitCtx(suite, k), sendId := 0)
    else s
  }

  /** The contexts of the epochs that follow k, up to `last`. */
  function FreshKeys(suite: Suite, k: EpochKey, last: nat): (keys: seq<KeyCtx>)
    requires last <= UINT16_MAX
    ensures |keys| == if k.epoch <= last then last - k.epoch else 0
    ensures forall i :: 0 <= i < |keys| ==> keys[i].epoch == k.epoch + 1 + i
    decreases last - k.epoch
  {
    if last <= k.epoch then []
    else
      var next := Iterate(suite, k);
      [InitCtx(suite, next)] + FreshKeys(suite, next, last)
  }

  /**
   * The i-th future key becomes the current one, the current one retires with
   * its replay record, and the window of future keys slides up to `last`.
   */
  function Promote(suite: Suite, s: State, i: nat, last: nat): State
    requires i < |s.future| && last <= UINT16_MAX
  {
    s.(retiring := s.decrypt, retiringRec := s.rec,
       decrypt := s.future[i], rec := FreshRec(s.rec.seqBacktrack, s.rec.timeBacktrack),
       recvKey := IterateTo(suite, s.recvKey, last),
       future := s.future[i + 1..] + FreshKeys(suite, s.recvKey, last))
  }

  /** What an authenticated packet of a future epoch does to the keys. */
  function ReplaceRecvKey(suite: Suite, s: State, epoch: nat): State
    requires s.decrypt.epoch < epoch <= s.decrypt.epoch + |s.future| && epoch + |s.future| <= UINT16_MAX
  {
    Promote(suite, CatchUpSend(suite, s, epoch), epoch - s.decrypt.epoch - 1, epoch + |s.future|)
  }

  /**
   * The replay check of an authenticated packet: it picks the record of the
   * packet's epoch, moving to that epoch first when it is a new one.
   */
  function CheckReplay(suite: Suite, s: State, pin: PacketIdNet, epoch: nat, now: nat): (bool, State)
    requires ValidRec(s.rec) && ValidRec(s.retiringRec)
    requires Lookup(s, epoch).Some?
  {
    if epoch == 0 || s.decrypt.epoch == epoch then
      var (ok, r) := Check(s.rec, pin, now);
      (ok, s.(rec := r))
    else if epoch == s.retiring.epoch then
      var (ok, r) := Check(s.retiringRec, pin, now);
      (ok, s.(retiringRec := r))
    else
      var t := ReplaceRecvKey(suite, s, epoch);
      var (ok, r) := Check(t.rec, pin, now);
      (ok, t.(rec := r))
  }

  function InitState(suite: Suite, e1Send: Digest, e1Recv: Digest, limit: nat, count: nat,
                     seqBacktrack: nat, timeBacktrack: nat): State
    requires 1 <= count < UINT16_MAX
  {
    var send, recv := EpochKey(e1Send, 1), EpochKey(e1Recv, 1);
    State(InitCtx(suite, send), InitCtx(suite, recv),
          send, IterateTo(suite, recv, 1 + count),
          limit, FreshKeys(suite, recv, 1 + count),
          CLEARED, FreshRec(0, 0), 0, FreshRec(seqBacktrack, timeBacktrack))
  }

  // ---------------------------------------------------------------------
  // The invariant
  // ---------------------------------------------------------------------

  predicate GoodCtx(suite: Suite, e1: Digest, ctx: KeyCtx, epoch: nat)
  {
    && epoch >= 1 && ctx.epoch == epoch && ctx.key == Some(KeyOf(suite, e1, epoch))
    && ctx.failedVerifications <= VERIFY_FAIL_LIMIT + 1
  }

  /** The two chains, the window of future keys, and how the epochs relate. */
  ghost predicate Inv(suite: Suite, e1Send: Digest, e1Recv: Digest, s: State)
  {
    && |s.future| >= 1
    && OnChain(suite, e1Send, s.sendKey) && s.sendKey.epoch <= UINT16_MAX
    && s.encrypt.epoch == s.sendKey.epoch
    && s.encrypt.key == Some(KeyOf(suite, e1Send, s.sendKey.epoch))
    && s.sendKey.epoch >= s.decrypt.epoch
    && s.sendId <= PACKET_ID_EPOCH_MAX
    && GoodCtx(suite, e1Recv, s.decrypt, s.decrypt.epoch)
    && OnChain(suite, e1Recv, s.recvKey)
    && s.recvKey.epoch == s.decrypt.epoch + |s.future| <= UINT16_MAX
    && (forall i :: 0 <= i < |s.future| ==> GoodCtx(suite, e1Recv, s.future[i], s.decrypt.epoch + 1 + i))
    && (s.retiring.epoch == 0
        || (s.retiring.epoch < s.decrypt.epoch && GoodCtx(suite, e1Recv, s.retiring, s.retiring.epoch)))
    && ValidRec(s.rec) && ValidRec(s.retiringRec)
  }

  /** The part of the invariant that is about epochs only. */
  ghost predicate Window(s: State) {
    && (forall i :: 0 <= i < |s.future| ==> s.future[i].epoch == s.decrypt.epoch + 1 + i)
    && s.recvKey.epoch == s.decrypt.epoch + |s.future| <= UINT16_MAX
    && s.retiring.epoch < s.decrypt.epoch
    && 1 <= s.encrypt.epoch == s.sendKey.epoch
  }

  lemma InvWindow(suite: Suite, e1Send: Digest, e1Recv: Digest, s: State)
    requires Inv(suite, e1Send, e1Recv, s)
    ensures Window(s)
  {
    forall i | 0 <= i < |s.future| ensures s.future[i].epoch == s.decrypt.epoch + 1 + i {
      assert GoodCtx(suite, e1Recv, s.future[i], s.decrypt.epoch + 1 + i);
    }
  }

  lemma {:induction false} FreshKeysGood(suite: Suite, e1: Digest, k: EpochKey, last: nat)
    requires OnChain(suite, e1, k) && k.epoch <= last <= UINT16_MAX
    ensures forall i :: 0 <= i < last - k.epoch ==>
      GoodCtx(suite, e1, FreshKeys(suite, k, last)[i], k.epoch + 1 + i)
    decreases last - k.epoch
  {
    if k.epoch < last {
      var next := Iterate(suite, k);
      FreshKeysGood(suite, e1, next, last);
      forall i | 0 <= i < last - k.epoch
        ensures GoodCtx(suite, e1, FreshKeys(suite, k, last)[i], k.epoch + 1 + i)
      {
        if i > 0 { assert FreshKeys(suite, k, last)[i] == FreshKeys(suite, next, last)[i - 1]; }
      }
    }
  }

  lemma InitInv(suite: Suite, e1Send: Digest, e1Recv: Digest, limit: nat, count: nat,
                seqBacktrack: nat, timeBacktrack: nat)
    requires 1 <= count < UINT16_MAX
    ensures Inv(suite, e1Send, e1Recv,
                InitState(suite, e1Send, e1Recv, limit, count, seqBacktrack, timeBacktrack))
  {
    var recv := EpochKey(e1Recv, 1);
    IterateToOnChain(suite, e1Recv, recv, 1 + count);
    FreshKeysGood(suite, e1Recv, recv, 1 + count);
  }

  lemma CheckSendIterateInv(suite: Suite, e1Send: Digest, e1Recv: Digest, s: State)
    requires Inv(suite, e1Send, e1Recv, s)
    ensures Inv(suite, e1Send, e1Recv, CheckSendIterate(suite, s))
  {
  }

  /** The send chain after catching up is at the later of the two epochs. */
  lemma CatchUpSendInv(suite: Suite, e1Send: Digest, e1Recv: Digest, s: State, epoch: nat)
    requires Inv(suite, e1Send, e1Recv, s) && epoch <= UINT16_MAX
    ensures Inv(suite, e1Send, e1Recv, CatchUpSend(suite, s, epoch))
    ensures CatchUpSend(suite, s, epoch).sendKey.epoch == Max(s.sendKey.epoch, epoch)
  {
    if s.encrypt.epoch < epoch { IterateToOnChain(suite, e1Send, s.sendKey, epoch); }
  }

  /** After sliding, the window again holds the keys of the epochs just after the new current one. */
  lemma PromoteWindow(suite: Suite, e1Recv: Digest, s: State, i: nat, last: nat, j: nat)
    requires OnChain(suite, e1Recv, s.recvKey) && s.recvKey.epoch == s.decrypt.epoch + |s.future| <= last <= UINT16_MAX
    requires i < |s.future| && last == s.decrypt.epoch + 1 + i + |s.future|
    requires forall k :: 0 <= k < |s.future| ==> GoodCtx(suite, e1Recv, s.future[k], s.decrypt.epoch + 1 + k)
    requires j < |s.future|
    ensures |Promote(suite, s, i, last).future| == |s.future|
    ensures GoodCtx(suite, e1Recv, Promote(suite, s, i, last).future[j], s.decrypt.epoch + 1 + i + 1 + j)
  {
    FreshKeysGood(suite, e1Recv, s.recvKey, last);
    var kept := |s.future| - i - 1;
    if j < kept {
      assert Promote(suite, s, i, last).future[j] == s.future[i + 1 + j];
    } else {
      assert Promote(suite, s, i, last).future[j] == FreshKeys(suite, s.recvKey, last)[j - kept];
    }
  }

  lemma PromoteInv(suite: Suite, e1Send: Digest, e1Recv: Digest, s: State, i: nat, last: nat)
    requires Inv(suite, e1Send, e1Recv, s) && i < |s.future| && s.sendKey.epoch >= s.decrypt.epoch + 1 + i
    requires last == s.decrypt.epoch + 1 + i + |s.future| <= UINT16_MAX
    ensures Inv(suite, e1Send, e1Recv, Promote(suite, s, i, last))
  {
    IterateToOnChain(suite, e1Recv, s.recvKey, last);
    assert GoodCtx(suite, e1Recv, s.future[i], s.decrypt.epoch + 1 + i);
    var t := Promote(suite, s, i, last);
    forall j | 0 <= j < |t.future| ensures GoodCtx(suite, e1Recv, t.future[j], t.decrypt.epoch + 1 + j) {
      PromoteWindow(suite, e1Recv, s, i, last, j);
    }
  }

  lemma ReplaceRecvKeyInv(suite: Suite, e1Send: Digest, e1Recv: Digest, s: State, epoch: nat)
    requires Inv(suite, e1Send, e1Recv, s)
    requires s.decrypt.epoch < epoch <= s.decrypt.epoch + |s.future| && epoch + |s.future| <= UINT16_MAX
    ensures Inv(suite, e1Send, e1Recv, ReplaceRecvKey(suite, s, epoch))
  {
    CatchUpSendInv(suite, e1Send, e1Recv, s, epoch);
    PromoteInv(suite, e1Send, e1Recv, CatchUpSend(suite, s, epoch), epoch - s.decrypt.epoch - 1, epoch + |s.future|);
  }
}

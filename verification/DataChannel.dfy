/**
 * What sending and receiving one data packet in the epoch format compute, and
 * the properties of these steps taken one at a time.
 */
module DataChannel {
  import opened Octets
  import opened KeyExpansion
  import opened PacketId
  import opened EpochKeys
  import opened AeadFraming

  const BUF_SIZE_MAX: nat := 1_000_000
  const AEAD_LIMIT_BLOCKSIZE: nat := 16
  const COUNTER_RANGE: nat := 0x1_0000_0000_0000

  /** Highest 16 bits: the epoch; lower 48 bits: the counter within the epoch. */
  function WirePid(epoch: nat, id: nat): (b: seq<byte>)
    ensures |b| == 8
  {
    BigEndian(epoch * COUNTER_RANGE + id, 8)
  }

  function EpochOf(pid: seq<byte>): nat { FromBigEndian(pid) / COUNTER_RANGE }

  function CounterOf(pid: seq<byte>): nat { FromBigEndian(pid) % COUNTER_RANGE }

  lemma WirePidRoundTrip(epoch: nat, id: nat)
    requires epoch <= UINT16_MAX && id <= PACKET_ID_EPOCH_MAX
    ensures EpochOf(WirePid(epoch, id)) == epoch && CounterOf(WirePid(epoch, id)) == id
  {
    assert Pow256(8) == 0x1_0000_0000_0000_0000;
    BigEndianRoundTrip(epoch * COUNTER_RANGE + id, 8);
  }

  /** On the wire the epoch stands in front, high byte first, and the counter fills the other six bytes. */
  lemma WirePidBytes(epoch: nat, id: nat)
    requires epoch <= UINT16_MAX && id <= PACKET_ID_EPOCH_MAX
    ensures WirePid(epoch, id) == [epoch / 256, epoch % 256] + BigEndian(id, 6)
  {
    assert Pow256(6) == COUNTER_RANGE;
    BigEndianConcat(epoch, 2, id, 6);
    assert BigEndian(epoch / 256, 1) == BigEndian(epoch / 256 / 256, 0) + [epoch / 256];
  }

  /** Room to append len bytes to a buffer that holds `used` of `room` bytes. */
  predicate BufSafe(room: nat, used: nat, len: nat) {
    len < BUF_SIZE_MAX && used + len <= room
  }

  /** The number of blocks begun. */
  function BlocksOf(len: nat): (n: nat)
    ensures 16 * n - 16 < len <= 16 * n
  {
    (len + (AEAD_LIMIT_BLOCKSIZE - 1)) / AEAD_LIMIT_BLOCKSIZE
  }

  /** Every context that can be looked up has a key. */
  predicate Loaded(s: State) {
    && s.encrypt.key.Some? && s.decrypt.key.Some?
    && (forall i :: 0 <= i < |s.future| ==> s.future[i].key.Some?)
    && (s.retiring.epoch != 0 ==> s.retiring.key.Some?)
    && ValidRec(s.rec) && ValidRec(s.retiringRec)
  }

  /** A packet handed to the network, with what it was made from. */
  datatype Sent = Sent(epoch: nat, id: nat, header: seq<byte>, payload: seq<byte>, wire: seq<byte>)

  /**
   * Encrypts one packet behind `header` in a work buffer of `room` bytes,
   * after moving to a new send key if the old one is used up.
   */
  function Encrypt(suite: Suite, aead: Aead, s: State, header: seq<byte>, payload: seq<byte>, room: nat)
    : (Option<Sent>, State)
    requires ValidIvLen(aead) && Loaded(s)
  {
    Emit(aead, CheckSendIterate(suite, s), header, payload, room)
  }

  /**
   * Seals with the current send key. No packet results when the counter is
   * used up or the buffer is too small; in the latter case the counter value
   * is gone all the same.
   */
  function Emit(aead: Aead, s: State, header: seq<byte>, payload: seq<byte>, room: nat): (Option<Sent>, State)
    requires ValidIvLen(aead) && s.encrypt.key.Some?
  {
    if s.sendId == PACKET_ID_EPOCH_MAX then (None, s)
    else
      var id := s.sendId + 1;
      if !BufSafe(room, |header| + 8, |payload| + TAG_LEN + aead.blockSize) then (None, s.(sendId := id))
      else
        var wire := Frame(EpochFormat, aead, s.encrypt.key.value, header, WirePid(s.encrypt.epoch, id), payload);
        var blocks := U64(s.encrypt.plaintextBlocks + BlocksOf(|header| + 8 + |payload|));
        (Some(Sent(s.encrypt.epoch, id, header, payload, wire)),
         s.(sendId := id, encrypt := s.encrypt.(plaintextBlocks := blocks)))
  }

  /** The payload that was accepted, under which epoch and counter. */
  datatype Received = Received(epoch: nat, id: nat, payload: seq<byte>)

  /** How far a packet gets before it is dropped. */
  datatype Verdict = Malformed | UnknownEpoch | FailLimit | NoRoom | BadTag | Replay | Accept(r: Received)

  /** What the tag check finds out, before anything is changed. */
  datatype Opened = Dropped(why: Verdict) | WrongTag(slot: Slot) | Authentic(r: Received)

  /** Picks the key by the packet's epoch and opens the body that follows `header` with it. */
  function Open(aead: Aead, s: State, header: seq<byte>, body: seq<byte>, room: nat): (o: Opened)
    requires ValidIvLen(aead) && Loaded(s)
    ensures o.Dropped? ==> !o.why.BadTag? && !o.why.Replay? && !o.why.Accept?
    ensures o.WrongTag? ==>
      && |body| >= 8 && EpochOf(body[..8]) > 0 && Lookup(s, EpochOf(body[..8])) == Some(o.slot)
      && !VerifyFailExceeded(CtxAt(s, o.slot))
    ensures o.Authentic? ==>
      && |body| >= 8 && o.r.epoch == EpochOf(body[..8]) > 0 && o.r.id == CounterOf(body[..8])
      && Lookup(s, o.r.epoch).Some?
  {
    if |body| < MinBodyLen(EpochFormat) then Dropped(Malformed)
    else
      var epoch, id := EpochOf(body[..8]), CounterOf(body[..8]);
      if epoch == 0 then Dropped(Malformed)
      else
        var found := Lookup(s, epoch);
        if found.None? then Dropped(UnknownEpoch)
        else
          var ctx := CtxAt(s, found.value);
          if VerifyFailExceeded(ctx) then Dropped(FailLimit)
          else if !BufSafe(room, 0, |body| - 8 + aead.blockSize) then Dropped(NoRoom)
          else
            var plain := Unframe(EpochFormat, aead, ctx.key.value, header, body);
            if plain.None? then WrongTag(found.value) else Authentic(Received(epoch, id, plain.value))
  }

  /**
   * Authenticates and decrypts a packet, then checks for replay. Only a packet
   * whose tag is right changes the keys or the replay records; a wrong tag is
   * counted against the key it was tried with.
   */
  function Decrypt(suite: Suite, aead: Aead, s: State, header: seq<byte>, body: seq<byte>, room: nat, now: nat)
    : (Verdict, State)
    requires ValidIvLen(aead) && Loaded(s)
  {
    match Open(aead, s, header, body, room)
    case Dropped(why) => (why, s)
    case WrongTag(slot) => (BadTag, CountFailure(s, slot))
    case Authentic(r) => Deliver(suite, s, r, now)
  }

  /** The replay check of an authenticated packet, and the accounting when it is delivered. */
  function Deliver(suite: Suite, s: State, r: Received, now: nat): (Verdict, State)
    requires Loaded(s) && Lookup(s, r.epoch).Some?
  {
    var (ok, t) := CheckReplay(suite, s, PacketIdNet(r.id, 0), r.epoch, now);
    if ok then (Accept(r), CountDecrypted(t, |r.payload|)) else (Replay, t)
  }

  function CountFailure(s: State, slot: Slot): State
    requires slot.Future? ==> slot.index < |s.future|
  {
    var ctx := CtxAt(s, slot);
    WithCtx(s, slot, ctx.(failedVerifications := ctx.failedVerifications + 1))
  }

  /** Decrypted blocks are charged to the current receive key, whichever key was used. */
  function CountDecrypted(s: State, len: nat): State {
    s.(decrypt := s.decrypt.(plaintextBlocks := U64(s.decrypt.plaintextBlocks + BlocksOf(len))))
  }

  // ---------------------------------------------------------------------
  // Invariant
  // ---------------------------------------------------------------------

  lemma InvLoaded(suite: Suite, e1Send: Digest, e1Recv: Digest, s: State)
    requires Inv(suite, e1Send, e1Recv, s)
    ensures Loaded(s)
  {
    forall i | 0 <= i < |s.future| ensures s.future[i].key.Some? {
      assert GoodCtx(suite, e1Recv, s.future[i], s.decrypt.epoch + 1 + i);
    }
  }

  lemma EncryptInv(suite: Suite, aead: Aead, e1Send: Digest, e1Recv: Digest, s: State,
                   header: seq<byte>, payload: seq<byte>, room: nat)
    requires ValidIvLen(aead) && Inv(suite, e1Send, e1Recv, s) && Loaded(s)
    ensures Inv(suite, e1Send, e1Recv, Encrypt(suite, aead, s, header, payload, room).1)
  {
    CheckSendIterateInv(suite, e1Send, e1Recv, s);
  }

  lemma CheckReplayInv(suite: Suite, e1Send: Digest, e1Recv: Digest, s: State, pin: PacketIdNet, epoch: nat, now: nat)
    requires Inv(suite, e1Send, e1Recv, s) && Lookup(s, epoch).Some?
    ensures Inv(suite, e1Send, e1Recv, CheckReplay(suite, s, pin, epoch, now).1)
  {
    if Lookup(s, epoch).value.Future? { ReplaceRecvKeyInv(suite, e1Send, e1Recv, s, epoch); }
  }

  /** A lookup finds the context of exactly the epoch asked for, with that epoch's key. */
  lemma LookupGood(suite: Suite, e1Send: Digest, e1Recv: Digest, s: State, epoch: nat)
    requires Inv(suite, e1Send, e1Recv, s) && epoch > 0 && Lookup(s, epoch).Some?
    ensures GoodCtx(suite, e1Recv, CtxAt(s, Lookup(s, epoch).value), epoch)
  {
    var slot := Lookup(s, epoch).value;
    if slot.Future? {
      assert GoodCtx(suite, e1Recv, s.future[slot.index], s.decrypt.epoch + 1 + slot.index);
    }
  }

  lemma CountFailureInv(suite: Suite, e1Send: Digest, e1Recv: Digest, s: State, epoch: nat)
    requires Inv(suite, e1Send, e1Recv, s) && epoch > 0 && Lookup(s, epoch).Some?
    requires !VerifyFailExceeded(CtxAt(s, Lookup(s, epoch).value))
    ensures Inv(suite, e1Send, e1Recv, CountFailure(s, Lookup(s, epoch).value))
  {
    LookupGood(suite, e1Send, e1Recv, s, epoch);
    var slot := Lookup(s, epoch).value;
    var t := CountFailure(s, slot);
    forall i | 0 <= i < |t.future| ensures GoodCtx(suite, e1Recv, t.future[i], t.decrypt.epoch + 1 + i) {
      assert GoodCtx(suite, e1Recv, s.future[i], s.decrypt.epoch + 1 + i);
    }
  }

  lemma CountDecryptedInv(suite: Suite, e1Send: Digest, e1Recv: Digest, s: State, len: nat)
    requires Inv(suite, e1Send, e1Recv, s)
    ensures Inv(suite, e1Send, e1Recv, CountDecrypted(s, len))
  {
  }

  lemma DecryptInv(suite: Suite, aead: Aead, e1Send: Digest, e1Recv: Digest, s: State,
                   header: seq<byte>, body: seq<byte>, room: nat, now: nat)
    requires ValidIvLen(aead) && Inv(suite, e1Send, e1Recv, s) && Loaded(s)
    ensures Inv(suite, e1Send, e1Recv, Decrypt(suite, aead, s, header, body, room, now).1)
  {
    match Open(aead, s, header, body, room)
    case Dropped(_) =>
    case WrongTag(_) => CountFailureInv(suite, e1Send, e1Recv, s, EpochOf(body[..8]));
    case Authentic(r) => DeliverInv(suite, e1Send, e1Recv, s, r, now);
  }

  lemma DeliverInv(suite: Suite, e1Send: Digest, e1Recv: Digest, s: State, r: Received, now: nat)
    requires Inv(suite, e1Send, e1Recv, s) && Loaded(s) && Lookup(s, r.epoch).Some?
    ensures Inv(suite, e1Send, e1Recv, Deliver(suite, s, r, now).1)
  {
    CheckReplayInv(suite, e1Send, e1Recv, s, PacketIdNet(r.id, 0), r.epoch, now);
    CountDecryptedInv(suite, e1Send, e1Recv,
                      CheckReplay(suite, s, PacketIdNet(r.id, 0), r.epoch, now).1, |r.payload|);
  }

  // ---------------------------------------------------------------------
  // Sending
  // ---------------------------------------------------------------------

  /** Lexicographic order on (epoch, counter). */
  predicate NotAfter(e1: nat, id1: nat, e2: nat, id2: nat) {
    e1 < e2 || (e1 == e2 && id1 <= id2)
  }

  /**
   * One check advances the send epoch by at most one, never past the last
   * epoch, and starts the new epoch with an unused key and counter.
   */
  lemma CheckAdvancesOnce(suite: Suite, e1Send: Digest, e1Recv: Digest, s: State)
    requires Inv(suite, e1Send, e1Recv, s)
    ensures var t := CheckSendIterate(suite, s);
            || t == s
            || (&& t.sendKey.epoch == s.sendKey.epoch + 1 <= UINT16_MAX
                && t.sendId == 0 && t.encrypt.plaintextBlocks == 0
                && t == s.(sendKey := t.sendKey, encrypt := t.encrypt, sendId := 0))
  {
  }

  /** Pressure on the receive side alone pushes the send epoch at most one past the receive epoch. */
  lemma ReceivePressureBounded(suite: Suite, e1Send: Digest, e1Recv: Digest, s: State)
    requires Inv(suite, e1Send, e1Recv, s)
    requires !SendPressure(s) && s.sendId < PACKET_ID_EPOCH_MAX
    ensures var t := CheckSendIterate(suite, s);
            t != s ==> t.sendKey.epoch == t.decrypt.epoch + 1
  {
  }

  const MAX_PACKET_BLOCKS: nat := 62_500

  /**
   * How much one send key has been used: never enough to overflow its counter,
   * and while there is a next epoch to move to, no more than one full packet
   * beyond the limit.
   */
  predicate UsageBounded(s: State) {
    && s.encrypt.plaintextBlocks <= MAX_PACKET_BLOCKS * s.sendId
    && (s.limit > 0 && s.sendKey.epoch < UINT16_MAX ==>
          s.encrypt.plaintextBlocks + s.sendId <= s.limit + 1 + MAX_PACKET_BLOCKS)
  }

  /** The tight form: after a packet of `len` bytes of header, id and payload. */
  lemma EncryptUsage(suite: Suite, aead: Aead, e1Send: Digest, e1Recv: Digest, s: State,
                     header: seq<byte>, payload: seq<byte>, room: nat)
    requires ValidIvLen(aead) && Inv(suite, e1Send, e1Recv, s) && Loaded(s)
    requires UsageBounded(s) && room < BUF_SIZE_MAX
    ensures var t := Encrypt(suite, aead, s, header, payload, room).1;
            && UsageBounded(t)
            && (s.limit > 0 && t.sendKey.epoch < UINT16_MAX ==>
                  t.encrypt.plaintextBlocks + t.sendId <= s.limit + 1 + BlocksOf(|header| + 8 + |payload|))
  {
    CheckAdvancesOnce(suite, e1Send, e1Recv, s);
    var t := CheckSendIterate(suite, s);
    assert U64(s.encrypt.plaintextBlocks + s.sendId) == s.encrypt.plaintextBlocks + s.sendId;
    var add := BlocksOf(|header| + 8 + |payload|);
    if BufSafe(room, |header| + 8, |payload| + TAG_LEN + aead.blockSize) && t.sendId < PACKET_ID_EPOCH_MAX {
      assert add <= MAX_PACKET_BLOCKS;
      assert U64(t.encrypt.plaintextBlocks + add) == t.encrypt.plaintextBlocks + add;
    }
  }

  /** A sent packet comes strictly after everything sent before, and is sealed with its epoch's key. */
  lemma EncryptOrder(suite: Suite, aead: Aead, e1Send: Digest, e1Recv: Digest, s: State,
                     header: seq<byte>, payload: seq<byte>, room: nat)
    requires ValidIvLen(aead) && Inv(suite, e1Send, e1Recv, s) && Loaded(s)
    ensures var (out, t) := Encrypt(suite, aead, s, header, payload, room);
            && NotAfter(s.sendKey.epoch, s.sendId, t.sendKey.epoch, t.sendId)
            && t.decrypt == s.decrypt && t.retiring == s.retiring && t.rec == s.rec && t.retiringRec == s.retiringRec
            && t.future == s.future && t.limit == s.limit
            && (out.Some? ==>
                  && out.value.epoch == t.sendKey.epoch && out.value.id == t.sendId
                  && !NotAfter(out.value.epoch, out.value.id, s.sendKey.epoch, s.sendId)
                  && out.value.header == header && out.value.payload == payload
                  && out.value.wire == Frame(EpochFormat, aead, KeyOf(suite, e1Send, t.sendKey.epoch), header,
                                             WirePid(t.sendKey.epoch, t.sendId), payload))
  {
    CheckAdvancesOnce(suite, e1Send, e1Recv, s);
    CheckSendIterateInv(suite, e1Send, e1Recv, s);
  }

  /** The last counter of the last epoch has been used. */
  predicate UsedUp(s: State) { s.sendKey.epoch == UINT16_MAX && s.sendId == PACKET_ID_EPOCH_MAX }

  /** A packet goes out exactly when the buffer has room for it and there is a counter left to use. */
  lemma EncryptGoesOut(suite: Suite, aead: Aead, e1Send: Digest, e1Recv: Digest, s: State,
                       header: seq<byte>, payload: seq<byte>, room: nat)
    requires ValidIvLen(aead) && Inv(suite, e1Send, e1Recv, s) && Loaded(s)
    ensures Encrypt(suite, aead, s, header, payload, room).0.Some? <==>
            BufSafe(room, |header| + 8, |payload| + TAG_LEN + aead.blockSize) && !UsedUp(s)
  {
    CheckAdvancesOnce(suite, e1Send, e1Recv, s);
    assert CheckSendIterate(suite, s).sendId == PACKET_ID_EPOCH_MAX <==> UsedUp(s);
  }

  // ---------------------------------------------------------------------
  // Receiving
  // ---------------------------------------------------------------------

  /** A packet that is dropped before or at its tag check moves no key, window, chain or record. */
  lemma UnauthenticatedChangesNothing(suite: Suite, aead: Aead, s: State,
                                      header: seq<byte>, body: seq<byte>, room: nat, now: nat)
    requires ValidIvLen(aead) && Loaded(s)
    ensures var (v, t) := Decrypt(suite, aead, s, header, body, room, now);
            !v.Replay? && !v.Accept? ==>
              && (!v.BadTag? ==> t == s)
              && (v.BadTag? ==>
                    && |body| >= 8 && Lookup(s, EpochOf(body[..8])).Some?
                    && t == CountFailure(s, Lookup(s, EpochOf(body[..8])).value))
              && t.encrypt == s.encrypt && t.sendKey == s.sendKey && t.recvKey == s.recvKey && t.sendId == s.sendId
              && t.rec == s.rec && t.retiringRec == s.retiringRec
              && t.decrypt.epoch == s.decrypt.epoch && t.retiring.epoch == s.retiring.epoch
              && |t.future| == |s.future|
              && forall i :: 0 <= i < |s.future| ==>
                   t.future[i].epoch == s.future[i].epoch && t.future[i].key == s.future[i].key
  {
  }

  /** The epochs a context is kept for. */
  predicate Live(s: State, epoch: nat) {
    s.decrypt.epoch <= epoch <= s.decrypt.epoch + |s.future| || (epoch == s.retiring.epoch && epoch != 0)
  }

  function CtxOf(s: State, epoch: nat): KeyCtx
    requires Live(s, epoch)
  {
    if epoch == s.decrypt.epoch then s.decrypt
    else if epoch == s.retiring.epoch && epoch != 0 then s.retiring
    else s.future[epoch - s.decrypt.epoch - 1]
  }

  function FailuresOf(s: State, epoch: nat): nat
    requires Live(s, epoch)
  {
    CtxOf(s, epoch).failedVerifications
  }

  /** Moving to a new receive epoch keeps every live epoch's count and gives new epochs a clean one. */
  lemma ReplaceKeepsFailures(suite: Suite, s: State, epoch: nat, e: nat)
    requires Window(s)
    requires s.decrypt.epoch < epoch <= s.decrypt.epoch + |s.future| && epoch + |s.future| <= UINT16_MAX
    requires Live(ReplaceRecvKey(suite, s, epoch), e)
    ensures FailuresOf(ReplaceRecvKey(suite, s, epoch), e) == if Live(s, e) then FailuresOf(s, e) else 0
  {
    if e > epoch { ShiftedFailures(suite, s, epoch, e - epoch - 1); }
  }

  /** A key that stays in the window keeps its count, and a new one starts with none. */
  lemma ShiftedFailures(suite: Suite, s: State, epoch: nat, j: nat)
    requires Window(s)
    requires s.decrypt.epoch < epoch <= s.decrypt.epoch + |s.future| && epoch + |s.future| <= UINT16_MAX
    requires j < |ReplaceRecvKey(suite, s, epoch).future|
    ensures var i := j + epoch - s.decrypt.epoch;
            ReplaceRecvKey(suite, s, epoch).future[j].failedVerifications ==
              if i < |s.future| then s.future[i].failedVerifications else 0
  {
    var kept := s.decrypt.epoch + |s.future| - epoch;
    var added := FreshKeys(suite, s.recvKey, epoch + |s.future|);
    assert ReplaceRecvKey(suite, s, epoch).future == s.future[epoch - s.decrypt.epoch..] + added;
    if j >= kept { FreshKeysClean(suite, s.recvKey, epoch + |s.future|, j - kept); }
  }

  lemma {:induction false} FreshKeysClean(suite: Suite, k: EpochKey, last: nat, i: nat)
    requires last <= UINT16_MAX && i < |FreshKeys(suite, k, last)|
    ensures FreshKeys(suite, k, last)[i].failedVerifications == 0
    decreases i
  {
    if i > 0 { FreshKeysClean(suite, Iterate(suite, k), last, i - 1); }
  }

  lemma CountFailureCounts(s: State, epoch: nat, e: nat)
    requires Window(s) && epoch > 0 && Lookup(s, epoch).Some? && Live(s, e) && e > 0
    ensures var t := CountFailure(s, Lookup(s, epoch).value);
            Live(t, e) && FailuresOf(t, e) == FailuresOf(s, e) + if e == epoch then 1 else 0
  {
  }

  lemma CheckReplayFailures(suite: Suite, s: State, pin: PacketIdNet, epoch: nat, now: nat, e: nat)
    requires Window(s) && ValidRec(s.rec) && ValidRec(s.retiringRec)
    requires epoch > 0 && Lookup(s, epoch).Some? && Live(CheckReplay(suite, s, pin, epoch, now).1, e)
    ensures FailuresOf(CheckReplay(suite, s, pin, epoch, now).1, e) == if Live(s, e) then FailuresOf(s, e) else 0
  {
    if Lookup(s, epoch).value.Future? {
      assert Live(ReplaceRecvKey(suite, s, epoch), e);
      ReplaceKeepsFailures(suite, s, epoch, e);
    }
  }

  lemma DecryptFailures(suite: Suite, aead: Aead, s: State,
                        header: seq<byte>, body: seq<byte>, room: nat, now: nat, e: nat)
    requires ValidIvLen(aead) && Window(s) && Loaded(s) && e > 0
    requires Live(Decrypt(suite, aead, s, header, body, room, now).1, e)
    ensures var (v, t) := Decrypt(suite, aead, s, header, body, room, now);
            FailuresOf(t, e) == (if Live(s, e) then FailuresOf(s, e) else 0)
                              + (if v.BadTag? && e == EpochOf(body[..8]) then 1 else 0)
  {
    match Open(aead, s, header, body, room)
    case Dropped(_) =>
    case WrongTag(_) => CountFailureCounts(s, EpochOf(body[..8]), e);
    case Authentic(r) => DeliverFailures(suite, s, r, now, e);
  }

  lemma DeliverFailures(suite: Suite, s: State, r: Received, now: nat, e: nat)
    requires Window(s) && Loaded(s) && r.epoch > 0 && Lookup(s, r.epoch).Some?
    requires Live(Deliver(suite, s, r, now).1, e)
    ensures FailuresOf(Deliver(suite, s, r, now).1, e) == if Live(s, e) then FailuresOf(s, e) else 0
  {
    var c := CheckReplay(suite, s, PacketIdNet(r.id, 0), r.epoch, now).1;
    assert Live(c, e);
    CheckReplayFailures(suite, s, PacketIdNet(r.id, 0), r.epoch, now, e);
  }

  /**
   * The count of failed verifications belongs to the epoch, not to the place
   * the key is kept in: receiving a packet adds one to the count of the epoch
   * whose tag was wrong and leaves every other count alone, whatever slides,
   * is promoted or retires.
   */
  lemma FailuresFollowEpoch(suite: Suite, aead: Aead, e1Send: Digest, e1Recv: Digest, s: State,
                            header: seq<byte>, body: seq<byte>, room: nat, now: nat, e: nat)
    requires ValidIvLen(aead) && Inv(suite, e1Send, e1Recv, s) && Loaded(s) && e > 0
    requires Live(Decrypt(suite, aead, s, header, body, room, now).1, e)
    ensures var (v, t) := Decrypt(suite, aead, s, header, body, room, now);
            && FailuresOf(t, e) == (if Live(s, e) then FailuresOf(s, e) else 0)
                                 + (if v.BadTag? && e == EpochOf(body[..8]) then 1 else 0)
            && FailuresOf(t, e) <= VERIFY_FAIL_LIMIT + 1
  {
    InvWindow(suite, e1Send, e1Recv, s);
    DecryptFailures(suite, aead, s, header, body, room, now, e);
    DecryptInv(suite, aead, e1Send, e1Recv, s, header, body, room, now);
    LiveGood(suite, e1Send, e1Recv, Decrypt(suite, aead, s, header, body, room, now).1, e);
  }

  lemma LiveGood(suite: Suite, e1Send: Digest, e1Recv: Digest, s: State, e: nat)
    requires Inv(suite, e1Send, e1Recv, s) && Live(s, e)
    ensures GoodCtx(suite, e1Recv, CtxOf(s, e), e)
  {
    if e != s.decrypt.epoch && e != s.retiring.epoch {
      var i := e - s.decrypt.epoch - 1;
      assert GoodCtx(suite, e1Recv, s.future[i], s.decrypt.epoch + 1 + i);
    }
  }

  /** The record consulted for an epoch; a future epoch starts with an empty one. */
  function RecordFor(s: State, epoch: nat): (r: ReplayRec)
    requires ValidRec(s.rec) && ValidRec(s.retiringRec)
    ensures ValidRec(r)
  {
    if epoch == s.decrypt.epoch then s.rec
    else if epoch == s.retiring.epoch then s.retiringRec
    else FreshRec(s.rec.seqBacktrack, s.rec.timeBacktrack)
  }

  /**
   * Exactly what happens to a packet the peer really sealed for epoch `epoch`:
   * it is opened with the right key, and the payload is delivered if and only
   * if the epoch can still be looked up, its key is not locked after too many
   * failures, the buffer is large enough, and the counter is new.
   */
  lemma GenuineVerdict(suite: Suite, aead: Aead, e1Send: Digest, e1Recv: Digest, s: State,
                       epoch: nat, id: nat, header: seq<byte>, payload: seq<byte>, room: nat, now: nat)
    requires Correct(aead) && Inv(suite, e1Send, e1Recv, s) && Loaded(s)
    requires 1 <= epoch <= UINT16_MAX && id <= PACKET_ID_EPOCH_MAX && |payload| > 0
    ensures var wire := Frame(EpochFormat, aead, KeyOf(suite, e1Recv, epoch), header, WirePid(epoch, id), payload);
            Decrypt(suite, aead, s, header, wire[|header|..], room, now).0 ==
              if Lookup(s, epoch).None? then UnknownEpoch
              else if FailuresOf(s, epoch) > VERIFY_FAIL_LIMIT then FailLimit
              else if !BufSafe(room, 0, |payload| + TAG_LEN + aead.blockSize) then NoRoom
              else if !Check(RecordFor(s, epoch), PacketIdNet(id, 0), now).0 then Replay
              else Accept(Received(epoch, id, payload))
  {
    FrameRoundTrip(EpochFormat, aead, KeyOf(suite, e1Recv, epoch), header, WirePid(epoch, id), payload);
    WirePidRoundTrip(epoch, id);
    if Lookup(s, epoch).Some? { LookupGood(suite, e1Send, e1Recv, s, epoch); }
  }
}

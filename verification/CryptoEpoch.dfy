/** The key state of one peer as the data channel updates it in place. */
module CryptoEpoch {
  import opened Octets
  import opened KeyExpansion
  import opened PacketId
  import opened ReplayRecord
  import opened EpochKeys
  import opened AeadFraming
  import opened DataChannel

  /** Derives the next epoch's secret into a fresh buffer and replaces the key with it. */
  method EpochKeyIterate(h: Hmac, k: EpochKey, ghost keyLen: nat, ghost ivLen: nat) returns (next: EpochKey)
    requires keyLen <= 64 && ivLen <= MAX_IV_LEN
    ensures next == Iterate(OvpnSuite(h, keyLen, ivLen), k)
  {
    var secret := new byte[DIGEST_LEN](i => 0);
    var ok := OvpnExpandLabel(h, k.secret, Ascii("datakey upd"), [], secret);
    next := EpochKey(secret[..], U16(k.epoch + 1));
  }

  /** Derives the data key and the implicit IV of an epoch. */
  method EpochDataKeyDerive(h: Hmac, k: EpochKey, keyLen: nat, ivLen: nat) returns (dk: DataKey)
    requires keyLen <= 64 && ivLen <= MAX_IV_LEN
    ensures dk == OvpnSuite(h, keyLen, ivLen).derive(k.secret)
  {
    var cipher := new byte[keyLen](i => 0);
    var ok := OvpnExpandLabel(h, k.secret, Ascii("data_key"), [], cipher);
    var iv := new byte[ivLen](i => 0);
    ok := OvpnExpandLabel(h, k.secret, Ascii("data_iv"), [], iv);
    dk := DataKey(cipher[..], iv[..] + Zeros(MAX_IV_LEN - ivLen));
  }

  /** The window with every context of an epoch before `epoch` released. */
  function FreedBefore(w: seq<KeyCtx>, epoch: nat): (v: seq<KeyCtx>)
    ensures |v| == |w|
  {
    seq(|w|, i requires 0 <= i < |w| => if 0 < w[i].epoch < epoch then Freed(w[i]) else w[i])
  }

  lemma FreedBeforeSplit(w: seq<KeyCtx>, epoch: nat, num: nat)
    requires num <= |w|
    requires forall j :: 0 <= j < num ==> w[j].epoch < epoch
    requires forall j :: num <= j < |w| ==> w[j].epoch > epoch
    ensures FreedBefore(w, epoch)[num..] == w[num..]
    ensures forall j :: 0 <= j < num ==> FreedBefore(w, epoch)[j].epoch == 0
  {
  }

  lemma AllInitialised(all: seq<KeyCtx>, w: seq<KeyCtx>, num: nat, added: seq<KeyCtx>)
    requires num <= |w| && all == w[num..] + added
    requires forall i :: num <= i < |w| ==> w[i].epoch > 0
    requires forall i :: 0 <= i < |added| ==> added[i].epoch > 0
    ensures forall i :: 0 <= i < |all| ==> all[i].epoch > 0
  {
  }

  /** Masks the packet id in the IV buffer with the implicit IV, byte by byte. */
  method BuildIv(aead: Aead, key: DataKey, pid: seq<byte>) returns (iv: seq<byte>)
    requires ValidIvLen(aead) && |pid| == 8
    ensures iv == PacketIv(aead, key, pid)
  {
    var buf := new byte[MAX_IV_LEN](i => 0);
    CopyInto(buf, 0, pid, 8);
    ghost var padded := pid + Zeros(MAX_IV_LEN - 8);
    assert buf[..] == padded;
    for i := 0 to aead.ivLen
      invariant forall k :: 0 <= k < MAX_IV_LEN ==>
        buf[k] == if k < i then Xor(padded[k], key.implicitIv[k]) else padded[k]
    {
      buf[i] := Xor(buf[i], key.implicitIv[i]);
    }
    iv := buf[..aead.ivLen];
  }

  /** What is to be done about a packet once its tag has been looked at. */
  predicate Concludes(suite: Suite, s: State, o: Opened, now: nat, d: (Verdict, State))
    requires Loaded(s)
  {
    match o
    case Dropped(why) => d == (why, s)
    case WrongTag(slot) => (slot.Future? ==> slot.index < |s.future|) && d == (BadTag, CountFailure(s, slot))
    case Authentic(r) => Lookup(s, r.epoch).Some? && d == Deliver(suite, s, r, now)
  }

  lemma DecryptConcludes(suite: Suite, aead: Aead, e1Send: Digest, e1Recv: Digest, s: State,
                         header: seq<byte>, body: seq<byte>, room: nat, now: nat, o: Opened, d: (Verdict, State))
    requires ValidIvLen(aead) && Inv(suite, e1Send, e1Recv, s) && Loaded(s)
    requires o == Open(aead, s, header, body, room) && d == Decrypt(suite, aead, s, header, body, room, now)
    ensures Concludes(suite, s, o, now, d) && Inv(suite, e1Send, e1Recv, d.1)
  {
    DecryptInv(suite, aead, e1Send, e1Recv, s, header, body, room, now);
  }

  class CryptoOptions {
    const suite: Suite
    var initialized: bool
    var encrypt: KeyCtx
    var decrypt: KeyCtx
    var epochKeySend: EpochKey
    var epochKeyRecv: EpochKey
    var aeadUsageLimit: nat
    var future: array<KeyCtx>
    var retiring: KeyCtx
    const retiringRec: PacketIdRec
    var sendId: nat
    const rec: PacketIdRec
    ghost var recView: ReplayRec
    ghost var retiringView: ReplayRec
    ghost var records: set<object>
    ghost var e1Send: Digest
    ghost var e1Recv: Digest

    ghost function Abs(): State
      reads this, future
    {
      State(encrypt, decrypt, epochKeySend, epochKeyRecv, aeadUsageLimit, future[..],
            retiring, retiringView, sendId, recView)
    }

    /** The two replay records share nothing, and hold what is said. */
    ghost predicate Hold(current: ReplayRec, retired: ReplayRec)
      reads rec, rec.seqList, if rec.seqList == null then {} else {rec.seqList.list}
      reads retiringRec, retiringRec.seqList, if retiringRec.seqList == null then {} else {retiringRec.seqList.list}
    {
      && rec.Repr() !! retiringRec.Repr()
      && rec.Valid() && rec.Abs() == current
      && retiringRec.Valid() && retiringRec.Abs() == retired
    }

    /** Everything the records consist of. */
    ghost predicate Footprint()
      reads this, records
    {
      && {this, future} !! records && rec in records && retiringRec in records
      && (rec.seqList != null ==> rec.seqList in records && rec.seqList.list in records)
      && (retiringRec.seqList != null ==> retiringRec.seqList in records && retiringRec.seqList.list in records)
    }

    ghost predicate RecordsValid()
      reads this, records
    {
      Footprint() && Hold(recView, retiringView)
    }

    ghost predicate Valid()
      reads this, future
    {
      initialized && Inv(suite, e1Send, e1Recv, Abs())
    }

    /** Starts both chains at epoch 1 and fills the window of future receive keys. */
    constructor (suite: Suite, e1Send: EpochKey, e1Recv: EpochKey, limit: nat, count: nat,
                 rec: PacketIdRec, retiringRec: PacketIdRec, ghost seqBacktrack: nat, ghost timeBacktrack: nat)
      requires e1Send.epoch == 1 && e1Recv.epoch == 1 && 1 <= count < UINT16_MAX
      requires rec.Valid() && rec.Abs() == FreshRec(seqBacktrack, timeBacktrack)
      requires retiringRec.Valid() && retiringRec.Abs() == FreshRec(0, 0) && rec.Repr() !! retiringRec.Repr()
      ensures Valid() && RecordsValid() && fresh(future) && records == rec.Repr() + retiringRec.Repr()
      ensures Abs() == InitState(suite, e1Send.secret, e1Recv.secret, limit, count, seqBacktrack, timeBacktrack)
      ensures this.suite == suite && this.e1Send == e1Send.secret && this.e1Recv == e1Recv.secret
      ensures this.rec == rec && this.retiringRec == retiringRec
    {
      this.suite := suite;
      this.rec, this.retiringRec, records := rec, retiringRec, rec.Repr() + retiringRec.Repr();
      recView, retiringView := rec.Abs(), retiringRec.Abs();
      initialized, encrypt, decrypt, retiring, sendId := false, CLEARED, CLEARED, CLEARED, 0;
      epochKeySend, epochKeyRecv := e1Send, e1Recv;
      aeadUsageLimit := limit;
      future := new KeyCtx[count](i => CLEARED);
      this.e1Send, this.e1Recv := e1Send.secret, e1Recv.secret;
      new;
      InitKeys();
      InitInv(suite, e1Send.secret, e1Recv.secret, limit, count, seqBacktrack, timeBacktrack);
    }

    /** Loads the first keys of both directions and all future receive keys. */
    method InitKeys()
      requires epochKeySend.epoch == 1 && epochKeyRecv.epoch == 1 && 1 <= future.Length < UINT16_MAX
      requires encrypt == CLEARED && forall j :: 0 <= j < future.Length ==> future[j] == CLEARED
      modifies this`encrypt, this`sendId, this`decrypt, this`initialized, this`epochKeyRecv, future
      ensures initialized && sendId == 0
      ensures encrypt == InitCtx(suite, epochKeySend) && decrypt == InitCtx(suite, old(epochKeyRecv))
      ensures epochKeyRecv == IterateTo(suite, old(epochKeyRecv), 1 + future.Length)
      ensures future[..] == FreshKeys(suite, old(epochKeyRecv), 1 + future.Length)
    {
      InitSendKeyCtx();
      decrypt := InitCtx(suite, epochKeyRecv);
      initialized := true;
      GenerateFutureReceiveKeys(future.Length, 1 + future.Length);
    }

    // -------------------------------------------------------------------
    // Send side
    // -------------------------------------------------------------------

    /** A key is never generated twice: the context still loaded belongs to another epoch. */
    method InitSendKeyCtx()
      requires encrypt.epoch != epochKeySend.epoch
      modifies this`encrypt, this`sendId
      ensures encrypt == InitCtx(suite, epochKeySend) && sendId == 0
    {
      encrypt := InitCtx(suite, epochKeySend);
      sendId := 0;
    }

    method IterateSend()
      requires Valid() && epochKeySend.epoch < UINT16_MAX
      modifies this`epochKeySend, this`encrypt, this`sendId
      ensures Valid() && Abs() == IterateSendKey(suite, old(Abs()))
    {
      epochKeySend := Iterate(suite, epochKeySend);
      encrypt := Freed(encrypt);
      InitSendKeyCtx();
    }

    method CheckSend()
      requires Valid() && RecordsValid()
      modifies this`epochKeySend, this`encrypt, this`sendId
      ensures Valid() && Abs() == CheckSendIterate(suite, old(Abs()))
    {
      if epochKeySend.epoch == UINT16_MAX {
        return;
      }
      if aeadUsageLimit > 0 {
        if LimitReached(aeadUsageLimit, encrypt, sendId) {
          IterateSend();
        } else if encrypt.epoch == decrypt.epoch
               && (LimitReached(aeadUsageLimit, decrypt, rec.id) || VerifyFailWarn(decrypt)) {
          IterateSend();
        }
      }
      if sendId == PACKET_ID_EPOCH_MAX {
        IterateSend();
      }
    }

    // -------------------------------------------------------------------
    // Receive side
    // -------------------------------------------------------------------

    method LookupDecryptKey(epoch: nat) returns (r: Option<Slot>)
      requires Valid()
      ensures r == Lookup(Abs(), epoch)
      ensures r.Some? ==> CtxAt(Abs(), r.value).epoch == epoch
    {
      if decrypt.epoch == epoch {
        return Some(Current);
      } else if retiring.epoch != 0 && retiring.epoch == epoch {
        return Some(Retiring);
      } else if epoch > decrypt.epoch && epoch <= decrypt.epoch + future.Length {
        var index := epoch - (decrypt.epoch + 1);
        if epoch > UINT16_MAX - future.Length - 1 {
          return None;
        }
        assert GoodCtx(suite, e1Recv, Abs().future[index], decrypt.epoch + 1 + index);
        return Some(Future(index));
      }
      return None;
    }

    /** Releases the contexts of epochs before the current one. */
    method FreeOldKeys()
      modifies future
      ensures future[..] == FreedBefore(old(future[..]), decrypt.epoch)
    {
      for i := 0 to future.Length
        invariant forall j :: 0 <= j < future.Length ==>
          future[j] == if j < i && 0 < old(future[j]).epoch < decrypt.epoch
                       then Freed(old(future[j])) else old(future[j])
      {
        if future[i].epoch > 0 && future[i].epoch < decrypt.epoch {
          future[i] := Freed(future[i]);
        }
      }
    }

    /** Derives the contexts of the next epochs into the last places of the window. */
    method AppendFreshKeys(num: nat, ghost last: nat)
      requires num <= future.Length && last == epochKeyRecv.epoch + num <= UINT16_MAX
      modifies future, this`epochKeyRecv
      ensures epochKeyRecv == IterateTo(suite, old(epochKeyRecv), last) && epochKeyRecv.epoch == last
      ensures future[..] == old(future[..future.Length - num]) + FreshKeys(suite, old(epochKeyRecv), last)
    {
      var start := future.Length - num;
      ghost var all := future[..start] + FreshKeys(suite, epochKeyRecv, last);
      for i := start to future.Length
        invariant epochKeyRecv.epoch == last - future.Length + i
        invariant IterateTo(suite, epochKeyRecv, last) == IterateTo(suite, old(epochKeyRecv), last)
        invariant future[..i] + FreshKeys(suite, epochKeyRecv, last) == all
      {
        ghost var done, next := future[..i], Iterate(suite, epochKeyRecv);
        assert FreshKeys(suite, epochKeyRecv, last) == [InitCtx(suite, next)] + FreshKeys(suite, next, last);
        future[i] := CLEARED;
        epochKeyRecv := Iterate(suite, epochKeyRecv);
        future[i] := InitCtx(suite, epochKeyRecv);
        assert future[..i + 1] == done + [InitCtx(suite, next)];
      }
      assert future[..] == future[..future.Length] + [];
    }

    /**
     * Slides the window of future keys so that it starts just after the
     * current receive epoch. `num` is how many keys have to be derived: the
     * first `num` places hold nothing that is still needed.
     */
    method GenerateFutureReceiveKeys(ghost num: nat, ghost last: nat)
      requires initialized && future.Length >= 1
      requires last == decrypt.epoch + future.Length == epochKeyRecv.epoch + num <= UINT16_MAX
      requires num <= future.Length
      requires forall j :: 0 <= j < num ==> future[j].epoch < decrypt.epoch
      requires forall j :: num <= j < future.Length ==> future[j].epoch == decrypt.epoch + 1 + j - num
      modifies future, this`epochKeyRecv
      ensures epochKeyRecv == IterateTo(suite, old(epochKeyRecv), last)
      ensures future[..] == old(future[..])[num..] + FreshKeys(suite, old(epochKeyRecv), last)
      ensures forall j :: 0 <= j < future.Length ==> future[..][j].epoch > 0
    {
      ghost var w := future[..];
      var numKeysGenerate := MakeRoomForKeys(num);
      AppendFreshKeys(numKeysGenerate, last);
      AllInitialised(future[..], w, num, FreshKeys(suite, old(epochKeyRecv), last));
    }

    /** Releases what is no longer needed and moves the rest of the window to the front. */
    method MakeRoomForKeys(ghost num: nat) returns (numKeysGenerate: nat)
      requires initialized && future.Length >= 1
      requires decrypt.epoch + future.Length == epochKeyRecv.epoch + num <= UINT16_MAX
      requires num <= future.Length
      requires forall j :: 0 <= j < num ==> future[j].epoch < decrypt.epoch
      requires forall j :: num <= j < future.Length ==> future[j].epoch == decrypt.epoch + 1 + j - num
      modifies future
      ensures numKeysGenerate == num
      ensures future[..future.Length - num] == old(future[..])[num..]
    {
      var n := future.Length;
      assert epochKeyRecv.epoch == 1 || future[n - 1].epoch == epochKeyRecv.epoch
          || decrypt.epoch == epochKeyRecv.epoch;
      FreedBeforeSplit(future[..], decrypt.epoch, num);
      FreeOldKeys();
      var currentHighestKey := epochKeyRecv.epoch;
      assert currentHighestKey == future[..][n - 1].epoch || currentHighestKey == decrypt.epoch;

      var desiredHighestKey := U16(decrypt.epoch + n);
      assert desiredHighestKey == decrypt.epoch + n;
      numKeysGenerate := U16(desiredHighestKey - currentHighestKey);
      assert numKeysGenerate == num;
      assert forall i :: 0 <= i < numKeysGenerate ==> future[..][i].epoch == 0;

      MoveKeysDown(numKeysGenerate);
    }

    method MoveKeysDown(num: nat)
      requires num <= future.Length
      modifies future
      ensures future[..future.Length - num] == old(future[..])[num..]
    {
      forall j | 0 <= j < future.Length - num {
        future[j] := future[j + num];
      }
    }

    /** Brings the send key up to `epoch` if it is behind. */
    method CatchUp(epoch: nat)
      requires Window(Abs()) && epoch <= UINT16_MAX
      modifies this`epochKeySend, this`encrypt, this`sendId
      ensures Abs() == CatchUpSend(suite, old(Abs()), epoch)
    {
      if encrypt.epoch < epoch {
        encrypt := Freed(encrypt);
        while epochKeySend.epoch < epoch
          modifies this`epochKeySend
          invariant 1 <= epochKeySend.epoch <= epoch
          invariant IterateTo(suite, epochKeySend, epoch) == IterateTo(suite, old(epochKeySend), epoch)
          decreases epoch - epochKeySend.epoch
        {
          epochKeySend := Iterate(suite, epochKeySend);
        }
        InitSendKeyCtx();
      }
    }

    /** Finds the place of an epoch among the future keys; an authenticated epoch is always there. */
    method FindFutureKey(epoch: nat) returns (fki: nat)
      requires Window(Abs()) && decrypt.epoch < epoch <= decrypt.epoch + future.Length
      ensures fki == epoch - decrypt.epoch - 1 && future[fki].epoch == epoch
      ensures forall j :: 0 <= j < future.Length ==> future[j].epoch == decrypt.epoch + 1 + j
    {
      assert forall j :: 0 <= j < future.Length ==> Abs().future[j] == future[j];
      fki := 0;
      while fki < future.Length
        invariant fki <= epoch - decrypt.epoch - 1
      {
        if future[fki].epoch == epoch {
          break;
        }
        fki := fki + 1;
      }
      assert fki < future.Length && future[fki].epoch == epoch;
    }

    /** The future key at `fki` becomes current, the current one retires, and the window slides. */
    method PromoteFutureKey(fki: nat, ghost last: nat)
      requires initialized && fki < future.Length
      requires last == decrypt.epoch + 1 + fki + future.Length <= UINT16_MAX
      requires epochKeyRecv.epoch == decrypt.epoch + future.Length
      requires forall j :: 0 <= j < future.Length ==> future[j].epoch == decrypt.epoch + 1 + j
      modifies this`retiring, this`retiringView, this`recView, this`decrypt, this`epochKeyRecv, future
      ensures Abs() == Promote(suite, old(Abs()), fki, last)
    {
      retiring := decrypt;
      retiringView, recView := recView, FreshRec(recView.seqBacktrack, recView.timeBacktrack);
      UseFutureKey(fki, last);
    }

    method UseFutureKey(fki: nat, ghost last: nat)
      requires initialized && fki < future.Length
      requires last == decrypt.epoch + 1 + fki + future.Length <= UINT16_MAX
      requires epochKeyRecv.epoch == decrypt.epoch + future.Length
      requires forall j :: 0 <= j < future.Length ==> future[j].epoch == decrypt.epoch + 1 + j
      modifies this`decrypt, this`epochKeyRecv, future
      ensures decrypt == old(future[fki]) && epochKeyRecv == IterateTo(suite, old(epochKeyRecv), last)
      ensures future[..] == old(future[..])[fki + 1..] + FreshKeys(suite, old(epochKeyRecv), last)
    {
      decrypt := future[fki];
      future[fki] := CLEARED;
      assert future[..][fki + 1..] == old(future[..])[fki + 1..];
      GenerateFutureReceiveKeys(fki + 1, last);
    }

    /** Moves the send key, the receive key and the window to a future epoch. */
    method ReplaceKeys(newEpoch: nat)
      requires initialized && Window(Abs())
      requires decrypt.epoch < newEpoch <= decrypt.epoch + future.Length && newEpoch + future.Length <= UINT16_MAX
      modifies this, future
      ensures initialized && Abs() == ReplaceRecvKey(suite, old(Abs()), newEpoch) && records == old(records)
      ensures future == old(future) && e1Send == old(e1Send) && e1Recv == old(e1Recv)
    {
      ghost var s := Abs();
      var fki := FindFutureKey(newEpoch);
      CatchUp(newEpoch);
      PromoteFutureKey(fki, newEpoch + future.Length);
      assert Abs() == Promote(suite, CatchUpSend(suite, s, newEpoch), fki, newEpoch + future.Length);
    }

    /** Moves to a future receive epoch after a packet of that epoch was authenticated. */
    method ReplaceUpdateRecvKey(newEpoch: nat)
      requires Valid() && RecordsValid() && Lookup(Abs(), newEpoch).Some? && Lookup(Abs(), newEpoch).value.Future?
      modifies this, future, rec, retiringRec
      ensures RecordsValid() && fresh(records - old(records))
      ensures Valid() && Abs() == ReplaceRecvKey(suite, old(Abs()), newEpoch)
      ensures future == old(future) && e1Send == old(e1Send) && e1Recv == old(e1Recv)
    {
      InvWindow(suite, e1Send, e1Recv, Abs());
      ReplaceRecvKeyInv(suite, e1Send, e1Recv, Abs(), newEpoch);
      ReplaceKeys(newEpoch);
      RetireRecord(old(recView), old(retiringView));
    }

    /** The record goes with the key that retires, and an empty one takes its place. */
    method RetireRecord(ghost current: ReplayRec, ghost retired: ReplayRec)
      requires Footprint() && Hold(current, retired)
      modifies this`records, rec, retiringRec
      ensures Footprint() && Hold(FreshRec(current.seqBacktrack, current.timeBacktrack), current)
      ensures fresh(records - old(records))
    {
      retiringRec.MoveFrom(rec);
      records := records + rec.Repr();
    }

    /** Chooses the replay record of an authenticated packet and consults it. */
    method CheckReplayOf(pin: PacketIdNet, epoch: nat, now: nat) returns (ret: bool)
      requires Valid() && RecordsValid() && Lookup(Abs(), epoch).Some?
      modifies this, future, records
      ensures RecordsValid() && fresh(records - old(records))
      ensures initialized && (ret, Abs()) == CheckReplay(suite, old(Abs()), pin, epoch, now)
      ensures future == old(future) && e1Send == old(e1Send) && e1Recv == old(e1Recv)
    {
      if epoch == 0 || decrypt.epoch == epoch {
        ret := CheckCurrent(pin, now);
      } else if epoch == retiring.epoch {
        ret := CheckRetiring(pin, now);
      } else {
        ReplaceUpdateRecvKey(epoch);
        ret := CheckCurrent(pin, now);
      }
    }

    method CheckCurrent(pin: PacketIdNet, now: nat) returns (ret: bool)
      requires RecordsValid()
      modifies this`recView, records
      ensures RecordsValid()
      ensures (ret, recView) == Check(old(recView), pin, now)
    {
      ret := rec.CheckId(pin, now);
      recView := rec.Abs();
    }

    method CheckRetiring(pin: PacketIdNet, now: nat) returns (ret: bool)
      requires RecordsValid()
      modifies this`retiringView, records
      ensures RecordsValid()
      ensures (ret, retiringView) == Check(old(retiringView), pin, now)
    {
      ret := retiringRec.CheckId(pin, now);
      retiringView := retiringRec.Abs();
    }

    // -------------------------------------------------------------------
    // Packets
    // -------------------------------------------------------------------

    /** Encrypts a payload behind the header already in the work buffer; None drops the packet. */
    method EncryptAead(aead: Aead, header: seq<byte>, payload: seq<byte>, room: nat) returns (out: Option<seq<byte>>)
      requires Valid() && RecordsValid() && Correct(aead) && |header| + 8 <= room
      modifies this`epochKeySend, this`encrypt, this`sendId
      ensures Valid() && RecordsValid() && old(Loaded(Abs()))
      ensures var (sent, t) := Encrypt(suite, aead, old(Abs()), header, payload, room);
              Abs() == t && out == if sent.Some? then Some(sent.value.wire) else None
    {
      InvLoaded(suite, e1Send, e1Recv, Abs());
      EncryptInv(suite, aead, e1Send, e1Recv, Abs(), header, payload, room);
      CheckSend();
      out := SealNext(aead, header, payload, room);
    }

    method SealNext(aead: Aead, header: seq<byte>, payload: seq<byte>, room: nat) returns (out: Option<seq<byte>>)
      requires encrypt.key.Some? && Correct(aead) && |header| + 8 <= room
      modifies this`encrypt, this`sendId
      ensures var (sent, t) := Emit(aead, old(Abs()), header, payload, room);
              Abs() == t && out == if sent.Some? then Some(sent.value.wire) else None
    {
      if sendId == PACKET_ID_EPOCH_MAX {
        return None;
      }
      sendId := sendId + 1;
      var pid := WirePid(encrypt.epoch, sendId);
      var work := header + pid;
      var iv := BuildIv(aead, encrypt.key.value, pid);
      if !BufSafe(room, |work|, |payload| + TAG_LEN + aead.blockSize) {
        return None;
      }
      var c := aead.seal(encrypt.key.value.cipher, iv, work, payload);
      work := work + c.text;
      encrypt := encrypt.(plaintextBlocks := U64(encrypt.plaintextBlocks + BlocksOf(|work|)));
      work := work + c.tag;
      return Some(work);
    }

    method NoteFailure(slot: Slot)
      requires (slot.Future? ==> slot.index < future.Length) && RecordsValid()
      modifies this`decrypt, this`retiring, future
      ensures RecordsValid()
      ensures Abs() == CountFailure(old(Abs()), slot)
    {
      match slot
      case Current => decrypt := decrypt.(failedVerifications := decrypt.failedVerifications + 1);
      case Retiring => retiring := retiring.(failedVerifications := retiring.failedVerifications + 1);
      case Future(i) => future[i] := future[i].(failedVerifications := future[i].failedVerifications + 1);
    }

    method CtxIn(slot: Slot) returns (ctx: KeyCtx)
      requires slot.Future? ==> slot.index < future.Length
      ensures ctx == CtxAt(Abs(), slot)
    {
      match slot
      case Current => ctx := decrypt;
      case Retiring => ctx := retiring;
      case Future(i) => ctx := future[i];
    }

    /** Picks the key, checks the tag, checks for replay, and accounts for what was decrypted. */
    method DecryptAead(aead: Aead, header: seq<byte>, body: seq<byte>, room: nat, now: nat) returns (v: Verdict)
      requires Valid() && RecordsValid() && Correct(aead)
      modifies this, future, records
      ensures RecordsValid() && fresh(records - old(records)) && old(Loaded(Abs()))
      ensures Valid() && (v, Abs()) == Decrypt(suite, aead, old(Abs()), header, body, room, now)
      ensures future == old(future) && e1Send == old(e1Send) && e1Recv == old(e1Recv)
    {
      InvLoaded(suite, e1Send, e1Recv, Abs());
      ghost var d := Decrypt(suite, aead, Abs(), header, body, room, now);
      var o := OpenPacket(aead, header, body, room);
      DecryptConcludes(suite, aead, e1Send, e1Recv, Abs(), header, body, room, now, o, d);
      v := Conclude(o, now, d);
    }

    method Conclude(o: Opened, now: nat, ghost d: (Verdict, State)) returns (v: Verdict)
      requires Valid() && RecordsValid() && Loaded(Abs())
      requires Concludes(suite, Abs(), o, now, d) && Inv(suite, e1Send, e1Recv, d.1)
      modifies this, future, records
      ensures RecordsValid() && fresh(records - old(records))
      ensures Valid() && (v, Abs()) == d
      ensures future == old(future) && e1Send == old(e1Send) && e1Recv == old(e1Recv)
    {
      match o {
        case Dropped(why) =>
          v := why;
        case WrongTag(slot) =>
          NoteFailure(slot);
          v := BadTag;
        case Authentic(r) =>
          v := DeliverPacket(r, now);
      }
    }

    method DeliverPacket(r: Received, now: nat) returns (v: Verdict)
      requires Valid() && RecordsValid() && Lookup(Abs(), r.epoch).Some?
      modifies this, future, records
      ensures RecordsValid() && fresh(records - old(records)) && old(Loaded(Abs()))
      ensures initialized && (v, Abs()) == Deliver(suite, old(Abs()), r, now)
      ensures future == old(future) && e1Send == old(e1Send) && e1Recv == old(e1Recv)
    {
      InvLoaded(suite, e1Send, e1Recv, Abs());
      var ok := CheckReplayOf(PacketIdNet(r.id, 0), r.epoch, now);
      if !ok {
        return Replay;
      }
      NoteDecrypted(|r.payload|);
      return Accept(r);
    }

    method NoteDecrypted(len: nat)
      requires RecordsValid()
      modifies this`decrypt
      ensures RecordsValid()
      ensures Abs() == CountDecrypted(old(Abs()), len)
    {
      decrypt := decrypt.(plaintextBlocks := U64(decrypt.plaintextBlocks + BlocksOf(len)));
    }

    method OpenPacket(aead: Aead, header: seq<byte>, body: seq<byte>, room: nat) returns (o: Opened)
      requires Valid() && Correct(aead)
      ensures Loaded(Abs()) && o == Open(aead, Abs(), header, body, room)
    {
      InvLoaded(suite, e1Send, e1Recv, Abs());
      if |body| < 4 + TAG_LEN + 1 + 4 {
        return Dropped(Malformed);
      }
      var pid := body[..8];
      var epoch := EpochOf(pid);
      if epoch == 0 {
        return Dropped(Malformed);
      }
      var found := LookupDecryptKey(epoch);
      if found.None? {
        return Dropped(UnknownEpoch);
      }
      var ctx := CtxIn(found.value);
      if VerifyFailExceeded(ctx) {
        return Dropped(FailLimit);
      }
      var rest := body[8..];
      var dataLen := |rest| - TAG_LEN;
      var iv := BuildIv(aead, ctx.key.value, pid);
      if !BufSafe(room, 0, |rest| + aead.blockSize) {
        return Dropped(NoRoom);
      }
      var plain := aead.open(ctx.key.value.cipher, iv, header + pid, rest[..dataLen], rest[dataLen..]);
      if plain.None? {
        return WrongTag(found.value);
      }
      return Authentic(Received(epoch, CounterOf(pid), plain.value));
    }
  }
}

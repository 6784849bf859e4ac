/**
 * Which epoch and counter the next packet of a peer carries, in terms of its
 * whole run: what it has sent and delivered and how many wrong tags it has got.
 */
module SendHistory {
  import opened Octets
  import opened KeyExpansion
  import opened PacketId
  import opened EpochKeys
  import opened AeadFraming
  import opened DataChannel
  import opened TwoPeers
  import opened PeerHistory

  // ---------------------------------------------------------------------
  // Reading a run
  // ---------------------------------------------------------------------

  /** The blocks of header, packet id and payload of all packets sent under an epoch. */
  function BlocksSent(sent: seq<Sent>, epoch: nat): nat {
    if sent == [] then 0
    else
      var p := sent[|sent| - 1];
      BlocksSent(sent[..|sent| - 1], epoch) + if p.epoch == epoch then BlocksOf(|p.header| + 8 + |p.payload|) else 0
  }

  function BlocksGot(got: seq<Received>): nat {
    if got == [] then 0 else BlocksGot(got[..|got| - 1]) + BlocksOf(|got[|got| - 1].payload|)
  }

  function News<T>(before: seq<T>, after: seq<T>): seq<T> {
    if |before| <= |after| then after[|before|..] else []
  }

  /** How often the peer was asked to send since it uses its present send epoch, up to the last counter. */
  ghost function Drawn(cfg: Config, run: seq<Event>, atA: bool): nat
    requires ValidConfig(cfg) && Feasible(cfg, run)
  {
    if run == [] then 0
    else
      var before, e := run[..|run| - 1], run[|run| - 1];
      var moved := SendEpoch(cfg, run, atA) != SendEpoch(cfg, before, atA);
      DrawOn(Drawn(cfg, before, atA), moved, e.Send? && e.atA == atA)
  }

  function DrawOn(drawn: nat, moved: bool, asked: bool): nat {
    Min((if moved then 0 else drawn) + (if asked then 1 else 0), PACKET_ID_EPOCH_MAX)
  }

  ghost function SendEpoch(cfg: Config, run: seq<Event>, atA: bool): nat
    requires ValidConfig(cfg) && Feasible(cfg, run)
  {
    Self(After(cfg, run), atA).st.sendKey.epoch
  }

  /** The blocks of all payloads delivered since the present receive epoch was reached. */
  ghost function Charged(cfg: Config, run: seq<Event>, atA: bool): nat
    requires ValidConfig(cfg) && Feasible(cfg, run)
  {
    if run == [] then 0
    else
      var before := run[..|run| - 1];
      ChargeOn(Charged(cfg, before, atA), Reached(cfg, run, atA).0 != Reached(cfg, before, atA).0,
               News(Self(After(cfg, before), atA).got, Self(After(cfg, run), atA).got))
  }

  function ChargeOn(charged: nat, moved: bool, news: seq<Received>): nat {
    (if moved then 0 else charged) + BlocksGot(news)
  }

  // ---------------------------------------------------------------------
  // One event
  // ---------------------------------------------------------------------

  predicate CleanFuture(s: State) { forall i :: 0 <= i < |s.future| ==> s.future[i].plaintextBlocks == 0 }

  /** Counters and block counts are what has been sent and delivered. */
  predicate Accounted(n: Node, drawn: nat, charged: nat) {
    && n.st.sendId == drawn
    && n.st.encrypt.plaintextBlocks == BlocksSent(n.sent, n.st.sendKey.epoch)
    && n.st.decrypt.plaintextBlocks == U64(charged)
    && CleanFuture(n.st)
  }

  lemma BlocksSentSnoc(sent: seq<Sent>, p: Sent, epoch: nat)
    ensures BlocksSent(sent + [p], epoch) ==
            BlocksSent(sent, epoch) + if p.epoch == epoch then BlocksOf(|p.header| + 8 + |p.payload|) else 0
  {
    assert (sent + [p])[..|sent|] == sent;
  }

  lemma {:induction false} NoneSentYet(sent: seq<Sent>, epoch: nat)
    requires forall i :: 0 <= i < |sent| ==> sent[i].epoch < epoch
    ensures BlocksSent(sent, epoch) == 0
  {
    if sent != [] { NoneSentYet(sent[..|sent| - 1], epoch); }
  }

  lemma {:induction false} FreshKeysUnused(suite: Suite, k: EpochKey, last: nat, i: nat)
    requires last <= UINT16_MAX && i < |FreshKeys(suite, k, last)|
    ensures FreshKeys(suite, k, last)[i].plaintextBlocks == 0
    decreases i
  {
    if i > 0 { FreshKeysUnused(suite, Iterate(suite, k), last, i - 1); }
  }

  /** A receive key is unused when it becomes the current one, and so are all that follow it. */
  lemma ReplaceUnused(suite: Suite, s: State, epoch: nat)
    requires CleanFuture(s)
    requires s.decrypt.epoch < epoch <= s.decrypt.epoch + |s.future| && epoch + |s.future| <= UINT16_MAX
    ensures var t := ReplaceRecvKey(suite, s, epoch);
            CleanFuture(t) && t.decrypt.plaintextBlocks == 0
  {
    var t := ReplaceRecvKey(suite, s, epoch);
    var kept := s.decrypt.epoch + |s.future| - epoch;
    var added := FreshKeys(suite, s.recvKey, epoch + |s.future|);
    assert t.future == s.future[epoch - s.decrypt.epoch..] + added;
    forall j | 0 <= j < |t.future| ensures t.future[j].plaintextBlocks == 0 {
      if j >= kept { FreshKeysUnused(suite, s.recvKey, epoch + |s.future|, j - kept); }
    }
  }

  lemma CheckReplayUnused(suite: Suite, s: State, pin: PacketIdNet, epoch: nat, now: nat)
    requires Window(s) && ValidRec(s.rec) && ValidRec(s.retiringRec) && epoch > 0 && Lookup(s, epoch).Some?
    requires CleanFuture(s)
    ensures var t := CheckReplay(suite, s, pin, epoch, now).1;
            && CleanFuture(t)
            && t.decrypt.plaintextBlocks == if epoch > s.decrypt.epoch then 0 else s.decrypt.plaintextBlocks
  {
    if Lookup(s, epoch).value.Future? { ReplaceUnused(suite, s, epoch); }
  }

  /** What an authentic packet is charged to, and for how much. */
  lemma DeliverCharges(suite: Suite, e1Send: Digest, e1Recv: Digest, s: State, r: Received, now: nat)
    requires Inv(suite, e1Send, e1Recv, s) && Loaded(s) && r.epoch > 0 && Lookup(s, r.epoch).Some? && CleanFuture(s)
    ensures var (v, t) := Deliver(suite, s, r, now);
            var base := if r.epoch > s.decrypt.epoch then 0 else s.decrypt.plaintextBlocks;
            && CleanFuture(t)
            && t.decrypt.plaintextBlocks == if v.Accept? then U64(base + BlocksOf(|r.payload|)) else base
  {
    InvWindow(suite, e1Send, e1Recv, s);
    CheckReplayUnused(suite, s, PacketIdNet(r.id, 0), r.epoch, now);
  }

  lemma U64Sum(a: nat, b: nat)
    ensures U64(U64(a) + b) == U64(a + b)
  {
  }

  /** An authentic packet that moves the send epoch finds nothing sent under the new one. */
  lemma AuthenticSent(cfg: Config, atA: bool, n: Node, r: Received, now: nat, drawn: nat, charged: nat)
    requires ValidConfig(cfg) && NodeInv(cfg, atA, n) && Accounted(n, drawn, charged)
    requires r.epoch > 0 && Lookup(n.st, r.epoch).Some?
    ensures var t := Deliver(cfg.suite, n.st, r, now).1;
            && t.encrypt.plaintextBlocks == BlocksSent(n.sent, t.sendKey.epoch)
            && t.sendId == DrawOn(drawn, t.sendKey.epoch != n.st.sendKey.epoch, false)
  {
    DeliverMoves(cfg.suite, SendSecret(cfg, atA), RecvSecret(cfg, atA), n.st, r, now);
    if n.st.sendKey.epoch < r.epoch { NoneSentYet(n.sent, r.epoch); }
  }

  lemma ChargeIs(charged: nat, moved: bool, r: Received, taken: bool, base: nat)
    requires base == if moved then 0 else U64(charged)
    ensures U64(ChargeOn(charged, moved, if taken then [r] else [])) ==
            if taken then U64(base + BlocksOf(|r.payload|)) else base
  {
    assert [r][..0] == [];
    assert BlocksGot([r]) == BlocksOf(|r.payload|);
    U64Sum(charged, BlocksOf(|r.payload|));
  }

  lemma AuthenticGot(cfg: Config, atA: bool, n: Node, r: Received, now: nat, drawn: nat, charged: nat)
    requires ValidConfig(cfg) && NodeInv(cfg, atA, n) && Accounted(n, drawn, charged)
    requires r.epoch > 0 && Lookup(n.st, r.epoch).Some?
    ensures var (v, t) := Deliver(cfg.suite, n.st, r, now);
            && CleanFuture(t)
            && t.decrypt.plaintextBlocks ==
                 U64(ChargeOn(charged, r.epoch > n.st.decrypt.epoch, if v.Accept? then [r] else []))
  {
    DeliverCharges(cfg.suite, SendSecret(cfg, atA), RecvSecret(cfg, atA), n.st, r, now);
    var moved := r.epoch > n.st.decrypt.epoch;
    ChargeIs(charged, moved, r, Deliver(cfg.suite, n.st, r, now).0.Accept?,
             if moved then 0 else n.st.decrypt.plaintextBlocks);
  }

  lemma AuthenticAccounted(cfg: Config, atA: bool, n: Node, r: Received, now: nat, drawn: nat, charged: nat)
    requires ValidConfig(cfg) && NodeInv(cfg, atA, n) && Accounted(n, drawn, charged)
    requires r.epoch > 0 && Lookup(n.st, r.epoch).Some?
    ensures var (v, t) := Deliver(cfg.suite, n.st, r, now);
            Accounted(n.(st := t, got := Got(n, v)), DrawOn(drawn, t.sendKey.epoch != n.st.sendKey.epoch, false),
                      ChargeOn(charged, r.epoch > n.st.decrypt.epoch, News(n.got, Got(n, v))))
  {
    AuthenticSent(cfg, atA, n, r, now, drawn, charged);
    AuthenticGot(cfg, atA, n, r, now, drawn, charged);
    var v := Deliver(cfg.suite, n.st, r, now).0;
    assert News(n.got, Got(n, v)) == if v.Accept? then [r] else [];
  }

  lemma ArriveAccounted(cfg: Config, atA: bool, n: Node, e: Event, at: (nat, nat), drawn: nat, charged: nat)
    requires ValidConfig(cfg) && NodeInv(cfg, atA, n) && Accounted(n, drawn, charged)
    requires e.Arrive? && e.atA == atA && at.0 == n.st.decrypt.epoch
    ensures var m := NodeStep(cfg, n, e);
            Accounted(m, DrawOn(drawn, m.st.sendKey.epoch != n.st.sendKey.epoch, false),
                      ChargeOn(charged, Onward(at, Finding(cfg, n.st, atA, e)).0 != at.0, News(n.got, m.got)))
  {
    match Open(cfg.aead, n.st, e.header, e.body, e.room)
    case Dropped(_) => assert News(n.got, n.got + []) == [];
    case WrongTag(_) => assert News(n.got, n.got + []) == [];
    case Authentic(r) => AuthenticAccounted(cfg, atA, n, r, e.now, drawn, charged);
  }

  /** Sending a packet charges its blocks to the send key and draws one counter. */
  lemma EncryptCharges(suite: Suite, aead: Aead, e1Send: Digest, e1Recv: Digest, s: State,
                       header: seq<byte>, payload: seq<byte>, room: nat)
    requires ValidIvLen(aead) && Inv(suite, e1Send, e1Recv, s) && Loaded(s)
    requires UsageBounded(s) && room < BUF_SIZE_MAX
    ensures var (out, t) := Encrypt(suite, aead, s, header, payload, room);
            var moved := t.sendKey.epoch != s.sendKey.epoch;
            && t.sendId == DrawOn(s.sendId, moved, true)
            && t.encrypt.plaintextBlocks ==
                 (if moved then 0 else s.encrypt.plaintextBlocks)
                 + (if out.Some? then BlocksOf(|header| + 8 + |payload|) else 0)
  {
    CheckAdvancesOnce(suite, e1Send, e1Recv, s);
    var t := CheckSendIterate(suite, s);
    var add := BlocksOf(|header| + 8 + |payload|);
    if BufSafe(room, |header| + 8, |payload| + TAG_LEN + aead.blockSize) && t.sendId < PACKET_ID_EPOCH_MAX {
      assert add <= MAX_PACKET_BLOCKS;
      assert U64(t.encrypt.plaintextBlocks + add) == t.encrypt.plaintextBlocks + add;
    }
  }

  /** A state that has moved on by a packet, or by none, accounts for it. */
  lemma SentOn(n: Node, out: Option<Sent>, t: State, drawn: nat, charged: nat)
    requires Accounted(n, drawn, charged)
    requires forall i :: 0 <= i < |n.sent| ==> n.sent[i].epoch <= n.st.sendKey.epoch
    requires n.st.sendKey.epoch <= t.sendKey.epoch && t.decrypt == n.st.decrypt && t.future == n.st.future
    requires out.Some? ==> out.value.epoch == t.sendKey.epoch
    requires var moved := t.sendKey.epoch != n.st.sendKey.epoch;
             && t.sendId == DrawOn(n.st.sendId, moved, true)
             && t.encrypt.plaintextBlocks ==
                  (if moved then 0 else n.st.encrypt.plaintextBlocks)
                  + (if out.Some? then BlocksOf(|out.value.header| + 8 + |out.value.payload|) else 0)
    ensures Accounted(n.(st := t, sent := n.sent + if out.Some? then [out.value] else []),
                      DrawOn(drawn, t.sendKey.epoch != n.st.sendKey.epoch, true), charged)
  {
    if t.sendKey.epoch != n.st.sendKey.epoch { NoneSentYet(n.sent, t.sendKey.epoch); }
    assert n.sent + [] == n.sent;
    if out.Some? { BlocksSentSnoc(n.sent, out.value, t.sendKey.epoch); }
  }

  lemma SendAccounted(cfg: Config, atA: bool, n: Node, e: Event, drawn: nat, charged: nat)
    requires ValidConfig(cfg) && NodeInv(cfg, atA, n) && Accounted(n, drawn, charged)
    requires e.Send? && e.room < BUF_SIZE_MAX
    ensures var m := NodeStep(cfg, n, e);
            Accounted(m, DrawOn(drawn, m.st.sendKey.epoch != n.st.sendKey.epoch, true), charged) && m.got == n.got
  {
    var es, er := SendSecret(cfg, atA), RecvSecret(cfg, atA);
    EncryptCharges(cfg.suite, cfg.aead, es, er, n.st, e.header, e.payload, e.room);
    EncryptOrder(cfg.suite, cfg.aead, es, er, n.st, e.header, e.payload, e.room);
    var (out, t) := Encrypt(cfg.suite, cfg.aead, n.st, e.header, e.payload, e.room);
    SentOn(n, out, t, drawn, charged);
  }

  // ---------------------------------------------------------------------
  // All runs
  // ---------------------------------------------------------------------

  lemma NetAccounted(cfg: Config, net: Net, e: Event, atA: bool, at: (nat, nat), drawn: nat, charged: nat)
    requires ValidConfig(cfg) && NetInv(cfg, net) && Possible(cfg, net, e)
    requires Accounted(Self(net, atA), drawn, charged) && at.0 == Self(net, atA).st.decrypt.epoch
    ensures var n, m := Self(net, atA), Self(Step(cfg, net, e), atA);
            Accounted(m, DrawOn(drawn, m.st.sendKey.epoch != n.st.sendKey.epoch, e.Send? && e.atA == atA),
                      ChargeOn(charged, Onward(at, Finding(cfg, n.st, atA, e)).0 != at.0, News(n.got, m.got)))
  {
    var n := Self(net, atA);
    if e.atA != atA {
      assert News(n.got, n.got) == [];
    } else if e.Send? {
      SendAccounted(cfg, atA, n, e, drawn, charged);
      assert News(n.got, n.got) == [];
    } else {
      ArriveAccounted(cfg, atA, n, e, at, drawn, charged);
    }
  }

  /** In every reachable state counters and block counts are what has been sent and delivered. */
  lemma {:induction false} RunAccounted(cfg: Config, run: seq<Event>, atA: bool)
    requires ValidConfig(cfg) && Feasible(cfg, run)
    ensures Accounted(Self(After(cfg, run), atA), Drawn(cfg, run, atA), Charged(cfg, run, atA))
  {
    if run == [] {
      InitAccounted(cfg, atA);
    } else {
      var before, e := run[..|run| - 1], run[|run| - 1];
      RunAccounted(cfg, before, atA);
      RunReaches(cfg, before, atA);
      NetAccounted(cfg, After(cfg, before), e, atA, Reached(cfg, before, atA),
                   Drawn(cfg, before, atA), Charged(cfg, before, atA));
    }
  }

  lemma InitAccounted(cfg: Config, atA: bool)
    requires ValidConfig(cfg)
    ensures Accounted(InitNode(cfg, atA), 0, 0)
  {
    var s := InitNode(cfg, atA).st;
    forall i | 0 <= i < |s.future| ensures s.future[i].plaintextBlocks == 0 {
      FreshKeysUnused(cfg.suite, EpochKey(RecvSecret(cfg, atA), 1), 1 + Mine(cfg, atA).futureKeys, i);
    }
  }

  /**
   * While a send key can be replaced, the packets sent under it take up at most
   * one packet more than the limit allows.
   */
  lemma SentWithinLimit(cfg: Config, run: seq<Event>, atA: bool)
    requires ValidConfig(cfg) && Feasible(cfg, run) && Mine(cfg, atA).limit > 0
    ensures var e := SendEpoch(cfg, run, atA);
            e < UINT16_MAX ==>
              BlocksSent(Self(After(cfg, run), atA).sent, e) + Drawn(cfg, run, atA)
                <= Mine(cfg, atA).limit + 1 + MAX_PACKET_BLOCKS
  {
    RunAccounted(cfg, run, atA);
    UsageNeverExceeded(cfg, run, atA);
  }

  // ---------------------------------------------------------------------
  // The next packet
  // ---------------------------------------------------------------------

  /**
   * When a packet starts a new epoch. There must be a next one, and a reason:
   * the packets sent have used the send key up; or the send epoch is not ahead
   * of the receive epoch, and the packets delivered have used the receive key
   * up or more than 2^35 wrong tags have arrived under it, so that the other
   * peer should be pushed to its next key; or there is no counter left. What
   * was delivered is counted in 64 bits.
   */
  predicate Due(limit: nat, sendEpoch: nat, recvEpoch: nat, sentBlocks: nat, drawn: nat,
                gotBlocks: nat, highest: nat, badTags: nat)
  {
    && sendEpoch < UINT16_MAX
    && (|| (limit > 0 && sentBlocks + drawn > limit)
        || (&& limit > 0 && sendEpoch == recvEpoch
            && (U64(gotBlocks + highest) > limit || badTags > 0x8_0000_0000))
        || drawn == PACKET_ID_EPOCH_MAX)
  }

  /** Failures, block count and highest counter of the current receive key, by the run. */
  lemma ReceiveSide(cfg: Config, run: seq<Event>, atA: bool) returns (highest: nat)
    requires ValidConfig(cfg) && Feasible(cfg, run)
    ensures var n, e := Self(After(cfg, run), atA), Reached(cfg, run, atA).0;
            && n.st.decrypt.epoch == e && n.st.rec.id == highest && IsHighest(highest, DeliveredIds(n.got, e))
            && n.st.decrypt.failedVerifications == BadTags(cfg, run, atA, e)
  {
    var n, l := Self(After(cfg, run), atA), Mine(cfg, atA);
    var e := Reached(cfg, run, atA).0;
    RunReaches(cfg, run, atA);
    ReachedBounded(cfg, run, atA);
    RunExplained(cfg, run, atA, e);
    RecordIsHighest(l.seqBacktrack, l.timeBacktrack, Arrivals(cfg, run, atA, e));
    highest := n.st.rec.id;
  }

  predicate StateDue(s: State) {
    Due(s.limit, s.sendKey.epoch, s.decrypt.epoch, s.encrypt.plaintextBlocks, s.sendId,
        s.decrypt.plaintextBlocks, s.rec.id, s.decrypt.failedVerifications)
  }

  lemma U64Small(x: nat)
    requires x < 0x1_0000_0000_0000_0000
    ensures U64(x) == x
  {
  }

  lemma CheckIffDue(suite: Suite, s: State)
    requires s.encrypt.epoch == s.sendKey.epoch <= UINT16_MAX && s.sendId <= PACKET_ID_EPOCH_MAX && UsageBounded(s)
    ensures CheckSendIterate(suite, s) == if StateDue(s) then IterateSendKey(suite, s) else s
  {
    U64Small(s.encrypt.plaintextBlocks + s.sendId);
  }

  /** Where a packet stands that is sent next, one past the last unless a new epoch is due. */
  predicate At(p: Sent, due: bool, epoch: nat, drawn: nat) {
    p.epoch == (if due then epoch + 1 else epoch) && p.id == (if due then 1 else drawn + 1)
  }

  lemma EmitPosition(aead: Aead, s: State, header: seq<byte>, payload: seq<byte>, room: nat)
    requires ValidIvLen(aead) && s.encrypt.key.Some?
    ensures var out := Emit(aead, s, header, payload, room).0;
            out.Some? ==> At(out.value, false, s.encrypt.epoch, s.sendId)
  {
  }

  lemma EncryptPosition(suite: Suite, aead: Aead, e1Send: Digest, e1Recv: Digest, s: State,
                        header: seq<byte>, payload: seq<byte>, room: nat)
    requires ValidIvLen(aead) && Inv(suite, e1Send, e1Recv, s) && Loaded(s) && UsageBounded(s)
    ensures var out := Encrypt(suite, aead, s, header, payload, room).0;
            out.Some? ==> At(out.value, StateDue(s), s.sendKey.epoch, s.sendId)
  {
    CheckIffDue(suite, s);
    EmitPosition(aead, CheckSendIterate(suite, s), header, payload, room);
  }

  lemma SendPosition(cfg: Config, atA: bool, n: Node, e: Event)
    requires ValidConfig(cfg) && NodeInv(cfg, atA, n) && e.Send?
    ensures var more := News(n.sent, NodeStep(cfg, n, e).sent);
            |more| <= 1 && forall p <- more :: At(p, StateDue(n.st), n.st.sendKey.epoch, n.st.sendId)
  {
    EncryptPosition(cfg.suite, cfg.aead, SendSecret(cfg, atA), RecvSecret(cfg, atA), n.st, e.header, e.payload, e.room);
    var out := Encrypt(cfg.suite, cfg.aead, n.st, e.header, e.payload, e.room).0;
    var more := if out.Some? then [out.value] else [];
    assert News(n.sent, n.sent + more) == more;
  }

  /** The packet after this run starts the next epoch. */
  ghost predicate StartsEpoch(cfg: Config, run: seq<Event>, atA: bool, highest: nat)
    requires ValidConfig(cfg) && Feasible(cfg, run)
  {
    var e := Reached(cfg, run, atA).0;
    Due(Mine(cfg, atA).limit, SendEpoch(cfg, run, atA), e,
        BlocksSent(Self(After(cfg, run), atA).sent, SendEpoch(cfg, run, atA)), Drawn(cfg, run, atA),
        Charged(cfg, run, atA), highest, BadTags(cfg, run, atA, e))
  }

  lemma DueIn64Bits(limit: nat, sendEpoch: nat, recvEpoch: nat, sentBlocks: nat, drawn: nat,
                    gotBlocks: nat, highest: nat, badTags: nat)
    ensures Due(limit, sendEpoch, recvEpoch, sentBlocks, drawn, U64(gotBlocks), highest, badTags) ==
            Due(limit, sendEpoch, recvEpoch, sentBlocks, drawn, gotBlocks, highest, badTags)
  {
    U64Sum(gotBlocks, highest);
  }

  lemma StartsIffDue(cfg: Config, run: seq<Event>, atA: bool) returns (highest: nat)
    requires ValidConfig(cfg) && Feasible(cfg, run)
    ensures IsHighest(highest, DeliveredIds(Self(After(cfg, run), atA).got, Reached(cfg, run, atA).0))
    ensures StartsEpoch(cfg, run, atA, highest) <==> StateDue(Self(After(cfg, run), atA).st)
    ensures Self(After(cfg, run), atA).st.sendId == Drawn(cfg, run, atA)
  {
    highest := ReceiveSide(cfg, run, atA);
    RunAccounted(cfg, run, atA);
    var n, e := Self(After(cfg, run), atA), Reached(cfg, run, atA).0;
    assert n.st.limit == Mine(cfg, atA).limit by { assert NodeInv(cfg, atA, n); }
    DueIn64Bits(n.st.limit, n.st.sendKey.epoch, e, n.st.encrypt.plaintextBlocks, n.st.sendId,
                Charged(cfg, run, atA), highest, n.st.decrypt.failedVerifications);
  }

  /**
   * The epoch and the counter of the next packet, exactly: it carries the next
   * epoch and starts its counter anew if and only if one is due; otherwise it
   * carries the present epoch and the next counter.
   */
  lemma NextPacket(cfg: Config, run: seq<Event>, atA: bool, header: seq<byte>, payload: seq<byte>, room: nat)
    returns (highest: nat)
    requires ValidConfig(cfg) && Feasible(cfg, run) && |payload| > 0 && room < BUF_SIZE_MAX
    ensures IsHighest(highest, DeliveredIds(Self(After(cfg, run), atA).got, Reached(cfg, run, atA).0))
    ensures Feasible(cfg, run + [Send(atA, header, payload, room)])
    ensures var sent := Self(After(cfg, run), atA).sent;
            var more := News(sent, Self(After(cfg, run + [Send(atA, header, payload, room)]), atA).sent);
            |more| <= 1 && forall p <- more ::
              At(p, StartsEpoch(cfg, run, atA, highest), SendEpoch(cfg, run, atA), Drawn(cfg, run, atA))
  {
    var send := Send(atA, header, payload, room);
    highest := StartsIffDue(cfg, run, atA);
    AfterStep(cfg, run, send);
    SendPosition(cfg, atA, Self(After(cfg, run), atA), send);
  }
}

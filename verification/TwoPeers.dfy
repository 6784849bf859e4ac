/**
 * Two peers that send to each other over a network which loses, reorders,
 * duplicates and forges packets. Forged packets may carry any bytes; what they
 * cannot do is pass the tag check unless the peer sealed exactly those bytes.
 */
module TwoPeers {
  import opened Octets
  import opened KeyExpansion
  import opened PacketId
  import opened EpochKeys
  import opened AeadFraming
  import opened DataChannel

  /** One peer and, for stating properties, everything it ever sent and delivered. */
  datatype Node = Node(st: State, sent: seq<Sent>, got: seq<Received>)

  datatype Net = Net(a: Node, b: Node)

  /** What each peer sets for itself. */
  datatype Local = Local(limit: nat, futureKeys: nat, seqBacktrack: nat, timeBacktrack: nat)

  /** `e1AB` is the first secret of the direction from A to B. */
  datatype Config = Config(suite: Suite, aead: Aead, e1AB: Digest, e1BA: Digest, a: Local, b: Local)

  function Mine(cfg: Config, atA: bool): Local { if atA then cfg.a else cfg.b }

  ghost predicate ValidConfig(cfg: Config) {
    Correct(cfg.aead) && 1 <= cfg.a.futureKeys < UINT16_MAX && 1 <= cfg.b.futureKeys < UINT16_MAX
  }

  datatype Event =
    | Send(atA: bool, header: seq<byte>, payload: seq<byte>, room: nat)
    | Arrive(atA: bool, header: seq<byte>, body: seq<byte>, room: nat, now: nat)

  function Self(net: Net, atA: bool): Node { if atA then net.a else net.b }

  function Peer(net: Net, atA: bool): Node { Self(net, !atA) }

  function SendSecret(cfg: Config, atA: bool): Digest { if atA then cfg.e1AB else cfg.e1BA }

  function RecvSecret(cfg: Config, atA: bool): Digest { SendSecret(cfg, !atA) }

  // ---------------------------------------------------------------------
  // Steps
  // ---------------------------------------------------------------------

  function InitNode(cfg: Config, atA: bool): Node
    requires 1 <= Mine(cfg, atA).futureKeys < UINT16_MAX
  {
    var l := Mine(cfg, atA);
    Node(InitState(cfg.suite, SendSecret(cfg, atA), RecvSecret(cfg, atA), l.limit, l.futureKeys,
                   l.seqBacktrack, l.timeBacktrack), [], [])
  }

  function NodeStep(cfg: Config, n: Node, e: Event): Node
    requires ValidIvLen(cfg.aead) && Loaded(n.st)
  {
    match e
    case Send(_, header, payload, room) =>
      var (out, t) := Encrypt(cfg.suite, cfg.aead, n.st, header, payload, room);
      n.(st := t, sent := n.sent + if out.Some? then [out.value] else [])
    case Arrive(_, header, body, room, now) =>
      var (v, t) := Decrypt(cfg.suite, cfg.aead, n.st, header, body, room, now);
      n.(st := t, got := n.got + if v.Accept? then [v.r] else [])
  }

  function Step(cfg: Config, net: Net, e: Event): Net
    requires ValidIvLen(cfg.aead) && Loaded(Self(net, e.atA).st)
  {
    if e.atA then net.(a := NodeStep(cfg, net.a, e)) else net.(b := NodeStep(cfg, net.b, e))
  }

  /**
   * What may happen next. Buffers are smaller than the source's maximal size
   * and only nonempty payloads are encrypted. A packet passes the tag check
   * only if it is one the peer sent; the clock is past its first second.
   */
  predicate Possible(cfg: Config, net: Net, e: Event)
    requires ValidIvLen(cfg.aead) && Loaded(Self(net, e.atA).st)
  {
    match e
    case Send(_, _, payload, room) => |payload| > 0 && room < BUF_SIZE_MAX
    case Arrive(atA, header, body, room, now) =>
      && now > SEQ_EXPIRED
      && (Open(cfg.aead, Self(net, atA).st, header, body, room).Authentic? ==>
            exists p :: p in Peer(net, atA).sent && p.header == header && p.wire == header + body)
  }

  // ---------------------------------------------------------------------
  // The invariant of one peer
  // ---------------------------------------------------------------------

  /** Everything sent is in order, not after the current position, and sealed with its epoch's key. */
  ghost predicate SentInv(cfg: Config, e1: Digest, n: Node)
    requires ValidIvLen(cfg.aead)
  {
    && (forall i, j :: 0 <= i < j < |n.sent| ==>
          !NotAfter(n.sent[j].epoch, n.sent[j].id, n.sent[i].epoch, n.sent[i].id))
    && (forall i :: 0 <= i < |n.sent| ==>
          GoodSent(cfg, e1, n.sent[i]) && NotAfter(n.sent[i].epoch, n.sent[i].id, n.st.sendKey.epoch, n.st.sendId))
  }

  predicate GoodSent(cfg: Config, e1: Digest, p: Sent)
    requires ValidIvLen(cfg.aead)
  {
    && 1 <= p.epoch <= UINT16_MAX && p.id <= PACKET_ID_EPOCH_MAX && |p.payload| > 0
    && p.wire == Frame(EpochFormat, cfg.aead, KeyOf(cfg.suite, e1, p.epoch), p.header,
                       WirePid(p.epoch, p.id), p.payload)
  }

  /** A delivered packet is remembered for as long as its epoch can be looked up. */
  predicate Remembered(s: State, r: Received)
    requires ValidRec(s.rec) && ValidRec(s.retiringRec)
  {
    && 1 <= r.epoch <= s.decrypt.epoch
    && (r.epoch == s.decrypt.epoch ==> Blocked(s.rec, PacketIdNet(r.id, 0)))
    && (r.epoch == s.retiring.epoch ==> Blocked(s.retiringRec, PacketIdNet(r.id, 0)))
  }

  ghost predicate GotInv(n: Node)
    requires ValidRec(n.st.rec) && ValidRec(n.st.retiringRec)
  {
    && (forall i :: 0 <= i < |n.got| ==> Remembered(n.st, n.got[i]))
    && (forall i, j :: 0 <= i < j < |n.got| ==>
          n.got[i].epoch != n.got[j].epoch || n.got[i].id != n.got[j].id)
  }

  ghost predicate NodeInv(cfg: Config, atA: bool, n: Node)
    requires ValidIvLen(cfg.aead)
  {
    && Inv(cfg.suite, SendSecret(cfg, atA), RecvSecret(cfg, atA), n.st)
    && Loaded(n.st)
    && n.st.limit == Mine(cfg, atA).limit && UsageBounded(n.st)
    && SentInv(cfg, SendSecret(cfg, atA), n)
    && GotInv(n)
  }

  /** Whatever `n` delivered, `peer` sent, and `n` is not ahead of it. */
  ghost predicate FollowsPeer(n: Node, peer: Node) {
    && n.st.decrypt.epoch <= peer.st.sendKey.epoch
    && (forall i :: 0 <= i < |n.got| ==> WasSent(n.got[i], peer))
  }

  ghost predicate WasSent(r: Received, peer: Node) {
    exists j :: 0 <= j < |peer.sent| && Matches(r, peer.sent[j])
  }

  predicate Matches(r: Received, p: Sent) {
    p.epoch == r.epoch && p.id == r.id && p.payload == r.payload
  }

  ghost predicate NetInv(cfg: Config, net: Net)
    requires ValidIvLen(cfg.aead)
  {
    && NodeInv(cfg, true, net.a) && NodeInv(cfg, false, net.b)
    && FollowsPeer(net.a, net.b) && FollowsPeer(net.b, net.a)
  }

  // ---------------------------------------------------------------------
  // Sending keeps it
  // ---------------------------------------------------------------------

  lemma SendKeeps(cfg: Config, atA: bool, n: Node, e: Event)
    requires ValidConfig(cfg) && NodeInv(cfg, atA, n)
    requires e.Send? && |e.payload| > 0 && e.room < BUF_SIZE_MAX
    ensures NodeInv(cfg, atA, NodeStep(cfg, n, e))
    ensures NodeStep(cfg, n, e).st.sendKey.epoch >= n.st.sendKey.epoch
    ensures NodeStep(cfg, n, e).st.decrypt == n.st.decrypt
    ensures NodeStep(cfg, n, e).got == n.got && n.sent <= NodeStep(cfg, n, e).sent
  {
    var es, er := SendSecret(cfg, atA), RecvSecret(cfg, atA);
    var m := NodeStep(cfg, n, e);
    EncryptInv(cfg.suite, cfg.aead, es, er, n.st, e.header, e.payload, e.room);
    InvLoaded(cfg.suite, es, er, m.st);
    EncryptUsage(cfg.suite, cfg.aead, es, er, n.st, e.header, e.payload, e.room);
    SendKeepsSent(cfg, atA, n, e);
    SendKeepsGot(cfg, atA, n, e);
  }

  lemma SendKeepsSent(cfg: Config, atA: bool, n: Node, e: Event)
    requires ValidConfig(cfg) && NodeInv(cfg, atA, n) && e.Send? && |e.payload| > 0
    requires Inv(cfg.suite, SendSecret(cfg, atA), RecvSecret(cfg, atA), NodeStep(cfg, n, e).st)
    ensures SentInv(cfg, SendSecret(cfg, atA), NodeStep(cfg, n, e))
    ensures NodeStep(cfg, n, e).st.sendKey.epoch >= n.st.sendKey.epoch
    ensures NodeStep(cfg, n, e).st.decrypt == n.st.decrypt
    ensures NodeStep(cfg, n, e).st.limit == n.st.limit
  {
    EncryptOrder(cfg.suite, cfg.aead, SendSecret(cfg, atA), RecvSecret(cfg, atA), n.st, e.header, e.payload, e.room);
    var m := NodeStep(cfg, n, e);
    forall i | 0 <= i < |m.sent|
      ensures GoodSent(cfg, SendSecret(cfg, atA), m.sent[i])
      ensures NotAfter(m.sent[i].epoch, m.sent[i].id, m.st.sendKey.epoch, m.st.sendId)
    {
      if i < |n.sent| { assert m.sent[i] == n.sent[i]; }
    }
  }

  lemma SendKeepsGot(cfg: Config, atA: bool, n: Node, e: Event)
    requires ValidConfig(cfg) && NodeInv(cfg, atA, n) && e.Send?
    requires Inv(cfg.suite, SendSecret(cfg, atA), RecvSecret(cfg, atA), NodeStep(cfg, n, e).st)
    ensures GotInv(NodeStep(cfg, n, e))
  {
    EncryptOrder(cfg.suite, cfg.aead, SendSecret(cfg, atA), RecvSecret(cfg, atA), n.st, e.header, e.payload, e.room);
    var m := NodeStep(cfg, n, e);
    forall i | 0 <= i < |m.got| ensures Remembered(m.st, m.got[i]) {
      assert m.got[i] == n.got[i];
    }
  }

  // ---------------------------------------------------------------------
  // Arrivals keep it
  // ---------------------------------------------------------------------

  /** An authenticated packet may pull the receive epoch, and with it the send epoch, up to its own. */
  lemma DeliverMoves(suite: Suite, e1Send: Digest, e1Recv: Digest, s: State, r: Received, now: nat)
    requires Inv(suite, e1Send, e1Recv, s) && Loaded(s) && r.epoch > 0 && Lookup(s, r.epoch).Some?
    ensures var t := Deliver(suite, s, r, now).1;
            && t.decrypt.epoch == Max(s.decrypt.epoch, r.epoch) && t.limit == s.limit
            && (|| (t.sendKey == s.sendKey && t.encrypt == s.encrypt && t.sendId == s.sendId)
                || (&& s.sendKey.epoch < r.epoch == t.sendKey.epoch
                    && t.sendId == 0 && t.encrypt.plaintextBlocks == 0))
  {
    if Lookup(s, r.epoch).value.Future? {
      ReplaceRecvKeyInv(suite, e1Send, e1Recv, s, r.epoch);
      var i := r.epoch - s.decrypt.epoch - 1;
      assert GoodCtx(suite, e1Recv, s.future[i], s.decrypt.epoch + 1 + i);
      if s.encrypt.epoch < r.epoch { IterateToOnChain(suite, e1Send, s.sendKey, r.epoch); }
    }
  }

  /** Nothing delivered before is forgotten while it matters, and a new delivery is a new packet. */
  lemma DeliverRemembers(suite: Suite, e1Send: Digest, e1Recv: Digest, s: State, r: Received, now: nat, g: Received)
    requires Inv(suite, e1Send, e1Recv, s) && Loaded(s) && r.epoch > 0 && Lookup(s, r.epoch).Some?
    requires Inv(suite, e1Send, e1Recv, Deliver(suite, s, r, now).1)
    requires Remembered(s, g)
    ensures Remembered(Deliver(suite, s, r, now).1, g)
    ensures Deliver(suite, s, r, now).0.Accept? ==> g.epoch != r.epoch || g.id != r.id
  {
    DeliverMoves(suite, e1Send, e1Recv, s, r, now);
    var pin, p := PacketIdNet(r.id, 0), PacketIdNet(g.id, 0);
    if r.epoch == s.decrypt.epoch {
      if g.epoch == s.decrypt.epoch { CheckKeepsBlocked(s.rec, pin, now, p); }
    } else if r.epoch == s.retiring.epoch {
      if g.epoch == s.retiring.epoch { CheckKeepsBlocked(s.retiringRec, pin, now, p); }
    }
  }

  lemma DeliverRecords(suite: Suite, e1Send: Digest, e1Recv: Digest, s: State, r: Received, now: nat)
    requires Inv(suite, e1Send, e1Recv, s) && Loaded(s) && r.epoch > 0 && Lookup(s, r.epoch).Some?
    requires Inv(suite, e1Send, e1Recv, Deliver(suite, s, r, now).1)
    requires now > SEQ_EXPIRED && Deliver(suite, s, r, now).0.Accept?
    ensures Remembered(Deliver(suite, s, r, now).1, r)
  {
    DeliverMoves(suite, e1Send, e1Recv, s, r, now);
    var q := ReapIfDue(RecordFor(s, r.epoch), now);
    AddBlocksIt(q, PacketIdNet(r.id, 0), now);
  }

  /** The invariant of a node whose state moved and which may have delivered one more packet. */
  lemma AuthenticKeeps(cfg: Config, atA: bool, n: Node, r: Received, now: nat)
    requires ValidConfig(cfg) && NodeInv(cfg, atA, n)
    requires r.epoch > 0 && Lookup(n.st, r.epoch).Some? && now > SEQ_EXPIRED
    ensures var (v, t) := Deliver(cfg.suite, n.st, r, now);
            NodeInv(cfg, atA, n.(st := t, got := n.got + if v.Accept? then [r] else []))
  {
    var es, er := SendSecret(cfg, atA), RecvSecret(cfg, atA);
    var (v, t) := Deliver(cfg.suite, n.st, r, now);
    DeliverInv(cfg.suite, es, er, n.st, r, now);
    InvLoaded(cfg.suite, es, er, t);
    DeliverMoves(cfg.suite, es, er, n.st, r, now);
    forall i | 0 <= i < |n.got|
      ensures Remembered(t, n.got[i])
      ensures v.Accept? ==> n.got[i].epoch != r.epoch || n.got[i].id != r.id
    {
      DeliverRemembers(cfg.suite, es, er, n.st, r, now, n.got[i]);
    }
    if v.Accept? { DeliverRecords(cfg.suite, es, er, n.st, r, now); }
    GotAppend(n, t, if v.Accept? then [r] else []);
    assert SentInv(cfg, es, n.(st := t, got := n.got + if v.Accept? then [r] else []));
  }

  lemma GotAppend(n: Node, t: State, more: seq<Received>)
    requires ValidRec(n.st.rec) && ValidRec(n.st.retiringRec) && ValidRec(t.rec) && ValidRec(t.retiringRec)
    requires GotInv(n) && |more| <= 1
    requires forall i :: 0 <= i < |n.got| ==> Remembered(t, n.got[i])
    requires |more| == 1 ==> Remembered(t, more[0])
    requires forall i :: 0 <= i < |n.got| && |more| == 1 ==> n.got[i].epoch != more[0].epoch || n.got[i].id != more[0].id
    ensures GotInv(n.(st := t, got := n.got + more))
  {
  }

  lemma WrongTagKeeps(cfg: Config, atA: bool, n: Node, epoch: nat)
    requires ValidConfig(cfg) && NodeInv(cfg, atA, n)
    requires epoch > 0 && Lookup(n.st, epoch).Some? && !VerifyFailExceeded(CtxAt(n.st, Lookup(n.st, epoch).value))
    ensures NodeInv(cfg, atA, n.(st := CountFailure(n.st, Lookup(n.st, epoch).value)))
  {
    var es, er := SendSecret(cfg, atA), RecvSecret(cfg, atA);
    var t := CountFailure(n.st, Lookup(n.st, epoch).value);
    CountFailureInv(cfg.suite, es, er, n.st, epoch);
    InvLoaded(cfg.suite, es, er, t);
    forall i | 0 <= i < |n.got| ensures Remembered(t, n.got[i]) {
      assert Remembered(n.st, n.got[i]);
    }
    GotAppend(n, t, []);
    assert n.got + [] == n.got;
  }

  lemma ArriveKeeps(cfg: Config, atA: bool, n: Node, e: Event)
    requires ValidConfig(cfg) && NodeInv(cfg, atA, n)
    requires e.Arrive? && e.now > SEQ_EXPIRED
    ensures NodeInv(cfg, atA, NodeStep(cfg, n, e))
  {
    assert n.got + [] == n.got;
    match Open(cfg.aead, n.st, e.header, e.body, e.room)
    case Dropped(_) =>
    case WrongTag(_) => WrongTagKeeps(cfg, atA, n, EpochOf(e.body[..8]));
    case Authentic(r) => AuthenticKeeps(cfg, atA, n, r, e.now);
  }

  /** A packet that opens is the peer's: it carries the epoch, counter and payload it was sealed with. */
  lemma AuthenticMatches(cfg: Config, atA: bool, n: Node, e: Event, p: Sent)
    requires ValidConfig(cfg) && NodeInv(cfg, atA, n) && e.Arrive?
    requires GoodSent(cfg, RecvSecret(cfg, atA), p) && p.header == e.header && p.wire == e.header + e.body
    requires Open(cfg.aead, n.st, e.header, e.body, e.room).Authentic?
    ensures Matches(Open(cfg.aead, n.st, e.header, e.body, e.room).r, p)
  {
    var er := RecvSecret(cfg, atA);
    var key := KeyOf(cfg.suite, er, p.epoch);
    FrameRoundTrip(EpochFormat, cfg.aead, key, p.header, WirePid(p.epoch, p.id), p.payload);
    assert p.wire[|p.header|..] == e.body;
    WirePidRoundTrip(p.epoch, p.id);
    LookupGood(cfg.suite, SendSecret(cfg, atA), er, n.st, p.epoch);
  }

  lemma ArriveFollows(cfg: Config, atA: bool, n: Node, peer: Node, e: Event)
    requires ValidConfig(cfg) && NodeInv(cfg, atA, n) && NodeInv(cfg, !atA, peer) && FollowsPeer(n, peer)
    requires e.Arrive? && e.now > SEQ_EXPIRED
    requires Open(cfg.aead, n.st, e.header, e.body, e.room).Authentic? ==>
      exists p :: p in peer.sent && p.header == e.header && p.wire == e.header + e.body
    ensures FollowsPeer(NodeStep(cfg, n, e), peer)
    ensures NodeStep(cfg, n, e).st.sendKey.epoch >= n.st.sendKey.epoch && NodeStep(cfg, n, e).sent == n.sent
  {
    match Open(cfg.aead, n.st, e.header, e.body, e.room)
    case Dropped(_) =>
    case WrongTag(_) =>
    case Authentic(r) =>
      var p :| p in peer.sent && p.header == e.header && p.wire == e.header + e.body;
      SentIsGood(cfg, peer, !atA, p);
      AuthenticMatches(cfg, atA, n, e, p);
      AuthenticFollows(cfg, atA, n, peer, r, p, e.now);
  }

  lemma SentIsGood(cfg: Config, n: Node, atA: bool, p: Sent)
    requires ValidConfig(cfg) && NodeInv(cfg, atA, n) && p in n.sent
    ensures GoodSent(cfg, SendSecret(cfg, atA), p)
    ensures NotAfter(p.epoch, p.id, n.st.sendKey.epoch, n.st.sendId)
  {
    var j :| 0 <= j < |n.sent| && n.sent[j] == p;
    assert GoodSent(cfg, SendSecret(cfg, atA), n.sent[j]);
  }

  lemma AuthenticFollows(cfg: Config, atA: bool, n: Node, peer: Node, r: Received, p: Sent, now: nat)
    requires ValidConfig(cfg) && NodeInv(cfg, atA, n) && FollowsPeer(n, peer)
    requires p in peer.sent && Matches(r, p) && p.epoch <= peer.st.sendKey.epoch
    requires r.epoch > 0 && Lookup(n.st, r.epoch).Some?
    ensures var (v, t) := Deliver(cfg.suite, n.st, r, now);
            && FollowsPeer(n.(st := t, got := n.got + if v.Accept? then [r] else []), peer)
            && t.sendKey.epoch >= n.st.sendKey.epoch
  {
    var j :| 0 <= j < |peer.sent| && peer.sent[j] == p;
    assert Matches(r, peer.sent[j]) && WasSent(r, peer);
    DeliverMoves(cfg.suite, SendSecret(cfg, atA), RecvSecret(cfg, atA), n.st, r, now);
  }

  lemma FollowsGrowing(n: Node, peer: Node, grown: Node)
    requires FollowsPeer(n, peer) && peer.sent <= grown.sent && peer.st.sendKey.epoch <= grown.st.sendKey.epoch
    ensures FollowsPeer(n, grown)
  {
    forall i | 0 <= i < |n.got| ensures WasSent(n.got[i], grown) {
      var j :| 0 <= j < |peer.sent| && Matches(n.got[i], peer.sent[j]);
      assert Matches(n.got[i], grown.sent[j]);
    }
  }

  lemma StepKeeps(cfg: Config, net: Net, e: Event)
    requires ValidConfig(cfg) && NetInv(cfg, net) && Possible(cfg, net, e)
    ensures NetInv(cfg, Step(cfg, net, e))
  {
    var n, peer := Self(net, e.atA), Peer(net, e.atA);
    var m := NodeStep(cfg, n, e);
    if e.Send? {
      SendKeeps(cfg, e.atA, n, e);
      assert FollowsPeer(m, peer);
    } else {
      ArriveKeeps(cfg, e.atA, n, e);
      ArriveFollows(cfg, e.atA, n, peer, e);
    }
    FollowsGrowing(peer, n, m);
  }

  // ---------------------------------------------------------------------
  // All runs
  // ---------------------------------------------------------------------

  lemma InitNodeKeeps(cfg: Config, atA: bool)
    requires ValidConfig(cfg)
    ensures NodeInv(cfg, atA, InitNode(cfg, atA))
  {
    var l, es, er := Mine(cfg, atA), SendSecret(cfg, atA), RecvSecret(cfg, atA);
    InitInv(cfg.suite, es, er, l.limit, l.futureKeys, l.seqBacktrack, l.timeBacktrack);
    InvLoaded(cfg.suite, es, er, InitNode(cfg, atA).st);
  }

  lemma InitKeeps(cfg: Config)
    requires ValidConfig(cfg)
    ensures NetInv(cfg, Net(InitNode(cfg, true), InitNode(cfg, false)))
  {
    InitNodeKeeps(cfg, true);
    InitNodeKeeps(cfg, false);
  }

  /** A list of events each of which is possible where it happens. */
  ghost predicate Feasible(cfg: Config, run: seq<Event>)
    requires ValidConfig(cfg)
    decreases |run|, 0
  {
    run == []
    || (&& Feasible(cfg, run[..|run| - 1])
        && Possible(cfg, After(cfg, run[..|run| - 1]), run[|run| - 1]))
  }

  /** The state of both peers and the network after a run; the invariant holds in every such state. */
  ghost function After(cfg: Config, run: seq<Event>): (net: Net)
    requires ValidConfig(cfg) && Feasible(cfg, run)
    ensures NetInv(cfg, net)
    decreases |run|, 1
  {
    if run == [] then
      InitKeeps(cfg);
      Net(InitNode(cfg, true), InitNode(cfg, false))
    else
      var before := After(cfg, run[..|run| - 1]);
      StepKeeps(cfg, before, run[|run| - 1]);
      Step(cfg, before, run[|run| - 1])
  }

  lemma AfterStep(cfg: Config, run: seq<Event>, e: Event)
    requires ValidConfig(cfg) && Feasible(cfg, run) && Possible(cfg, After(cfg, run), e)
    ensures Feasible(cfg, run + [e]) && After(cfg, run + [e]) == Step(cfg, After(cfg, run), e)
  {
    assert (run + [e])[..|run|] == run;
  }

  /**
   * Runs go on: at any time each peer can be asked to send, and a packet goes
   * out exactly when the buffer has room for it and the last counter of the
   * last epoch has not been used.
   */
  lemma SendIsPossible(cfg: Config, run: seq<Event>, atA: bool, header: seq<byte>, payload: seq<byte>, room: nat)
    requires ValidConfig(cfg) && Feasible(cfg, run) && |payload| > 0 && room < BUF_SIZE_MAX
    ensures Feasible(cfg, run + [Send(atA, header, payload, room)])
    ensures var n, m := Self(After(cfg, run), atA), Self(After(cfg, run + [Send(atA, header, payload, room)]), atA);
            && n.sent <= m.sent
            && |m.sent| - |n.sent| == (if Goes(cfg, n.st, header, payload, room) then 1 else 0)
            && (|m.sent| > |n.sent| ==> m.sent[|n.sent|].header == header && m.sent[|n.sent|].payload == payload)
  {
    AfterStep(cfg, run, Send(atA, header, payload, room));
    SendGoes(cfg, atA, Self(After(cfg, run), atA), Send(atA, header, payload, room));
  }

  predicate Goes(cfg: Config, s: State, header: seq<byte>, payload: seq<byte>, room: nat) {
    var tail := |payload| + 16 + cfg.aead.blockSize;
    tail < 1_000_000 && |header| + 8 + tail <= room && !(s.sendKey.epoch == 65535 && s.sendId == 0xffff_ffff_ffff)
  }

  lemma SendGoes(cfg: Config, atA: bool, n: Node, e: Event)
    requires ValidConfig(cfg) && NodeInv(cfg, atA, n) && e.Send?
    ensures var m := NodeStep(cfg, n, e);
            && n.sent <= m.sent
            && |m.sent| - |n.sent| == (if Goes(cfg, n.st, e.header, e.payload, e.room) then 1 else 0)
            && (|m.sent| > |n.sent| ==> m.sent[|n.sent|].header == e.header && m.sent[|n.sent|].payload == e.payload)
  {
    var es, er := SendSecret(cfg, atA), RecvSecret(cfg, atA);
    EncryptGoesOut(cfg.suite, cfg.aead, es, er, n.st, e.header, e.payload, e.room);
    EncryptOrder(cfg.suite, cfg.aead, es, er, n.st, e.header, e.payload, e.room);
  }

  lemma WireStartsWithHeader(cfg: Config, e1: Digest, p: Sent)
    requires ValidIvLen(cfg.aead) && GoodSent(cfg, e1, p)
    ensures p.header <= p.wire && p.header + p.wire[|p.header|..] == p.wire
  {
    var pid := WirePid(p.epoch, p.id);
    var key := KeyOf(cfg.suite, e1, p.epoch);
    var c := cfg.aead.seal(key.cipher, PacketIv(cfg.aead, key, pid), p.header + pid, p.payload);
    assert p.wire == p.header + (pid + c.text + c.tag);
  }

  /** A packet that was sent can arrive at any later time, late, out of order and more than once. */
  lemma SentMayArrive(cfg: Config, run: seq<Event>, atA: bool, p: Sent, room: nat, now: nat)
    requires ValidConfig(cfg) && Feasible(cfg, run) && now > SEQ_EXPIRED
    requires p in Peer(After(cfg, run), atA).sent
    ensures |p.header| <= |p.wire|
    ensures Feasible(cfg, run + [Arrive(atA, p.header, p.wire[|p.header|..], room, now)])
  {
    var net := After(cfg, run);
    SentIsGood(cfg, Peer(net, atA), !atA, p);
    WireStartsWithHeader(cfg, SendSecret(cfg, !atA), p);
    AfterStep(cfg, run, Arrive(atA, p.header, p.wire[|p.header|..], room, now));
  }

  /**
   * Each peer's receive epoch is at most the other's send epoch, and its own
   * send epoch is at least its receive epoch.
   */
  lemma EpochsOrdered(cfg: Config, run: seq<Event>, atA: bool)
    requires ValidConfig(cfg) && Feasible(cfg, run)
    ensures var me, peer := Self(After(cfg, run), atA).st, Peer(After(cfg, run), atA).st;
            me.decrypt.epoch <= peer.sendKey.epoch && me.decrypt.epoch <= me.sendKey.epoch
  {
    assert NodeInv(cfg, atA, Self(After(cfg, run), atA));
  }

  /** The key a receiver finds for a packet is the one the sender derived for its epoch and sealed it with. */
  lemma LookupFindsSenderKey(cfg: Config, run: seq<Event>, atA: bool, p: Sent)
    requires ValidConfig(cfg) && Feasible(cfg, run)
    requires p in Peer(After(cfg, run), atA).sent
    requires Lookup(Self(After(cfg, run), atA).st, p.epoch).Some?
    ensures var s := Self(After(cfg, run), atA).st;
            var ctx := CtxAt(s, Lookup(s, p.epoch).value);
            && ctx.epoch == p.epoch >= 1
            && ctx.key == Some(KeyOf(cfg.suite, SendSecret(cfg, !atA), p.epoch))
            && p.wire == Frame(EpochFormat, cfg.aead, ctx.key.value, p.header, WirePid(p.epoch, p.id), p.payload)
  {
    var net := After(cfg, run);
    assert NodeInv(cfg, atA, Self(net, atA));
    SentIsGood(cfg, Peer(net, atA), !atA, p);
    LookupGood(cfg.suite, SendSecret(cfg, atA), RecvSecret(cfg, atA), Self(net, atA).st, p.epoch);
  }

  /**
   * No nonce is ever used twice: the epoch and counter of later packets are
   * strictly larger, and under one data key the IVs differ.
   */
  lemma NoNonceReuse(cfg: Config, run: seq<Event>, atA: bool, i: nat, j: nat)
    requires ValidConfig(cfg) && Feasible(cfg, run)
    requires i < j < |Self(After(cfg, run), atA).sent|
    ensures var sent, e1 := Self(After(cfg, run), atA).sent, SendSecret(cfg, atA);
            && !NotAfter(sent[j].epoch, sent[j].id, sent[i].epoch, sent[i].id)
            && 1 <= sent[i].epoch && 1 <= sent[j].epoch
            && var k1, k2 := KeyOf(cfg.suite, e1, sent[i].epoch), KeyOf(cfg.suite, e1, sent[j].epoch);
               k1 == k2 ==>
                 PacketIv(cfg.aead, k1, WirePid(sent[i].epoch, sent[i].id))
                   != PacketIv(cfg.aead, k2, WirePid(sent[j].epoch, sent[j].id))
  {
    var n := Self(After(cfg, run), atA);
    var e1 := SendSecret(cfg, atA);
    assert NodeInv(cfg, atA, n);
    var p, q := n.sent[i], n.sent[j];
    assert GoodSent(cfg, e1, p) && GoodSent(cfg, e1, q);
    WirePidRoundTrip(p.epoch, p.id);
    WirePidRoundTrip(q.epoch, q.id);
    var k1, k2 := KeyOf(cfg.suite, e1, p.epoch), KeyOf(cfg.suite, e1, q.epoch);
    var pid1, pid2 := WirePid(p.epoch, p.id), WirePid(q.epoch, q.id);
    if k1 == k2 && PacketIv(cfg.aead, k1, pid1) == PacketIv(cfg.aead, k2, pid2) {
      PacketIvInjective(cfg.aead, k1, pid1, pid2);
      assert false;
    }
  }

  /** What a peer delivers was sent by the other one, and no packet is delivered twice. */
  lemma DeliveredAtMostOnceAsSent(cfg: Config, run: seq<Event>, atA: bool, i: nat)
    requires ValidConfig(cfg) && Feasible(cfg, run) && i < |Self(After(cfg, run), atA).got|
    ensures var got, sent := Self(After(cfg, run), atA).got, Peer(After(cfg, run), atA).sent;
            && (exists j :: 0 <= j < |sent| && Matches(got[i], sent[j]))
            && (forall k :: 0 <= k < |got| && k != i ==> got[k].epoch != got[i].epoch || got[k].id != got[i].id)
  {
    var net := After(cfg, run);
    assert GotInv(Self(net, atA)) && FollowsPeer(Self(net, atA), Peer(net, atA));
    assert WasSent(Self(net, atA).got[i], Peer(net, atA));
  }

  /**
   * The fate of every packet of the peer, wherever in the run it arrives: it
   * is delivered with its payload exactly when its epoch is within reach, its
   * key is not locked, there is room, and its counter is new.
   */
  lemma FateOfSentPacket(cfg: Config, run: seq<Event>, atA: bool, p: Sent, room: nat, now: nat)
    requires ValidConfig(cfg) && Feasible(cfg, run)
    requires p in Peer(After(cfg, run), atA).sent
    ensures Loaded(Self(After(cfg, run), atA).st)
    ensures var s := Self(After(cfg, run), atA).st;
            Decrypt(cfg.suite, cfg.aead, s, p.header, p.wire[|p.header|..], room, now).0 ==
              if Lookup(s, p.epoch).None? then UnknownEpoch
              else if FailuresOf(s, p.epoch) > VERIFY_FAIL_LIMIT then FailLimit
              else if !BufSafe(room, 0, |p.payload| + TAG_LEN + cfg.aead.blockSize) then NoRoom
              else if !Check(RecordFor(s, p.epoch), PacketIdNet(p.id, 0), now).0 then Replay
              else Accept(Received(p.epoch, p.id, p.payload))
  {
    var net := After(cfg, run);
    assert NodeInv(cfg, atA, Self(net, atA));
    SentIsGood(cfg, Peer(net, atA), !atA, p);
    GenuineVerdict(cfg.suite, cfg.aead, SendSecret(cfg, atA), RecvSecret(cfg, atA), Self(net, atA).st,
                   p.epoch, p.id, p.header, p.payload, room, now);
  }

  /** While a send key can still be replaced, it is never used past the limit by more than one packet. */
  lemma UsageNeverExceeded(cfg: Config, run: seq<Event>, atA: bool)
    requires ValidConfig(cfg) && Feasible(cfg, run) && Mine(cfg, atA).limit > 0
    ensures var s := Self(After(cfg, run), atA).st;
            s.sendKey.epoch < UINT16_MAX ==>
              s.encrypt.plaintextBlocks + s.sendId <= Mine(cfg, atA).limit + 1 + MAX_PACKET_BLOCKS
  {
    assert NodeInv(cfg, atA, Self(After(cfg, run), atA));
  }

  /** With the first keys in place, the first packet goes out under epoch 1 and counter 1. */
  lemma FirstPacket(cfg: Config, header: seq<byte>, payload: seq<byte>, room: nat)
    requires ValidConfig(cfg) && BufSafe(room, |header| + 8, |payload| + TAG_LEN + cfg.aead.blockSize)
    ensures Loaded(InitNode(cfg, true).st)
    ensures var out := Encrypt(cfg.suite, cfg.aead, InitNode(cfg, true).st, header, payload, room).0;
            && out.Some? && out.value.epoch == 1 && out.value.id == 1
            && out.value.header == header && out.value.payload == payload
  {
    InitKeeps(cfg);
    var s := InitNode(cfg, true).st;
    assert CheckSendIterate(cfg.suite, s) == s;
  }

  lemma FirstPacketIsNew(cfg: Config, now: nat)
    requires ValidConfig(cfg)
    ensures var s := InitNode(cfg, false).st;
            && Lookup(s, 1) == Some(Current) && FailuresOf(s, 1) == 0
            && Check(RecordFor(s, 1), PacketIdNet(1, 0), now).0
  {
  }

  /** The network can do its job: a first packet that fits both buffers is sent, arrives and is delivered. */
  lemma FirstPacketDelivered(cfg: Config, header: seq<byte>, payload: seq<byte>, room: nat, room2: nat, now: nat)
    returns (body: seq<byte>)
    requires ValidConfig(cfg) && |payload| > 0 && room < BUF_SIZE_MAX && now > SEQ_EXPIRED
    requires BufSafe(room, |header| + 8, |payload| + TAG_LEN + cfg.aead.blockSize)
    requires BufSafe(room2, 0, |payload| + TAG_LEN + cfg.aead.blockSize)
    ensures var run := [Send(true, header, payload, room), Arrive(false, header, body, room2, now)];
            Feasible(cfg, run) && After(cfg, run).b.got == [Received(1, 1, payload)]
  {
    var send := Send(true, header, payload, room);
    FirstPacket(cfg, header, payload, room);
    FirstPacketIsNew(cfg, now);
    AfterStep(cfg, [], send);
    assert [] + [send] == [send];
    var net := After(cfg, [send]);
    var p := net.a.sent[0];
    body := p.wire[|p.header|..];
    FateOfSentPacket(cfg, [send], false, p, room2, now);
    SentMayArrive(cfg, [send], false, p, room2, now);
    var arrive := Arrive(false, header, body, room2, now);
    SentIsGood(cfg, net.a, true, p);
    WireStartsWithHeader(cfg, SendSecret(cfg, true), p);
    AfterStep(cfg, [send], arrive);
    assert [send] + [arrive] == [send, arrive];
  }

  /** Some cipher meets what is asked of one, so that there are peers to speak of. */
  lemma ConfigExists(suite: Suite, e1AB: Digest, e1BA: Digest, a: Local, b: Local) returns (cfg: Config)
    requires 1 <= a.futureKeys < UINT16_MAX && 1 <= b.futureKeys < UINT16_MAX
    ensures ValidConfig(cfg) && cfg.a == a && cfg.b == b && cfg.e1AB == e1AB && cfg.e1BA == e1BA
  {
    var aead := Aead((k, iv, ad, p) => Sealed(p, Zeros(TAG_LEN)), (k, iv, ad, c, t) => Some(c), 12, 16);
    cfg := Config(suite, aead, e1AB, e1BA, a, b);
  }
}

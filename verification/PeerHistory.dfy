/**
 * What the counters and records of a peer mean in terms of its whole run: the
 * failures of an epoch are the wrong tags that arrived under it, and what is
 * turned down as a replay is decided by what was delivered.
 */
module PeerHistory {
  import opened Octets
  import opened KeyExpansion
  import opened PacketId
  import opened EpochKeys
  import opened AeadFraming
  import opened DataChannel
  import opened TwoPeers

  // ---------------------------------------------------------------------
  // Reading a run
  // ---------------------------------------------------------------------

  /** What the tag check at this peer finds out about an event. */
  function Finding(cfg: Config, s: State, atA: bool, e: Event): Opened
    requires ValidIvLen(cfg.aead) && Loaded(s)
  {
    if e.Arrive? && e.atA == atA then Open(cfg.aead, s, e.header, e.body, e.room) else Dropped(Malformed)
  }

  predicate IsBadTag(o: Opened, e: Event, epoch: nat) {
    o.WrongTag? && e.Arrive? && |e.body| >= 8 && EpochOf(e.body[..8]) == epoch
  }

  /** How many packets with a wrong tag this peer has got under an epoch. */
  ghost function BadTags(cfg: Config, run: seq<Event>, atA: bool, epoch: nat): nat
    requires ValidConfig(cfg) && Feasible(cfg, run)
  {
    if run == [] then 0
    else
      var before, e := run[..|run| - 1], run[|run| - 1];
      BadTags(cfg, before, atA, epoch)
      + if IsBadTag(Finding(cfg, Self(After(cfg, before), atA).st, atA, e), e, epoch) then 1 else 0
  }

  function Presented(o: Opened, e: Event, epoch: nat): seq<Arrival> {
    if o.Authentic? && e.Arrive? && o.r.epoch == epoch then [Arrival(PacketIdNet(o.r.id, 0), e.now)] else []
  }

  /** The authentic packets this peer has got under an epoch, as the replay check sees them. */
  ghost function Arrivals(cfg: Config, run: seq<Event>, atA: bool, epoch: nat): seq<Arrival>
    requires ValidConfig(cfg) && Feasible(cfg, run)
  {
    if run == [] then []
    else
      var before, e := run[..|run| - 1], run[|run| - 1];
      Arrivals(cfg, before, atA, epoch)
      + Presented(Finding(cfg, Self(After(cfg, before), atA).st, atA, e), e, epoch)
  }

  /** The counters delivered under an epoch. */
  function DeliveredIds(got: seq<Received>, epoch: nat): set<nat> {
    if got == [] then {}
    else DeliveredIds(got[..|got| - 1], epoch)
         + if got[|got| - 1].epoch == epoch then {got[|got| - 1].id} else {}
  }

  lemma DeliveredSnoc(got: seq<Received>, r: Received, epoch: nat)
    ensures DeliveredIds(got + [r], epoch) == DeliveredIds(got, epoch) + if r.epoch == epoch then {r.id} else {}
  {
    assert (got + [r])[..|got|] == got;
  }

  /** Membership, spelled out. */
  lemma {:induction false} DeliveredMeans(got: seq<Received>, epoch: nat, id: nat)
    ensures id in DeliveredIds(got, epoch) <==> exists k :: 0 <= k < |got| && got[k].epoch == epoch && got[k].id == id
  {
    if got != [] {
      var n := |got| - 1;
      DeliveredMeans(got[..n], epoch, id);
      if k :| 0 <= k < n && got[k].epoch == epoch && got[k].id == id {
        assert got[..n][k] == got[k];
      }
    }
  }

  // ---------------------------------------------------------------------
  // One event
  // ---------------------------------------------------------------------

  /** The epochs whose record is still of use: the present ones and all to come. */
  predicate Tracked(s: State, epoch: nat) {
    epoch >= s.decrypt.epoch || (epoch == s.retiring.epoch && epoch != 0)
  }

  /** Above the last future key nothing has been tried yet. */
  predicate Beyond(s: State, epoch: nat) { epoch > s.decrypt.epoch + |s.future| }

  /** The failures of an epoch are the wrong tags under it. */
  ghost predicate CountExplained(s: State, epoch: nat, bad: nat) {
    (Live(s, epoch) ==> FailuresOf(s, epoch) == bad) && (Beyond(s, epoch) ==> bad == 0)
  }

  /** The record of an epoch is what its authentic packets make of a new one, and those it let through were delivered. */
  ghost predicate RecordExplained(cfg: Config, atA: bool, n: Node, epoch: nat, seen: seq<Arrival>) {
    var l := Mine(cfg, atA);
    var r := FreshRec(l.seqBacktrack, l.timeBacktrack);
    && ValidRec(n.st.rec) && ValidRec(n.st.retiringRec)
    && n.st.rec.seqBacktrack == r.seqBacktrack && n.st.rec.timeBacktrack == r.timeBacktrack
    && (Tracked(n.st, epoch) ==> RecordFor(n.st, epoch) == RecAfter(r, seen))
    && DeliveredIds(n.got, epoch) == AcceptedIds(r, seen)
    && (forall a <- seen :: a.now > SEQ_EXPIRED && a.pin.time == 0)
  }

  /** What connects a peer's state with its run. */
  ghost predicate Explained(cfg: Config, atA: bool, n: Node, epoch: nat, bad: nat, seen: seq<Arrival>) {
    CountExplained(n.st, epoch, bad) && RecordExplained(cfg, atA, n, epoch, seen)
  }

  /** The replay check touches the record of the packet's epoch and no other that is still of use. */
  lemma DeliverRecord(suite: Suite, e1Send: Digest, e1Recv: Digest, s: State, r: Received, now: nat, epoch: nat)
    requires Inv(suite, e1Send, e1Recv, s) && Loaded(s) && r.epoch > 0 && Lookup(s, r.epoch).Some?
    requires epoch > 0
    ensures var t := Deliver(suite, s, r, now).1;
            && ValidRec(t.rec) && ValidRec(t.retiringRec)
            && t.rec.seqBacktrack == s.rec.seqBacktrack && t.rec.timeBacktrack == s.rec.timeBacktrack
            && (Tracked(t, epoch) ==>
                  && Tracked(s, epoch)
                  && RecordFor(t, epoch) == if epoch == r.epoch then Check(RecordFor(s, epoch), PacketIdNet(r.id, 0), now).1
                                            else RecordFor(s, epoch))
            && (Deliver(suite, s, r, now).0.Accept? <==> Check(RecordFor(s, r.epoch), PacketIdNet(r.id, 0), now).0)
            && (Deliver(suite, s, r, now).0.Accept? ==> Deliver(suite, s, r, now).0.r == r)
  {
    DeliverMoves(suite, e1Send, e1Recv, s, r, now);
    InvWindow(suite, e1Send, e1Recv, s);
  }

  /** Whatever becomes live lay beyond all keys before, and what lies beyond did so before. */
  lemma DeliverLive(suite: Suite, e1Send: Digest, e1Recv: Digest, s: State, r: Received, now: nat, epoch: nat)
    requires Inv(suite, e1Send, e1Recv, s) && Loaded(s) && r.epoch > 0 && Lookup(s, r.epoch).Some? && epoch > 0
    ensures var t := Deliver(suite, s, r, now).1;
            && (Live(t, epoch) && !Live(s, epoch) ==> Beyond(s, epoch))
            && (Beyond(t, epoch) ==> Beyond(s, epoch))
            && (Live(t, epoch) ==> FailuresOf(t, epoch) == if Live(s, epoch) then FailuresOf(s, epoch) else 0)
  {
    InvWindow(suite, e1Send, e1Recv, s);
    DeliverMoves(suite, e1Send, e1Recv, s, r, now);
    var t := Deliver(suite, s, r, now).1;
    if Live(t, epoch) { DeliverFailures(suite, s, r, now, epoch); }
  }

  lemma SeenSnoc(r: ReplayRec, seen: seq<Arrival>, a: Arrival)
    requires ValidRec(r)
    ensures RecAfter(r, seen + [a]) == Check(RecAfter(r, seen), a.pin, a.now).1
    ensures AcceptedIds(r, seen + [a]) ==
            AcceptedIds(r, seen) + if Check(RecAfter(r, seen), a.pin, a.now).0 then {a.pin.id} else {}
  {
    assert (seen + [a])[..|seen|] == seen;
  }

  function Got(n: Node, v: Verdict): seq<Received> { n.got + if v.Accept? then [v.r] else [] }

  lemma AuthenticIds(got: seq<Received>, v: Verdict, r: Received, rec: ReplayRec, seen: seq<Arrival>, now: nat, epoch: nat)
    requires ValidRec(rec) && DeliveredIds(got, epoch) == AcceptedIds(rec, seen) && (v.Accept? ==> v.r == r)
    requires r.epoch == epoch ==> (v.Accept? <==> Check(RecAfter(rec, seen), PacketIdNet(r.id, 0), now).0)
    ensures DeliveredIds(got + (if v.Accept? then [v.r] else []), epoch) ==
            AcceptedIds(rec, seen + (if r.epoch == epoch then [Arrival(PacketIdNet(r.id, 0), now)] else []))
  {
    DeliveredSnoc(got, r, epoch);
    SeenSnoc(rec, seen, Arrival(PacketIdNet(r.id, 0), now));
    assert got + [] == got && seen + [] == seen;
  }

  lemma AuthenticRecordExplained(cfg: Config, atA: bool, n: Node, r: Received, now: nat, epoch: nat, seen: seq<Arrival>)
    requires ValidConfig(cfg) && NodeInv(cfg, atA, n) && RecordExplained(cfg, atA, n, epoch, seen)
    requires r.epoch > 0 && Lookup(n.st, r.epoch).Some? && now > SEQ_EXPIRED && epoch > 0
    ensures var (v, t) := Deliver(cfg.suite, n.st, r, now);
            RecordExplained(cfg, atA, n.(st := t, got := Got(n, v)), epoch,
                            seen + if r.epoch == epoch then [Arrival(PacketIdNet(r.id, 0), now)] else [])
  {
    DeliverRecord(cfg.suite, SendSecret(cfg, atA), RecvSecret(cfg, atA), n.st, r, now, epoch);
    LookupTracked(cfg, atA, n, r.epoch);
    var rec := FreshRec(Mine(cfg, atA).seqBacktrack, Mine(cfg, atA).timeBacktrack);
    AuthenticIds(n.got, Deliver(cfg.suite, n.st, r, now).0, r, rec, seen, now, epoch);
    SeenSnoc(rec, seen, Arrival(PacketIdNet(r.id, 0), now));
    assert seen + [] == seen;
  }

  lemma AuthenticExplained(cfg: Config, atA: bool, n: Node, r: Received, now: nat, epoch: nat, bad: nat, seen: seq<Arrival>)
    requires ValidConfig(cfg) && NodeInv(cfg, atA, n) && Explained(cfg, atA, n, epoch, bad, seen)
    requires r.epoch > 0 && Lookup(n.st, r.epoch).Some? && now > SEQ_EXPIRED && epoch > 0
    ensures var (v, t) := Deliver(cfg.suite, n.st, r, now);
            Explained(cfg, atA, n.(st := t, got := Got(n, v)), epoch, bad,
                      seen + if r.epoch == epoch then [Arrival(PacketIdNet(r.id, 0), now)] else [])
  {
    DeliverLive(cfg.suite, SendSecret(cfg, atA), RecvSecret(cfg, atA), n.st, r, now, epoch);
    AuthenticRecordExplained(cfg, atA, n, r, now, epoch, seen);
  }

  lemma WrongTagExplained(cfg: Config, atA: bool, n: Node, at: nat, epoch: nat, bad: nat, seen: seq<Arrival>)
    requires ValidConfig(cfg) && NodeInv(cfg, atA, n) && Explained(cfg, atA, n, epoch, bad, seen)
    requires at > 0 && Lookup(n.st, at).Some? && epoch > 0
    ensures Explained(cfg, atA, n.(st := CountFailure(n.st, Lookup(n.st, at).value)), epoch,
                      bad + (if at == epoch then 1 else 0), seen)
  {
    InvWindow(cfg.suite, SendSecret(cfg, atA), RecvSecret(cfg, atA), n.st);
    if Live(n.st, epoch) { CountFailureCounts(n.st, at, epoch); }
  }

  lemma SendExplained(cfg: Config, atA: bool, n: Node, e: Event, epoch: nat, bad: nat, seen: seq<Arrival>)
    requires ValidConfig(cfg) && NodeInv(cfg, atA, n) && Explained(cfg, atA, n, epoch, bad, seen) && e.Send?
    ensures Explained(cfg, atA, NodeStep(cfg, n, e), epoch, bad, seen)
  {
    EncryptOrder(cfg.suite, cfg.aead, SendSecret(cfg, atA), RecvSecret(cfg, atA), n.st, e.header, e.payload, e.room);
  }

  lemma ArriveExplained(cfg: Config, atA: bool, n: Node, e: Event, epoch: nat, bad: nat, seen: seq<Arrival>)
    requires ValidConfig(cfg) && NodeInv(cfg, atA, n) && Explained(cfg, atA, n, epoch, bad, seen)
    requires e.Arrive? && epoch > 0 && e.now > SEQ_EXPIRED
    ensures var o := Open(cfg.aead, n.st, e.header, e.body, e.room);
            Explained(cfg, atA, NodeStep(cfg, n, e), epoch,
                      bad + (if IsBadTag(o, e, epoch) then 1 else 0), seen + Presented(o, e, epoch))
  {
    match Open(cfg.aead, n.st, e.header, e.body, e.room)
    case Dropped(_) => assert seen + [] == seen && n.got + [] == n.got;
    case WrongTag(_) =>
      assert seen + [] == seen && n.got + [] == n.got;
      WrongTagExplained(cfg, atA, n, EpochOf(e.body[..8]), epoch, bad, seen);
    case Authentic(r) => AuthenticExplained(cfg, atA, n, r, e.now, epoch, bad, seen);
  }

  /** Every event at a peer keeps its state explained. */
  lemma StepExplained(cfg: Config, atA: bool, n: Node, e: Event, epoch: nat, bad: nat, seen: seq<Arrival>)
    requires ValidConfig(cfg) && NodeInv(cfg, atA, n) && Explained(cfg, atA, n, epoch, bad, seen)
    requires e.atA == atA && epoch > 0 && (e.Arrive? ==> e.now > SEQ_EXPIRED)
    ensures var o := Finding(cfg, n.st, atA, e);
            Explained(cfg, atA, NodeStep(cfg, n, e), epoch,
                      bad + (if IsBadTag(o, e, epoch) then 1 else 0), seen + Presented(o, e, epoch))
  {
    if e.Send? {
      assert seen + [] == seen;
      SendExplained(cfg, atA, n, e, epoch, bad, seen);
    } else {
      ArriveExplained(cfg, atA, n, e, epoch, bad, seen);
    }
  }

  // ---------------------------------------------------------------------
  // All runs
  // ---------------------------------------------------------------------

  lemma InitExplained(cfg: Config, atA: bool, epoch: nat)
    requires ValidConfig(cfg) && epoch > 0
    ensures Explained(cfg, atA, InitNode(cfg, atA), epoch, 0, [])
  {
    var s, l := InitNode(cfg, atA).st, Mine(cfg, atA);
    if Live(s, epoch) && epoch > 1 {
      FreshKeysClean(cfg.suite, EpochKey(RecvSecret(cfg, atA), 1), 1 + l.futureKeys, epoch - 2);
    }
  }

  /** An event at the other peer changes nothing here. */
  lemma NetExplained(cfg: Config, net: Net, e: Event, atA: bool, epoch: nat, bad: nat, seen: seq<Arrival>)
    requires ValidConfig(cfg) && NetInv(cfg, net) && Possible(cfg, net, e) && epoch > 0
    requires Explained(cfg, atA, Self(net, atA), epoch, bad, seen)
    ensures var o := Finding(cfg, Self(net, atA).st, atA, e);
            Explained(cfg, atA, Self(Step(cfg, net, e), atA), epoch,
                      bad + (if IsBadTag(o, e, epoch) then 1 else 0), seen + Presented(o, e, epoch))
  {
    if e.atA == atA {
      StepExplained(cfg, atA, Self(net, atA), e, epoch, bad, seen);
    } else {
      assert seen + [] == seen;
    }
  }

  lemma {:induction false} RunExplained(cfg: Config, run: seq<Event>, atA: bool, epoch: nat)
    requires ValidConfig(cfg) && Feasible(cfg, run) && epoch > 0
    ensures Explained(cfg, atA, Self(After(cfg, run), atA), epoch,
                      BadTags(cfg, run, atA, epoch), Arrivals(cfg, run, atA, epoch))
  {
    if run == [] {
      InitExplained(cfg, atA, epoch);
    } else {
      var before, e := run[..|run| - 1], run[|run| - 1];
      RunExplained(cfg, before, atA, epoch);
      NetExplained(cfg, After(cfg, before), e, atA, epoch,
                   BadTags(cfg, before, atA, epoch), Arrivals(cfg, before, atA, epoch));
    }
  }

  /** In every reachable state the failure count of every live key is the number of wrong tags under its epoch. */
  lemma FailuresAreBadTags(cfg: Config, run: seq<Event>, atA: bool, epoch: nat)
    requires ValidConfig(cfg) && Feasible(cfg, run) && epoch > 0
    requires Live(Self(After(cfg, run), atA).st, epoch)
    ensures FailuresOf(Self(After(cfg, run), atA).st, epoch) == BadTags(cfg, run, atA, epoch) <= VERIFY_FAIL_LIMIT + 1
  {
    RunExplained(cfg, run, atA, epoch);
    assert NodeInv(cfg, atA, Self(After(cfg, run), atA));
    LiveGood(cfg.suite, SendSecret(cfg, atA), RecvSecret(cfg, atA), Self(After(cfg, run), atA).st, epoch);
  }

  // ---------------------------------------------------------------------
  // Which epochs are within reach
  // ---------------------------------------------------------------------

  /**
   * The receive epoch and the one before it, 0 if there was none, as the run
   * determines them: every authentic packet of a higher epoch moves them on.
   */
  ghost function Reached(cfg: Config, run: seq<Event>, atA: bool): (nat, nat)
    requires ValidConfig(cfg) && Feasible(cfg, run)
  {
    if run == [] then (1, 0)
    else
      var before, e := run[..|run| - 1], run[|run| - 1];
      Onward(Reached(cfg, before, atA), Finding(cfg, Self(After(cfg, before), atA).st, atA, e))
  }

  function Onward(at: (nat, nat), o: Opened): (nat, nat) {
    if o.Authentic? && o.r.epoch > at.0 then (o.r.epoch, at.0) else at
  }

  /** The last epoch that can be moved to with N future keys. */
  function LastReachable(n: nat): nat
    requires n < UINT16_MAX
  {
    UINT16_MAX - n - 1
  }

  /** The epochs that packets are accepted under: the present one, the one before, and the next N up to the edge. */
  predicate WithinReach(at: (nat, nat), n: nat, epoch: nat)
    requires n < UINT16_MAX
  {
    epoch == at.0 || epoch == at.1 || at.0 < epoch <= Min(at.0 + n, LastReachable(n))
  }

  /** What the key state holds of the epochs reached. */
  predicate Holds(s: State, at: (nat, nat), n: nat) {
    s.decrypt.epoch == at.0 && s.retiring.epoch == at.1 && |s.future| == n
  }

  lemma LookupIffWithinReach(s: State, at: (nat, nat), n: nat, epoch: nat)
    requires n < UINT16_MAX && Holds(s, at, n) && epoch > 0
    ensures Lookup(s, epoch).Some? <==> WithinReach(at, n, epoch)
  {
  }

  lemma DeliverHolds(suite: Suite, e1Send: Digest, e1Recv: Digest, s: State, r: Received, now: nat,
                     at: (nat, nat), n: nat)
    requires Inv(suite, e1Send, e1Recv, s) && Loaded(s) && r.epoch > 0 && Lookup(s, r.epoch).Some?
    requires Holds(s, at, n)
    ensures Holds(Deliver(suite, s, r, now).1, Onward(at, Authentic(r)), n)
  {
    InvWindow(suite, e1Send, e1Recv, s);
    DeliverMoves(suite, e1Send, e1Recv, s, r, now);
  }

  lemma StepHolds(cfg: Config, atA: bool, m: Node, e: Event, at: (nat, nat), n: nat)
    requires ValidConfig(cfg) && NodeInv(cfg, atA, m) && e.atA == atA && Holds(m.st, at, n)
    ensures Holds(NodeStep(cfg, m, e).st, Onward(at, Finding(cfg, m.st, atA, e)), n)
  {
    var es, er := SendSecret(cfg, atA), RecvSecret(cfg, atA);
    if e.Send? {
      EncryptOrder(cfg.suite, cfg.aead, es, er, m.st, e.header, e.payload, e.room);
    } else {
      match Open(cfg.aead, m.st, e.header, e.body, e.room)
      case Dropped(_) =>
      case WrongTag(_) =>
      case Authentic(r) => DeliverHolds(cfg.suite, es, er, m.st, r, e.now, at, n);
    }
  }

  lemma NetHolds(cfg: Config, net: Net, e: Event, atA: bool, at: (nat, nat), n: nat)
    requires ValidConfig(cfg) && NetInv(cfg, net) && Holds(Self(net, atA).st, at, n)
    ensures Holds(Self(Step(cfg, net, e), atA).st, Onward(at, Finding(cfg, Self(net, atA).st, atA, e)), n)
  {
    if e.atA == atA { StepHolds(cfg, atA, Self(net, atA), e, at, n); }
  }

  /** In every reachable state the epochs of the keys are those the run has reached. */
  lemma {:induction false} RunReaches(cfg: Config, run: seq<Event>, atA: bool)
    requires ValidConfig(cfg) && Feasible(cfg, run)
    ensures Holds(Self(After(cfg, run), atA).st, Reached(cfg, run, atA), Mine(cfg, atA).futureKeys)
  {
    if run != [] {
      var before, e := run[..|run| - 1], run[|run| - 1];
      RunReaches(cfg, before, atA);
      NetHolds(cfg, After(cfg, before), e, atA, Reached(cfg, before, atA), Mine(cfg, atA).futureKeys);
    }
  }

  lemma OnwardBounded(cfg: Config, s: State, atA: bool, e: Event, at: (nat, nat), n: nat)
    requires ValidIvLen(cfg.aead) && Loaded(s) && n < UINT16_MAX
    requires Holds(s, at, n) && at.1 < at.0 <= Max(1, LastReachable(n))
    ensures var next := Onward(at, Finding(cfg, s, atA, e));
            next.1 < next.0 <= Max(1, LastReachable(n))
  {
    var o := Finding(cfg, s, atA, e);
    if o.Authentic? { LookupIffWithinReach(s, at, n, o.r.epoch); }
  }

  lemma {:induction false} ReachedBounded(cfg: Config, run: seq<Event>, atA: bool)
    requires ValidConfig(cfg) && Feasible(cfg, run)
    ensures var (cur, prev) := Reached(cfg, run, atA);
            prev < cur <= Max(1, LastReachable(Mine(cfg, atA).futureKeys))
  {
    if run != [] {
      var before, e := run[..|run| - 1], run[|run| - 1];
      ReachedBounded(cfg, before, atA);
      RunReaches(cfg, before, atA);
      OnwardBounded(cfg, Self(After(cfg, before), atA).st, atA, e, Reached(cfg, before, atA), Mine(cfg, atA).futureKeys);
    }
  }

  /**
   * What the guard at the edge of the 16 bit epochs comes to over a whole run:
   * with N future keys, no receive epoch above 65535 - N - 1 is ever moved to,
   * and no packet of a higher epoch is ever delivered.
   */
  lemma EdgeIsNeverCrossed(cfg: Config, run: seq<Event>, atA: bool, i: nat)
    requires ValidConfig(cfg) && Feasible(cfg, run)
    ensures var n, last := Self(After(cfg, run), atA), Max(1, LastReachable(Mine(cfg, atA).futureKeys));
            && n.st.decrypt.epoch <= last
            && (i < |n.got| ==> n.got[i].epoch <= last)
  {
    RunReaches(cfg, run, atA);
    ReachedBounded(cfg, run, atA);
    var n := Self(After(cfg, run), atA);
    assert NodeInv(cfg, atA, n);
    if i < |n.got| { assert Remembered(n.st, n.got[i]); }
  }

  // ---------------------------------------------------------------------
  // The fate of a packet
  // ---------------------------------------------------------------------

  /**
   * The fate of every packet of the peer said without keys, counts or records:
   * which epochs are within reach, after how many wrong tags a key is locked,
   * and by which deliveries a counter is too old or taken.
   */
  lemma FateByDelivery(cfg: Config, run: seq<Event>, atA: bool, p: Sent, room: nat, now: nat)
    returns (highest: nat, floor: nat)
    requires ValidConfig(cfg) && Feasible(cfg, run) && now > SEQ_EXPIRED
    requires p in Peer(After(cfg, run), atA).sent
    ensures Loaded(Self(After(cfg, run), atA).st) && p.epoch > 0
    ensures var n, l := Self(After(cfg, run), atA), Mine(cfg, atA);
            var delivered := DeliveredIds(n.got, p.epoch);
            && (p.id in delivered <==> exists k :: 0 <= k < |n.got| && n.got[k].epoch == p.epoch && n.got[k].id == p.id)
            && IsHighest(highest, delivered)
            && floor == Forgotten(l.seqBacktrack, l.timeBacktrack, Arrivals(cfg, run, atA, p.epoch), now)
            && (l.seqBacktrack > 0 ==> (floor == 0 || floor in delivered) && (l.timeBacktrack == 0 ==> floor == 0))
            && Decrypt(cfg.suite, cfg.aead, n.st, p.header, p.wire[|p.header|..], room, now).0 ==
                 if !WithinReach(Reached(cfg, run, atA), l.futureKeys, p.epoch) then UnknownEpoch
                 else if BadTags(cfg, run, atA, p.epoch) > 0x10_0000_0000 then FailLimit
                 else if !BufSafe(room, 0, |p.payload| + TAG_LEN + cfg.aead.blockSize) then NoRoom
                 else if NewAmong(delivered, highest, l.seqBacktrack, floor, p.id)
                 then Accept(Received(p.epoch, p.id, p.payload))
                 else Replay
  {
    var net, l := After(cfg, run), Mine(cfg, atA);
    var n := Self(net, atA);
    SentIsGood(cfg, Peer(net, atA), !atA, p);
    FateOfSentPacket(cfg, run, atA, p, room, now);
    RunReaches(cfg, run, atA);
    LookupIffWithinReach(n.st, Reached(cfg, run, atA), l.futureKeys, p.epoch);
    RunExplained(cfg, run, atA, p.epoch);
    DeliveredMeans(n.got, p.epoch, p.id);
    var seen := Arrivals(cfg, run, atA, p.epoch);
    PassesIffNew(l.seqBacktrack, l.timeBacktrack, seen, p.id, now);
    highest := RecAfter(FreshRec(l.seqBacktrack, l.timeBacktrack), seen).id;
    floor := Forgotten(l.seqBacktrack, l.timeBacktrack, seen, now);
    if Lookup(n.st, p.epoch).Some? { LookupTracked(cfg, atA, n, p.epoch); }
  }

  lemma LookupTracked(cfg: Config, atA: bool, n: Node, epoch: nat)
    requires ValidConfig(cfg) && NodeInv(cfg, atA, n) && epoch > 0 && Lookup(n.st, epoch).Some?
    ensures Live(n.st, epoch) && Tracked(n.st, epoch)
  {
  }
}

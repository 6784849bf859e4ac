/**
 * Replay protection: the circular list of arrival times and the sliding
 * window over packet ids that is built on it.
 */
module PacketId {
  import opened Octets

  const SEQ_UNSEEN: nat := 0
  const SEQ_EXPIRED: nat := 1
  const SEQ_REAP_INTERVAL: nat := 5

  /** A packet id as read from the wire. */
  datatype PacketIdNet = PacketIdNet(id: nat, time: nat)

  /**
   * One receive record. `window[i]` is the state of packet id `id - i`: not
   * seen, expired, or the time at which it was accepted. In the gapless mode
   * (`seqBacktrack == 0`) there is no list and the window stays empty.
   */
  datatype ReplayRec = ReplayRec(
    lastReap: nat, time: nat, id: nat, seqBacktrack: nat, timeBacktrack: nat, window: seq<nat>)

  /** The list covers the newest `seqBacktrack` ids, or all of them while there are fewer. */
  predicate ValidRec(r: ReplayRec) {
    && |r.window| == Min(r.id, r.seqBacktrack)
    && (r.seqBacktrack == 0 ==> r.timeBacktrack == 0)
  }

  function FreshRec(seqBacktrack: nat, timeBacktrack: nat): (r: ReplayRec)
    ensures ValidRec(r)
  {
    ReplayRec(0, 0, 0, seqBacktrack, if seqBacktrack == 0 then 0 else timeBacktrack, [])
  }

  function Unseen(n: nat): (s: seq<nat>)
    ensures |s| == n && forall i :: 0 <= i < n ==> s[i] == SEQ_UNSEEN
  {
    seq(n, i => SEQ_UNSEEN)
  }

  function Take(s: seq<nat>, n: nat): (t: seq<nat>)
    ensures |t| == Min(|s|, n)
  {
    if |s| <= n then s else s[..n]
  }

  predicate Test(r: ReplayRec, pin: PacketIdNet)
    requires ValidRec(r)
  {
    pin.id != 0 &&
    if r.seqBacktrack > 0 then
      if pin.time == r.time then
        pin.id > r.id
        || (r.id - pin.id < |r.window| && r.window[r.id - pin.id] == SEQ_UNSEEN)
      else pin.time > r.time
    else if pin.time == r.time then r.id == 0 || pin.id == r.id + 1
    else pin.time > r.time && pin.id == 1
  }

  /** True when the record starts a new list: first packet, newer time, or a jump past the window. */
  predicate Restarts(r: ReplayRec, pin: PacketIdNet) {
    || |r.window| == 0
    || pin.time > r.time
    || (pin.id >= r.seqBacktrack && pin.id - r.seqBacktrack > r.id)
  }

  function Restarted(r: ReplayRec, pin: PacketIdNet): ReplayRec {
    if Restarts(r, pin) then
      r.(time := pin.time, id := Max(0, pin.id - r.seqBacktrack), window := [])
    else r
  }

  /** The list after making room for every id up to pin.id. */
  function Advanced(r: ReplayRec, upTo: nat): (s: ReplayRec)
    requires |r.window| <= r.seqBacktrack
    ensures |s.window| == Min(Max(0, upTo - r.id) + |r.window|, r.seqBacktrack)
    ensures s.id == Max(r.id, upTo)
  {
    if upTo <= r.id then r
    else r.(id := upTo, window := Take(Unseen(upTo - r.id) + r.window, r.seqBacktrack))
  }

  lemma TakeOfTake(a: nat, x: seq<nat>, n: nat)
    ensures Take([a] + Take(x, n), n) == Take([a] + x, n)
  {
  }

  lemma AdvancedStep(r: ReplayRec, n: nat)
    requires |r.window| <= r.seqBacktrack && r.id <= n
    ensures var a := Advanced(r, n);
            Advanced(r, n + 1) == a.(id := n + 1, window := Take([SEQ_UNSEEN] + a.window, r.seqBacktrack))
  {
    var x := Unseen(n - r.id) + r.window;
    assert Unseen(n + 1 - r.id) + r.window == [SEQ_UNSEEN] + x;
    assert Advanced(r, n).window == Take(x, r.seqBacktrack) by {
      if n == r.id { assert x == r.window; }
    }
    TakeOfTake(SEQ_UNSEEN, x, r.seqBacktrack);
  }

  function Add(r: ReplayRec, pin: PacketIdNet, now: nat): (s: ReplayRec)
    requires ValidRec(r)
    ensures ValidRec(s) && s.seqBacktrack == r.seqBacktrack && s.timeBacktrack == r.timeBacktrack
  {
    if r.seqBacktrack == 0 then r.(time := pin.time, id := pin.id)
    else
      var a := Advanced(Restarted(r, pin), pin.id);
      var diff := a.id - pin.id;
      if diff < |a.window| && now > SEQ_EXPIRED then a.(window := a.window[diff := now]) else a
  }

  predicate Stale(t: nat, timeBacktrack: nat, now: nat) { t != SEQ_UNSEEN && t + timeBacktrack < now }

  /** The first position holding a time that is too old, or |w|. */
  function FirstStale(w: seq<nat>, timeBacktrack: nat, now: nat): (k: nat)
    ensures k <= |w|
    ensures forall i :: 0 <= i < k ==> !Stale(w[i], timeBacktrack, now)
    ensures k < |w| ==> Stale(w[k], timeBacktrack, now)
  {
    if w == [] || Stale(w[0], timeBacktrack, now) then 0 else 1 + FirstStale(w[1..], timeBacktrack, now)
  }

  /** The number of entries in front of the first expired one. */
  function LiveLen(w: seq<nat>): (n: nat)
    ensures n <= |w| && forall i :: 0 <= i < n ==> w[i] != SEQ_EXPIRED
    ensures n < |w| ==> w[n] == SEQ_EXPIRED
  {
    if w == [] || w[0] == SEQ_EXPIRED then 0 else 1 + LiveLen(w[1..])
  }

  /** w with the entries from k up to i marked as expired. */
  function Marked(w: seq<nat>, k: nat, i: nat): (v: seq<nat>)
    ensures |v| == |w|
  {
    seq(|w|, x requires 0 <= x < |w| => if k <= x < i then SEQ_EXPIRED else w[x])
  }

  /** From the first stale entry on everything is too old, up to where that was marked before. */
  function Expired(w: seq<nat>, timeBacktrack: nat, now: nat): (v: seq<nat>)
    ensures |v| == |w|
  {
    Marked(w, FirstStale(w, timeBacktrack, now), LiveLen(w))
  }

  function Reap(r: ReplayRec, now: nat): (s: ReplayRec)
    requires ValidRec(r)
    ensures ValidRec(s) && s.seqBacktrack == r.seqBacktrack && s.timeBacktrack == r.timeBacktrack
    ensures |s.window| == |r.window| && s.id == r.id && s.time == r.time
  {
    if r.timeBacktrack == 0 then r.(lastReap := now)
    else r.(lastReap := now, window := Expired(r.window, r.timeBacktrack, now))
  }

  function ReapIfDue(r: ReplayRec, now: nat): (s: ReplayRec)
    requires ValidRec(r)
    ensures ValidRec(s) && s.seqBacktrack == r.seqBacktrack && s.timeBacktrack == r.timeBacktrack
  {
    if r.lastReap + SEQ_REAP_INTERVAL <= now then Reap(r, now) else r
  }

  /** One pass of the replay check: reap when due, test, and remember what was accepted. */
  function Check(r: ReplayRec, pin: PacketIdNet, now: nat): (res: (bool, ReplayRec))
    requires ValidRec(r)
    ensures ValidRec(res.1)
    ensures res.1.seqBacktrack == r.seqBacktrack && res.1.timeBacktrack == r.timeBacktrack
  {
    var q := ReapIfDue(r, now);
    if Test(q, pin) then (true, Add(q, pin, now)) else (false, q)
  }

  // ---------------------------------------------------------------------
  // What a record remembers
  // ---------------------------------------------------------------------

  /** The record will not let this pair through again: it is stale, or its place is taken. */
  predicate Blocked(r: ReplayRec, p: PacketIdNet)
    requires ValidRec(r)
  {
    p.time < r.time
    || (p.time == r.time && 0 < p.id <= r.id
        && (r.id - p.id < |r.window| ==> r.window[r.id - p.id] != SEQ_UNSEEN))
  }

  lemma BlockedFailsTest(r: ReplayRec, p: PacketIdNet)
    requires ValidRec(r) && Blocked(r, p)
    ensures !Test(r, p)
  {
  }

  lemma AddKeepsBlocked(r: ReplayRec, pin: PacketIdNet, now: nat, p: PacketIdNet)
    requires ValidRec(r) && Test(r, pin) && Blocked(r, p)
    ensures Blocked(Add(r, pin, now), p)
  {
    if r.seqBacktrack > 0 && p.time == pin.time && !Restarts(r, pin) {
      var a := Advanced(r, pin.id);
      if a.id - p.id < |a.window| && r.id < pin.id {
        assert a.window[a.id - p.id] == (Unseen(pin.id - r.id) + r.window)[a.id - p.id];
      }
    }
  }

  lemma AddBlocksIt(r: ReplayRec, pin: PacketIdNet, now: nat)
    requires ValidRec(r) && Test(r, pin) && (now > SEQ_EXPIRED || r.seqBacktrack == 0)
    ensures Blocked(Add(r, pin, now), pin)
  {
  }

  lemma ReapKeepsBlocked(r: ReplayRec, now: nat, p: PacketIdNet)
    requires ValidRec(r) && Blocked(r, p)
    ensures Blocked(Reap(r, now), p)
  {
  }

  lemma CheckKeepsBlocked(r: ReplayRec, pin: PacketIdNet, now: nat, p: PacketIdNet)
    requires ValidRec(r) && Blocked(r, p)
    ensures Blocked(Check(r, pin, now).1, p)
    ensures Check(r, pin, now).0 ==> pin != p
  {
    ReapKeepsBlocked(r, now, p);
    var q := ReapIfDue(r, now);
    BlockedFailsTest(q, p);
    if Test(q, pin) { AddKeepsBlocked(q, pin, now, p); }
  }

  // ---------------------------------------------------------------------
  // Whole runs
  // ---------------------------------------------------------------------

  /** A packet id reaching the check, with the clock at that moment. */
  datatype Arrival = Arrival(pin: PacketIdNet, now: nat)

  function RecAfter(r: ReplayRec, run: seq<Arrival>): (s: ReplayRec)
    requires ValidRec(r)
    ensures ValidRec(s) && s.seqBacktrack == r.seqBacktrack
  {
    if run == [] then r
    else
      var last := run[|run| - 1];
      Check(RecAfter(r, run[..|run| - 1]), last.pin, last.now).1
  }

  /** Whether the i-th packet of the run is let through. */
  predicate Accepted(r: ReplayRec, run: seq<Arrival>, i: nat)
    requires ValidRec(r) && i < |run|
  {
    Check(RecAfter(r, run[..i]), run[i].pin, run[i].now).0
  }

  lemma {:induction false} BlockedFrom(r: ReplayRec, run: seq<Arrival>, i: nat, j: nat)
    requires ValidRec(r) && i < j <= |run|
    requires Accepted(r, run, i) && (run[i].now > SEQ_EXPIRED || r.seqBacktrack == 0)
    ensures Blocked(RecAfter(r, run[..j]), run[i].pin)
  {
    var before := run[..j - 1];
    assert run[..j][..j - 1] == before;
    assert RecAfter(r, run[..j]) == Check(RecAfter(r, before), run[j - 1].pin, run[j - 1].now).1;
    if j == i + 1 {
      AddBlocksIt(ReapIfDue(RecAfter(r, before), run[i].now), run[i].pin, run[i].now);
    } else {
      BlockedFrom(r, run, i, j - 1);
      CheckKeepsBlocked(RecAfter(r, before), run[j - 1].pin, run[j - 1].now, run[i].pin);
    }
  }

  /**
   * No packet id gets through twice in any run, in either mode, whatever
   * arrives in between and however often entries expire.
   */
  lemma AtMostOnce(r: ReplayRec, run: seq<Arrival>, i: nat, j: nat)
    requires ValidRec(r) && i < j < |run|
    requires Accepted(r, run, i) && Accepted(r, run, j)
    requires run[i].now > SEQ_EXPIRED || r.seqBacktrack == 0
    ensures run[i].pin != run[j].pin
  {
    BlockedFrom(r, run, i, j);
    CheckKeepsBlocked(RecAfter(r, run[..j]), run[j].pin, run[j].now, run[i].pin);
  }

  /**
   * The clock condition is exact, for every record and every id: an accepted id
   * is blocked from then on, and turned down when it comes again at once, if
   * and only if the clock was past its first second or there is no window.
   */
  lemma MarkedIffClockRuns(r: ReplayRec, pin: PacketIdNet, now: nat)
    requires ValidRec(r) && Check(r, pin, now).0
    ensures var s := Check(r, pin, now).1;
            && (Blocked(s, pin) <==> now > SEQ_EXPIRED || r.seqBacktrack == 0)
            && (!Check(s, pin, now).0 <==> now > SEQ_EXPIRED || r.seqBacktrack == 0)
  {
    var q := ReapIfDue(r, now);
    var s := Add(q, pin, now);
    if now > SEQ_EXPIRED || r.seqBacktrack == 0 {
      AddBlocksIt(q, pin, now);
      CheckKeepsBlocked(s, pin, now, pin);
    } else {
      EarlyAddLeavesNoMark(q, pin, now);
      assert !Blocked(s, pin) && ReapIfDue(s, now) == s;
    }
  }

  lemma EarlyAddLeavesNoMark(r: ReplayRec, pin: PacketIdNet, now: nat)
    requires ValidRec(r) && Test(r, pin) && now <= SEQ_EXPIRED && r.seqBacktrack > 0
    ensures Test(Add(r, pin, now), pin)
  {
    var a := Advanced(Restarted(r, pin), pin.id);
    assert a.id - pin.id < |a.window| && a.window[a.id - pin.id] == SEQ_UNSEEN;
  }

  /** The clock condition is needed: with a window, an id accepted at time 0 or 1 leaves no mark. */
  lemma EarlyClockForgets(seqBacktrack: nat, timeBacktrack: nat, now: nat)
    requires seqBacktrack > 0 && now <= SEQ_EXPIRED
    ensures var run := [Arrival(PacketIdNet(1, 0), now), Arrival(PacketIdNet(1, 0), now)];
            var r := FreshRec(seqBacktrack, timeBacktrack);
            Accepted(r, run, 0) && Accepted(r, run, 1)
  {
    var a := Arrival(PacketIdNet(1, 0), now);
    var r := FreshRec(seqBacktrack, timeBacktrack);
    assert [a, a][..0] == [] && [a, a][..1] == [a] && [a][..0] == [];
    assert RecAfter(r, [a]) == Check(r, a.pin, now).1;
  }

  // ---------------------------------------------------------------------
  // The simple form: a full history instead of a window
  // ---------------------------------------------------------------------

  /**
   * Everything accepted under the newest time stamp, when it was accepted,
   * and the id up to which everything is too old.
   */
  datatype History = History(
    lastReap: nat, time: nat, highest: nat, acceptedAt: map<nat, nat>, floor: nat)

  const NO_HISTORY := History(0, 0, 0, map[], 0)

  /** In the reordering mode a packet is new enough and has not been here before. */
  predicate IsNew(h: History, seqBacktrack: nat, pin: PacketIdNet) {
    && pin.id > 0
    && (|| pin.time > h.time
        || (&& pin.time == h.time
            && pin.id !in h.acceptedAt
            && pin.id + seqBacktrack > h.highest
            && pin.id > h.floor))
  }

  function Record(h: History, pin: PacketIdNet, now: nat): History {
    if pin.time > h.time then
      h.(time := pin.time, highest := pin.id, acceptedAt := map[pin.id := now], floor := 0)
    else
      h.(highest := Max(h.highest, pin.id), acceptedAt := h.acceptedAt[pin.id := now])
  }

  /** The highest id no larger than `top` that was accepted too long ago, or 0. */
  function HighestStale(at: map<nat, nat>, top: nat, timeBacktrack: nat, now: nat): (j: nat)
    ensures j <= top
    ensures j > 0 ==> j in at && at[j] + timeBacktrack < now
    ensures forall k :: j < k <= top && k in at ==> at[k] + timeBacktrack >= now
  {
    if top == 0 then 0
    else if top in at && at[top] + timeBacktrack < now then top
    else HighestStale(at, top - 1, timeBacktrack, now)
  }

  function Forget(h: History, timeBacktrack: nat, now: nat): History {
    if timeBacktrack == 0 then h.(lastReap := now)
    else h.(lastReap := now,
            floor := Max(h.floor, HighestStale(h.acceptedAt, h.highest, timeBacktrack, now)))
  }

  function HistoryCheck(h: History, seqBacktrack: nat, timeBacktrack: nat, a: Arrival): (bool, History) {
    var g := if h.lastReap + SEQ_REAP_INTERVAL <= a.now then Forget(h, timeBacktrack, a.now) else h;
    if IsNew(g, seqBacktrack, a.pin) then (true, Record(g, a.pin, a.now)) else (false, g)
  }

  /** What the list must hold for packet id j. */
  function Entry(h: History, j: nat): nat {
    if j <= h.floor then SEQ_EXPIRED
    else if j in h.acceptedAt then h.acceptedAt[j]
    else SEQ_UNSEEN
  }

  ghost predicate Represents(r: ReplayRec, h: History) {
    && ValidRec(r) && r.seqBacktrack > 0
    && r.lastReap == h.lastReap && r.time == h.time && r.id == h.highest
    && h.floor <= h.highest
    && (forall j :: j in h.acceptedAt ==> 0 < j <= h.highest && h.acceptedAt[j] > SEQ_EXPIRED)
    && (forall i :: 0 <= i < |r.window| ==> r.window[i] == Entry(h, r.id - i))
  }

  lemma TestIsIsNew(r: ReplayRec, h: History, pin: PacketIdNet)
    requires Represents(r, h)
    ensures Test(r, pin) == IsNew(h, r.seqBacktrack, pin)
  {
    if pin.time == r.time && 0 < pin.id <= r.id && r.id - pin.id < |r.window| {
      assert r.window[r.id - pin.id] == Entry(h, pin.id);
    }
  }

  lemma AddedEntry(r: ReplayRec, h: History, pin: PacketIdNet, now: nat, i: nat)
    requires Represents(r, h) && Test(r, pin) && now > SEQ_EXPIRED
    requires i < |Add(r, pin, now).window|
    ensures var s := Add(r, pin, now);
            s.id >= i && s.window[i] == Entry(Record(h, pin, now), s.id - i)
  {
    var q := Restarted(r, pin);
    var a := Advanced(q, pin.id);
    if a.id - i != pin.id && q.id < pin.id {
      assert a.window[i] == (Unseen(pin.id - q.id) + q.window)[i];
    }
  }

  lemma AddIsRecord(r: ReplayRec, h: History, pin: PacketIdNet, now: nat)
    requires Represents(r, h) && Test(r, pin) && now > SEQ_EXPIRED
    ensures Represents(Add(r, pin, now), Record(h, pin, now))
  {
    var s := Add(r, pin, now);
    forall i | 0 <= i < |s.window| ensures s.id >= i && s.window[i] == Entry(Record(h, pin, now), s.id - i) {
      AddedEntry(r, h, pin, now, i);
    }
  }

  /** The first stale entry of the list is the highest stale id, unless that is forgotten already. */
  lemma FirstStaleIsHighest(r: ReplayRec, h: History, now: nat)
    requires Represents(r, h) && r.timeBacktrack > 0
    ensures var k, live := FirstStale(r.window, r.timeBacktrack, now), LiveLen(r.window);
            var stale := HighestStale(h.acceptedAt, h.highest, r.timeBacktrack, now);
            && (live < |r.window| ==> r.id - live <= h.floor)
            && (k < live ==> stale >= r.id - k)
            && (stale > h.floor && r.id - stale < |r.window| ==> k <= r.id - stale)
  {
    var k, live := FirstStale(r.window, r.timeBacktrack, now), LiveLen(r.window);
    var stale := HighestStale(h.acceptedAt, h.highest, r.timeBacktrack, now);
    assert live < |r.window| ==> r.window[live] == Entry(h, r.id - live);
    if k < live {
      assert r.window[k] == Entry(h, r.id - k);
    }
    if stale > h.floor && r.id - stale < |r.window| {
      assert r.window[r.id - stale] == Entry(h, stale);
    }
  }

  lemma ForgottenEntry(r: ReplayRec, h: History, now: nat, i: nat)
    requires Represents(r, h) && r.timeBacktrack > 0 && i < |r.window|
    ensures Reap(r, now).window[i] == Entry(Forget(h, r.timeBacktrack, now), r.id - i)
  {
    FirstStaleIsHighest(r, h, now);
    assert r.window[i] == Entry(h, r.id - i);
  }

  lemma ReapIsForget(r: ReplayRec, h: History, now: nat)
    requires Represents(r, h)
    ensures Represents(Reap(r, now), Forget(h, r.timeBacktrack, now))
  {
    if r.timeBacktrack > 0 {
      forall i | 0 <= i < |r.window| ensures Reap(r, now).window[i] == Entry(Forget(h, r.timeBacktrack, now), r.id - i) {
        ForgottenEntry(r, h, now, i);
      }
    }
  }

  function Decisions(r: ReplayRec, run: seq<Arrival>): (d: seq<bool>)
    requires ValidRec(r)
    ensures |d| == |run|
    decreases |run|
  {
    if run == [] then []
    else
      var (ok, s) := Check(r, run[0].pin, run[0].now);
      [ok] + Decisions(s, run[1..])
  }

  function HistoryDecisions(h: History, seqBacktrack: nat, timeBacktrack: nat, run: seq<Arrival>): seq<bool>
    decreases |run|
  {
    if run == [] then []
    else
      var (ok, g) := HistoryCheck(h, seqBacktrack, timeBacktrack, run[0]);
      [ok] + HistoryDecisions(g, seqBacktrack, timeBacktrack, run[1..])
  }

  lemma {:induction false} DecisionsFrom(r: ReplayRec, h: History, run: seq<Arrival>)
    requires Represents(r, h)
    requires forall i :: 0 <= i < |run| ==> run[i].now > SEQ_EXPIRED
    ensures Decisions(r, run) == HistoryDecisions(h, r.seqBacktrack, r.timeBacktrack, run)
    decreases |run|
  {
    if run != [] {
      CheckIsHistoryCheck(r, h, run[0]);
      DecisionsFrom(Check(r, run[0].pin, run[0].now).1,
                    HistoryCheck(h, r.seqBacktrack, r.timeBacktrack, run[0]).1, run[1..]);
    }
  }

  /**
   * The bounded circular list decides every packet of every run exactly as
   * the unbounded history does.
   */
  lemma WindowIsExact(seqBacktrack: nat, timeBacktrack: nat, run: seq<Arrival>)
    requires seqBacktrack > 0
    requires forall i :: 0 <= i < |run| ==> run[i].now > SEQ_EXPIRED
    ensures Decisions(FreshRec(seqBacktrack, timeBacktrack), run)
         == HistoryDecisions(NO_HISTORY, seqBacktrack, timeBacktrack, run)
  {
    DecisionsFrom(FreshRec(seqBacktrack, timeBacktrack), NO_HISTORY, run);
  }

  // ---------------------------------------------------------------------
  // Decisions in terms of what was accepted before
  // ---------------------------------------------------------------------

  function HistoryAfter(seqBacktrack: nat, timeBacktrack: nat, run: seq<Arrival>): History {
    if run == [] then NO_HISTORY
    else HistoryCheck(HistoryAfter(seqBacktrack, timeBacktrack, run[..|run| - 1]), seqBacktrack, timeBacktrack,
                      run[|run| - 1]).1
  }

  lemma CheckIsHistoryCheck(r: ReplayRec, h: History, a: Arrival)
    requires Represents(r, h) && a.now > SEQ_EXPIRED
    ensures Check(r, a.pin, a.now).0 == HistoryCheck(h, r.seqBacktrack, r.timeBacktrack, a).0
    ensures Represents(Check(r, a.pin, a.now).1, HistoryCheck(h, r.seqBacktrack, r.timeBacktrack, a).1)
  {
    ReapIsForget(r, h, a.now);
    var q := ReapIfDue(r, a.now);
    var g := if h.lastReap + SEQ_REAP_INTERVAL <= a.now then Forget(h, r.timeBacktrack, a.now) else h;
    TestIsIsNew(q, g, a.pin);
    if Test(q, a.pin) { AddIsRecord(q, g, a.pin, a.now); }
  }

  lemma {:induction false} RecordIsHistory(seqBacktrack: nat, timeBacktrack: nat, run: seq<Arrival>)
    requires seqBacktrack > 0
    requires forall a <- run :: a.now > SEQ_EXPIRED
    ensures var r := RecAfter(FreshRec(seqBacktrack, timeBacktrack), run);
            && Represents(r, HistoryAfter(seqBacktrack, timeBacktrack, run))
            && r.seqBacktrack == seqBacktrack && r.timeBacktrack == timeBacktrack
  {
    if run != [] {
      var before, a := run[..|run| - 1], run[|run| - 1];
      RecordIsHistory(seqBacktrack, timeBacktrack, before);
      CheckIsHistoryCheck(RecAfter(FreshRec(seqBacktrack, timeBacktrack), before),
                          HistoryAfter(seqBacktrack, timeBacktrack, before), a);
    }
  }

  /** The ids let through in a run. */
  function AcceptedIds(r: ReplayRec, run: seq<Arrival>): set<nat>
    requires ValidRec(r)
  {
    if run == [] then {}
    else
      var before, a := run[..|run| - 1], run[|run| - 1];
      AcceptedIds(r, before) + if Check(RecAfter(r, before), a.pin, a.now).0 then {a.pin.id} else {}
  }

  /** The largest element, 0 for the empty set. */
  predicate IsHighest(m: nat, ids: set<nat>) {
    (m == 0 || m in ids) && forall k <- ids :: 0 < k <= m
  }

  /** Where all packets carry the same time stamp, a record's id is the highest one it let through. */
  lemma {:induction false} RecordIsHighest(seqBacktrack: nat, timeBacktrack: nat, run: seq<Arrival>)
    requires forall a <- run :: a.pin.time == 0
    ensures var r := FreshRec(seqBacktrack, timeBacktrack);
            RecAfter(r, run).time == 0 && IsHighest(RecAfter(r, run).id, AcceptedIds(r, run))
  {
    if run != [] { RecordIsHighest(seqBacktrack, timeBacktrack, run[..|run| - 1]); }
  }

  /** What the record still remembers as too old when a packet arrives at `now`. */
  function Forgotten(seqBacktrack: nat, timeBacktrack: nat, run: seq<Arrival>, now: nat): nat {
    var h := HistoryAfter(seqBacktrack, timeBacktrack, run);
    (if h.lastReap + SEQ_REAP_INTERVAL <= now then Forget(h, timeBacktrack, now) else h).floor
  }

  lemma HistoryStep(h: History, seqBacktrack: nat, timeBacktrack: nat, a: Arrival)
    requires h.time == 0 && a.pin.time == 0
    requires (h.floor == 0 || h.floor in h.acceptedAt) && (timeBacktrack == 0 ==> h.floor == 0)
    ensures var (ok, g) := HistoryCheck(h, seqBacktrack, timeBacktrack, a);
            && g.time == 0 && g.acceptedAt.Keys == h.acceptedAt.Keys + (if ok then {a.pin.id} else {})
            && (g.floor == 0 || g.floor in g.acceptedAt) && (timeBacktrack == 0 ==> g.floor == 0)
  {
  }

  lemma {:induction false} HistoryIsAccepted(seqBacktrack: nat, timeBacktrack: nat, run: seq<Arrival>)
    requires seqBacktrack > 0
    requires forall a <- run :: a.now > SEQ_EXPIRED && a.pin.time == 0
    ensures var h := HistoryAfter(seqBacktrack, timeBacktrack, run);
            var ids := AcceptedIds(FreshRec(seqBacktrack, timeBacktrack), run);
            && h.time == 0 && h.acceptedAt.Keys == ids
            && (h.floor == 0 || h.floor in ids) && (timeBacktrack == 0 ==> h.floor == 0)
  {
    if run != [] {
      var before, a := run[..|run| - 1], run[|run| - 1];
      HistoryIsAccepted(seqBacktrack, timeBacktrack, before);
      RecordIsHistory(seqBacktrack, timeBacktrack, before);
      CheckIsHistoryCheck(RecAfter(FreshRec(seqBacktrack, timeBacktrack), before),
                          HistoryAfter(seqBacktrack, timeBacktrack, before), a);
      HistoryStep(HistoryAfter(seqBacktrack, timeBacktrack, before), seqBacktrack, timeBacktrack, a);
    }
  }

  /** Whether an id is new, given the ids let through so far and the highest of them. */
  predicate NewAmong(ids: set<nat>, highest: nat, seqBacktrack: nat, floor: nat, id: nat) {
    && id > 0
    && if seqBacktrack == 0 then highest == 0 || id == highest + 1
       else id !in ids && id + seqBacktrack > highest && id > floor
  }

  /**
   * What the check decides after any run, in both modes, said without the
   * record: with a window, an id passes that was not let through before, is
   * less than the window's length behind the highest, and lies above all that
   * has expired; without one, the first id passes and then only the next one.
   */
  lemma PassesIffNew(seqBacktrack: nat, timeBacktrack: nat, run: seq<Arrival>, id: nat, now: nat)
    requires now > SEQ_EXPIRED
    requires forall a <- run :: a.now > SEQ_EXPIRED && a.pin.time == 0
    ensures var r := FreshRec(seqBacktrack, timeBacktrack);
            var ids, highest := AcceptedIds(r, run), RecAfter(r, run).id;
            var floor := Forgotten(seqBacktrack, timeBacktrack, run, now);
            && IsHighest(highest, ids)
            && (Check(RecAfter(r, run), PacketIdNet(id, 0), now).0 <==> NewAmong(ids, highest, seqBacktrack, floor, id))
            && (seqBacktrack > 0 ==> (floor == 0 || floor in ids) && (timeBacktrack == 0 ==> floor == 0))
  {
    RecordIsHighest(seqBacktrack, timeBacktrack, run);
    if seqBacktrack > 0 {
      var r := RecAfter(FreshRec(seqBacktrack, timeBacktrack), run);
      RecordIsHistory(seqBacktrack, timeBacktrack, run);
      HistoryIsAccepted(seqBacktrack, timeBacktrack, run);
      CheckIsHistoryCheck(r, HistoryAfter(seqBacktrack, timeBacktrack, run), Arrival(PacketIdNet(id, 0), now));
    }
  }
}

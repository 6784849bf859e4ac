/**
 * One-to-one address translation on the client: a list of rules rewrites the
 * source and the destination address of a packet, each by the first rule that
 * matches it, and the checksums are adjusted.
 */
module ClientNat {
  import opened Octets
  import opened Checksum

  const MAX_CLIENT_NAT: nat := 64

  datatype Direction = Outgoing | Incoming

  datatype Kind = Snat | Dnat

  datatype Rule = Rule(kind: Kind, network: bv32, netmask: bv32, foreign: bv32)

  function FromNet(r: Rule, d: Direction): bv32 { if d == Incoming then r.foreign else r.network }

  function ToNet(r: Rule, d: Direction): bv32 { if d == Incoming then r.network else r.foreign }

  predicate Matches(r: Rule, d: Direction, a: bv32) { (a & r.netmask) == FromNet(r, d) }

  function Translate(r: Rule, d: Direction, a: bv32): bv32 { (a & !r.netmask) | ToNet(r, d) }

  /** How a rule matches and how it translates, whatever the bits look like. */
  type Hit = (Rule, Direction, bv32) -> bool
  type Move = (Rule, Direction, bv32) -> bv32

  /** Translates an address by the first rule that matches it. */
  function RewriteWith(hit: Hit, move: Move, rules: seq<Rule>, d: Direction, a: bv32): bv32 {
    if rules == [] then a
    else if hit(rules[0], d, a) then move(rules[0], d, a)
    else RewriteWith(hit, move, rules[1..], d, a)
  }

  function Rewrite(rules: seq<Rule>, d: Direction, a: bv32): bv32 { RewriteWith(Matches, Translate, rules, d, a) }

  /** The rules of one kind. SNAT rules apply to the source of outgoing and the destination of incoming packets. */
  function Only(kind: Kind, rules: seq<Rule>): seq<Rule> {
    if rules == [] then []
    else (if rules[0].kind == kind then [rules[0]] else []) + Only(kind, rules[1..])
  }

  function SourceKind(d: Direction): Kind { if d == Outgoing then Snat else Dnat }

  function DestKind(d: Direction): Kind { if d == Outgoing then Dnat else Snat }

  // ---------------------------------------------------------------------
  // The loop over the rules
  // ---------------------------------------------------------------------

  /** The sum of the two words of an address. */
  type PairSum = n: int | 0 <= n <= 2 * M

  type Summing = bv32 -> PairSum

  function WordSum(a: bv32): PairSum {
    ((a & 0xffff) as bv16) as int + ((a >> 16) as bv16) as int
  }

  const IPPROTO_TCP: byte := 6
  const IPPROTO_UDP: byte := 17

  const IP_HEADER: nat := 20
  const TCP_HEADER: nat := 20
  const UDP_HEADER: nat := 8

  /** The header that follows the IP header, if the packet holds all of it. */
  datatype Transport = Tcp | Udp | Other

  function TransportOf(protocol: byte, len: nat): Transport {
    if protocol == IPPROTO_TCP && len >= IP_HEADER + TCP_HEADER then Tcp
    else if protocol == IPPROTO_UDP && len >= IP_HEADER + UDP_HEADER then Udp
    else Other
  }

  /** The checksum of the IP header, and what stands in the place of those of a TCP and of a UDP header. */
  datatype Checks = Checks(ip: word, tcp: word, udp: word)

  class IpHeader {
    const protocol: byte
    const len: nat
    var saddr: bv32
    var daddr: bv32
    var checks: Checks

    constructor (protocol: byte, len: nat, saddr: bv32, daddr: bv32, checks: Checks)
      ensures this.protocol == protocol && this.len == len
      ensures this.saddr == saddr && this.daddr == daddr && this.checks == checks
    {
      this.protocol, this.len := protocol, len;
      this.saddr, this.daddr, this.checks := saddr, daddr, checks;
    }
  }

  /** What the remaining rules make of an address, which stays as it is once it has been rewritten. */
  ghost function Remaining(done: bool, hit: Hit, move: Move, kind: Kind, rules: seq<Rule>, d: Direction, a: bv32): bv32 {
    if done then a else RewriteWith(hit, move, Only(kind, rules), d, a)
  }

  lemma RemainingStep(done: bool, hit: Hit, move: Move, kind: Kind, rules: seq<Rule>, d: Direction, a: bv32)
    requires rules != []
    ensures Remaining(done, hit, move, kind, rules, d, a) ==
            if !done && rules[0].kind == kind && hit(rules[0], d, a) then move(rules[0], d, a)
            else Remaining(done, hit, move, kind, rules[1..], d, a)
  {
    var rest := Only(kind, rules[1..]);
    if rules[0].kind == kind {
      assert ([rules[0]] + rest)[1..] == rest;
    } else {
      assert [] + rest == rest;
    }
  }

  /** In a list of both kinds, the first rule of the right kind that matches is the one that counts. */
  lemma {:induction false} FirstRuleApplies(hit: Hit, move: Move, kind: Kind, rules: seq<Rule>, d: Direction, a: bv32,
                                            k: nat)
    requires k <= |rules| && (forall i :: 0 <= i < k ==> !(rules[i].kind == kind && hit(rules[i], d, a)))
    requires k < |rules| ==> rules[k].kind == kind && hit(rules[k], d, a)
    ensures RewriteWith(hit, move, Only(kind, rules), d, a) == if k < |rules| then move(rules[k], d, a) else a
  {
    if rules != [] {
      RemainingStep(false, hit, move, kind, rules, d, a);
      if k > 0 { FirstRuleApplies(hit, move, kind, rules[1..], d, a, k - 1); }
    }
  }

  /** One rule, applied to the address it is for unless that one has been rewritten already. */
  method ApplyRule(hit: Hit, move: Move, sum: Summing, rules: seq<Rule>, h: IpHeader, d: Direction,
                   sourceDone: bool, destDone: bool, accumulate: int)
    returns (sd: bool, dd: bool, acc: int)
    requires rules != []
    modifies h`saddr, h`daddr
    ensures Remaining(sd, hit, move, SourceKind(d), rules[1..], d, h.saddr) ==
            old(Remaining(sourceDone, hit, move, SourceKind(d), rules, d, h.saddr))
    ensures Remaining(dd, hit, move, DestKind(d), rules[1..], d, h.daddr) ==
            old(Remaining(destDone, hit, move, DestKind(d), rules, d, h.daddr))
    ensures acc + sum(h.saddr) + sum(h.daddr) == accumulate + old(sum(h.saddr)) + old(sum(h.daddr))
    ensures !sd && !dd ==> acc == accumulate
    ensures (sourceDone ==> sd) && (destDone ==> dd)
  {
    RemainingStep(sourceDone, hit, move, SourceKind(d), rules, d, h.saddr);
    RemainingStep(destDone, hit, move, DestKind(d), rules, d, h.daddr);
    sd, dd, acc := sourceDone, destDone, accumulate;
    var e := rules[0];
    var atDest := (e.kind == Dnat) != (d == Incoming);
    var addr := if atDest then h.daddr else h.saddr;
    var done := if atDest then destDone else sourceDone;
    if hit(e, d, addr) && !done {
      acc := acc + sum(addr);
      addr := move(e, d, addr);
      acc := acc - sum(addr);
      if atDest {
        h.daddr := addr;
        dd := true;
      } else {
        h.saddr := addr;
        sd := true;
      }
    }
  }

  /** The loop; it also adds up by how much the words of the addresses changed. */
  method RewriteAddresses(hit: Hit, move: Move, sum: Summing, entries: seq<Rule>, h: IpHeader, direction: Direction)
    returns (changed: bool, accumulate: int)
    modifies h`saddr, h`daddr
    ensures h.saddr == RewriteWith(hit, move, Only(SourceKind(direction), entries), direction, old(h.saddr))
    ensures h.daddr == RewriteWith(hit, move, Only(DestKind(direction), entries), direction, old(h.daddr))
    ensures accumulate == old(sum(h.saddr)) + old(sum(h.daddr)) - (sum(h.saddr) + sum(h.daddr))
    ensures !changed ==> accumulate == 0
  {
    ghost var source := Remaining(false, hit, move, SourceKind(direction), entries, direction, h.saddr);
    ghost var dest := Remaining(false, hit, move, DestKind(direction), entries, direction, h.daddr);
    var sourceDone, destDone := false, false;
    accumulate := 0;
    var i := 0;
    assert entries[0..] == entries;
    while i < |entries|
      invariant i <= |entries|
      invariant Remaining(sourceDone, hit, move, SourceKind(direction), entries[i..], direction, h.saddr) == source
      invariant Remaining(destDone, hit, move, DestKind(direction), entries[i..], direction, h.daddr) == dest
      invariant accumulate == old(sum(h.saddr)) + old(sum(h.daddr)) - (sum(h.saddr) + sum(h.daddr))
      invariant !sourceDone && !destDone ==> accumulate == 0
    {
      assert entries[i..][1..] == entries[i + 1..];
      sourceDone, destDone, accumulate :=
        ApplyRule(hit, move, sum, entries[i..], h, direction, sourceDone, destDone, accumulate);
      i := i + 1;
    }
    changed := sourceDone || destDone;
  }

  /** The checksums of a packet after the words of its addresses changed by `acc`. */
  predicate Adjusted(acc: int, transport: Transport, before: Checks, after: Checks) {
    && after.ip == Adjust(acc, before.ip)
    && after.tcp == (if transport == Tcp then Adjust(acc, before.tcp) else before.tcp)
    && after.udp == (if transport == Udp then Adjust(acc, before.udp) else before.udp)
  }

  method AdjustChecks(h: IpHeader, changed: bool, accumulate: int)
    requires !changed ==> accumulate == 0
    modifies h`checks
    ensures Adjusted(accumulate, TransportOf(h.protocol, h.len), old(h.checks), h.checks)
  {
    AdjustNothing(h.checks.ip);
    AdjustNothing(h.checks.tcp);
    AdjustNothing(h.checks.udp);
    if changed {
      h.checks := h.checks.(ip := Adjust(accumulate, h.checks.ip));
      if h.protocol == IPPROTO_TCP {
        if h.len >= IP_HEADER + TCP_HEADER {
          h.checks := h.checks.(tcp := Adjust(accumulate, h.checks.tcp));
        }
      } else if h.protocol == IPPROTO_UDP {
        if h.len >= IP_HEADER + UDP_HEADER {
          h.checks := h.checks.(udp := Adjust(accumulate, h.checks.udp));
        }
      }
    }
  }

  /** By how much the rules change the words of the two addresses, old ones less new ones. */
  function ChangeWith(hit: Hit, move: Move, sum: Summing, rules: seq<Rule>, d: Direction, saddr: bv32, daddr: bv32): int {
    sum(saddr) + sum(daddr)
    - (sum(RewriteWith(hit, move, Only(SourceKind(d), rules), d, saddr))
       + sum(RewriteWith(hit, move, Only(DestKind(d), rules), d, daddr)))
  }

  function Change(rules: seq<Rule>, d: Direction, saddr: bv32, daddr: bv32): int {
    ChangeWith(Matches, Translate, WordSum, rules, d, saddr, daddr)
  }

  /** One pass over all rules rewrites both addresses, each by its own first match, and adjusts the checksums. */
  method Transform(hit: Hit, move: Move, sum: Summing, entries: seq<Rule>, h: IpHeader, direction: Direction)
    modifies h
    ensures h.saddr == RewriteWith(hit, move, Only(SourceKind(direction), entries), direction, old(h.saddr))
    ensures h.daddr == RewriteWith(hit, move, Only(DestKind(direction), entries), direction, old(h.daddr))
    ensures Adjusted(ChangeWith(hit, move, sum, entries, direction, old(h.saddr), old(h.daddr)),
                     TransportOf(h.protocol, h.len), old(h.checks), h.checks)
  {
    var changed, accumulate := RewriteAddresses(hit, move, sum, entries, h, direction);
    AdjustChecks(h, changed, accumulate);
  }

  class ClientNatOptionList {
    var entries: seq<Rule>

    constructor ()
      ensures entries == []
    {
      entries := [];
    }

    /** Appends a rule unless the table is full. */
    method AddEntry(e: Rule) returns (ok: bool)
      requires |entries| <= MAX_CLIENT_NAT
      modifies this
      ensures ok == (|old(entries)| < MAX_CLIENT_NAT)
      ensures entries == old(entries) + if ok then [e] else []
      ensures |entries| <= MAX_CLIENT_NAT
    {
      if |entries| >= MAX_CLIENT_NAT {
        return false;
      }
      entries := entries + [e];
      return true;
    }

    method ClientNatTransform(h: IpHeader, direction: Direction)
      modifies h
      ensures h.saddr == Rewrite(Only(SourceKind(direction), entries), direction, old(h.saddr))
      ensures h.daddr == Rewrite(Only(DestKind(direction), entries), direction, old(h.daddr))
      ensures Adjusted(Change(entries, direction, old(h.saddr), old(h.daddr)),
                       TransportOf(h.protocol, h.len), old(h.checks), h.checks)
    {
      Transform(Matches, Translate, WordSum, entries, h, direction);
    }
  }

  /** Two packets have the same one's complement sum; one is valid exactly if the other is. */
  predicate SameSum(rest: nat, before: nat, check: word, after: nat, newCheck: word) {
    (rest + after + newCheck) % M == (rest + before + check) % M
  }

  /** Checksums stay right: whatever else they cover, the sums over the packet stay what they were. */
  lemma AdjustedKeepsSums(before: nat, after: nat, transport: Transport, was: Checks, now: Checks, rest: nat)
    requires before <= 4 * M && after <= 4 * M && Adjusted(before - after, transport, was, now)
    ensures SameSum(rest, before, was.ip, after, now.ip)
    ensures if transport == Tcp then SameSum(rest, before, was.tcp, after, now.tcp) else now.tcp == was.tcp
    ensures if transport == Udp then SameSum(rest, before, was.udp, after, now.udp) else now.udp == was.udp
  {
    AdjustKeepsSum(rest, before, after, was.ip);
    AdjustKeepsSum(rest, before, after, was.tcp);
    AdjustKeepsSum(rest, before, after, was.udp);
  }

  /** The address w.x.y.z. */
  function Address(w: bv8, x: bv8, y: bv8, z: bv8): bv32 {
    ((w as bv32) << 24) | ((x as bv32) << 16) | ((y as bv32) << 8) | (z as bv32)
  }

  lemma HalvesOf(w: bv8, x: bv8, y: bv8, z: bv8)
    ensures (Address(w, x, y, z) >> 16) as bv16 == ((w as bv16) << 8) | (x as bv16)
    ensures (Address(w, x, y, z) & 0xffff) as bv16 == ((y as bv16) << 8) | (z as bv16)
  {
  }

  lemma WordOf(w: bv8, x: bv8)
    ensures (((w as bv16) << 8) | (x as bv16)) as int == (w as int) * 256 + (x as int)
  {
  }

  lemma WordSumOf(w: bv8, x: bv8, y: bv8, z: bv8)
    ensures WordSum(Address(w, x, y, z)) == ((w as int) * 256 + (x as int)) + ((y as int) * 256 + (z as int))
  {
    HalvesOf(w, x, y, z);
    WordOf(w, x);
    WordOf(y, z);
  }

  /** Every address is made of its four bytes. */
  lemma AddressOfBytes(a: bv32)
    ensures a == Address((a >> 24) as bv8, ((a >> 16) & 0xff) as bv8, ((a >> 8) & 0xff) as bv8, (a & 0xff) as bv8)
  {
  }

  /** The sum of the two words that the four bytes of an address make up in the packet. */
  lemma WordSumIs(a: bv32)
    ensures WordSum(a) ==
            (((a >> 24) as bv8) as int * 256 + (((a >> 16) & 0xff) as bv8) as int)
            + ((((a >> 8) & 0xff) as bv8) as int * 256 + ((a & 0xff) as bv8) as int)
  {
    AddressOfBytes(a);
    WordSumOf((a >> 24) as bv8, ((a >> 16) & 0xff) as bv8, ((a >> 8) & 0xff) as bv8, (a & 0xff) as bv8);
  }

  /** The words of the addresses changed, but no one's complement sum that takes them in did. */
  predicate SumsKept(sum: Summing, rest: nat, saddr: bv32, daddr: bv32, newSaddr: bv32, newDaddr: bv32,
                     transport: Transport, was: Checks, now: Checks)
  {
    var before, after := sum(saddr) + sum(daddr), sum(newSaddr) + sum(newDaddr);
    && SameSum(rest, before, was.ip, after, now.ip)
    && (transport == Tcp ==> SameSum(rest, before, was.tcp, after, now.tcp))
    && (transport == Udp ==> SameSum(rest, before, was.udp, after, now.udp))
  }

  lemma ChangeKeepsSums(hit: Hit, move: Move, sum: Summing, rules: seq<Rule>, d: Direction, saddr: bv32, daddr: bv32,
                        newSaddr: bv32, newDaddr: bv32, transport: Transport, was: Checks, now: Checks, rest: nat)
    requires newSaddr == RewriteWith(hit, move, Only(SourceKind(d), rules), d, saddr)
    requires newDaddr == RewriteWith(hit, move, Only(DestKind(d), rules), d, daddr)
    requires Adjusted(ChangeWith(hit, move, sum, rules, d, saddr, daddr), transport, was, now)
    ensures SumsKept(sum, rest, saddr, daddr, newSaddr, newDaddr, transport, was, now)
  {
    AdjustedKeepsSums(sum(saddr) + sum(daddr), sum(newSaddr) + sum(newDaddr), transport, was, now, rest);
  }

  /**
   * A translated packet has the same one's complement sums as before, over its
   * header and over what a TCP or UDP checksum covers, whatever the other words
   * of the packet add up to.
   */
  method TranslateKeepsSums(list: ClientNatOptionList, h: IpHeader, direction: Direction, ghost rest: nat)
    modifies h
    ensures SumsKept(WordSum, rest, old(h.saddr), old(h.daddr), h.saddr, h.daddr,
                     TransportOf(h.protocol, h.len), old(h.checks), h.checks)
  {
    list.ClientNatTransform(h, direction);
    ChangeKeepsSums(Matches, Translate, WordSum, list.entries, direction, old(h.saddr), old(h.daddr), h.saddr, h.daddr,
                    TransportOf(h.protocol, h.len), old(h.checks), h.checks, rest);
  }

  // ---------------------------------------------------------------------
  // Packets without a checksum
  // ---------------------------------------------------------------------

  /** The words of the addresses did not shrink, and grew by a multiple of 65535. */
  predicate Neutral(change: int) { change <= 0 && change % M == 0 }

  lemma ZeroKeptIff(change: int, was: Checks, now: Checks)
    requires InRange(change) && was.udp == 0 && Adjusted(change, Udp, was, now)
    ensures now.udp == 0 <==> Neutral(change)
  {
    AdjustedIsZeroIff(change, 0);
  }

  lemma ChangeInRange(hit: Hit, move: Move, sum: Summing, rules: seq<Rule>, d: Direction, saddr: bv32, daddr: bv32)
    ensures InRange(ChangeWith(hit, move, sum, rules, d, saddr, daddr))
  {
  }

  /**
   * A UDP packet whose checksum field is zero carries no checksum (RFC 768).
   * It still carries none after the translation exactly when the change of the
   * addresses is neutral.
   */
  method TranslateWithoutChecksum(list: ClientNatOptionList, h: IpHeader, direction: Direction)
    requires TransportOf(h.protocol, h.len) == Udp && h.checks.udp == 0
    modifies h
    ensures h.checks.udp == 0 <==> Neutral(Change(list.entries, direction, old(h.saddr), old(h.daddr)))
  {
    list.ClientNatTransform(h, direction);
    ChangeInRange(Matches, Translate, WordSum, list.entries, direction, old(h.saddr), old(h.daddr));
    ZeroKeptIff(Change(list.entries, direction, old(h.saddr), old(h.daddr)), old(h.checks), h.checks);
  }

  lemma OneRule(r: Rule, kind: Kind, d: Direction, a: bv32)
    ensures Rewrite(Only(kind, [r]), d, a) == if r.kind == kind && Matches(r, d, a) then Translate(r, d, a) else a
  {
    RemainingStep(false, Matches, Translate, kind, [r], d, a);
    assert [r][1..] == [];
  }

  lemma TenToEleven(r: Rule, a: bv32)
    requires r == Rule(Snat, 0x0A00_0000, 0xFF00_0000, 0x0B00_0000) && a == 0x0A00_0001
    ensures Matches(r, Outgoing, a) && Translate(r, Outgoing, a) == 0x0B00_0001
    ensures WordSum(a) == 0x0A01 && WordSum(0x0B00_0001) == 0x0B01
  {
  }

  /** With one rule from 10.0.0.0/8 to 11.0.0.0/8, no packet from 10.0.0.1 goes out without a UDP checksum. */
  method MissingChecksumIsFilledIn(daddr: bv32, ip: word, tcp: word, len: nat) returns (check: word)
    requires len >= IP_HEADER + UDP_HEADER
    ensures check == 65279
  {
    var r := Rule(Snat, 0x0A00_0000, 0xFF00_0000, 0x0B00_0000);
    var list := new ClientNatOptionList();
    var added := list.AddEntry(r);
    assert list.entries == [r];
    var h := new IpHeader(IPPROTO_UDP, len, 0x0A00_0001, daddr, Checks(ip, tcp, 0));
    TenToEleven(r, h.saddr);
    OneRule(r, Snat, Outgoing, h.saddr);
    OneRule(r, Dnat, Outgoing, daddr);
    ZeroIsNotKept();
    list.ClientNatTransform(h, Outgoing);
    return h.checks.udp;
  }

  // ---------------------------------------------------------------------
  // Translating back
  // ---------------------------------------------------------------------

  /** Each rule undoes itself, and what it translates to lies on its other side. */
  ghost predicate Invertible(hit: Hit, move: Move, r: Rule) {
    && (forall a :: hit(r, Outgoing, a) ==> move(r, Incoming, move(r, Outgoing, a)) == a)
    && (forall a, d :: hit(r, if d == Outgoing then Incoming else Outgoing, move(r, d, a)))
  }

  /** No rule in front of the first that matches `a` (no rule at all, if none does) has b in its foreign network. */
  predicate UnclaimedWith(hit: Hit, rules: seq<Rule>, a: bv32, b: bv32) {
    || rules == []
    || hit(rules[0], Outgoing, a)
    || (!hit(rules[0], Incoming, b) && UnclaimedWith(hit, rules[1..], a, b))
  }

  /** Translating an address and translating it back gives the same address exactly when it is unclaimed. */
  lemma {:induction false} RewriteBackWith(hit: Hit, move: Move, rules: seq<Rule>, a: bv32)
    requires forall r <- rules :: Invertible(hit, move, r)
    ensures var b := RewriteWith(hit, move, rules, Outgoing, a);
            RewriteWith(hit, move, rules, Incoming, b) == a <==> UnclaimedWith(hit, rules, a, b)
  {
    if rules != [] {
      assert Invertible(hit, move, rules[0]);
      if !hit(rules[0], Outgoing, a) {
        var b := RewriteWith(hit, move, rules[1..], Outgoing, a);
        assert hit(rules[0], Outgoing, move(rules[0], Incoming, b));
        RewriteBackWith(hit, move, rules[1..], a);
      }
    }
  }

  /** Two foreign networks share no address. */
  ghost predicate DisjointWith(hit: Hit, r: Rule, s: Rule) {
    forall b :: !(hit(r, Incoming, b) && hit(s, Incoming, b))
  }

  predicate NoMatch(hit: Hit, rules: seq<Rule>, d: Direction, a: bv32) { forall r <- rules :: !hit(r, d, a) }

  /** An address is left alone, or it lands in the foreign network of some rule. */
  lemma {:induction false} RewriteLands(hit: Hit, move: Move, rules: seq<Rule>, a: bv32)
    requires forall r <- rules :: Invertible(hit, move, r)
    ensures var b := RewriteWith(hit, move, rules, Outgoing, a);
            if NoMatch(hit, rules, Outgoing, a) then b == a else exists k :: 0 <= k < |rules| && hit(rules[k], Incoming, b)
  {
    if rules != [] {
      assert rules == [rules[0]] + rules[1..];
      assert Invertible(hit, move, rules[0]);
      if !hit(rules[0], Outgoing, a) {
        RewriteLands(hit, move, rules[1..], a);
        var b := RewriteWith(hit, move, rules[1..], Outgoing, a);
        if k :| 0 <= k < |rules[1..]| && hit(rules[1..][k], Incoming, b) {
          assert hit(rules[k + 1], Incoming, b);
        }
      }
    }
  }

  lemma {:induction false} DisjointIsUnclaimed(hit: Hit, move: Move, rules: seq<Rule>, a: bv32)
    requires forall r <- rules :: Invertible(hit, move, r)
    requires forall i, j :: 0 <= i < j < |rules| ==> DisjointWith(hit, rules[i], rules[j])
    requires NoMatch(hit, rules, Outgoing, a) ==> NoMatch(hit, rules, Incoming, a)
    ensures UnclaimedWith(hit, rules, a, RewriteWith(hit, move, rules, Outgoing, a))
  {
    if rules != [] && !hit(rules[0], Outgoing, a) {
      var rest := rules[1..];
      var b := RewriteWith(hit, move, rest, Outgoing, a);
      assert rules == [rules[0]] + rest;
      RewriteLands(hit, move, rest, a);
      DisjointIsUnclaimed(hit, move, rest, a);
      if k :| 0 <= k < |rest| && hit(rest[k], Incoming, b) {
        assert DisjointWith(hit, rules[0], rules[k + 1]);
      }
    }
  }

  // ---------------------------------------------------------------------
  // Networks and masks
  // ---------------------------------------------------------------------

  /** Networks without bits outside their mask. */
  predicate HostFree(rules: seq<Rule>) {
    forall r <- rules :: (r.network & !r.netmask) == 0 && (r.foreign & !r.netmask) == 0
  }

  /** Network bits are those of the other network, and host bits stay. */
  lemma TranslateBits(r: Rule, d: Direction, a: bv32)
    requires (ToNet(r, d) & !r.netmask) == 0
    ensures (Translate(r, d, a) & r.netmask) == ToNet(r, d) && (Translate(r, d, a) & !r.netmask) == (a & !r.netmask)
  {
  }

  lemma TranslateBack(r: Rule, a: bv32)
    requires (r.foreign & !r.netmask) == 0 && Matches(r, Outgoing, a)
    ensures Translate(r, Incoming, Translate(r, Outgoing, a)) == a
  {
  }

  lemma HostFreeInvertible(r: Rule)
    requires (r.network & !r.netmask) == 0 && (r.foreign & !r.netmask) == 0
    ensures Invertible(Matches, Translate, r)
  {
    forall a | Matches(r, Outgoing, a)
      ensures Translate(r, Incoming, Translate(r, Outgoing, a)) == a
    {
      TranslateBack(r, a);
    }
    forall a, d
      ensures Matches(r, if d == Outgoing then Incoming else Outgoing, Translate(r, d, a))
    {
      TranslateBits(r, d, a);
    }
  }

  /** The address is restored: no rule in front of the one it was translated by claims the translation. */
  predicate Unclaimed(rules: seq<Rule>, a: bv32) {
    UnclaimedWith(Matches, rules, a, Rewrite(rules, Outgoing, a))
  }

  lemma RewriteBack(rules: seq<Rule>, a: bv32)
    requires HostFree(rules)
    ensures Rewrite(rules, Incoming, Rewrite(rules, Outgoing, a)) == a <==> Unclaimed(rules, a)
  {
    forall r <- rules ensures Invertible(Matches, Translate, r) { HostFreeInvertible(r); }
    RewriteBackWith(Matches, Translate, rules, a);
  }

  lemma ClaimedWith(hit: Hit, move: Move, r: Rule, s: Rule, a: bv32)
    requires Invertible(hit, move, r) && Invertible(hit, move, s)
    requires !hit(r, Outgoing, a) && hit(s, Outgoing, a) && hit(r, Incoming, move(s, Outgoing, a))
    ensures var rules := [r, s];
            RewriteWith(hit, move, rules, Incoming, RewriteWith(hit, move, rules, Outgoing, a)) != a
  {
    assert [r, s][1..] == [s];
    assert RewriteWith(hit, move, [s], Outgoing, a) == move(s, Outgoing, a);
    RewriteBackWith(hit, move, [r, s], a);
  }

  /** 12.0.0.1 goes out through the second of two rules for 11.0.0.0/8 and comes back through the first. */
  lemma SharedForeignNetworkIsLost(r: Rule, s: Rule)
    requires r == Rule(Snat, 0x0A00_0000, 0xFF00_0000, 0x0B00_0000)
    requires s == Rule(Snat, 0x0C00_0000, 0xFF00_0000, 0x0B00_0000)
    ensures Rewrite([r, s], Incoming, Rewrite([r, s], Outgoing, 0x0C00_0001)) != 0x0C00_0001
  {
    HostFreeInvertible(r);
    HostFreeInvertible(s);
    ClaimedWith(Matches, Translate, r, s, 0x0C00_0001);
  }

  /** Where the foreign networks are disjoint and hold no untranslated address, everything comes back. */
  lemma DisjointNetworksComeBack(rules: seq<Rule>, a: bv32)
    requires HostFree(rules)
    requires forall i, j :: 0 <= i < j < |rules| ==> DisjointWith(Matches, rules[i], rules[j])
    requires NoMatch(Matches, rules, Outgoing, a) ==> NoMatch(Matches, rules, Incoming, a)
    ensures Rewrite(rules, Incoming, Rewrite(rules, Outgoing, a)) == a
  {
    forall r <- rules ensures Invertible(Matches, Translate, r) { HostFreeInvertible(r); }
    DisjointIsUnclaimed(Matches, Translate, rules, a);
    RewriteBackWith(Matches, Translate, rules, a);
  }

  lemma {:induction false} OnlyHostFree(kind: Kind, rules: seq<Rule>)
    requires HostFree(rules)
    ensures HostFree(Only(kind, rules))
  {
    if rules != [] { OnlyHostFree(kind, rules[1..]); }
  }

  method TranslatePacket(list: ClientNatOptionList, direction: Direction,
                         protocol: byte, len: nat, saddr: bv32, daddr: bv32, checks: Checks)
    returns (from: bv32, to: bv32)
    ensures from == Rewrite(Only(SourceKind(direction), list.entries), direction, saddr)
    ensures to == Rewrite(Only(DestKind(direction), list.entries), direction, daddr)
  {
    var h := new IpHeader(protocol, len, saddr, daddr, checks);
    list.ClientNatTransform(h, direction);
    return h.saddr, h.daddr;
  }

  /** A packet goes out, and its mirrored reply comes in: exactly the unclaimed addresses are restored. */
  method RoundTrip(list: ClientNatOptionList, protocol: byte, len: nat, saddr: bv32, daddr: bv32, checks: Checks)
    returns (replyFrom: bv32, replyTo: bv32)
    requires HostFree(list.entries)
    ensures replyTo == saddr <==> Unclaimed(Only(Snat, list.entries), saddr)
    ensures replyFrom == daddr <==> Unclaimed(Only(Dnat, list.entries), daddr)
  {
    OnlyHostFree(Snat, list.entries);
    OnlyHostFree(Dnat, list.entries);
    RewriteBack(Only(Snat, list.entries), saddr);
    RewriteBack(Only(Dnat, list.entries), daddr);
    var from, to := TranslatePacket(list, Outgoing, protocol, len, saddr, daddr, checks);
    replyFrom, replyTo := TranslatePacket(list, Incoming, protocol, len, to, from, checks);
  }

  /** The foreign networks of one kind of rules are disjoint and hold no address that these rules leave alone. */
  ghost predicate Separate(rules: seq<Rule>, a: bv32) {
    && (forall i, j :: 0 <= i < j < |rules| ==> DisjointWith(Matches, rules[i], rules[j]))
    && (NoMatch(Matches, rules, Outgoing, a) ==> NoMatch(Matches, rules, Incoming, a))
  }

  /** Where that holds for both kinds of rules, the reply to a packet comes in with the packet's own addresses. */
  method SeparateRoundTrip(list: ClientNatOptionList, protocol: byte, len: nat, saddr: bv32, daddr: bv32, checks: Checks)
    returns (replyFrom: bv32, replyTo: bv32)
    requires HostFree(list.entries)
    requires Separate(Only(Snat, list.entries), saddr) && Separate(Only(Dnat, list.entries), daddr)
    ensures replyTo == saddr && replyFrom == daddr
  {
    OnlyHostFree(Snat, list.entries);
    OnlyHostFree(Dnat, list.entries);
    SeparateIsUnclaimed(Only(Snat, list.entries), saddr);
    SeparateIsUnclaimed(Only(Dnat, list.entries), daddr);
    replyFrom, replyTo := RoundTrip(list, protocol, len, saddr, daddr, checks);
  }

  lemma SeparateIsUnclaimed(rules: seq<Rule>, a: bv32)
    requires HostFree(rules) && Separate(rules, a)
    ensures Unclaimed(rules, a)
  {
    DisjointNetworksComeBack(rules, a);
    RewriteBack(rules, a);
  }
}

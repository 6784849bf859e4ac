/**
 * The options area of a DHCP message (section 2 of RFC 2132): reading the
 * message type, and removing every router option in place.
 */
module DhcpOptions {
  import opened Octets

  const DHCP_PAD: byte := 0
  const DHCP_ROUTER: byte := 3
  const DHCP_MSG_TYPE: byte := 53
  const DHCP_END: byte := 255

  /** A complete option: its code and its data. */
  datatype DhcpOption = DhcpOption(code: byte, data: seq<byte>)

  /** Code, length byte and as many bytes as the length byte says. */
  function Span(s: seq<byte>): (n: nat)
    requires |s| >= 2
    ensures 2 <= n < 258
  {
    var len: nat := s[1];
    len + 2
  }

  /** An area that begins with a code, a length and as many bytes as the length says. */
  predicate Complete(s: seq<byte>) {
    |s| >= 2 && s[0] != DHCP_PAD && s[0] != DHCP_END && Span(s) <= |s|
  }

  function First(s: seq<byte>): DhcpOption
    requires Complete(s)
  {
    DhcpOption(s[0], s[2..Span(s)])
  }

  /** The complete options up to the end marker or up to a truncated option. */
  function Parse(s: seq<byte>): seq<DhcpOption> {
    if s == [] then []
    else if s[0] == DHCP_PAD then Parse(s[1..])
    else if Complete(s) then [First(s)] + Parse(s[Span(s)..])
    else []
  }

  /** What parsing leaves: nothing, the end marker with all that follows, or a truncated option. */
  function Rest(s: seq<byte>): seq<byte> {
    if s == [] then []
    else if s[0] == DHCP_PAD then Rest(s[1..])
    else if Complete(s) then Rest(s[Span(s)..])
    else s
  }

  function Serialize(options: seq<DhcpOption>): seq<byte>
    requires forall o <- options :: |o.data| < 256
  {
    if options == [] then [] else [options[0].code, |options[0].data|] + options[0].data + Serialize(options[1..])
  }

  /** Parsing reads back what was serialized, whatever stands behind the end marker. */
  lemma {:induction false} ParseOfSerialize(options: seq<DhcpOption>, tail: seq<byte>)
    requires forall o <- options :: |o.data| < 256 && o.code != DHCP_PAD && o.code != DHCP_END
    ensures Parse(Serialize(options) + [DHCP_END] + tail) == options
    ensures Rest(Serialize(options) + [DHCP_END] + tail) == [DHCP_END] + tail
  {
    var end := [DHCP_END] + tail;
    assert Serialize(options) + [DHCP_END] + tail == Serialize(options) + end;
    if options == [] {
      assert [] + end == end;
    } else {
      var o, more := options[0], Serialize(options[1..]);
      var s := [o.code, |o.data|] + o.data + (more + end);
      assert Serialize(options) + end == s;
      ParseOfSerialize(options[1..], tail);
      assert more + [DHCP_END] + tail == more + end;
      assert s[2..Span(s)] == o.data && s[Span(s)..] == more + end;
    }
  }

  // ---------------------------------------------------------------------
  // Message type
  // ---------------------------------------------------------------------

  /** The message type in a list of options, -1 if the first such option does not hold exactly one byte. */
  function TypeIn(options: seq<DhcpOption>): int {
    if options == [] then -1
    else if options[0].code != DHCP_MSG_TYPE then TypeIn(options[1..])
    else if |options[0].data| == 1 then options[0].data[0]
    else -1
  }

  predicate HasType(options: seq<DhcpOption>) { exists o <- options :: o.code == DHCP_MSG_TYPE }

  /** A single pass over the area; the type it finds is the one in the parsed options. */
  method GetDhcpMessageType(p: seq<byte>) returns (r: int)
    ensures r == TypeIn(Parse(p))
  {
    var i := 0;
    while i < |p|
      invariant i >= 0
      invariant TypeIn(Parse(p)) == if i <= |p| then TypeIn(Parse(p[i..])) else -1
    {
      ghost var s := p[i..];
      var kind := p[i];
      var room := |p| - i;
      if kind == DHCP_END {
        return -1;
      } else if kind == DHCP_PAD {
        assert s[1..] == p[i + 1..];
      } else if kind == DHCP_MSG_TYPE {
        if room >= 3 {
          if p[i + 1] == 1 {
            return p[i + 2];
          }
        }
        return -1;
      } else {
        if room >= 2 {
          var len: nat := p[i + 1];
          assert len + 2 <= room ==> s[Span(s)..] == p[i + len + 2..];
          i := i + len + 1;
        }
      }
      i := i + 1;
    }
    return -1;
  }

  /** Options that can be serialized. */
  predicate Writable(options: seq<DhcpOption>) {
    forall o <- options :: |o.data| < 256 && o.code != DHCP_PAD && o.code != DHCP_END
  }

  lemma {:induction false} FirstTypeCounts(options: seq<DhcpOption>, k: nat)
    requires k <= |options| && (forall i :: 0 <= i < k ==> options[i].code != 53)
    requires k < |options| ==> options[k].code == 53
    ensures TypeIn(options) == if k < |options| && |options[k].data| == 1 then options[k].data[0] else -1
  {
    if k > 0 { FirstTypeCounts(options[1..], k - 1); }
  }

  /** For any list of options on the wire, the byte of the first one with code 53, if it is one byte. */
  method MessageTypeOf(p: seq<byte>, ghost options: seq<DhcpOption>, ghost tail: seq<byte>, ghost k: nat) returns (r: int)
    requires Writable(options) && p == Serialize(options) + [255] + tail
    requires k <= |options| && (forall i :: 0 <= i < k ==> options[i].code != 53)
    requires k < |options| ==> options[k].code == 53
    ensures r == if k < |options| && |options[k].data| == 1 then options[k].data[0] else -1
  {
    ParseOfSerialize(options, tail);
    FirstTypeCounts(options, k);
    r := GetDhcpMessageType(p);
  }

  // ---------------------------------------------------------------------
  // Removal of the router options
  // ---------------------------------------------------------------------

  function Pads(n: nat): (z: seq<byte>)
    ensures |z| == n
  {
    seq(n, _ => DHCP_PAD)
  }

  function NonZero(s: seq<byte>): nat {
    if s == [] then 0 else (if s[0] == 0 then 0 else 1) + NonZero(s[1..])
  }

  predicate StartsWithRouter(s: seq<byte>) { Complete(s) && s[0] == DHCP_ROUTER }

  /** The area once its first option has been overwritten with all that follows it. */
  function Shifted(s: seq<byte>): seq<byte>
    requires Complete(s)
  {
    s[Span(s)..] + Pads(Span(s))
  }

  lemma {:induction false} NonZeroConcat(a: seq<byte>, b: seq<byte>)
    ensures NonZero(a + b) == NonZero(a) + NonZero(b)
  {
    if a == [] {
      assert a + b == b;
    } else {
      NonZeroConcat(a[1..], b);
      assert (a + b)[1..] == a[1..] + b;
    }
  }

  lemma {:induction false} NonZeroPads(n: nat)
    ensures NonZero(Pads(n)) == 0
  {
    if n > 0 {
      NonZeroPads(n - 1);
      assert Pads(n)[1..] == Pads(n - 1);
    }
  }

  /** Removing an option takes at least its code away, so there are fewer nonzero bytes left. */
  lemma ShiftedShrinks(s: seq<byte>)
    requires Complete(s)
    ensures NonZero(Shifted(s)) < NonZero(s)
  {
    var n := Span(s);
    NonZeroConcat(s[n..], Pads(n));
    NonZeroPads(n);
    NonZeroConcat(s[..n], s[n..]);
    assert s == s[..n] + s[n..];
  }

  lemma {:induction false} NonZeroDrop(s: seq<byte>, n: nat)
    requires n <= |s|
    ensures NonZero(s[n..]) <= NonZero(s)
  {
    NonZeroConcat(s[..n], s[n..]);
    assert s == s[..n] + s[n..];
  }

  /** The area after the removal. A removed option makes room that is padded at the very end. */
  function Extract(s: seq<byte>): (r: seq<byte>)
    ensures |r| == |s|
    decreases NonZero(s), |s|
  {
    if s == [] then []
    else if s[0] == DHCP_PAD then [DHCP_PAD] + Extract(s[1..])
    else if !Complete(s) then s
    else if s[0] == DHCP_ROUTER then ShiftedShrinks(s); Extract(Shifted(s))
    else NonZeroDrop(s, Span(s)); s[..Span(s)] + Extract(s[Span(s)..])
  }

  /** The address that a router option contributes, 0 if it holds no whole number of addresses. */
  function AddressOf(o: DhcpOption): nat {
    if o.code == DHCP_ROUTER && |o.data| >= 4 && |o.data| % 4 == 0 then FromBigEndian(o.data[..4]) else 0
  }

  /** The first router address that is not 0.0.0.0. */
  function AddressIn(options: seq<DhcpOption>): nat {
    if options == [] then 0
    else if AddressOf(options[0]) != 0 then AddressOf(options[0])
    else AddressIn(options[1..])
  }

  /** How many bytes the router options among these take up. */
  function RouterBytes(options: seq<DhcpOption>): nat {
    if options == [] then 0
    else (if options[0].code == DHCP_ROUTER then |options[0].data| + 2 else 0) + RouterBytes(options[1..])
  }

  function NonRouters(options: seq<DhcpOption>): seq<DhcpOption> {
    if options == [] then []
    else (if options[0].code == DHCP_ROUTER then [] else [options[0]]) + NonRouters(options[1..])
  }

  /**
   * The options the removal comes across: those of the area and, where the
   * area ends in a truncated option, the one that it turns into once the room
   * of the removed options is padded.
   */
  function Seen(s: seq<byte>): seq<DhcpOption> { SeenOf(Parse(s), Rest(s)) }

  function SeenOf(options: seq<DhcpOption>, rest: seq<byte>): seq<DhcpOption> {
    options + Parse(rest + Pads(RouterBytes(options)))
  }

  // ---------------------------------------------------------------------
  // What the removal does to the options
  // ---------------------------------------------------------------------

  lemma {:induction false} ParsePads(n: nat)
    ensures Parse(Pads(n)) == [] && Rest(Pads(n)) == []
  {
    if n > 0 {
      ParsePads(n - 1);
      assert Pads(n)[1..] == Pads(n - 1);
    }
  }

  lemma Associative<T>(a: seq<T>, b: seq<T>, c: seq<T>)
    ensures a + (b + c) == (a + b) + c
  {
  }

  /** Parsing more bytes first gives the same options and then goes on with what was left. */
  lemma {:induction false} ParseMore(s: seq<byte>, more: seq<byte>)
    ensures Parse(s + more) == Parse(s) + Parse(Rest(s) + more)
    ensures Rest(s + more) == Rest(Rest(s) + more)
  {
    if s == [] {
      assert s + more == more;
    } else if s[0] == DHCP_PAD {
      assert (s + more)[1..] == s[1..] + more;
      ParseMore(s[1..], more);
    } else if Complete(s) {
      assert (s + more)[Span(s)..] == s[Span(s)..] + more && First(s + more) == First(s);
      ParseMore(s[Span(s)..], more);
      Associative([First(s)], Parse(s[Span(s)..]), Parse(Rest(s) + more));
    }
  }

  /** Nothing that parsing leaves holds a complete option, nor does it start with a pad. */
  lemma {:induction false} RestIsStuck(s: seq<byte>)
    ensures var r := Rest(s);
            r == [] || (r[0] != DHCP_PAD && !Complete(r))
    ensures Parse(Rest(s)) == [] && Rest(Rest(s)) == Rest(s)
  {
    if s != [] {
      if s[0] == DHCP_PAD {
        RestIsStuck(s[1..]);
      } else if Complete(s) {
        RestIsStuck(s[Span(s)..]);
      }
    }
  }

  /** Padding completes at most one option of such a rest, and then it is used up. */
  lemma PaddedRest(r: seq<byte>, n: nat)
    requires r == [] || (r[0] != DHCP_PAD && !Complete(r))
    ensures Parse(r + Pads(n)) == [] || Rest(r + Pads(n)) == []
    ensures |Parse(r + Pads(n))| <= 1
  {
    var s := r + Pads(n);
    if r == [] {
      assert s == Pads(n);
      ParsePads(n);
    } else if Complete(s) {
      assert s[Span(s)..] == Pads(|s| - Span(s));
      ParsePads(|s| - Span(s));
    }
  }

  lemma {:induction false} RouterBytesConcat(a: seq<DhcpOption>, b: seq<DhcpOption>)
    ensures RouterBytes(a + b) == RouterBytes(a) + RouterBytes(b)
  {
    if a == [] {
      assert a + b == b;
    } else {
      RouterBytesConcat(a[1..], b);
      assert (a + b)[1..] == a[1..] + b;
    }
  }

  lemma PadsConcat(m: nat, n: nat)
    ensures Pads(m) + Pads(n) == Pads(m + n)
  {
  }

  lemma SeenAfterPad(s: seq<byte>)
    requires s != [] && s[0] == DHCP_PAD
    ensures Seen(s) == Seen(s[1..])
  {
  }

  lemma SeenAfterOption(s: seq<byte>)
    requires Complete(s) && s[0] != DHCP_ROUTER
    ensures Seen(s) == [First(s)] + Seen(s[Span(s)..])
  {
  }

  /** Where an option was completed by padding, more padding changes nothing. */
  lemma PaddedTwice(r: seq<byte>, m: nat, j: nat)
    requires r == [] || (r[0] != DHCP_PAD && !Complete(r))
    ensures var y := r + Pads(m);
            Parse(r + Pads(m + j)) == Parse(y) + Parse(Rest(y) + Pads(j + RouterBytes(Parse(y))))
  {
    var y := r + Pads(m);
    PadsConcat(m, j);
    assert r + Pads(m + j) == y + Pads(j);
    ParseMore(y, Pads(j));
    PaddedRest(r, m);
    if Parse(y) != [] {
      OnlyPads(j);
      OnlyPads(j + RouterBytes(Parse(y)));
    }
  }

  lemma OnlyPads(n: nat)
    ensures Parse([] + Pads(n)) == []
  {
    assert [] + Pads(n) == Pads(n);
    ParsePads(n);
  }

  /** What is seen from the options `p` and `q` on, when `z` is what parsing left. */
  lemma SeenBehind(p: seq<DhcpOption>, q: seq<DhcpOption>, z: seq<byte>, all: seq<DhcpOption>)
    requires all == q + Parse(z + Pads(RouterBytes(p) + RouterBytes(q)))
    ensures SeenOf(p + q, z) == p + all
  {
    RouterBytesConcat(p, q);
    Associative(p, q, Parse(z + Pads(RouterBytes(p) + RouterBytes(q))));
  }

  /** Padding an area adds the options `q` and leaves `z`; more padding goes on from there. */
  lemma ParsePadded(x: seq<byte>, m: nat, j: nat) returns (q: seq<DhcpOption>, z: seq<byte>)
    ensures Parse(x + Pads(m)) == Parse(x) + q && Rest(x + Pads(m)) == z
    ensures Parse(Rest(x) + Pads(m + j)) == q + Parse(z + Pads(j + RouterBytes(q)))
  {
    var y := Rest(x) + Pads(m);
    q, z := Parse(y), Rest(y);
    ParseMore(x, Pads(m));
    RestIsStuck(x);
    PaddedTwice(Rest(x), m, j);
  }

  lemma SeenFromParts(s: seq<byte>, p: seq<DhcpOption>, q: seq<DhcpOption>, z: seq<byte>, all: seq<DhcpOption>)
    requires Parse(s) == p + q && Rest(s) == z && all == q + Parse(z + Pads(RouterBytes(p) + RouterBytes(q)))
    ensures Seen(s) == p + all
  {
    SeenBehind(p, q, z, all);
  }

  lemma SeenPadded(x: seq<byte>, m: nat, all: seq<DhcpOption>)
    requires all == Parse(Rest(x) + Pads(m + RouterBytes(Parse(x))))
    ensures Seen(x + Pads(m)) == Parse(x) + all
  {
    var q, z := ParsePadded(x, m, RouterBytes(Parse(x)));
    SeenFromParts(x + Pads(m), Parse(x), q, z, all);
  }

  /** What is seen of an area that begins with a router option. */
  lemma SeenOfRouter(s: seq<byte>, x: seq<byte>, all: seq<DhcpOption>)
    requires StartsWithRouter(s) && x == s[Span(s)..]
    requires all == Parse(Rest(x) + Pads(Span(s) + RouterBytes(Parse(x))))
    ensures Seen(s) == [First(s)] + (Parse(x) + all)
  {
    assert ([First(s)] + Parse(x))[1..] == Parse(x);
    Associative([First(s)], Parse(x), all);
  }

  /** Once a router option is gone, what is left to see is what was to be seen behind it. */
  lemma SeenAfterRouter(s: seq<byte>)
    requires StartsWithRouter(s)
    ensures Seen(s) == [First(s)] + Seen(Shifted(s))
  {
    var x, m := s[Span(s)..], Span(s);
    var all := Parse(Rest(x) + Pads(m + RouterBytes(Parse(x))));
    SeenPadded(x, m, all);
    SeenOfRouter(s, x, all);
  }

  lemma SeenAtEnd(s: seq<byte>)
    requires s != [] && s[0] != DHCP_PAD && !Complete(s)
    ensures Seen(s) == []
  {
    assert s + Pads(0) == s;
  }

  lemma SeenNothing()
    ensures Seen([]) == []
  {
  }

  /** After the removal the area holds exactly the other options that were seen, in their order. */
  lemma {:induction false} ExtractKeepsOthers(s: seq<byte>)
    ensures Parse(Extract(s)) == NonRouters(Seen(s))
    decreases NonZero(s), |s|
  {
    if s == [] {
    } else if s[0] == DHCP_PAD {
      SeenAfterPad(s);
      ExtractKeepsOthers(s[1..]);
    } else if !Complete(s) {
      SeenAtEnd(s);
    } else if s[0] == DHCP_ROUTER {
      ShiftedShrinks(s);
      SeenAfterRouter(s);
      ExtractKeepsOthers(Shifted(s));
    } else {
      NonZeroDrop(s, Span(s));
      SeenAfterOption(s);
      ExtractKeepsOthers(s[Span(s)..]);
      var e := Extract(s);
      assert First(e) == First(s) && e[Span(e)..] == Extract(s[Span(s)..]);
    }
  }

  /** The area ends where the options do, or has an end marker. */
  predicate WellFormed(s: seq<byte>) { Rest(s) == [] || Rest(s)[0] == DHCP_END }

  /** In a well-formed area padding brings no further option to light. */
  lemma WellFormedSeen(s: seq<byte>)
    requires WellFormed(s)
    ensures Seen(s) == Parse(s)
  {
    var n := RouterBytes(Parse(s));
    if Rest(s) == [] { OnlyPads(n); }
  }

  /** Padding adds an option to those that are kept exactly when it completes one that is no router option. */
  lemma NonRoutersOfPadded(r: seq<byte>, n: nat)
    requires r == [] || (r[0] != DHCP_PAD && !Complete(r))
    ensures NonRouters(Parse(r + Pads(n))) == [] <==>
            r == [] || r[0] == DHCP_ROUTER || !Complete(r + Pads(n))
  {
    var s := r + Pads(n);
    if r == [] {
      OnlyPads(n);
    } else if Complete(s) {
      assert s[Span(s)..] == Pads(|s| - Span(s));
      ParsePads(|s| - Span(s));
      assert Parse(s) == [First(s)] && [First(s)][1..] == [];
    }
  }

  lemma {:induction false} NonRoutersConcat(a: seq<DhcpOption>, b: seq<DhcpOption>)
    ensures NonRouters(a + b) == NonRouters(a) + NonRouters(b)
  {
    if a == [] {
      assert a + b == b;
    } else {
      NonRoutersConcat(a[1..], b);
      assert (a + b)[1..] == a[1..] + b;
      Associative(if a[0].code == DHCP_ROUTER then [] else [a[0]], NonRouters(a[1..]), NonRouters(b));
    }
  }

  /**
   * Exactly the other options of the area are kept, neither more nor fewer, if
   * and only if the area does not end in a truncated option of another kind
   * that the room of the removed router options is large enough to complete.
   */
  lemma KeepsExactlyIff(s: seq<byte>)
    ensures NonRouters(Parse(s)) <= Parse(Extract(s))
    ensures Parse(Extract(s)) == NonRouters(Parse(s)) <==>
            || Rest(s) == []
            || Rest(s)[0] == DHCP_ROUTER
            || !Complete(Rest(s) + Pads(RouterBytes(Parse(s))))
  {
    var more := Parse(Rest(s) + Pads(RouterBytes(Parse(s))));
    ExtractKeepsOthers(s);
    NonRoutersConcat(Parse(s), more);
    RestIsStuck(s);
    NonRoutersOfPadded(Rest(s), RouterBytes(Parse(s)));
  }

  /** A lone option code behind an empty router option becomes an empty option of that code. */
  lemma PaddingCompletesOption()
    ensures Parse([DHCP_ROUTER, 0, 12]) == [DhcpOption(DHCP_ROUTER, [])]
    ensures Parse(Extract([DHCP_ROUTER, 0, 12])) == [DhcpOption(12, [])]
  {
    var s: seq<byte> := [DHCP_ROUTER, 0, 12];
    assert s[Span(s)..] == [12] && Parse([12]) == [] && Rest([12]) == [12] && s[2..2] == [];
    assert Parse(s) == [DhcpOption(DHCP_ROUTER, [])];
    var t: seq<byte> := [12, 0, 0];
    assert Shifted(s) == t;
    assert t[Span(t)..] == [0] && [0][1..] == [] && t[2..2] == [];
    assert Parse([0]) == [] && Extract([0]) == [0];
    assert Extract(t) == t;
    ShiftedShrinks(s);
  }

  /** The end marker and all that follows it only move to the front. */
  lemma {:induction false} ExtractMovesTail(s: seq<byte>)
    requires Rest(s) != [] && Rest(s)[0] == DHCP_END
    ensures Rest(Extract(s)) == Rest(s) + Pads(RouterBytes(Parse(s)))
    decreases NonZero(s), |s|
  {
    if s[0] == DHCP_PAD {
      ExtractMovesTail(s[1..]);
    } else if !Complete(s) {
      assert s + Pads(0) == s;
    } else if s[0] == DHCP_ROUTER {
      var x, m := s[Span(s)..], Span(s);
      ShiftedShrinks(s);
      ParseMore(x, Pads(m));
      assert Parse(Shifted(s)) == Parse(x);
      ExtractMovesTail(Shifted(s));
      PadsConcat(m, RouterBytes(Parse(x)));
      Associative(Rest(x), Pads(m), Pads(RouterBytes(Parse(x))));
    } else {
      NonZeroDrop(s, Span(s));
      ExtractMovesTail(s[Span(s)..]);
      var e := Extract(s);
      assert Complete(e) && e[Span(e)..] == Extract(s[Span(s)..]);
    }
  }

  predicate NoRouter(options: seq<DhcpOption>) { forall o <- options :: o.code != DHCP_ROUTER }

  lemma {:induction false} NonRoutersHasNone(options: seq<DhcpOption>)
    ensures NoRouter(NonRouters(options))
  {
    if options != [] { NonRoutersHasNone(options[1..]); }
  }

  lemma {:induction false} NothingToRemove(s: seq<byte>)
    requires NoRouter(Parse(s))
    ensures Extract(s) == s
  {
    if s == [] {
    } else if s[0] == DHCP_PAD {
      NothingToRemove(s[1..]);
    } else if Complete(s) {
      assert First(s) in Parse(s);
      NothingToRemove(s[Span(s)..]);
    }
  }

  /** The area is left alone exactly when it holds no complete router option. */
  lemma ExtractChangesIffRouter(s: seq<byte>)
    ensures Extract(s) == s <==> NoRouter(Parse(s))
  {
    ExtractKeepsOthers(s);
    NonRoutersHasNone(Seen(s));
    if NoRouter(Parse(s)) { NothingToRemove(s); }
  }

  lemma {:induction false} NoRouterNoAddress(options: seq<DhcpOption>)
    requires NoRouter(options)
    ensures AddressIn(options) == 0 && RouterBytes(options) == 0
  {
    if options != [] { NoRouterNoAddress(options[1..]); }
  }

  /** A second run finds no router option, changes nothing and yields no address. */
  lemma ExtractIdempotent(s: seq<byte>)
    ensures NoRouter(Parse(Extract(s)))
    ensures Extract(Extract(s)) == Extract(s) && AddressIn(Seen(Extract(s))) == 0
  {
    var e := Extract(s);
    ExtractKeepsOthers(s);
    NonRoutersHasNone(Seen(s));
    NothingToRemove(e);
    NoRouterNoAddress(Parse(e));
    RestIsStuck(e);
    assert Rest(e) + Pads(0) == Rest(e);
    assert Seen(e) == Parse(e);
  }

  lemma {:induction false} TypeInConcat(a: seq<DhcpOption>, b: seq<DhcpOption>)
    ensures TypeIn(a + b) == if HasType(a) then TypeIn(a) else TypeIn(b)
  {
    if a == [] {
      assert a + b == b;
    } else {
      TypeInConcat(a[1..], b);
      assert (a + b)[1..] == a[1..] + b;
      assert a == [a[0]] + a[1..];
    }
  }

  lemma {:induction false} TypeInNonRouters(options: seq<DhcpOption>)
    ensures TypeIn(NonRouters(options)) == TypeIn(options)
  {
    if options != [] {
      var rest := NonRouters(options[1..]);
      TypeInNonRouters(options[1..]);
      assert ([options[0]] + rest)[1..] == rest && [] + rest == rest;
    }
  }

  /** Padding makes up a message type only for an option cut off right behind its length. */
  lemma TypeFromPadding(r: seq<byte>, n: nat)
    requires r == [] || (r[0] != DHCP_PAD && !Complete(r))
    ensures TypeIn(Parse(r + Pads(n))) == if r == [DHCP_MSG_TYPE, 1] && n > 0 then 0 else -1
  {
    var s := r + Pads(n);
    if r == [] {
      assert s == Pads(n);
      ParsePads(n);
    } else if Complete(s) {
      assert s[Span(s)..] == Pads(|s| - Span(s));
      ParsePads(|s| - Span(s));
      assert Parse(s) == [First(s)];
    }
  }

  /**
   * A message type survives the removal. Where there was none, one appears
   * only if the area ends in a message type option without its data and some
   * router option was removed; that type is then 0.
   */
  lemma MessageTypeKept(s: seq<byte>)
    ensures TypeIn(Parse(Extract(s))) ==
            if HasType(Parse(s)) then TypeIn(Parse(s))
            else if Rest(s) == [DHCP_MSG_TYPE, 1] && !NoRouter(Parse(s)) then 0
            else -1
  {
    var more := Parse(Rest(s) + Pads(RouterBytes(Parse(s))));
    ExtractKeepsOthers(s);
    TypeInNonRouters(Seen(s));
    TypeInConcat(Parse(s), more);
    RestIsStuck(s);
    TypeFromPadding(Rest(s), RouterBytes(Parse(s)));
    RouterBytesPositive(Parse(s));
  }

  /** A message type option that lacks its data gets the type 0 from the room of a removed router option. */
  lemma PaddingMakesUpType()
    ensures TypeIn(Parse([DHCP_ROUTER, 0, DHCP_MSG_TYPE, 1])) == -1
    ensures TypeIn(Parse(Extract([DHCP_ROUTER, 0, DHCP_MSG_TYPE, 1]))) == 0
  {
    var s: seq<byte> := [DHCP_ROUTER, 0, DHCP_MSG_TYPE, 1];
    var r: seq<byte> := [DHCP_MSG_TYPE, 1];
    assert s[Span(s)..] == r && Parse(r) == [] && Rest(r) == r && s[2..2] == [];
    assert Parse(s) == [DhcpOption(DHCP_ROUTER, [])] && Rest(s) == r;
    assert DhcpOption(DHCP_ROUTER, []) in Parse(s);
    MessageTypeKept(s);
  }

  lemma {:induction false} RouterBytesPositive(options: seq<DhcpOption>)
    ensures RouterBytes(options) > 0 <==> !NoRouter(options)
  {
    if options != [] {
      RouterBytesPositive(options[1..]);
      assert options == [options[0]] + options[1..];
    }
  }

  // ---------------------------------------------------------------------
  // The loop
  // ---------------------------------------------------------------------

  function Deleted(s: seq<byte>, i: nat, owlen: nat): seq<byte>
    requires i + owlen <= |s|
  {
    s[..i] + s[i + owlen..] + Pads(owlen)
  }

  /** Moves the bytes behind an option to its place. */
  method MoveDown(p: array<byte>, i: nat, owlen: nat)
    requires i + owlen <= p.Length
    modifies p
    ensures forall j :: 0 <= j < i ==> p[j] == old(p[j])
    ensures forall j :: i <= j < p.Length - owlen ==> p[j] == old(p[j + owlen])
  {
    var k := i;
    while k < p.Length - owlen
      invariant i <= k <= p.Length - owlen
      invariant forall j :: 0 <= j < i || k <= j < p.Length ==> p[j] == old(p[j])
      invariant forall j :: i <= j < k ==> p[j] == old(p[j + owlen])
    {
      p[k] := p[k + owlen];
      k := k + 1;
    }
  }

  method PadFrom(p: array<byte>, start: nat)
    requires start <= p.Length
    modifies p
    ensures forall j :: 0 <= j < p.Length ==> p[j] == if j < start then old(p[j]) else DHCP_PAD
  {
    var k := start;
    while k < p.Length
      invariant start <= k <= p.Length
      invariant forall j :: 0 <= j < start ==> p[j] == old(p[j])
      invariant forall j :: start <= j < k ==> p[j] == DHCP_PAD
    {
      p[k] := DHCP_PAD;
      k := k + 1;
    }
  }

  /** Moves what follows an option over it and pads the room at the end. */
  method DeleteOption(p: array<byte>, i: nat, owlen: nat)
    requires i + owlen <= p.Length
    modifies p
    ensures p[..] == Deleted(old(p[..]), i, owlen)
  {
    ghost var was := p[..];
    MoveDown(p, i, owlen);
    PadFrom(p, p.Length - owlen);
    ghost var goal := Deleted(was, i, owlen);
    assert |goal| == p.Length;
    forall j | 0 <= j < p.Length ensures p[j] == goal[j] {
      if i <= j < p.Length - owlen { assert goal[j] == was[j + owlen]; }
    }
  }

  /** A pad or an option that is not a router option. */
  predicate Skips(s: seq<byte>, n: nat) {
    && 0 < n <= |s| && s[0] != DHCP_ROUTER
    && if s[0] == DHCP_PAD then n == 1 else Complete(s) && n == Span(s)
  }

  predicate Stops(s: seq<byte>) { s == [] || (s[0] != DHCP_PAD && !Complete(s)) }

  /** What a removal makes of an area, the address it finds there, and how much there is to remove. */
  datatype Removal = Removal(area: seq<byte> -> seq<byte>, address: seq<byte> -> nat, bound: seq<byte> -> nat)

  ghost predicate SkipRule(v: Removal, s: seq<byte>, n: nat)
    requires Skips(s, n)
  {
    v.area(s) == s[..n] + v.area(s[n..]) && v.address(s) == v.address(s[n..]) && v.bound(s[n..]) <= v.bound(s)
  }

  ghost predicate RouterRule(v: Removal, s: seq<byte>)
    requires StartsWithRouter(s)
  {
    && v.area(s) == v.area(Shifted(s)) && v.bound(Shifted(s)) < v.bound(s)
    && v.address(s) == if AddressOf(First(s)) != 0 then AddressOf(First(s)) else v.address(Shifted(s))
  }

  /** The rules of a removal, one for each way an area can begin. */
  ghost predicate Lawful(v: Removal) {
    && (forall s, n :: Skips(s, n) ==> SkipRule(v, s, n))
    && (forall s :: StartsWithRouter(s) ==> RouterRule(v, s))
    && (forall s :: Stops(s) ==> v.area(s) == s && v.address(s) == 0)
    && (forall s :: v.bound([]) <= v.bound(s))
  }

  ghost predicate Agrees(v: Removal, s: seq<byte>) {
    v.area(s) == Extract(s) && v.address(s) == AddressIn(Seen(s)) && v.bound(s) == NonZero(s)
  }

  lemma ExtractSkips(v: Removal, s: seq<byte>, n: nat)
    requires Skips(s, n) && Agrees(v, s) && Agrees(v, s[n..])
    ensures SkipRule(v, s, n)
  {
    NonZeroDrop(s, n);
    if s[0] == DHCP_PAD {
      SeenAfterPad(s);
      assert s[..1] == [DHCP_PAD];
    } else {
      SeenAfterOption(s);
    }
  }

  lemma ExtractRemoves(v: Removal, s: seq<byte>)
    requires StartsWithRouter(s) && Agrees(v, s) && Agrees(v, Shifted(s))
    ensures RouterRule(v, s)
  {
    ShiftedShrinks(s);
    SeenAfterRouter(s);
  }

  lemma ExtractStops(v: Removal, s: seq<byte>)
    requires Stops(s) && Agrees(v, s)
    ensures v.area(s) == s && v.address(s) == 0
  {
    if s == [] { SeenNothing(); } else { SeenAtEnd(s); }
  }

  lemma ExtractLawful(v: Removal)
    requires forall s :: Agrees(v, s)
    ensures Lawful(v)
  {
    forall s, n | Skips(s, n)
      ensures SkipRule(v, s, n)
    {
      ExtractSkips(v, s, n);
    }
    forall s | StartsWithRouter(s)
      ensures RouterRule(v, s)
    {
      ExtractRemoves(v, s);
    }
    forall s | Stops(s)
      ensures v.area(s) == s && v.address(s) == 0
    {
      ExtractStops(v, s);
    }
    forall s: seq<byte>
      ensures v.bound([]) <= v.bound(s)
    {
      assert Agrees(v, []) && Agrees(v, s);
    }
  }

  lemma AreaFunction() returns (f: seq<byte> -> seq<byte>)
    ensures forall s {:trigger f(s)} :: f(s) == Extract(s)
  {
    f := s => Extract(s);
  }

  lemma AddressFunction() returns (f: seq<byte> -> nat)
    ensures forall s {:trigger f(s)} :: f(s) == AddressIn(Seen(s))
  {
    f := s => AddressIn(Seen(s));
  }

  lemma BoundFunction() returns (f: seq<byte> -> nat)
    ensures forall s {:trigger f(s)} :: f(s) == NonZero(s)
  {
    f := s => NonZero(s);
  }

  lemma ExtractRemoval() returns (v: Removal)
    ensures forall s :: Agrees(v, s)
  {
    var f := AreaFunction();
    var g := AddressFunction();
    var h := BoundFunction();
    v := Removal(f, g, h);
  }

  /** What is left of the area from i on, nothing if i lies behind its end. */
  function From(cur: seq<byte>, i: nat): seq<byte> { if i <= |cur| then cur[i..] else [] }

  lemma FromInside(cur: seq<byte>, i: nat)
    requires i < |cur|
    ensures var s := From(cur, i);
            s == cur[i..] && s[0] == cur[i] && |s| == |cur| - i && (|s| >= 2 ==> s[1] == cur[i + 1])
  {
  }

  /** Up to i the removal is done; it remains to be done from i on. */
  ghost predicate Todo(v: Removal, area: seq<byte>, address: nat, cur: seq<byte>, i: nat, ret: nat) {
    && area == cur[..|cur| - |From(cur, i)|] + v.area(From(cur, i))
    && address == if ret != 0 then ret else v.address(From(cur, i))
  }

  lemma TodoStarts(v: Removal, cur: seq<byte>)
    ensures Todo(v, v.area(cur), v.address(cur), cur, 0, 0)
  {
    assert From(cur, 0) == cur && cur[..0] + v.area(cur) == v.area(cur);
  }

  lemma TodoStops(v: Removal, area: seq<byte>, address: nat, cur: seq<byte>, i: nat, ret: nat)
    requires Lawful(v) && Todo(v, area, address, cur, i, ret) && Stops(From(cur, i))
    ensures cur == area && ret == address
  {
    var rest := From(cur, i);
    assert cur[..|cur| - |rest|] + rest == cur;
  }

  /** Behind the end there is nothing left to do. */
  lemma TodoRunsOut(v: Removal, area: seq<byte>, address: nat, cur: seq<byte>, i: nat, ret: nat, n: nat)
    requires Lawful(v) && Todo(v, area, address, cur, i, ret) && Stops(From(cur, i)) && i < |cur| < i + n
    ensures Todo(v, area, address, cur, i + n, ret) && v.bound(From(cur, i + n)) <= v.bound(From(cur, i))
  {
    TodoStops(v, area, address, cur, i, ret);
    assert Stops([]) && cur[..|cur|] + [] == cur;
  }

  lemma TodoSkips(v: Removal, area: seq<byte>, address: nat, cur: seq<byte>, i: nat, ret: nat, n: nat)
    requires Lawful(v) && Todo(v, area, address, cur, i, ret) && i <= |cur| && Skips(cur[i..], n)
    ensures Todo(v, area, address, cur, i + n, ret) && v.bound(From(cur, i + n)) <= v.bound(From(cur, i))
  {
    assert SkipRule(v, cur[i..], n);
    Rejoin(cur, i, n, v.area(cur[i..][n..]));
  }

  lemma Rejoin(s: seq<byte>, i: nat, n: nat, rest: seq<byte>)
    requires i + n <= |s|
    ensures s[i..][n..] == s[i + n..] && s[..i] + (s[i..][..n] + rest) == s[..i + n] + rest
  {
  }

  lemma TodoRemoves(v: Removal, area: seq<byte>, address: nat, cur: seq<byte>, i: nat, ret: nat,
                    now: seq<byte>, found: nat)
    requires Lawful(v) && Todo(v, area, address, cur, i, ret) && i <= |cur| && StartsWithRouter(cur[i..])
    requires now == Deleted(cur, i, Span(cur[i..]))
    requires found == if ret != 0 then ret else AddressOf(First(cur[i..]))
    ensures Todo(v, area, address, now, i, found) && v.bound(From(now, i)) < v.bound(From(cur, i))
  {
    assert RouterRule(v, cur[i..]);
    assert now[..i] == cur[..i] && now[i..] == Shifted(cur[i..]);
  }

  lemma TodoPad(v: Removal, area: seq<byte>, address: nat, cur: seq<byte>, i: nat, ret: nat)
    requires Lawful(v) && Todo(v, area, address, cur, i, ret) && i < |cur| && cur[i] == DHCP_PAD
    ensures Todo(v, area, address, cur, i + 1, ret) && v.bound(From(cur, i + 1)) <= v.bound(From(cur, i))
  {
    FromInside(cur, i);
    TodoSkips(v, area, address, cur, i, ret, 1);
  }

  /** Steps over any other option, even where it reaches past the end. */
  lemma TodoOther(v: Removal, area: seq<byte>, address: nat, cur: seq<byte>, i: nat, ret: nat, n: nat)
    requires Lawful(v) && Todo(v, area, address, cur, i, ret) && i + 1 < |cur|
    requires cur[i] != DHCP_PAD && cur[i] != DHCP_END && cur[i] != DHCP_ROUTER && n == Span(cur[i..])
    ensures Todo(v, area, address, cur, i + n, ret) && v.bound(From(cur, i + n)) <= v.bound(From(cur, i))
  {
    FromInside(cur, i);
    if i + n <= |cur| {
      TodoSkips(v, area, address, cur, i, ret, n);
    } else {
      TodoRunsOut(v, area, address, cur, i, ret, n);
    }
  }

  /** Takes the address of a router option, unless there is one already. */
  method ReadRouter(p: array<byte>, i: nat, len: nat, ret: nat) returns (r: nat)
    requires i < p.Length && StartsWithRouter(p[..][i..]) && len == p[i + 1]
    ensures r == if ret != 0 then ret else AddressOf(First(p[..][i..]))
  {
    r := ret;
    ghost var data := First(p[..][i..]).data;
    assert |data| == len;
    if ret == 0 && len >= 4 && len % 4 == 0 {
      r := FromBigEndian(p[i + 2..i + 6]);
      assert p[i + 2..i + 6] == data[..4];
    }
  }

  /** Reads a router option and deletes it. */
  method RemoveRouter(p: array<byte>, i: nat, len: nat, ret: nat,
                      ghost v: Removal, ghost area: seq<byte>, ghost address: nat)
    returns (r: nat)
    requires Lawful(v) && Todo(v, area, address, p[..], i, ret)
    requires i < p.Length && StartsWithRouter(p[..][i..]) && len == p[i + 1]
    modifies p
    ensures Todo(v, area, address, p[..], i, r) && v.bound(From(p[..], i)) < old(v.bound(From(p[..], i)))
  {
    ghost var cur := p[..];
    r := ReadRouter(p, i, len, ret);
    DeleteOption(p, i, len + 2);
    TodoRemoves(v, area, address, cur, i, ret, p[..], r);
  }

  method DoExtract(p: array<byte>) returns (ret: nat)
    modifies p
    ensures p[..] == Extract(old(p[..]))
    ensures ret == AddressIn(Seen(old(p[..])))
  {
    ghost var v := ExtractRemoval();
    ExtractLawful(v);
    assert Agrees(v, p[..]);
    ret := RemoveRouters(p, v);
  }

  /** The address a.b.c.d. */
  function Dotted(a: nat, b: nat, c: nat, d: nat): nat { ((a * 256 + b) * 256 + c) * 256 + d }

  /** No router option, or one that does not hold a whole number of addresses, or begins with 0.0.0.0. */
  predicate NoAddress(o: DhcpOption) {
    o.code != 3 || |o.data| < 4 || |o.data| % 4 != 0 || o.data[..4] == [0, 0, 0, 0]
  }

  lemma AddressOfIs(o: DhcpOption)
    ensures AddressOf(o) == if NoAddress(o) then 0
                            else Dotted(o.data[0], o.data[1], o.data[2], o.data[3])
    ensures AddressOf(o) == 0 <==> NoAddress(o)
  {
    if o.code == 3 && |o.data| >= 4 {
      assert o.data[..4] == [o.data[0], o.data[1], o.data[2], o.data[3]];
      FromBigEndianFour(o.data[0], o.data[1], o.data[2], o.data[3]);
    }
  }

  lemma {:induction false} FirstAddressCounts(options: seq<DhcpOption>, k: nat)
    requires k <= |options| && (forall i :: 0 <= i < k ==> NoAddress(options[i]))
    requires k < |options| ==> !NoAddress(options[k])
    ensures AddressIn(options) == if k < |options| then AddressOf(options[k]) else 0
  {
    if options != [] { AddressOfIs(options[0]); }
    if k > 0 { FirstAddressCounts(options[1..], k - 1); }
  }

  /**
   * For any list of options on the wire, the address returned is the first one
   * of the first router option that has one other than 0.0.0.0.
   */
  method ExtractFirstAddress(p: array<byte>, ghost options: seq<DhcpOption>, ghost tail: seq<byte>, ghost k: nat)
    returns (ret: nat)
    requires Writable(options) && p[..] == Serialize(options) + [255] + tail
    requires k <= |options| && (forall i :: 0 <= i < k ==> NoAddress(options[i]))
    requires k < |options| ==> !NoAddress(options[k])
    modifies p
    ensures if k == |options| then ret == 0
            else var d := options[k].data; ret == Dotted(d[0], d[1], d[2], d[3])
  {
    ParseOfSerialize(options, tail);
    WellFormedSeen(p[..]);
    FirstAddressCounts(options, k);
    if k < |options| { AddressOfIs(options[k]); }
    ret := DoExtract(p);
  }

  /** A router option that is all there. */
  predicate RouterAt(s: seq<byte>, i: nat) {
    i + 1 < |s| && s[i] == DHCP_ROUTER && s[i + 1] <= |s| - i - 2
  }

  lemma RouterAtStarts(s: seq<byte>, i: nat)
    requires RouterAt(s, i)
    ensures StartsWithRouter(s[i..])
  {
  }

  /** Nothing to go on with at i: the end, an end marker, or an option that is cut off. */
  predicate StopsAt(s: seq<byte>, i: nat) {
    || i >= |s|
    || s[i] == DHCP_END
    || (s[i] == DHCP_ROUTER && !RouterAt(s, i))
    || (s[i] != DHCP_PAD && i + 1 == |s|)
  }

  lemma StopsAtStops(s: seq<byte>, i: nat)
    requires StopsAt(s, i)
    ensures Stops(From(s, i))
  {
    if i < |s| { FromInside(s, i); }
  }

  /** The loop carries out any removal that keeps to the rules. */
  method RemoveRouters(p: array<byte>, ghost v: Removal) returns (ret: nat)
    requires Lawful(v)
    modifies p
    ensures p[..] == v.area(old(p[..]))
    ensures ret == v.address(old(p[..]))
  {
    ret := 0;
    var i: nat := 0;
    ghost var cur := p[..];
    ghost var area, address := v.area(cur), v.address(cur);
    TodoStarts(v, cur);
    while i < p.Length
      invariant cur == p[..]
      invariant Todo(v, area, address, cur, i, ret)
      decreases v.bound(From(cur, i)), p.Length - i
    {
      var kind := p[i];
      var room := p.Length - i;
      if kind == DHCP_END {
        break;
      } else if kind == DHCP_PAD {
        TodoPad(v, area, address, cur, i, ret);
        i := i + 1;
      } else if kind == DHCP_ROUTER {
        if room >= 2 {
          var len: nat := p[i + 1];
          if len <= room - 2 {
            RouterAtStarts(cur, i);
            ret := RemoveRouter(p, i, len, ret, v, area, address);
            cur := p[..];
          } else {
            break;
          }
        } else {
          break;
        }
      } else {
        if room >= 2 {
          var len: nat := p[i + 1];
          var n := len + 2;
          TodoOther(v, area, address, cur, i, ret, n);
          i := i + n;
        } else {
          break;
        }
      }
    }
    StopsAtStops(cur, i);
    TodoStops(v, area, address, cur, i, ret);
  }
}

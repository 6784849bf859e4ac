/**
 * Authentication tokens: a session id, the time the session began, the time of
 * the last renewal and a MAC over these and the user name, in base64 behind a
 * fixed prefix. The MAC is a parameter.
 */
module AuthToken {
  import opened Octets
  import opened KeyExpansion
  import opened Base64

  const SESSION_ID_PREFIX: string := "SESS_ID_AT_"
  const PREFIX_LEN: nat := 11
  const SESSION_ID_LEN: nat := 12
  const SESSION_ID_BASE64_LEN: nat := 16
  const SIGNED_LEN: nat := 28
  const TOKEN_DATA_LEN: nat := 60
  const USER_PASS_LEN: nat := 128
  const TIME_LIMIT: nat := 0x8000_0000_0000_0000

  type Mac = seq<byte> -> Digest

  /** Session id, initial time stamp and renewal time stamp. */
  datatype Claims = Claims(session: seq<byte>, initial: nat, renewed: nat)

  predicate ValidClaims(c: Claims) {
    |c.session| == SESSION_ID_LEN && c.initial < TIME_LIMIT && c.renewed < TIME_LIMIT
  }

  function Signed(c: Claims): (b: seq<byte>)
    requires ValidClaims(c)
    ensures |b| == SIGNED_LEN
  {
    c.session + BigEndian(c.initial, 8) + BigEndian(c.renewed, 8)
  }

  /** The text of a token for a user. */
  function TokenText(mac: Mac, user: seq<byte>, c: Claims): string
    requires ValidClaims(c)
  {
    SESSION_ID_PREFIX + Encode(Signed(c) + mac(user + Signed(c)))
  }

  // ---------------------------------------------------------------------
  // Slicing the text
  // ---------------------------------------------------------------------

  /** The session id and the initial time stamp lie on group boundaries of the text. */
  lemma TokenSlices(mac: Mac, user: seq<byte>, c: Claims)
    requires ValidClaims(c)
    ensures var t := TokenText(mac, user, c);
            && |t| == PREFIX_LEN + 80 && SESSION_ID_PREFIX <= t
            && t[PREFIX_LEN..PREFIX_LEN + 16] == Encode(c.session)
            && t[PREFIX_LEN + 16..PREFIX_LEN + 28] == Encode(Signed(c)[SESSION_ID_LEN..SESSION_ID_LEN + 9])
  {
    var d := Signed(c) + mac(user + Signed(c));
    var a, b, r := d[..12], d[12..21], d[21..];
    assert d == a + (b + r) && a == c.session && b == Signed(c)[12..21];
    EncodedSlices(SESSION_ID_PREFIX, a, b, r);
  }

  lemma EncodedSlices(prefix: string, a: seq<byte>, b: seq<byte>, r: seq<byte>)
    requires |a| == 12 && |b| == 9 && |r| == 39
    ensures var t, n := prefix + Encode(a + (b + r)), |prefix|;
            |t| == n + 80 && t[n..n + 16] == Encode(a) && t[n + 16..n + 28] == Encode(b)
  {
    EncodeConcat(a, b + r);
    EncodeConcat(b, r);
    EncodeLength(EncodeHead, a);
    EncodeLength(EncodeHead, b);
    EncodeLength(EncodeHead, r);
    assert prefix + Encode(a + (b + r)) == prefix + Encode(a) + Encode(b) + Encode(r);
  }

  // ---------------------------------------------------------------------
  // Verification
  // ---------------------------------------------------------------------

  /** The result bits: MAC correct, token expired, valid only for the empty user name. */
  datatype Flags = Flags(hmacOk: bool, expired: bool, emptyUser: bool)

  const REJECTED := Flags(false, false, false)

  /** A 64 bit value read as a signed one. */
  function Signed64(x: nat): int { if x < TIME_LIMIT then x else x - 2 * TIME_LIMIT }

  function ClaimsOf(d: seq<byte>): Claims
    requires |d| == TOKEN_DATA_LEN
  {
    Claims(d[..12], FromBigEndian(d[12..20]), FromBigEndian(d[20..28]))
  }

  /** Outside the renewal window, renewed before it began, or past its lifetime; lifetime 0 is unlimited. */
  predicate IsExpired(c: Claims, now: int, renewal: int, lifetime: nat) {
    || !(Signed64(c.renewed) <= now < Signed64(c.renewed) + 2 * renewal)
    || c.renewed < c.initial
    || (lifetime > 0 && now > Signed64(c.initial) + lifetime)
  }

  predicate SameStart(a: string, b: string, n: nat) {
    |a| >= n && |b| >= n && a[..n] == b[..n]
  }

  /** The outcome for a password that starts with the token prefix, and the user name that results. */
  function Verify(mac: Mac, lifetime: nat, renewal: int, first: Option<string>,
                  username: seq<byte>, password: string, now: int): (Flags, seq<byte>)
    requires |password| >= PREFIX_LEN
  {
    var d := Decode(password[PREFIX_LEN..]);
    if d.None? || |d.value| != TOKEN_DATA_LEN then (REJECTED, username)
    else
      var body, tag := d.value[..SIGNED_LEN], d.value[SIGNED_LEN..];
      var ok := mac(username + body) == tag;
      if !ok && mac(body) != tag then (REJECTED, username)
      else
        var user := if ok then username else [];
        if first.Some? && !SameStart(first.value, password, PREFIX_LEN + SESSION_ID_BASE64_LEN) then (REJECTED, user)
        else (Flags(true, IsExpired(ClaimsOf(d.value), now, renewal, lifetime), !ok), user)
  }

  // ---------------------------------------------------------------------
  // Renewal
  // ---------------------------------------------------------------------

  /** A token that was handed out. */
  datatype Issued = Issued(user: seq<byte>, claims: Claims, text: string)

  predicate GoodIssued(mac: Mac, t: Issued) {
    ValidClaims(t.claims) && t.text == TokenText(mac, t.user, t.claims)
  }

  /** Tokens of one session, in the order they were handed out. */
  ghost predicate Chain(mac: Mac, issued: seq<Issued>) {
    && (forall i :: 0 <= i < |issued| ==> GoodIssued(mac, issued[i]))
    && (forall i :: 0 <= i < |issued| ==>
          issued[i].claims.session == issued[0].claims.session && issued[i].claims.initial == issued[0].claims.initial)
  }

  lemma ChainGrows(mac: Mac, issued: seq<Issued>, t: Issued)
    requires Chain(mac, issued) && GoodIssued(mac, t)
    requires issued != [] ==> t.claims.session == issued[0].claims.session && t.claims.initial == issued[0].claims.initial
    ensures Chain(mac, issued + [t])
  {
  }

  /** Only letters of the alphabet, so in particular no terminator. */
  lemma {:induction false} UnpaddedHasNoNul(s: string)
    requires Unpadded(s)
    ensures '\0' !in s
  {
    forall i | 0 <= i < |s| ensures s[i] != '\0' {
      assert Pos(s[i]) >= 0;
    }
  }

  /** Decoding a piece of the text that holds whole groups gives back exactly its bytes. */
  method DecodeSlice(text: string, size: nat, ghost bytes: seq<byte>) returns (d: seq<byte>)
    requires text == Encode(bytes) && |bytes| == size && size % 3 == 0
    ensures d == bytes
  {
    EncodeConcat(bytes, []);
    UnpaddedHasNoNul(text);
    DecodeOfEncode(bytes);
    var r := Base64Decode(text, size);
    assert r.Some? && |r.value| == size;
    d := r.value;
  }

  /** Signs the claims for a user and encodes them. */
  method AssembleToken(mac: Mac, user: seq<byte>, session: seq<byte>, initial: seq<byte>, timestamp: seq<byte>,
                       ghost c: Claims)
    returns (text: string)
    requires ValidClaims(c) && session + initial + timestamp == Signed(c)
    ensures text == TokenText(mac, user, c)
  {
    var hmacOutput := mac(user + session + initial + timestamp);
    assert user + session + initial + timestamp == user + Signed(c);
    var data := session + initial + timestamp + hmacOutput;
    assert |data| == TOKEN_DATA_LEN;
    var b64output := Base64Encode(data);
    text := SESSION_ID_PREFIX + b64output.value;
  }

  class TlsMulti {
    const mac: Mac
    const lifetime: nat
    var authToken: Option<string>
    var authTokenInitial: Option<string>
    /** Everything issued since the last wipe. */
    ghost var issued: seq<Issued>

    /** All tokens since the last wipe carry the session id and initial time of the first one. */
    ghost predicate Valid()
      reads this
    {
      && Chain(mac, issued)
      && authTokenInitial == (if issued == [] then None else Some(issued[0].text))
      && authToken == (if issued == [] then None else Some(issued[|issued| - 1].text))
    }

    constructor (mac: Mac, lifetime: nat)
      ensures Valid() && issued == [] && this.mac == mac && this.lifetime == lifetime
    {
      this.mac, this.lifetime := mac, lifetime;
      authToken, authTokenInitial, issued := None, None, [];
    }

    /** Reads session id and initial time stamp back out of the first token's text. */
    method ReadInitial(token: string) returns (session: seq<byte>, initial: seq<byte>)
      requires Valid() && issued != [] && token == issued[0].text
      ensures session == issued[0].claims.session && initial == BigEndian(issued[0].claims.initial, 8)
    {
      ghost var c := issued[0].claims;
      TokenSlices(mac, issued[0].user, c);
      var oldSession := token[PREFIX_LEN..PREFIX_LEN + SESSION_ID_BASE64_LEN];
      var oldInitial := token[PREFIX_LEN + SESSION_ID_BASE64_LEN..PREFIX_LEN + SESSION_ID_BASE64_LEN + 12];
      ghost var nine := Signed(c)[SESSION_ID_LEN..SESSION_ID_LEN + 9];
      var decoded := DecodeSlice(oldInitial, 9, nine);
      initial := decoded[..8];
      session := DecodeSlice(oldSession, SESSION_ID_LEN, c.session);
    }

    /**
     * Issues the first token of a session, or renews it with the same session
     * id and initial time. A token that was valid only for the empty user name
     * is renewed for the empty user name.
     */
    method GenerateAuthToken(username: seq<byte>, emptyUser: bool, now: nat, random: seq<byte>)
      requires Valid() && now < TIME_LIMIT && |random| == SESSION_ID_LEN
      modifies this`authToken, this`authTokenInitial, this`issued
      ensures Valid() && |issued| == |old(issued)| + 1 && old(issued) <= issued
      ensures var t := issued[|issued| - 1];
              && t.user == (if emptyUser then [] else username)
              && t.claims.renewed == now
              && (old(issued) == [] ==> t.claims.session == random && t.claims.initial == now)
    {
      var timestamp := BigEndian(now, 8);
      var session, initial := random, timestamp;
      ghost var claims := Claims(random, now, now);
      if authTokenInitial.Some? {
        session, initial := ReadInitial(authTokenInitial.value);
        claims := issued[0].claims.(renewed := now);
      }
      var user := if emptyUser then [] else username;
      var text := AssembleToken(mac, user, session, initial, timestamp, claims);
      ghost var t := Issued(user, claims, text);
      ChainGrows(mac, issued, t);
      authToken := Some(text);
      if authTokenInitial.None? {
        authTokenInitial := authToken;
      }
      issued := issued + [t];
    }

    method CheckHmacToken(decoded: seq<byte>, username: seq<byte>) returns (ok: bool)
      requires |decoded| == TOKEN_DATA_LEN
      ensures ok == (mac(username + decoded[..SIGNED_LEN]) == decoded[SIGNED_LEN..])
    {
      var hmacOutput := mac(username + decoded[..SIGNED_LEN]);
      ok := hmacOutput == decoded[SIGNED_LEN..];
    }

    method VerifyAuthToken(username: seq<byte>, password: string, now: int, renewal: int)
      returns (ret: Flags, user: seq<byte>)
      requires Valid() && SESSION_ID_PREFIX <= password && '\0' !in password
      ensures (ret, user) == Verify(mac, lifetime, renewal, authTokenInitial, username, password, now)
    {
      user := username;
      var decoded := Base64Decode(password[PREFIX_LEN..], USER_PASS_LEN);
      if decoded.None? || |decoded.value| != TOKEN_DATA_LEN {
        return REJECTED, user;
      }
      var d := decoded.value;
      var timestampInitial := FromBigEndian(d[12..20]);
      var timestamp := FromBigEndian(d[20..28]);
      ret := REJECTED;
      var ok := CheckHmacToken(d, username);
      if ok {
        ret := ret.(hmacOk := true);
      } else {
        ok := CheckHmacToken(d, []);
        assert [] + d[..SIGNED_LEN] == d[..SIGNED_LEN];
        if !ok {
          return REJECTED, user;
        }
        ret := ret.(hmacOk := true, emptyUser := true);
        user := [];
      }
      var deadline := Signed64(timestamp) + 2 * renewal;
      var inRenegotiationTime := now >= Signed64(timestamp) && now < deadline;
      if !inRenegotiationTime {
        ret := ret.(expired := true);
      }
      if timestamp < timestampInitial {
        ret := ret.(expired := true);
      }
      var eol := Signed64(timestampInitial) + lifetime;
      if lifetime > 0 && now > eol {
        ret := ret.(expired := true);
      }
      if authTokenInitial.Some? {
        DecodedLength(password[PREFIX_LEN..]);
        TokenSlices(mac, issued[0].user, issued[0].claims);
        var n := PREFIX_LEN + SESSION_ID_BASE64_LEN;
        if authTokenInitial.value[..n] != password[..n] {
          ret := REJECTED;
        }
      }
    }

    /** Ends the session. */
    method WipeAuthToken()
      modifies this`authToken, this`authTokenInitial, this`issued
      ensures Valid() && issued == []
    {
      authToken, authTokenInitial, issued := None, None, [];
    }
  }

  // ---------------------------------------------------------------------
  // What renewal and verification guarantee together
  // ---------------------------------------------------------------------

  lemma TokenDecodes(mac: Mac, t: Issued)
    requires GoodIssued(mac, t)
    ensures |t.text| >= PREFIX_LEN
    ensures Decode(t.text[PREFIX_LEN..]) == Some(Signed(t.claims) + mac(t.user + Signed(t.claims)))
    ensures ClaimsOf(Signed(t.claims) + mac(t.user + Signed(t.claims))) == t.claims
  {
    var d := Signed(t.claims) + mac(t.user + Signed(t.claims));
    DecodeOfEncode(d);
    assert t.text[PREFIX_LEN..] == Encode(d);
    assert d[..SIGNED_LEN] == Signed(t.claims);
    ClaimsInBody(t.claims, d);
  }

  /** Before or after its renewal window, renewed before its session began, or past its lifetime. */
  predicate OutOfTime(c: Claims, lifetime: nat, renewal: int, now: int) {
    || now < c.renewed || now >= c.renewed + 2 * renewal
    || c.renewed < c.initial
    || (lifetime > 0 && now > c.initial + lifetime)
  }

  /**
   * Whoever presents a token of a session, to this session or to one that has
   * issued no token yet: it is accepted under the name given if that name has
   * the token's MAC, else without a name if no name has it, else rejected.
   */
  lemma PresentedToken(mac: Mac, lifetime: nat, renewal: int, issued: seq<Issued>, i: nat, stored: bool,
                       username: seq<byte>, now: int)
    requires Chain(mac, issued) && i < |issued|
    ensures |issued[i].text| >= PREFIX_LEN
    ensures var t := issued[i];
            var first := if stored then Some(issued[0].text) else None;
            var tag, expired := mac(t.user + Signed(t.claims)), OutOfTime(t.claims, lifetime, renewal, now);
            Verify(mac, lifetime, renewal, first, username, t.text, now) ==
              if mac(username + Signed(t.claims)) == tag then (Flags(true, expired, false), username)
              else if mac(Signed(t.claims)) == tag then (Flags(true, expired, true), [])
              else (REJECTED, username)
  {
    var t := issued[i];
    assert GoodIssued(mac, t) && GoodIssued(mac, issued[0]);
    TokenDecodes(mac, t);
    TokenSlices(mac, t.user, t.claims);
    TokenSlices(mac, issued[0].user, issued[0].claims);
    SameStartFrom(t.text, issued[0].text);
    var d := Signed(t.claims) + mac(t.user + Signed(t.claims));
    assert d[..SIGNED_LEN] == Signed(t.claims) && d[SIGNED_LEN..] == mac(t.user + Signed(t.claims));
  }

  /**
   * A token presented by the user it was issued to is accepted under that
   * name, and counts as expired exactly outside its renewal window or past its
   * lifetime.
   */
  lemma IssuedTokenVerifies(mac: Mac, lifetime: nat, renewal: int, issued: seq<Issued>, i: nat, stored: bool, now: int)
    requires Chain(mac, issued) && i < |issued|
    ensures |issued[i].text| >= PREFIX_LEN
    ensures var t := issued[i];
            var first := if stored then Some(issued[0].text) else None;
            Verify(mac, lifetime, renewal, first, t.user, t.text, now) ==
              (Flags(true, OutOfTime(t.claims, lifetime, renewal, now), false), t.user)
  {
    PresentedToken(mac, lifetime, renewal, issued, i, stored, issued[i].user, now);
  }

  /**
   * A token issued for the empty user name is accepted from whoever presents
   * it: the name given is emptied, and the result says so.
   */
  lemma EmptyUserTokenVerifies(mac: Mac, lifetime: nat, renewal: int, issued: seq<Issued>, i: nat, stored: bool,
                               username: seq<byte>, now: int)
    requires Chain(mac, issued) && i < |issued| && issued[i].user == []
    requires mac(username + Signed(issued[i].claims)) != mac(Signed(issued[i].claims))
    ensures |issued[i].text| >= PREFIX_LEN
    ensures var t := issued[i];
            var first := if stored then Some(issued[0].text) else None;
            Verify(mac, lifetime, renewal, first, username, t.text, now) ==
              (Flags(true, OutOfTime(t.claims, lifetime, renewal, now), true), [])
  {
    PresentedToken(mac, lifetime, renewal, issued, i, stored, username, now);
    assert [] + Signed(issued[i].claims) == Signed(issued[i].claims);
  }

  lemma SameStartFrom(a: string, b: string)
    requires SESSION_ID_PREFIX <= a && SESSION_ID_PREFIX <= b && |a| >= 27 && |b| >= 27
    requires a[PREFIX_LEN..27] == b[PREFIX_LEN..27]
    ensures SameStart(b, a, 27)
  {
    assert a[..27] == SESSION_ID_PREFIX + a[PREFIX_LEN..27];
    assert b[..27] == SESSION_ID_PREFIX + b[PREFIX_LEN..27];
  }

  /** However often a session is renewed, none of its tokens outlives the first one's lifetime. */
  lemma RenewalNeverExtendsLifetime(mac: Mac, lifetime: nat, renewal: int, issued: seq<Issued>, i: nat,
                                    first: Option<string>, username: seq<byte>, now: int)
    requires Chain(mac, issued) && i < |issued| && lifetime > 0
    requires now > issued[0].claims.initial + lifetime
    ensures |issued[i].text| >= PREFIX_LEN
    ensures var r := Verify(mac, lifetime, renewal, first, username, issued[i].text, now).0;
            r == REJECTED || r.expired
  {
    assert GoodIssued(mac, issued[i]);
    TokenDecodes(mac, issued[i]);
  }

  /** User name and signed bytes can be told apart in the MAC's input. */
  lemma MacInputInjective(user1: seq<byte>, body1: seq<byte>, user2: seq<byte>, body2: seq<byte>)
    requires |body1| == |body2| && user1 + body1 == user2 + body2
    ensures user1 == user2 && body1 == body2
  {
    assert |user1| == |user2|;
    assert (user1 + body1)[..|user1|] == user1 && (user2 + body2)[..|user2|] == user2;
    assert (user1 + body1)[|user1|..] == body1 && (user2 + body2)[|user2|..] == body2;
  }

  /** Some token handed out carries the MAC of exactly these bytes. */
  ghost predicate WasSigned(issued: seq<Issued>, x: seq<byte>) {
    exists i :: 0 <= i < |issued| && ValidClaims(issued[i].claims) && x == issued[i].user + Signed(issued[i].claims)
  }

  /** No MAC in the data is right by accident: the two inputs it is compared for were signed before. */
  ghost predicate Unforged(mac: Mac, issued: seq<Issued>, username: seq<byte>, d: seq<byte>)
    requires |d| == TOKEN_DATA_LEN
  {
    var body, tag := d[..SIGNED_LEN], d[SIGNED_LEN..];
    && (mac(username + body) == tag ==> WasSigned(issued, username + body))
    && (mac(body) == tag ==> WasSigned(issued, body))
  }

  lemma ClaimsInBody(c: Claims, d: seq<byte>)
    requires ValidClaims(c) && |d| == TOKEN_DATA_LEN && d[..SIGNED_LEN] == Signed(c)
    ensures ClaimsOf(d) == c
  {
    assert d[..12] == d[..SIGNED_LEN][..12] == c.session;
    assert d[12..20] == d[..SIGNED_LEN][12..20] == BigEndian(c.initial, 8);
    assert d[20..28] == d[..SIGNED_LEN][20..28] == BigEndian(c.renewed, 8);
    assert Pow256(8) == 2 * TIME_LIMIT;
    BigEndianRoundTrip(c.initial, 8);
    BigEndianRoundTrip(c.renewed, 8);
  }

  /**
   * If MACs cannot be forged, a password that verifies carries the claims of a
   * token handed out before, to the user name that results.
   */
  lemma VerifiedWasIssued(mac: Mac, lifetime: nat, renewal: int, first: Option<string>, issued: seq<Issued>,
                          username: seq<byte>, password: string, now: int)
    requires |password| >= PREFIX_LEN
    requires var d := Decode(password[PREFIX_LEN..]);
             d.Some? && |d.value| == TOKEN_DATA_LEN ==> Unforged(mac, issued, username, d.value)
    requires Verify(mac, lifetime, renewal, first, username, password, now).0 != REJECTED
    ensures var d := Decode(password[PREFIX_LEN..]);
            && d.Some? && |d.value| == TOKEN_DATA_LEN
            && exists i :: 0 <= i < |issued| && ValidClaims(issued[i].claims)
                 && issued[i].user == Verify(mac, lifetime, renewal, first, username, password, now).1
                 && issued[i].claims == ClaimsOf(d.value)
  {
    var user := Verify(mac, lifetime, renewal, first, username, password, now).1;
    var d := Decode(password[PREFIX_LEN..]).value;
    var body := d[..SIGNED_LEN];
    assert [] + body == body;
    assert WasSigned(issued, user + body);
    var i :| 0 <= i < |issued| && ValidClaims(issued[i].claims) && user + body == issued[i].user + Signed(issued[i].claims);
    MacInputInjective(user, body, issued[i].user, Signed(issued[i].claims));
    ClaimsInBody(issued[i].claims, d);
  }

  lemma SlicesOfStart(a: string, b: string, m: nat, n: nat)
    requires m <= n && SameStart(a, b, n)
    ensures b[m..] == a[m..n] + b[n..]
  {
    assert b[m..n] == b[..n][m..] == a[..n][m..] == a[m..n];
  }

  /** Whatever follows whole groups of text, they decode to the bytes they encode. */
  lemma DecodeAfter(bytes: seq<byte>, rest: string)
    requires |bytes| % 3 == 0
    ensures var d := Decode(Encode(bytes) + rest);
            d.Some? ==> bytes <= d.value
  {
    EncodeConcat(bytes, []);
    DecodeOfEncode(bytes);
    DecodeConcat(Encode(bytes), rest);
  }

  /** While a session holds a token, whatever verifies carries that token's session id. */
  lemma SessionIdCannotChange(mac: Mac, lifetime: nat, renewal: int, issued: seq<Issued>,
                              username: seq<byte>, password: string, now: int)
    requires Chain(mac, issued) && issued != [] && |password| >= PREFIX_LEN
    requires Verify(mac, lifetime, renewal, Some(issued[0].text), username, password, now).0 != REJECTED
    ensures Decode(password[PREFIX_LEN..]).Some? && |Decode(password[PREFIX_LEN..]).value| == TOKEN_DATA_LEN
    ensures ClaimsOf(Decode(password[PREFIX_LEN..]).value).session == issued[0].claims.session
  {
    var c := issued[0].claims;
    assert GoodIssued(mac, issued[0]);
    TokenSlices(mac, issued[0].user, c);
    SlicesOfStart(issued[0].text, password, PREFIX_LEN, PREFIX_LEN + SESSION_ID_BASE64_LEN);
    DecodeAfter(c.session, password[PREFIX_LEN + SESSION_ID_BASE64_LEN..]);
  }
}

/** Base64 (section 4 of RFC 4648) as it is used for authentication tokens. */
module Base64 {
  import opened Octets

  // ---------------------------------------------------------------------
  // Alphabet
  // ---------------------------------------------------------------------

  type sextet = v: int | 0 <= v < 64

  function Char64(v: sextet): char {
    if v < 26 then (65 + v) as char
    else if v < 52 then (71 + v) as char
    else if v < 62 then (v - 4) as char
    else if v == 62 then '+' else '/'
  }

  /** "ABC...XYZabc...xyz0123456789+/" */
  const BASE64_CHARS: string := seq(64, v requires 0 <= v < 64 => Char64(v))

  function Pos(c: char): (p: int)
    ensures -1 <= p < 64
    ensures 0 <= p ==> Char64(p) == c
  {
    if 'A' <= c <= 'Z' then c as int - 65
    else if 'a' <= c <= 'z' then c as int - 71
    else if '0' <= c <= '9' then c as int + 4
    else if c == '+' then 62
    else if c == '/' then 63
    else -1
  }

  /** Letters that follow one another, given by the first one. */
  predicate Run(letters: string, first: char) {
    forall i :: 0 <= i < |letters| ==> letters[i] as int == first as int + i
  }

  lemma Runs()
    ensures Run("ABCDEFGHIJKLMNOPQRSTUVWXYZ", 'A')
    ensures Run("abcdefghijklmnopqrstuvwxyz", 'a')
    ensures Run("0123456789", '0')
  {
  }

  /** The letters in full. */
  lemma AlphabetIs()
    ensures BASE64_CHARS == "ABCDEFGHIJKLMNOPQRSTUVWXYZ" + "abcdefghijklmnopqrstuvwxyz" + "0123456789" + "+/"
  {
    Runs();
  }

  lemma PosOfChar64(v: sextet)
    ensures Pos(Char64(v)) == v && Char64(v) != '=' && Char64(v) != '\0'
  {
  }

  /** Linear search through the alphabet. */
  method FindPos(c: char) returns (p: int)
    ensures p == Pos(c)
  {
    var i := 0;
    while i < |BASE64_CHARS|
      invariant i <= 64
      invariant forall k: sextet :: k < i ==> Char64(k) != c
    {
      if BASE64_CHARS[i] == c {
        PosOfChar64(i);
        return i;
      }
      i := i + 1;
    }
    return -1;
  }

  // ---------------------------------------------------------------------
  // Groups of three bytes and four characters
  // ---------------------------------------------------------------------

  function S0(a: byte): sextet { a / 4 }

  function S1(a: byte, b: byte): sextet { a % 4 * 16 + b / 16 }

  function S2(b: byte, c: byte): sextet { b % 16 * 4 + c / 64 }

  function S3(c: byte): sextet { c % 64 }

  function B0(w: sextet, x: sextet): byte { w * 4 + x / 16 }

  function B1(x: sextet, y: sextet): byte { x % 16 * 16 + y / 4 }

  function B2(y: sextet, z: sextet): byte { y % 4 * 64 + z }

  lemma Div4(n: nat, q: nat, r: nat)
    requires n == q * 4 + r && r < 4
    ensures n / 4 == q && n % 4 == r
  {
  }

  lemma Div16(n: nat, q: nat, r: nat)
    requires n == q * 16 + r && r < 16
    ensures n / 16 == q && n % 16 == r
  {
  }

  lemma Div64(n: nat, q: nat, r: nat)
    requires n == q * 64 + r && r < 64
    ensures n / 64 == q && n % 64 == r
  {
  }

  lemma BytesOfSextets(a: byte, b: byte, c: byte)
    ensures B0(S0(a), S1(a, b)) == a && B1(S1(a, b), S2(b, c)) == b && B2(S2(b, c), S3(c)) == c
  {
    Div16(S1(a, b), a % 4, b / 16);
    Div4(S2(b, c), b % 16, c / 64);
  }

  /** The four values are the digits to base 64 of the 24 bits that the three bytes make up. */
  lemma SextetsAreDigits(a: byte, b: byte, c: byte)
    ensures ((S0(a) * 64 + S1(a, b)) * 64 + S2(b, c)) * 64 + S3(c) == (a * 256 + b) * 256 + c
  {
  }

  lemma SextetsOfBytes(w: sextet, x: sextet, y: sextet, z: sextet)
    ensures S0(B0(w, x)) == w && S1(B0(w, x), B1(x, y)) == x
    ensures S2(B1(x, y), B2(y, z)) == y && S3(B2(y, z)) == z
  {
    Div4(B0(w, x), w, x / 16);
    Div16(B1(x, y), x % 16, y / 4);
    Div64(B2(y, z), y % 4, z);
  }

  function Chars(w: sextet, x: sextet, y: sextet, z: sextet): string {
    [Char64(w), Char64(x), Char64(y), Char64(z)]
  }

  function Group(a: byte, b: byte, c: byte): (g: string)
    ensures |g| == 4
  {
    Chars(S0(a), S1(a, b), S2(b, c), S3(c))
  }

  type Quad = s: string | |s| == 4 witness "===="

  /** One to three bytes as four characters. */
  function EncodeHead(d: seq<byte>): Quad {
    if |d| == 1 then Group(d[0], 0, 0)[..2] + "=="
    else if |d| == 2 then Group(d[0], d[1], 0)[..3] + "="
    else if |d| == 3 then Group(d[0], d[1], d[2])
    else "===="
  }

  function HeadLen(d: seq<byte>): (n: nat)
    ensures n <= |d| && (d != [] ==> 1 <= n <= 3)
  {
    if |d| < 3 then |d| else 3
  }

  /** Text made of one quad for every three bytes, whatever the quads look like. */
  function EncodeWith(head: seq<byte> -> Quad, d: seq<byte>): string {
    if d == [] then "" else head(d[..HeadLen(d)]) + EncodeWith(head, d[HeadLen(d)..])
  }

  function Encode(d: seq<byte>): string { EncodeWith(EncodeHead, d) }

  /** How many pad characters a group ends in and the values of its letters, zero for pads. */
  datatype Token = Token(pads: nat, w: sextet, x: sextet, y: sextet, z: sextet)

  /** The value of four characters, if they are letters of the alphabet followed by at most two pads. */
  function TokenOf(g: string): (t: Option<Token>)
    requires |g| == 4
    ensures t.Some? ==> t.value.pads <= 2
  {
    var a, b, c, d := Pos(g[0]), Pos(g[1]), Pos(g[2]), Pos(g[3]);
    if a < 0 || b < 0 then None
    else if g[2] == '=' && g[3] == '=' then Some(Token(2, a, b, 0, 0))
    else if c < 0 then None
    else if g[3] == '=' then Some(Token(1, a, b, c, 0))
    else if d < 0 then None
    else Some(Token(0, a, b, c, d))
  }

  function TokenBytes(t: Token): (s: seq<byte>)
    requires t.pads <= 2
    ensures |s| == 3 - t.pads
  {
    [B0(t.w, t.x), B1(t.x, t.y), B2(t.y, t.z)][..3 - t.pads]
  }

  /** Decoding goes on as long as the next character may start a group. */
  predicate StartsGroup(s: string) { s != "" && (s[0] == '=' || Pos(s[0]) >= 0) }

  function Decode(s: string): Option<seq<byte>> {
    if !StartsGroup(s) then Some([])
    else if |s| < 4 then None
    else
      var t := TokenOf(s[..4]);
      if t.None? then None else Resume(TokenBytes(t.value), Decode(s[4..]))
  }

  /** The result when `q` has been decoded and `rest` is what the remaining text gives. */
  function Resume(q: seq<byte>, rest: Option<seq<byte>>): Option<seq<byte>> {
    if rest.None? then None else Some(q + rest.value)
  }

  lemma ResumeTwice(q: seq<byte>, r: seq<byte>, rest: Option<seq<byte>>)
    ensures Resume(q, Resume(r, rest)) == Resume(q + r, rest)
  {
    if rest.Some? { assert q + (r + rest.value) == (q + r) + rest.value; }
  }

  lemma ResumeLength(q: seq<byte>, rest: Option<seq<byte>>)
    requires Resume(q, rest).Some?
    ensures rest.Some? && |Resume(q, rest).value| == |q| + |rest.value|
  {
  }

  /** Four characters give at most three bytes. */
  lemma {:induction false} DecodedLength(s: string)
    requires Decode(s).Some?
    ensures 4 * |Decode(s).value| <= 3 * |s|
  {
    if StartsGroup(s) {
      var t := TokenOf(s[..4]);
      ResumeLength(TokenBytes(t.value), Decode(s[4..]));
      DecodedLength(s[4..]);
    }
  }

  // ---------------------------------------------------------------------
  // The loops
  // ---------------------------------------------------------------------

  lemma QuadCount(d: nat, rest: nat, n: nat)
    requires d > 0 && rest == (if d < 3 then 0 else d - 3)
    requires n % 4 == 0 && 4 * rest <= 3 * n <= 4 * rest + 8 && (rest % 3 == 0 ==> 3 * n == 4 * rest)
    ensures var m := n + 4;
            m % 4 == 0 && 4 * d <= 3 * m <= 4 * d + 8 && (d % 3 == 0 ==> 3 * m == 4 * d)
  {
  }

  lemma {:induction false} EncodeLength(head: seq<byte> -> Quad, d: seq<byte>)
    ensures var n := |EncodeWith(head, d)|;
            n % 4 == 0 && 4 * |d| <= 3 * n <= 4 * |d| + 8 && (|d| % 3 == 0 ==> 3 * n == 4 * |d|)
  {
    if d != [] {
      var rest := d[HeadLen(d)..];
      EncodeLength(head, rest);
      QuadCount(|d|, |rest|, |EncodeWith(head, rest)|);
    }
  }

  lemma Div4096(n: nat, q: nat, r: nat)
    requires n == q * 0x1000 + r && r < 0x1000
    ensures n / 0x1000 == q
  {
  }

  lemma Div262144(n: nat, q: nat, r: nat)
    requires n == q * 0x4_0000 + r && r < 0x4_0000
    ensures n / 0x4_0000 == q
  {
  }

  /** Four times six bits in one number. */
  lemma FourSextets(n: nat, w: sextet, x: sextet, y: sextet, z: sextet)
    requires n == w * 0x4_0000 + x * 0x1000 + y * 64 + z
    ensures n / 0x4_0000 % 64 == w && n / 0x1000 % 64 == x && n / 64 % 64 == y && n % 64 == z
  {
    Div262144(n, w, x * 0x1000 + y * 64 + z);
    Div4096(n, w * 64 + x, y * 64 + z);
    Div64(n, (w * 64 + x) * 64 + y, z);
    Div64(w * 64 + x, w, x);
    Div64((w * 64 + x) * 64 + y, w * 64 + x, y);
  }

  /** The 24 bits of a group cut into four times six. */
  lemma ShiftsAreSextets(a: byte, b: byte, c: byte, n: nat)
    requires n == (a * 256 + b) * 256 + c
    ensures n / 0x4_0000 % 64 == S0(a) && n / 0x1000 % 64 == S1(a, b)
    ensures n / 64 % 64 == S2(b, c) && n % 64 == S3(c)
  {
    assert a == a / 4 * 4 + a % 4 && b == b / 16 * 16 + b % 16 && c == c / 64 * 64 + c % 64;
    FourSextets(n, S0(a), S1(a, b), S2(b, c), S3(c));
  }

  method EncodeGroup(data: seq<byte>, i: nat) returns (q: string)
    requires i < |data|
    ensures q == EncodeHead(data[i..Min(i + 3, |data|)])
  {
    var size := |data|;
    var b: byte := if i + 1 < size then data[i + 1] else 0;
    var c: byte := if i + 2 < size then data[i + 2] else 0;
    var n: int := data[i];
    n := n * 256 + b;
    n := n * 256 + c;
    ShiftsAreSextets(data[i], b, c, n);
    q := [Char64(n / 0x4_0000 % 64), Char64(n / 0x1000 % 64), Char64(n / 64 % 64), Char64(n % 64)];
    assert q == Group(data[i], b, c);
    if i + 3 > size {
      q := q[3 := '='];
    }
    if i + 3 > size + 1 {
      q := q[2 := '='];
    }
  }

  lemma EncodeFrom(head: seq<byte> -> Quad, d: seq<byte>, i: nat)
    requires i < |d|
    ensures var j := Min(i + 3, |d|);
            EncodeWith(head, d[i..]) == head(d[i..j]) + EncodeWith(head, d[j..])
  {
    var rest, j := d[i..], Min(i + 3, |d|);
    assert rest[..HeadLen(rest)] == d[i..j] && rest[HeadLen(rest)..] == d[j..];
  }

  /**
   * Encodes three bytes at a time into a buffer of size * 4 / 3 + 4 bytes,
   * which has room for the text and its terminator. Fails when that size does
   * not fit an int.
   */
  method Base64Encode(data: seq<byte>) returns (r: Option<string>)
    ensures r.None? <==> |data| * 4 / 3 + 4 > INT_MAX
    ensures r.Some? ==> r.value == Encode(data) && |r.value| + 1 <= |data| * 4 / 3 + 4
  {
    var size := |data|;
    if size * 4 / 3 + 4 > INT_MAX {
      return None;
    }
    var p := EncodeGroups(data);
    EncodeLength(EncodeHead, data);
    return Some(p);
  }

  method EncodeGroups(data: seq<byte>) returns (p: string)
    ensures p == Encode(data)
  {
    p := "";
    var i := 0;
    assert data[0..] == data;
    while i < |data|
      invariant 0 <= i && p + Encode(data[Min(i, |data|)..]) == Encode(data)
      decreases |data| - i
    {
      var q := EncodeGroup(data, i);
      EncodeFrom(EncodeHead, data, i);
      p := p + q;
      i := i + 3;
    }
  }

  const DECODE_ERROR: nat := 0xffff_ffff

  /** Reads a C string: the terminator follows the last character, and nothing may be read behind it. */
  function At(s: string, i: nat): char
    requires i <= |s|
  {
    if i == |s| then '\0' else s[i]
  }

  /** A token as the source packs it into one word. */
  function Packed(t: Token): nat { t.pads * 0x100_0000 + ((t.w * 64 + t.x) * 64 + t.y) * 64 + t.z }

  lemma PackedBytes(t: Token, val: nat)
    requires t.pads <= 2 && val == Packed(t)
    ensures val != DECODE_ERROR && val / 0x100_0000 % 256 == t.pads
    ensures val / 0x1_0000 % 256 == B0(t.w, t.x) && val / 0x100 % 256 == B1(t.x, t.y) && val % 256 == B2(t.y, t.z)
  {
    SixBitsToBytes(t.w, t.x, t.y, t.z);
    FourBytes(val, t.pads, B0(t.w, t.x), B1(t.x, t.y), B2(t.y, t.z));
  }

  lemma FourBytes(n: nat, p: byte, a: byte, b: byte, c: byte)
    requires n == p * 0x100_0000 + a * 0x1_0000 + b * 0x100 + c
    ensures n / 0x100_0000 == p && n / 0x1_0000 % 256 == a && n / 0x100 % 256 == b && n % 256 == c
  {
    assert n / 0x100 == (p * 256 + a) * 256 + b;
    assert n / 0x1_0000 == p * 256 + a;
  }

  lemma SixBitsToBytes(w: sextet, x: sextet, y: sextet, z: sextet)
    ensures ((w * 64 + x) * 64 + y) * 64 + z == B0(w, x) * 0x1_0000 + B1(x, y) * 0x100 + B2(y, z)
  {
    assert x == x / 16 * 16 + x % 16;
    assert y == y / 4 * 4 + y % 4;
  }

  /** The value of four characters, or an error if there are not that many. */
  method TokenDecode(s: string, p: nat) returns (val: nat)
    requires '\0' !in s && p < |s|
    ensures val == if |s| - p < 4 || TokenOf(s[p..p + 4]).None? then DECODE_ERROR
                   else Packed(TokenOf(s[p..p + 4]).value)
  {
    if At(s, p) == '\0' || At(s, p + 1) == '\0' || At(s, p + 2) == '\0' || At(s, p + 3) == '\0' {
      return DECODE_ERROR;
    }
    val := GroupDecode(s[p..p + 4]);
  }

  /** Adds up six bits per character; pads may only follow letters. */
  method GroupDecode(g: string) returns (val: nat)
    requires |g| == 4
    ensures val == if TokenOf(g).None? then DECODE_ERROR else Packed(TokenOf(g).value)
  {
    val := 0;
    var marker := 0;
    for i := 0 to 4
      invariant 0 <= marker <= i
      invariant forall k :: 0 <= k < i - marker ==> g[k] != '=' && Pos(g[k]) >= 0
      invariant forall k :: i - marker <= k < i ==> g[k] == '='
      invariant val == Bits(g, i, marker)
    {
      val := val * 64;
      if g[i] == '=' {
        marker := marker + 1;
      } else if marker > 0 {
        return DECODE_ERROR;
      } else {
        var pos := FindPos(g[i]);
        if pos < 0 {
          return DECODE_ERROR;
        }
        val := val + pos;
      }
    }
    if marker > 2 {
      return DECODE_ERROR;
    }
    BitsOfToken(g, marker);
    return marker * 0x100_0000 + val;
  }

  /** The bits collected from the first i characters, the last `pads` of which are pads. */
  ghost function Bits(g: string, i: nat, pads: nat): nat
    requires pads <= i <= 4 == |g|
    requires forall k :: 0 <= k < i - pads ==> Pos(g[k]) >= 0
  {
    if i == 0 then 0
    else if pads > 0 then Bits(g, i - 1, pads - 1) * 64
    else Bits(g, i - 1, 0) * 64 + Pos(g[i - 1])
  }

  lemma BitsOfToken(g: string, pads: nat)
    requires |g| == 4 && pads <= 2
    requires forall k :: 0 <= k < 4 - pads ==> g[k] != '=' && Pos(g[k]) >= 0
    requires forall k :: 4 - pads <= k < 4 ==> g[k] == '='
    ensures TokenOf(g).Some? && Packed(TokenOf(g).value) == pads * 0x100_0000 + Bits(g, 4, pads)
  {
    assert Bits(g, 1, 0) == Bits(g, 0, 0) * 64 + Pos(g[0]) == Pos(g[0]);
    assert Bits(g, 2, 0) == Pos(g[0]) * 64 + Pos(g[1]);
    if pads == 2 {
      assert Bits(g, 3, 1) == Bits(g, 2, 0) * 64;
    } else {
      assert Bits(g, 3, 0) == Bits(g, 2, 0) * 64 + Pos(g[2]);
    }
  }

  /** One byte, and one more for each pad that is missing. */
  method Unpack(val: nat, ghost t: Token) returns (bytes: seq<byte>)
    requires t.pads <= 2 && val == Packed(t)
    ensures bytes == TokenBytes(t)
  {
    PackedBytes(t, val);
    var pads := val / 0x100_0000 % 256;
    var b0: byte, b1: byte, b2: byte := val / 0x1_0000 % 256, val / 0x100 % 256, val % 256;
    bytes := [b0, b1, b2][..3 - pads];
  }

  /**
   * Decodes up to the first character that cannot start a group. Fails, with
   * -1 in the source, on a broken group or when more than `size` bytes would
   * have to be written; a negative size means no bound.
   */
  method Base64Decode(s: string, size: int) returns (r: Option<seq<byte>>)
    requires '\0' !in s
    ensures var d := Decode(s);
            r == if d.Some? && (size < 0 || |d.value| <= size) then d else None
  {
    var q: seq<byte> := [];
    var p := 0;
    assert s[0..] == s;
    assert Decode(s).Some? ==> [] + Decode(s).value == Decode(s).value;
    while At(s, p) != '\0' && (At(s, p) == '=' || Pos(At(s, p)) >= 0)
      invariant p <= |s|
      invariant size >= 0 ==> |q| <= size
      invariant Resume(q, Decode(s[p..])) == Decode(s)
      decreases |s| - p
    {
      var val := TokenDecode(s, p);
      assert |s| - p >= 4 ==> s[p..][..4] == s[p..p + 4] && s[p..][4..] == s[p + 4..];
      if val == DECODE_ERROR {
        if |s| - p >= 4 && TokenOf(s[p..p + 4]).Some? { NotError(s, p); }
        return None;
      }
      var bytes := Unpack(val, TokenOf(s[p..p + 4]).value);
      if size >= 0 && |q| + |bytes| > size {
        return None;
      }
      ResumeTwice(q, bytes, Decode(s[p + 4..]));
      q := q + bytes;
      p := p + 4;
    }
    assert !StartsGroup(s[p..]) && q + [] == q;
    return Some(q);
  }

  lemma NotError(s: string, p: nat)
    requires p < |s| && |s| - p >= 4 && TokenOf(s[p..p + 4]).Some?
    ensures Packed(TokenOf(s[p..p + 4]).value) != DECODE_ERROR
  {
    PackedBytes(TokenOf(s[p..p + 4]).value, Packed(TokenOf(s[p..p + 4]).value));
  }

  // ---------------------------------------------------------------------
  // Laws
  // ---------------------------------------------------------------------

  lemma OneByte(a: byte)
    ensures TokenOf(EncodeHead([a])) == Some(Token(2, S0(a), S1(a, 0), 0, 0))
    ensures TokenBytes(Token(2, S0(a), S1(a, 0), 0, 0)) == [a]
  {
    assert EncodeHead([a]) == [Char64(S0(a)), Char64(S1(a, 0)), '=', '='];
    PosOfChar64(S0(a));
    PosOfChar64(S1(a, 0));
    assert B0(S0(a), S1(a, 0)) == a by { BytesOfSextets(a, 0, 0); }
  }

  lemma TwoBytes(a: byte, b: byte)
    ensures TokenOf(EncodeHead([a, b])) == Some(Token(1, S0(a), S1(a, b), S2(b, 0), 0))
    ensures TokenBytes(Token(1, S0(a), S1(a, b), S2(b, 0), 0)) == [a, b]
  {
    assert EncodeHead([a, b]) == [Char64(S0(a)), Char64(S1(a, b)), Char64(S2(b, 0)), '='];
    PosOfChar64(S0(a));
    PosOfChar64(S1(a, b));
    PosOfChar64(S2(b, 0));
    assert B0(S0(a), S1(a, b)) == a && B1(S1(a, b), S2(b, 0)) == b by { BytesOfSextets(a, b, 0); }
  }

  lemma ThreeBytes(a: byte, b: byte, c: byte)
    ensures TokenOf(EncodeHead([a, b, c])) == Some(Token(0, S0(a), S1(a, b), S2(b, c), S3(c)))
    ensures TokenBytes(Token(0, S0(a), S1(a, b), S2(b, c), S3(c))) == [a, b, c]
    ensures Unpadded(EncodeHead([a, b, c]))
  {
    PosOfChar64(S0(a));
    PosOfChar64(S1(a, b));
    PosOfChar64(S2(b, c));
    PosOfChar64(S3(c));
    BytesOfSextets(a, b, c);
  }

  /** A head reads back as the bytes it was made from. */
  lemma HeadToken(d: seq<byte>)
    requires 1 <= |d| <= 3
    ensures TokenOf(EncodeHead(d)).Some? && TokenBytes(TokenOf(EncodeHead(d)).value) == d
    ensures Pos(EncodeHead(d)[0]) >= 0
    ensures |d| == 3 ==> Unpadded(EncodeHead(d))
  {
    if |d| == 1 {
      assert d == [d[0]];
      OneByte(d[0]);
    } else if |d| == 2 {
      assert d == [d[0], d[1]];
      TwoBytes(d[0], d[1]);
    } else {
      assert d == [d[0], d[1], d[2]];
      ThreeBytes(d[0], d[1], d[2]);
    }
  }

  lemma DecodeGroup(g: Quad, text: string)
    requires Pos(g[0]) >= 0 && TokenOf(g).Some?
    ensures Decode(g + text) == Resume(TokenBytes(TokenOf(g).value), Decode(text))
  {
    var s := g + text;
    assert s[0] == g[0] && s[..4] == g && s[4..] == text;
  }

  /** Decoding undoes encoding, for every string of bytes. */
  lemma {:induction false} DecodeOfEncode(d: seq<byte>)
    ensures Decode(Encode(d)) == Some(d)
  {
    if d != [] {
      var head, rest := d[..HeadLen(d)], d[HeadLen(d)..];
      DecodeOfEncode(rest);
      HeadToken(head);
      DecodeGroup(EncodeHead(head), Encode(rest));
      assert d == head + rest;
    }
  }

  /** Text made of whole groups of letters, without pads. */
  predicate Unpadded(s: string) {
    |s| % 4 == 0 && forall i :: 0 <= i < |s| ==> Pos(s[i]) >= 0
  }

  lemma UnpaddedConcat(s: string, t: string)
    requires Unpadded(s) && Unpadded(t)
    ensures Unpadded(s + t)
  {
  }

  lemma SplitFront<T>(a: seq<T>, b: seq<T>, n: nat)
    requires n <= |a|
    ensures (a + b)[..n] == a[..n] && (a + b)[n..] == a[n..] + b
  {
  }

  lemma {:induction false} EncodeWithConcat(head: seq<byte> -> Quad, a: seq<byte>, b: seq<byte>)
    requires |a| % 3 == 0
    ensures EncodeWith(head, a + b) == EncodeWith(head, a) + EncodeWith(head, b)
  {
    if a == [] {
      assert a + b == b;
    } else {
      SplitFront(a, b, 3);
      EncodeWithConcat(head, a[3..], b);
    }
  }

  lemma {:induction false} EncodeWithUnpadded(head: seq<byte> -> Quad, a: seq<byte>)
    requires |a| % 3 == 0
    requires forall x :: |x| == 3 ==> Unpadded(head(x))
    ensures Unpadded(EncodeWith(head, a))
  {
    if a != [] {
      EncodeWithUnpadded(head, a[3..]);
      UnpaddedConcat(head(a[..3]), EncodeWith(head, a[3..]));
    }
  }

  /** Encoding a multiple of three bytes gives text that stands on its own. */
  lemma EncodeConcat(a: seq<byte>, b: seq<byte>)
    requires |a| % 3 == 0
    ensures Encode(a + b) == Encode(a) + Encode(b)
    ensures Unpadded(Encode(a))
  {
    EncodeWithConcat(EncodeHead, a, b);
    forall x: seq<byte> | |x| == 3 ensures Unpadded(EncodeHead(x)) {
      HeadToken(x);
    }
    EncodeWithUnpadded(EncodeHead, a);
  }

  /** So decoding may start and stop at any group boundary of unpadded text. */
  lemma {:induction false} DecodeConcat(a: string, b: string)
    requires Unpadded(a)
    ensures Decode(a).Some? && |Decode(a).value| == |a| / 4 * 3
    ensures Decode(a + b) == Resume(Decode(a).value, Decode(b))
  {
    if a == "" {
      assert a + b == b;
      assert Decode(b).Some? ==> [] + Decode(b).value == Decode(b).value;
    } else {
      DecodeConcat(a[4..], b);
      SplitFront(a, b, 4);
      assert TokenOf(a[..4]).Some? && TokenOf(a[..4]).value.pads == 0;
      ResumeTwice(TokenBytes(TokenOf(a[..4]).value), Decode(a[4..]).value, Decode(b));
    }
  }

  /** Every group is sound, so that decoding reads the text to its end. */
  predicate WellFormed(s: string) {
    s == "" || (|s| >= 4 && TokenOf(s[..4]).Some? && WellFormed(s[4..]))
  }

  /** The bits that the pads of a group cut off are zero. */
  predicate NoSpareBits(t: Token) {
    (t.pads == 1 ==> t.y / 4 * 4 == t.y) && (t.pads == 2 ==> t.x / 16 * 16 == t.x)
  }

  /** Pads only at the very end, and the bits they cut off are zero. */
  predicate Canonical(s: string)
    requires WellFormed(s)
  {
    s == ""
    || var t := TokenOf(s[..4]).value;
       (t.pads > 0 ==> |s| == 4) && NoSpareBits(t) && Canonical(s[4..])
  }

  lemma SpareBits(w: sextet, x: sextet, y: sextet)
    ensures S1(B0(w, x), 0) == x / 16 * 16 && S2(B1(x, y), 0) == y / 4 * 4
  {
    Div4(B0(w, x), w, x / 16);
    Div16(B1(x, y), x % 16, y / 4);
  }

  lemma SameChar(u: sextet, v: sextet)
    ensures Char64(u) == Char64(v) <==> u == v
  {
    PosOfChar64(u);
    PosOfChar64(v);
  }

  lemma OnePadHead(w: sextet, x: sextet, y: sextet)
    ensures EncodeHead([B0(w, x), B1(x, y)]) == [Char64(w), Char64(x), Char64(y / 4 * 4), '=']
  {
    SextetsOfBytes(w, x, y, 0);
    SpareBits(w, x, y);
  }

  lemma TwoPadHead(w: sextet, x: sextet)
    ensures EncodeHead([B0(w, x)]) == [Char64(w), Char64(x / 16 * 16), '=', '=']
  {
    SextetsOfBytes(w, x, 0, 0);
    SpareBits(w, x, 0);
  }

  lemma NoPadHead(w: sextet, x: sextet, y: sextet, z: sextet)
    ensures EncodeHead([B0(w, x), B1(x, y), B2(y, z)]) == Chars(w, x, y, z)
  {
    SextetsOfBytes(w, x, y, z);
  }

  /** The letters of a group are the letters of its values. */
  lemma GroupLetters(g: Quad, t: Token)
    requires TokenOf(g) == Some(t)
    ensures g[0] == Char64(t.w) && g[1] == Char64(t.x)
    ensures t.pads <= 1 ==> g[2] == Char64(t.y)
    ensures t.pads == 0 ==> g[3] == Char64(t.z)
    ensures t.pads >= 1 ==> g[3] == '='
    ensures t.pads == 2 ==> g[2] == '='
  {
  }

  lemma QuadEquality(e: Quad, g: Quad)
    ensures e == g <==> e[0] == g[0] && e[1] == g[1] && e[2] == g[2] && e[3] == g[3]
  {
    assert g == [g[0], g[1], g[2], g[3]] && e == [e[0], e[1], e[2], e[3]];
  }

  /** The group that the bytes of a token encode to. */
  function Rewritten(t: Token): Quad {
    if t.pads == 0 then Chars(t.w, t.x, t.y, t.z)
    else if t.pads == 1 then [Char64(t.w), Char64(t.x), Char64(t.y / 4 * 4), '=']
    else [Char64(t.w), Char64(t.x / 16 * 16), '=', '=']
  }

  lemma HeadOfToken(t: Token)
    requires t.pads <= 2
    ensures EncodeHead(TokenBytes(t)) == Rewritten(t)
  {
    if t.pads == 0 {
      NoPadHead(t.w, t.x, t.y, t.z);
    } else if t.pads == 1 {
      assert TokenBytes(t) == [B0(t.w, t.x), B1(t.x, t.y)];
      OnePadHead(t.w, t.x, t.y);
    } else {
      assert TokenBytes(t) == [B0(t.w, t.x)];
      TwoPadHead(t.w, t.x);
    }
  }

  lemma SameGroup(e: Quad, g: Quad, t: Token)
    requires TokenOf(g) == Some(t) && e == Rewritten(t)
    ensures e == g <==> NoSpareBits(t)
  {
    GroupLetters(g, t);
    QuadEquality(e, g);
    SameChar(t.x, t.x / 16 * 16);
    SameChar(t.y, t.y / 4 * 4);
  }

  /** A group is what its bytes encode to, unless it has bits that the bytes do not hold. */
  lemma TokenHead(g: Quad, t: Token)
    requires TokenOf(g) == Some(t)
    ensures EncodeHead(TokenBytes(t)) == g <==> NoSpareBits(t)
  {
    HeadOfToken(t);
    SameGroup(EncodeHead(TokenBytes(t)), g, t);
  }

  lemma {:induction false} PadsOnlyAtEnd(d: seq<byte>, k: nat)
    requires k + 4 < |Encode(d)|
    ensures Encode(d)[k] != '='
  {
    var head, rest := d[..HeadLen(d)], d[HeadLen(d)..];
    HeadToken(head);
    if k < 4 {
      EncodeLength(EncodeHead, rest);
    } else {
      PadsOnlyAtEnd(rest, k - 4);
    }
  }

  /** Text made of whole groups survives decoding and encoding again exactly when it is in canonical form. */
  lemma {:induction false} WellFormedSurvives(s: string)
    requires WellFormed(s)
    ensures Decode(s).Some?
    ensures Encode(Decode(s).value) == s <==> Canonical(s)
  {
    if s != "" {
      var g, rest := s[..4], s[4..];
      var t := TokenOf(g).value;
      WellFormedSurvives(rest);
      TokenHead(g, t);
      var bytes, more := TokenBytes(t), Decode(rest).value;
      assert s == g + rest && Decode(s).value == bytes + more;
      if t.pads == 0 || rest == "" {
        assert (bytes + more)[..HeadLen(bytes + more)] == bytes && (bytes + more)[HeadLen(bytes + more)..] == more;
        var e := EncodeHead(bytes) + Encode(more);
        assert e[..4] == EncodeHead(bytes) && e[4..] == Encode(more);
      } else if Encode(bytes + more) == s {
        PadsOnlyAtEnd(bytes + more, 3);
      }
    }
  }

  lemma {:induction false} EncodeIsWellFormed(d: seq<byte>)
    ensures WellFormed(Encode(d))
  {
    if d != [] {
      var head, rest := d[..HeadLen(d)], d[HeadLen(d)..];
      HeadToken(head);
      EncodeIsWellFormed(rest);
      var s := EncodeHead(head) + Encode(rest);
      assert s[..4] == EncodeHead(head) && s[4..] == Encode(rest);
    }
  }

  /**
   * For every text at all: it decodes and encodes back to itself exactly when
   * it consists of whole groups and is in canonical form.
   */
  lemma EncodeOfDecode(s: string)
    ensures Decode(s).Some? && Encode(Decode(s).value) == s <==> WellFormed(s) && Canonical(s)
  {
    if WellFormed(s) {
      WellFormedSurvives(s);
    } else if Decode(s).Some? {
      EncodeIsWellFormed(Decode(s).value);
    }
  }

  lemma QuadIsOneGroup(g: Quad)
    requires TokenOf(g).Some?
    ensures WellFormed(g)
  {
    assert g[..4] == g && g[4..] == "";
  }

  /** Set bits behind the end are lost: this text decodes, but encodes back to another one. */
  lemma SpareBitsAreLost()
    ensures Decode("QR==").Some? && Encode(Decode("QR==").value) != "QR=="
  {
    var g: Quad := "QR==";
    assert TokenOf(g) == Some(Token(2, 16, 17, 0, 0));
    QuadIsOneGroup(g);
    assert g[..4] == g;
    WellFormedSurvives(g);
  }

  /** A character outside the alphabet ends the decoding, and it is lost with all that follows. */
  lemma ForeignTailIsLost(d: seq<byte>, tail: string)
    requires |d| % 3 == 0 && tail != "" && Pos(tail[0]) < 0 && tail[0] != '='
    ensures Decode(Encode(d) + tail) == Some(d) && Encode(d) != Encode(d) + tail
  {
    EncodeConcat(d, []);
    DecodeOfEncode(d);
    DecodeConcat(Encode(d), tail);
    assert Decode(tail) == Some([]) && d + [] == d;
  }

  // ---------------------------------------------------------------------
  // The text as digits
  // ---------------------------------------------------------------------

  lemma LetterOf(v: sextet)
    ensures BASE64_CHARS[v] == Char64(v)
  {
  }

  /** Three bytes are written as the four digits to base 64 of their 24 bits, in front of the rest. */
  lemma EncodeThree(a: byte, b: byte, c: byte, rest: seq<byte>) returns (w: sextet, x: sextet, y: sextet, z: sextet)
    ensures ((w * 64 + x) * 64 + y) * 64 + z == (a * 256 + b) * 256 + c
    ensures Encode([a, b, c] + rest) ==
            [BASE64_CHARS[w], BASE64_CHARS[x], BASE64_CHARS[y], BASE64_CHARS[z]] + Encode(rest)
  {
    w, x, y, z := S0(a), S1(a, b), S2(b, c), S3(c);
    SextetsAreDigits(a, b, c);
    LetterOf(w);
    LetterOf(x);
    LetterOf(y);
    LetterOf(z);
    FirstQuad(EncodeHead, [a, b, c], rest);
  }

  lemma FirstQuad(head: seq<byte> -> Quad, d: seq<byte>, rest: seq<byte>)
    requires 1 <= |d| <= 3 && (|d| == 3 || rest == [])
    ensures EncodeWith(head, d + rest) == head(d) + EncodeWith(head, rest)
  {
    assert (d + rest)[..|d|] == d && (d + rest)[|d|..] == rest;
  }

  /** Two bytes at the end are written as three digits, with two zero bits behind theirs, and a pad. */
  lemma EncodeTwo(a: byte, b: byte) returns (w: sextet, x: sextet, y: sextet)
    ensures (w * 64 + x) * 64 + y == (a * 256 + b) * 4
    ensures Encode([a, b]) == [BASE64_CHARS[w], BASE64_CHARS[x], BASE64_CHARS[y], '=']
  {
    w, x, y := S0(a), S1(a, b), S2(b, 0);
    SextetsAreDigits(a, b, 0);
    LetterOf(w);
    LetterOf(x);
    LetterOf(y);
    FirstQuad(EncodeHead, [a, b], []);
    assert [a, b] + [] == [a, b];
  }

  /** One byte at the end is written as two digits, with four zero bits behind its own, and two pads. */
  lemma EncodeOne(a: byte) returns (w: sextet, x: sextet)
    ensures w * 64 + x == a * 16
    ensures Encode([a]) == [BASE64_CHARS[w], BASE64_CHARS[x], '=', '=']
  {
    w, x := S0(a), S1(a, 0);
    SextetsAreDigits(a, 0, 0);
    LetterOf(w);
    LetterOf(x);
    FirstQuad(EncodeHead, [a], []);
    assert [a] + [] == [a];
  }
}

/**
 * The static key file: its writer, and the reader that goes through the text
 * character by character.
 */
module StaticKey {
  import opened Octets
  import opened HexFormat

  const DASHES: string := "-----"
  const TITLE: string := "OpenVPN Static key V1"
  const STATIC_KEY_HEAD: string := DASHES + "BEGIN " + TITLE + DASHES
  const STATIC_KEY_FOOT: string := DASHES + "END " + TITLE + DASHES
  const KEY_LEN: nat := 128
  const KEYS_LEN: nat := 256

  // ---------------------------------------------------------------------
  // The reader
  // ---------------------------------------------------------------------

  predicate IsSpace(c: char) { c == ' ' || '\t' <= c <= '\r' }

  datatype State = Initial | Head | Data | DataComplete | Foot | Finished

  /**
   * Where the reader stands: its state, the position in the line, how many
   * characters of the line agree with the header or footer, the first digit of
   * an unfinished byte, and the key material. Fatal once it has given up.
   */
  datatype Reader =
    | Reader(state: State, lineIndex: nat, matched: nat, pending: Option<char>, out: seq<byte>)
    | Fatal

  const START := Reader(Initial, 0, 0, None, [])

  /** The state in which a character other than a newline is looked at. */
  function Entered(r: Reader, c: char): State
    requires r.Reader?
  {
    if r.lineIndex > 0 then r.state
    else
      var s := if r.state == Head then Data else r.state;
      if (s == Data || s == DataComplete) && c == '-' then Foot else s
  }

  predicate Agrees(line: string, i: nat, c: char) { i < |line| && c == line[i] }

  /** One character of key material. */
  function FeedData(r: Reader, c: char): Reader
    requires r.Reader? && (r.pending.Some? ==> IsXDigit(r.pending.value))
  {
    if IsXDigit(c) then
      if r.pending.None? then r.(pending := Some(c))
      else
        var out := r.out + [FromHex(r.pending.value, c)];
        r.(pending := None, out := out, state := if |out| == KEYS_LEN then DataComplete else r.state)
    else if IsSpace(c) then r
    else Fatal
  }

  predicate Valid(r: Reader) {
    r.Reader? ==>
      && (r.pending.Some? ==> IsXDigit(r.pending.value))
      && |r.out| <= KEYS_LEN
      && (r.state == Initial || r.state == Head ==> r.out == [] && r.pending == None)
      && (r.state == Data ==> |r.out| < KEYS_LEN)
  }

  /** The lines that enclose the key material. */
  datatype Marks = Marks(head: string, foot: string)

  function Feed(m: Marks, r: Reader, c: char): (n: Reader)
    requires Valid(r)
    ensures Valid(n)
  {
    if r.Fatal? then r
    else if c == '\n' then r.(lineIndex := 0, matched := 0)
    else
      var s := Entered(r, c);
      var next := r.(state := s, lineIndex := r.lineIndex + 1);
      match s
      case Initial =>
        if !Agrees(m.head, r.lineIndex, c) then next
        else next.(matched := r.matched + 1, state := if r.matched + 1 == |m.head| then Head else s)
      case Foot =>
        if !Agrees(m.foot, r.lineIndex, c) then next
        else next.(matched := r.matched + 1, state := if r.matched + 1 == |m.foot| then Finished else s)
      case Data => FeedData(next, c)
      case _ => next
  }

  function Run(m: Marks, r: Reader, text: string): (n: Reader)
    requires Valid(r)
    ensures Valid(n)
    decreases text
  {
    if text == "" then r else Run(m, Feed(m, r, text[0]), text[1..])
  }

  lemma {:induction false} RunConcat(m: Marks, r: Reader, a: string, b: string)
    requires Valid(r)
    ensures Run(m, r, a + b) == Run(m, Run(m, r, a), b)
    decreases a
  {
    if a == "" {
      assert a + b == b;
    } else {
      assert (a + b)[1..] == a[1..] + b;
      RunConcat(m, Feed(m, r, a[0]), a[1..], b);
    }
  }

  lemma RunOne(m: Marks, r: Reader, c: char)
    requires Valid(r)
    ensures Run(m, r, [c]) == Feed(m, r, c)
  {
    assert [c][1..] == "";
  }

  lemma RunSnoc(m: Marks, r: Reader, text: string, c: char)
    requires Valid(r)
    ensures Run(m, r, text + [c]) == Feed(m, Run(m, r, text), c)
  {
    RunConcat(m, r, text, [c]);
    RunOne(m, Run(m, r, text), c);
  }

  // ---------------------------------------------------------------------
  // Finding the header
  // ---------------------------------------------------------------------

  function LastLine(text: string): string {
    if text == "" || text[|text| - 1] == '\n' then "" else LastLine(text[..|text| - 1]) + [text[|text| - 1]]
  }

  /** How many characters of a line agree with those of another at the same positions. */
  function Agreement(line: string, h: string): nat {
    if line == "" then 0
    else
      var k := |line| - 1;
      Agreement(line[..k], h) + if Agrees(h, k, line[k]) then 1 else 0
  }

  lemma {:induction false} FullAgreement(line: string, h: string)
    ensures Agreement(line, h) <= |line| && Agreement(line, h) <= |h|
    ensures |line| <= |h| ==> (Agreement(line, h) == |line| <==> line <= h)
    ensures Agreement(line, h) == |h| <==> h <= line
  {
    if line != "" {
      var k := |line| - 1;
      FullAgreement(line[..k], h);
      assert line == line[..k] + [line[k]];
      if h <= line && |h| <= k { assert h <= line[..k]; }
    }
  }

  predicate HeaderAt(text: string, head: string, k: nat) {
    k <= |text| && (k == 0 || text[k - 1] == '\n') && head <= text[k..]
  }

  /** Some line of the text begins with the header. */
  ghost predicate HasHeader(text: string, head: string) { exists k :: HeaderAt(text, head, k) }

  lemma {:induction false} LastLineStart(text: string) returns (k: nat)
    ensures k <= |text| && (k == 0 || text[k - 1] == '\n') && text[k..] == LastLine(text) && '\n' !in LastLine(text)
  {
    if text == "" || text[|text| - 1] == '\n' {
      k := |text|;
    } else {
      k := LastLineStart(text[..|text| - 1]);
      assert text[k..] == text[..|text| - 1][k..] + [text[|text| - 1]];
    }
  }

  lemma {:induction false} LastLineIs(text: string, k: nat)
    requires k <= |text| && (k == 0 || text[k - 1] == '\n') && '\n' !in text[k..]
    ensures LastLine(text) == text[k..]
  {
    if k < |text| {
      var t := text[..|text| - 1];
      assert t[k..] == text[k..][..|text| - 1 - k];
      LastLineIs(t, k);
      assert text[k..] == t[k..] + [text[|text| - 1]];
      assert text[|text| - 1] == text[k..][|text| - 1 - k];
    }
  }

  lemma HeaderStays(text: string, c: char, head: string, k: nat)
    requires HeaderAt(text, head, k)
    ensures HeaderAt(text + [c], head, k)
  {
    assert (text + [c])[k..] == text[k..] + [c];
  }

  lemma HeaderCompleted(text: string, c: char, head: string, k: nat)
    requires head != "" && '\n' !in head && HeaderAt(text + [c], head, k)
    ensures HeaderAt(text, head, k) || LastLine(text + [c]) == head
  {
    var t := text + [c];
    if k + |head| <= |text| {
      assert text[k..] == t[k..][..|text| - k];
    } else {
      assert t[k..] == head;
      LastLineIs(t, k);
    }
  }

  lemma LastLineIsHeader(text: string, head: string)
    requires LastLine(text) == head
    ensures HasHeader(text, head)
  {
    var k := LastLineStart(text);
    assert HeaderAt(text, head, k);
  }

  /** A further character brings up the header exactly when it completes a line that is the header. */
  lemma HasHeaderSnoc(text: string, c: char, head: string)
    requires head != "" && '\n' !in head
    ensures HasHeader(text + [c], head) <==> HasHeader(text, head) || LastLine(text + [c]) == head
  {
    if k :| HeaderAt(text + [c], head, k) { HeaderCompleted(text, c, head, k); }
    if k :| HeaderAt(text, head, k) { HeaderStays(text, c, head, k); }
    if LastLine(text + [c]) == head { LastLineIsHeader(text + [c], head); }
  }

  /** The reader in front of the header, after a line of which this much has been read. */
  function Before(m: Marks, line: string): (r: Reader)
    ensures Valid(r) && r.Reader?
  {
    Reader(Initial, |line|, Agreement(line, m.head), None, [])
  }

  lemma FeedBefore(m: Marks, line: string, c: char)
    requires !(m.head <= line) && c != '\n'
    ensures Feed(m, Before(m, line), c) ==
            if line + [c] == m.head then Reader(Head, |m.head|, |m.head|, None, []) else Before(m, line + [c])
  {
    assert (line + [c])[..|line|] == line;
    FullAgreement(line, m.head);
    FullAgreement(line + [c], m.head);
  }

  lemma NeverBack(m: Marks, r: Reader, c: char)
    requires Valid(r) && (r.Fatal? || r.state != Initial)
    ensures var n := Feed(m, r, c);
            n.Fatal? || n.state != Initial
  {
  }

  lemma HeaderLine(text: string, head: string)
    requires !HasHeader(text, head)
    ensures !(head <= LastLine(text))
  {
    var k := LastLineStart(text);
    assert !HeaderAt(text, head, k);
  }

  /** The reader leaves its initial state exactly when a line begins with the header. */
  lemma {:induction false} HeaderSeen(m: Marks, text: string)
    requires m.head != "" && '\n' !in m.head
    ensures var r := Run(m, START, text);
            if HasHeader(text, m.head) then r.Fatal? || r.state != Initial else r == Before(m, LastLine(text))
  {
    if text == "" {
      assert !HasHeader("", m.head);
    } else {
      var t, c := text[..|text| - 1], text[|text| - 1];
      assert text == t + [c];
      HeaderSeen(m, t);
      RunSnoc(m, START, t, c);
      HasHeaderSnoc(t, c, m.head);
      if HasHeader(t, m.head) {
        NeverBack(m, Run(m, START, t), c);
      } else if c != '\n' {
        HeaderLine(t, m.head);
        FeedBefore(m, LastLine(t), c);
      }
    }
  }

  // ---------------------------------------------------------------------
  // Reading what was printed
  // ---------------------------------------------------------------------

  const STATIC_KEY := Marks(STATIC_KEY_HEAD, STATIC_KEY_FOOT)

  /** The marks are single lines that begin with a dash. */
  predicate Sound(m: Marks) {
    && m.head != "" && m.head[0] == '-' && '\n' !in m.head
    && m.foot != "" && m.foot[0] == '-' && '\n' !in m.foot
  }

  lemma TitleInLine()
    ensures '\n' !in TITLE
  {
  }

  lemma StaticKeySound()
    ensures Sound(STATIC_KEY) && |STATIC_KEY.head| + |STATIC_KEY.foot| <= 80
  {
    TitleInLine();
    assert STATIC_KEY_HEAD[0] == DASHES[0] && STATIC_KEY_FOOT[0] == DASHES[0];
  }

  function Decimal(n: nat): string {
    (if n < 10 then "" else Decimal(n / 10)) + [(48 + n % 10) as char]
  }

  /** The number that a text of digits stands for. */
  function Number(s: string): int {
    if s == "" then 0 else 10 * Number(s[..|s| - 1]) + (s[|s| - 1] as int - '0' as int)
  }

  lemma {:induction false} DecimalReads(n: nat)
    ensures Number(Decimal(n)) == n
    ensures forall c <- Decimal(n) :: '0' <= c <= '9'
  {
    var front := if n < 10 then "" else Decimal(n / 10);
    assert Decimal(n)[..|Decimal(n)| - 1] == front;
    if n >= 10 { DecimalReads(n / 10); }
  }

  lemma DecimalInLine(n: nat)
    ensures '\n' !in Decimal(n)
  {
    DecimalReads(n);
  }

  function Comment(nbits: nat): string { "# " + Decimal(nbits) + " bit OpenVPN static key" }

  /** Sixteen bytes on a line. */
  const LINES := Layout(16, "\n", false)

  function KeyLines(keys: seq<seq<byte>>): string {
    if keys == [] then "" else HexDump(keys[0], LINES) + "\n" + KeyLines(keys[1..])
  }

  /** On each line sixteen bytes, high digit first, in lower case, and a line break behind them. */
  lemma KeyLineAt(key: seq<byte>, more: seq<seq<byte>>, i: nat)
    requires i < |key|
    ensures var s, at := KeyLines([key] + more), i * 2 + i / 16;
            && at + 2 <= |s|
            && s[at] == "0123456789abcdef"[key[i] / 16] && s[at + 1] == "0123456789abcdef"[key[i] % 16]
            && (i > 0 && i % 16 == 0 ==> at > 0 && s[at - 1] == '\n')
  {
    DumpAt(key, LINES, i);
    DigitsAre(key[i] / 16, false);
    DigitsAre(key[i] % 16, false);
    var dump, at := HexDump(key, LINES), i * 2 + i / 16;
    assert ([key] + more)[0] == key;
    if i > 0 && i % 16 == 0 { assert dump[at - 1..at][0] == dump[at - 1]; }
  }

  function Flat(keys: seq<seq<byte>>): seq<byte> { if keys == [] then [] else keys[0] + Flat(keys[1..]) }

  /** The text of a key file. */
  function Print(m: Marks, keys: seq<seq<byte>>): string {
    ("#" + "\n") + (Comment(|keys| * KEY_LEN * 8) + "\n") + ("#" + "\n")
    + (m.head + "\n") + KeyLines(keys) + (m.foot + "\n")
  }

  lemma NoHeaderInLine(line: string, head: string, k: nat)
    requires line != "" && head != "" && line[0] != head[0] && '\n' !in line
    ensures !HeaderAt(line, head, k)
  {
    if k == 0 {
      assert line[0..] == line;
    } else if k <= |line| {
      assert line[k - 1] in line;
    }
  }

  lemma CommentLine(m: Marks, line: string)
    requires Sound(m) && line != "" && line[0] != '-' && '\n' !in line
    ensures Run(m, START, line + "\n") == START
  {
    HeaderSeen(m, line);
    forall k ensures !HeaderAt(line, m.head, k) { NoHeaderInLine(line, m.head, k); }
    RunSnoc(m, START, line, '\n');
  }

  lemma {:induction false} HeadPrefix(m: Marks, k: nat)
    requires Sound(m) && k <= |m.head|
    ensures Run(m, START, m.head[..k]) ==
            Reader(if k == |m.head| then Head else Initial, k, k, None, [])
  {
    if k > 0 {
      HeadPrefix(m, k - 1);
      RunSnoc(m, START, m.head[..k - 1], m.head[k - 1]);
      assert m.head[..k] == m.head[..k - 1] + [m.head[k - 1]];
    }
  }

  lemma HeadLine(m: Marks)
    requires Sound(m)
    ensures Run(m, START, m.head + "\n") == Reader(Head, 0, 0, None, [])
  {
    HeadPrefix(m, |m.head|);
    assert m.head[..|m.head|] == m.head;
    RunSnoc(m, START, m.head, '\n');
  }

  /** The reader between two bytes, holding all the key material so far. */
  predicate Holding(r: Reader, out: seq<byte>) {
    && r.Reader? && r.pending.None? && r.out == out && Valid(r)
    && if |out| == KEYS_LEN then r.state == DataComplete
       else r.state == Data || (r.state == Head && r.lineIndex == 0)
  }

  lemma HoldDigits(m: Marks, r: Reader, out: seq<byte>, a: char, b: char)
    requires Holding(r, out) && |out| < KEYS_LEN && IsXDigit(a) && IsXDigit(b)
    ensures Holding(Feed(m, Feed(m, r, a), b), out + [FromHex(a, b)])
  {
    assert a != '\n' && a != '-' && b != '\n' && b != '-';
    var s := Feed(m, r, a);
    assert s == Reader(Data, r.lineIndex + 1, r.matched, Some(a), out);
  }

  lemma HoldByte(m: Marks, r: Reader, out: seq<byte>, b: byte)
    requires Holding(r, out) && |out| < KEYS_LEN
    ensures Holding(Run(m, r, Hex2(b, false)), out + [b])
  {
    var x, y := Hex2(b, false)[0], Hex2(b, false)[1];
    FromHexOfHex2(b, false);
    assert Hex2(b, false) == [x] + [y];
    RunSnoc(m, r, [x], y);
    RunOne(m, r, x);
    HoldDigits(m, r, out, x, y);
  }

  lemma HoldNewline(m: Marks, r: Reader, out: seq<byte>)
    requires Holding(r, out)
    ensures var n := Run(m, r, "\n");
            Holding(n, out) && n.lineIndex == 0 && n.matched == 0
  {
    RunOne(m, r, '\n');
  }

  lemma HoldPiece(m: Marks, r: Reader, out: seq<byte>, i: nat, b: byte)
    requires Holding(r, out) && |out| < KEYS_LEN
    ensures Holding(Run(m, r, Gap(i, LINES) + Hex2(b, false)), out + [b])
  {
    if i > 0 && i % 16 == 0 {
      HoldNewline(m, r, out);
      RunConcat(m, r, "\n", Hex2(b, false));
      HoldByte(m, Run(m, r, "\n"), out, b);
    } else {
      assert "" + Hex2(b, false) == Hex2(b, false);
      HoldByte(m, r, out, b);
    }
  }

  lemma {:induction false} HoldDump(m: Marks, r: Reader, out: seq<byte>, data: seq<byte>, i: nat)
    requires Holding(r, out) && i <= |data| && |out| + |data| - i <= KEYS_LEN
    ensures Holding(Run(m, r, HexFrom(data, i, LINES)), out + data[i..])
    decreases |data| - i
  {
    if i == |data| {
      assert out + data[i..] == out;
    } else {
      var piece := Gap(i, LINES) + Hex2(data[i], false);
      RunConcat(m, r, piece, HexFrom(data, i + 1, LINES));
      HoldPiece(m, r, out, i, data[i]);
      HoldDump(m, Run(m, r, piece), out + [data[i]], data, i + 1);
      assert out + [data[i]] + data[i + 1..] == out + data[i..];
    }
  }

  lemma HoldKey(m: Marks, r: Reader, out: seq<byte>, key: seq<byte>)
    requires Holding(r, out) && |out| + |key| <= KEYS_LEN
    ensures var n := Run(m, r, HexDump(key, LINES) + "\n");
            Holding(n, out + key) && n.lineIndex == 0 && n.matched == 0
  {
    RunConcat(m, r, HexDump(key, LINES), "\n");
    HoldDump(m, r, out, key, 0);
    assert key[0..] == key;
    HoldNewline(m, Run(m, r, HexDump(key, LINES)), out + key);
  }

  lemma {:induction false} HoldKeys(m: Marks, r: Reader, out: seq<byte>, keys: seq<seq<byte>>)
    requires Holding(r, out) && r.lineIndex == 0 && r.matched == 0 && |out| + |Flat(keys)| <= KEYS_LEN
    ensures var n := Run(m, r, KeyLines(keys));
            Holding(n, out + Flat(keys)) && n.lineIndex == 0 && n.matched == 0
    decreases keys
  {
    if keys == [] {
      assert out + [] == out;
    } else {
      var line := HexDump(keys[0], LINES) + "\n";
      RunConcat(m, r, line, KeyLines(keys[1..]));
      HoldKey(m, r, out, keys[0]);
      HoldKeys(m, Run(m, r, line), out + keys[0], keys[1..]);
      assert out + keys[0] + Flat(keys[1..]) == out + Flat(keys);
    }
  }

  lemma {:induction false} FootPrefix(m: Marks, r: Reader, out: seq<byte>, k: nat)
    requires Sound(m) && Holding(r, out) && r.lineIndex == 0 && r.matched == 0 && 0 < k <= |m.foot|
    ensures Run(m, r, m.foot[..k]) == Reader(if k == |m.foot| then Finished else Foot, k, k, None, out)
  {
    var last := m.foot[k - 1];
    assert last in m.foot;
    if k > 1 { FootPrefix(m, r, out, k - 1); }
    RunSnoc(m, r, m.foot[..k - 1], last);
    assert m.foot[..k] == m.foot[..k - 1] + [last];
  }

  lemma FootLine(m: Marks, r: Reader, out: seq<byte>)
    requires Sound(m) && Holding(r, out) && r.lineIndex == 0 && r.matched == 0
    ensures Run(m, r, m.foot + "\n") == Reader(Finished, 0, 0, None, out)
  {
    FootPrefix(m, r, out, |m.foot|);
    assert m.foot[..|m.foot|] == m.foot;
    RunSnoc(m, r, m.foot, '\n');
  }

  lemma RunThree(m: Marks, a: string, b: string, c: string)
    requires Run(m, START, a) == START && Run(m, START, b) == START && Run(m, START, c) == START
    ensures Run(m, START, a + b + c) == START
  {
    RunConcat(m, START, a, b);
    RunConcat(m, START, a + b, c);
  }

  /** Behind comment lines and the header line the reader waits for key material. */
  lemma RunFront(m: Marks, comments: string)
    requires Sound(m) && Run(m, START, comments) == START
    ensures Run(m, START, comments + (m.head + "\n")) == Reader(Head, 0, 0, None, [])
  {
    RunConcat(m, START, comments, m.head + "\n");
    HeadLine(m);
  }

  lemma RunBack(m: Marks, front: string, keys: seq<seq<byte>>)
    requires Sound(m) && |Flat(keys)| <= KEYS_LEN && Run(m, START, front) == Reader(Head, 0, 0, None, [])
    ensures Run(m, START, front + KeyLines(keys) + (m.foot + "\n")) == Reader(Finished, 0, 0, None, Flat(keys))
  {
    RunConcat(m, START, front, KeyLines(keys));
    HoldKeys(m, Reader(Head, 0, 0, None, []), [], keys);
    assert [] + Flat(keys) == Flat(keys);
    RunConcat(m, START, front + KeyLines(keys), m.foot + "\n");
    FootLine(m, Run(m, START, front + KeyLines(keys)), Flat(keys));
  }

  /** The reader gets from the start of a printed file to the material, and from there to the end. */
  lemma RunPrint(m: Marks, keys: seq<seq<byte>>)
    requires Sound(m) && |Flat(keys)| <= KEYS_LEN
    ensures Run(m, START, Print(m, keys)) == Reader(Finished, 0, 0, None, Flat(keys))
  {
    var hash, comment := "#" + "\n", Comment(|keys| * KEY_LEN * 8) + "\n";
    DecimalInLine(|keys| * KEY_LEN * 8);
    CommentLine(m, "#");
    CommentLine(m, Comment(|keys| * KEY_LEN * 8));
    RunThree(m, hash, comment, hash);
    RunFront(m, hash + comment + hash);
    RunBack(m, hash + comment + hash + (m.head + "\n"), keys);
  }

  // ---------------------------------------------------------------------
  // Writing the file
  // ---------------------------------------------------------------------

  const BUFFER_SIZE: nat := 2048

  lemma DecimalDigit(n: nat, digits: nat)
    requires n < 10 || |Decimal(n / 10)| <= digits
    ensures |Decimal(n)| <= digits + 1
  {
  }

  lemma DecimalLength(n: nat)
    requires n < 10000
    ensures |Decimal(n)| <= 4
  {
    var a := n / 10;
    var b := a / 10;
    var c := b / 10;
    DecimalDigit(c, 0);
    DecimalDigit(b, 1);
    DecimalDigit(a, 2);
    DecimalDigit(n, 3);
  }

  /** Puts the file together; for one or two keys it fits the buffer with its terminator. */
  method WriteKeyFile(m: Marks, keys: seq<seq<byte>>) returns (out: string)
    ensures out == Print(m, keys)
    ensures |keys| <= 2 && |m.head| + |m.foot| <= 80 && (forall k <- keys :: |k| == KEY_LEN) ==> |out| < BUFFER_SIZE
  {
    var nbits := |keys| * KEY_LEN * 8;
    out := "#" + "\n" + (Comment(nbits) + "\n") + ("#" + "\n") + (m.head + "\n");
    ghost var front := out;
    if |keys| <= 2 { DecimalLength(nbits); }
    var i := 0;
    assert keys[0..] == keys;
    while i < |keys|
      invariant i <= |keys|
      invariant out + KeyLines(keys[i..]) == front + KeyLines(keys)
      invariant (forall k <- keys :: |k| == KEY_LEN) ==> |out| <= |front| + i * 265
    {
      var fmt := FormatHexEx(keys[i], 0, 16, false, Some("\n"));
      assert keys[i..][1..] == keys[i + 1..];
      Associative(out, fmt + "\n", KeyLines(keys[i + 1..]));
      DumpFitsAllocation(keys[i], LINES);
      assert (forall k <- keys :: |k| == KEY_LEN) ==> |keys[i]| == KEY_LEN;
      out := out + (fmt + "\n");
      i := i + 1;
    }
    assert out + "" == out;
    out := out + (m.foot + "\n");
  }

  // ---------------------------------------------------------------------
  // The result
  // ---------------------------------------------------------------------

  /** The number of whole keys that were found, and the buffer they are in. */
  datatype Key2 = Key2(n: nat, keys: seq<byte>)

  function Zeros(n: nat): (z: seq<byte>)
    ensures |z| == n
  {
    seq(n, _ => 0)
  }

  /** What reading comes to; None where the source gives up with a fatal error. */
  function Result(r: Reader, mustSucceed: bool): Option<Key2>
    requires Valid(r)
  {
    if r.Fatal? then None
    else
      var n := |r.out| / KEY_LEN;
      if mustSucceed && (n == 0 || r.state != Finished) then None
      else Some(Key2(n, r.out + Zeros(KEYS_LEN - |r.out|)))
  }

  /** Text given inline is read together with its terminator. */
  function Read(m: Marks, text: string, inlined: bool, mustSucceed: bool): Option<Key2> {
    Result(Run(m, START, if inlined then text + "\0" else text), mustSucceed)
  }

  /** Nothing behind the footer matters. */
  lemma ReadFinished(m: Marks, text: string, keys: seq<seq<byte>>, inlined: bool, mustSucceed: bool)
    requires Run(m, START, text) == Reader(Finished, 0, 0, None, Flat(keys))
    requires 1 <= |keys| <= 2 && |Flat(keys)| == |keys| * KEY_LEN
    ensures Read(m, text, inlined, mustSucceed) ==
            Some(Key2(|keys|, Flat(keys) + Zeros(KEYS_LEN - |Flat(keys)|)))
  {
    RunSnoc(m, START, text, '\0');
  }

  /** Reading a printed file gives back the keys that were printed, whether from a file or inline. */
  lemma ReadOfPrint(m: Marks, keys: seq<seq<byte>>, inlined: bool, mustSucceed: bool)
    requires Sound(m) && 1 <= |keys| <= 2 && forall k <- keys :: |k| == KEY_LEN
    ensures |Flat(keys)| <= KEYS_LEN
    ensures Read(m, Print(m, keys), inlined, mustSucceed) ==
            Some(Key2(|keys|, Flat(keys) + Zeros(KEYS_LEN - |Flat(keys)|)))
  {
    FlatLength(keys);
    RunPrint(m, keys);
    ReadFinished(m, Print(m, keys), keys, inlined, mustSucceed);
  }

  lemma {:induction false} FlatLength(keys: seq<seq<byte>>)
    requires forall k <- keys :: |k| == KEY_LEN
    ensures |Flat(keys)| == |keys| * KEY_LEN
  {
    if keys != [] { FlatLength(keys[1..]); }
  }

  /** A key that had to be found stands behind a header line, and is one key or two. */
  lemma ReadNeedsHeader(m: Marks, text: string, inlined: bool)
    requires Sound(m)
    ensures var k := Read(m, text, inlined, true);
            k.Some? ==> 1 <= k.value.n <= 2 && HasHeader(if inlined then text + "\0" else text, m.head)
  {
    HeaderSeen(m, if inlined then text + "\0" else text);
  }

  /** The second digit of a byte completes it. */
  method StoreDigit(keys: array<byte>, pending: Option<char>, count: nat, c: char) returns (p: Option<char>, n: nat)
    requires keys.Length == KEYS_LEN && count < KEYS_LEN && IsXDigit(c)
    requires pending.Some? ==> IsXDigit(pending.value)
    requires forall k :: count <= k < KEYS_LEN ==> keys[k] == 0
    modifies keys
    ensures p == (if pending.None? then Some(c) else None) && n <= KEYS_LEN
    ensures n == (if pending.None? then count else count + 1)
    ensures keys[..n] == old(keys[..count]) + if pending.None? then [] else [FromHex(pending.value, c)]
    ensures forall k :: n <= k < KEYS_LEN ==> keys[k] == 0
  {
    if pending.None? {
      return Some(c), count;
    } else {
      keys[count] := FromHex(pending.value, c);
      return None, count + 1;
    }
  }

  /** The buffer holds the material in front and zeros behind. */
  ghost predicate Buffered(keys: seq<byte>, count: nat) {
    |keys| == KEYS_LEN && count <= KEYS_LEN && forall k :: count <= k < KEYS_LEN ==> keys[k] == 0
  }

  /** One character; false where the source gives up. */
  method ReadChar(m: Marks, c: char, keys: array<byte>, state: State, lineIndex: nat, matched: nat,
                  pending: Option<char>, count: nat)
    returns (ok: bool, s: State, line: nat, agreed: nat, digit: Option<char>, n: nat)
    requires Buffered(keys[..], count) && Valid(Reader(state, lineIndex, matched, pending, keys[..count]))
    modifies keys
    ensures Buffered(keys[..], n)
    ensures var next := Feed(m, Reader(state, lineIndex, matched, pending, old(keys[..count])), c);
            if ok then next == Reader(s, line, agreed, digit, keys[..n]) else next.Fatal?
  {
    s, line, agreed, digit, n := state, lineIndex, matched, pending, count;
    if c == '\n' {
      return true, s, 0, 0, digit, n;
    }
    if line == 0 {
      if s == Head {
        s := Data;
      }
      if (s == Data || s == DataComplete) && c == '-' {
        s := Foot;
      }
    }
    if s == Initial {
      if line < |m.head| && c == m.head[line] {
        agreed := agreed + 1;
        if agreed == |m.head| {
          s := Head;
        }
      }
    } else if s == Foot {
      if line < |m.foot| && c == m.foot[line] {
        agreed := agreed + 1;
        if agreed == |m.foot| {
          s := Finished;
        }
      }
    } else if s == Data {
      if IsXDigit(c) {
        digit, n := StoreDigit(keys, digit, n, c);
        if digit.None? && n == KEYS_LEN {
          s := DataComplete;
        }
      } else if !IsSpace(c) {
        return false, s, line, agreed, digit, n;
      }
    }
    return true, s, line + 1, agreed, digit, n;
  }

  /**
   * Goes through the text and fills the key buffer; the buffer is never
   * written behind its end. Without success the source ends the process.
   */
  method ReadKeyFile(m: Marks, text: string, inlined: bool, mustSucceed: bool, keys: array<byte>)
    returns (n: Option<nat>)
    requires keys.Length == KEYS_LEN
    modifies keys
    ensures var k := Read(m, text, inlined, mustSucceed);
            if k.None? then n.None? else n == Some(k.value.n) && keys[..] == k.value.keys
  {
    var input := if inlined then text + "\0" else text;
    forall k | 0 <= k < KEYS_LEN { keys[k] := 0; }
    var state, lineIndex: nat, matched: nat, pending, count: nat := Initial, 0, 0, None, 0;
    var i := 0;
    assert input[..0] == "";
    while i < |input|
      invariant i <= |input| && Buffered(keys[..], count)
      invariant Reader(state, lineIndex, matched, pending, keys[..count]) == Run(m, START, input[..i])
    {
      var ok: bool;
      assert input[..i + 1] == input[..i] + [input[i]];
      RunSnoc(m, START, input[..i], input[i]);
      ok, state, lineIndex, matched, pending, count :=
        ReadChar(m, input[i], keys, state, lineIndex, matched, pending, count);
      if !ok {
        StaysFatal(m, input, i + 1);
        return None;
      }
      i := i + 1;
    }
    assert input[..i] == input;
    var found := count / KEY_LEN;
    if mustSucceed {
      if found == 0 {
        return None;
      }
      if state != Finished {
        return None;
      }
    }
    assert keys[..] == keys[..count] + Zeros(KEYS_LEN - count);
    return Some(found);
  }

  lemma StaysFatal(m: Marks, input: string, i: nat)
    requires i <= |input| && Run(m, START, input[..i]).Fatal?
    ensures Run(m, START, input).Fatal?
  {
    RunConcat(m, START, input[..i], input[i..]);
    assert input == input[..i] + input[i..];
    FatalRun(m, input[i..]);
  }

  lemma {:induction false} FatalRun(m: Marks, text: string)
    ensures Run(m, Fatal, text) == Fatal
  {
    if text != "" { FatalRun(m, text[1..]); }
  }

  // ---------------------------------------------------------------------
  // The program's own header and footer
  // ---------------------------------------------------------------------

  /** The reader leaves its initial state exactly when a line begins with the header of a static key. */
  lemma StaticKeyHeaderSeen(text: string)
    ensures var r := Run(STATIC_KEY, START, text);
            HasHeader(text, STATIC_KEY_HEAD) <==> r.Fatal? || r.state != Initial
  {
    StaticKeySound();
    HeaderSeen(STATIC_KEY, text);
  }

  /** A mandatory read of a static key that succeeds has found its header and one key or two. */
  lemma StaticKeyNeedsHeader(text: string, inlined: bool)
    ensures var k := Read(STATIC_KEY, text, inlined, true);
            k.Some? ==> 1 <= k.value.n <= 2 && HasHeader(if inlined then text + "\0" else text, STATIC_KEY_HEAD)
  {
    StaticKeySound();
    ReadNeedsHeader(STATIC_KEY, text, inlined);
  }

  /** Reading a printed static key file gives back its keys. */
  lemma StaticKeyRoundTrip(keys: seq<seq<byte>>, inlined: bool, mustSucceed: bool)
    requires 1 <= |keys| <= 2 && forall k <- keys :: |k| == KEY_LEN
    ensures |Flat(keys)| <= KEYS_LEN
    ensures Read(STATIC_KEY, Print(STATIC_KEY, keys), inlined, mustSucceed) ==
            Some(Key2(|keys|, Flat(keys) + Zeros(KEYS_LEN - |Flat(keys)|)))
  {
    StaticKeySound();
    ReadOfPrint(STATIC_KEY, keys, inlined, mustSucceed);
  }

  /** Writing one or two keys to a file and reading the file back fills the buffer with the same keys. */
  method WriteAndRead(keys: seq<seq<byte>>, inlined: bool, mustSucceed: bool, buf: array<byte>) returns (n: Option<nat>)
    requires 1 <= |keys| <= 2 && (forall k <- keys :: |k| == KEY_LEN) && buf.Length == KEYS_LEN
    modifies buf
    ensures n == Some(|keys|) && Flat(keys) <= buf[..]
    ensures forall k :: |Flat(keys)| <= k < KEYS_LEN ==> buf[k] == 0
  {
    StaticKeySound();
    StaticKeyRoundTrip(keys, inlined, mustSucceed);
    var text := WriteKeyFile(STATIC_KEY, keys);
    assert |text| < BUFFER_SIZE;
    n := ReadKeyFile(STATIC_KEY, text, inlined, mustSucceed, buf);
    assert forall k :: |Flat(keys)| <= k < KEYS_LEN ==> buf[..][k] == 0;
  }
}

/**
 * The hex dump of a byte string, into a buffer that is large enough or of a
 * given size.
 */
module HexFormat {
  import opened Octets

  // ---------------------------------------------------------------------
  // Hex digits
  // ---------------------------------------------------------------------

  type nibble = v: int | 0 <= v < 16

  /** In upper case where `caps` is set. */
  function HexDigit(v: nibble, caps: bool): char {
    if v < 10 then (48 + v) as char else if caps then (55 + v) as char else (87 + v) as char
  }

  predicate IsXDigit(c: char) { '0' <= c <= '9' || 'a' <= c <= 'f' || 'A' <= c <= 'F' }

  function HexValue(c: char): nibble
    requires IsXDigit(c)
  {
    if c <= '9' then c as int - 48 else if c <= 'F' then c as int - 55 else c as int - 87
  }

  function FromHex(a: char, b: char): byte
    requires IsXDigit(a) && IsXDigit(b)
  {
    HexValue(a) * 16 + HexValue(b)
  }

  /** A byte as two hex digits. */
  function Hex2(b: byte, caps: bool): (s: string)
    ensures |s| == 2
  {
    [HexDigit(b / 16, caps), HexDigit(b % 16, caps)]
  }

  /** The digits in full. */
  lemma DigitsAre(v: nibble, caps: bool)
    ensures HexDigit(v, caps) == (if caps then "0123456789ABCDEF" else "0123456789abcdef")[v]
  {
  }

  lemma HexDigitIsHex(v: nibble, caps: bool)
    ensures var c := HexDigit(v, caps);
            IsXDigit(c) && HexValue(c) == v && c != '\n' && c != '-'
  {
  }

  /** Reading the two digits of a byte gives the byte back. */
  lemma FromHexOfHex2(b: byte, caps: bool)
    ensures var s := Hex2(b, caps);
            IsXDigit(s[0]) && IsXDigit(s[1]) && FromHex(s[0], s[1]) == b
  {
    HexDigitIsHex(b / 16, caps);
    HexDigitIsHex(b % 16, caps);
  }

  // ---------------------------------------------------------------------
  // The hex dump
  // ---------------------------------------------------------------------

  /** How a dump is laid out: a separator in front of every block of bytes but the first, and the case of digits. */
  datatype Layout = Layout(block: nat, separator: string, caps: bool)

  predicate ValidLayout(l: Layout) { l.block > 0 }

  /** The separator, if any, in front of the byte at position i. */
  function Gap(i: nat, l: Layout): string
    requires ValidLayout(l)
  {
    if i > 0 && i % l.block == 0 then l.separator else ""
  }

  function HexFrom(data: seq<byte>, i: nat, l: Layout): string
    requires ValidLayout(l) && i <= |data|
    decreases |data| - i
  {
    if i == |data| then "" else Gap(i, l) + Hex2(data[i], l.caps) + HexFrom(data, i + 1, l)
  }

  function HexDump(data: seq<byte>, l: Layout): string
    requires ValidLayout(l)
  {
    HexFrom(data, 0, l)
  }

  /** The number of separators in front of the first i bytes. */
  function Separators(i: nat, block: nat): nat
    requires block > 0
  {
    if i == 0 then 0 else Separators(i - 1, block) + if i > 1 && (i - 1) % block == 0 then 1 else 0
  }

  lemma {:induction false} MulOrder(p: nat, q: nat, c: nat)
    requires p < q
    ensures p * c + c <= q * c
  {
    assert q * c == (q - 1) * c + c;
    if p < q - 1 { MulOrder(p, q - 1, c); }
  }

  lemma DivMod(n: nat, block: nat)
    requires block > 0
    ensures n == n / block * block + n % block
  {
  }

  /** Quotient and remainder are determined by the equation between them. */
  lemma DivModUnique(n: nat, block: nat, q: nat, r: nat)
    requires r < block && n == q * block + r
    ensures n / block == q && n % block == r
  {
    var p := n / block;
    DivMod(n, block);
    if p < q {
      MulOrder(p, q, block);
    } else if p > q {
      MulOrder(q, p, block);
    }
  }

  /** There are as many separators as whole blocks in front of the last byte. */
  lemma {:induction false} SeparatorsAre(i: nat, block: nat)
    requires block > 0
    ensures Separators(i + 1, block) == i / block
  {
    if i == 0 {
      DivModUnique(0, block, 0, 0);
      assert Separators(0, block) == 0;
    } else {
      SeparatorsAre(i - 1, block);
      var q, r := (i - 1) / block, (i - 1) % block;
      DivMod(i - 1, block);
      if r + 1 == block {
        assert (q + 1) * block == q * block + block;
        DivModUnique(i, block, q + 1, 0);
      } else {
        DivModUnique(i, block, q, r + 1);
      }
    }
  }

  lemma DivMonotone(m: nat, n: nat, block: nat)
    requires block > 0 && m <= n
    ensures m / block <= n / block
  {
    var p, q := m / block, n / block;
    DivMod(m, block);
    DivMod(n, block);
    if p > q {
      MulOrder(q, p, block);
    }
  }

  /** What i bytes take up fits in front of the last two bytes of the allocation. */
  lemma PiecesFit(size: nat, i: nat, block: nat, len: nat)
    requires block > 0 && i <= size
    ensures Separators(i, block) * len <= size / block * len
  {
    if i > 0 {
      SeparatorsAre(i - 1, block);
      DivMonotone(i - 1, size, block);
      if Separators(i, block) < size / block { MulOrder(Separators(i, block), size / block, len); }
    }
  }

  lemma SeparatorsStep(i: nat, block: nat, len: nat)
    requires block > 0
    ensures Separators(i + 1, block) * len == Separators(i, block) * len + (if i > 0 && i % block == 0 then len else 0)
  {
    assert (Separators(i, block) + 1) * len == Separators(i, block) * len + len;
  }

  lemma Associative(a: string, b: string, c: string)
    ensures a + (b + c) == (a + b) + c
  {
  }

  lemma {:induction false} HexFromLength(data: seq<byte>, i: nat, l: Layout)
    requires ValidLayout(l) && i <= |data|
    ensures |HexFrom(data, i, l)| + i * 2 + Separators(i, l.block) * |l.separator| ==
            |data| * 2 + Separators(|data|, l.block) * |l.separator|
    decreases |data| - i
  {
    if i < |data| {
      SeparatorsStep(i, l.block, |l.separator|);
      HexFromLength(data, i + 1, l);
    }
  }

  lemma {:induction false} HexSuffix(data: seq<byte>, i: nat, l: Layout) returns (x: string)
    requires ValidLayout(l) && i <= |data|
    ensures HexDump(data, l) == x + HexFrom(data, i, l)
  {
    if i == 0 {
      x := "";
      assert x + HexFrom(data, 0, l) == HexFrom(data, 0, l);
    } else {
      var y := HexSuffix(data, i - 1, l);
      x := y + (Gap(i - 1, l) + Hex2(data[i - 1], l.caps));
      Associative(y, Gap(i - 1, l) + Hex2(data[i - 1], l.caps), HexFrom(data, i, l));
    }
  }

  /** Where a byte is found in a dump. */
  function Offset(i: nat, l: Layout): nat
    requires ValidLayout(l)
  {
    i * 2 + i / l.block * |l.separator|
  }

  lemma SuffixLength(data: seq<byte>, i: nat, l: Layout, x: string)
    requires ValidLayout(l) && i < |data| && HexDump(data, l) == x + HexFrom(data, i, l)
    ensures |x| + |Gap(i, l)| == Offset(i, l)
  {
    HexFromLength(data, 0, l);
    HexFromLength(data, i, l);
    SeparatorsStep(i, l.block, |l.separator|);
    SeparatorsAre(i, l.block);
  }

  lemma SliceAfter(x: string, g: string, h: string, rest: string)
    ensures var s, n := x + (g + h + rest), |x| + |g|;
            s[n..n + |h|] == h && s[|x|..n] == g
  {
  }

  /**
   * What stands where in a dump: two digits a byte in the order of the data,
   * with a separator for every whole block of bytes in front, and between
   * blocks the separator itself.
   */
  lemma DumpAt(data: seq<byte>, l: Layout, i: nat)
    requires ValidLayout(l) && i < |data|
    ensures var s, at := HexDump(data, l), Offset(i, l);
            && at + 2 <= |s|
            && s[at] == HexDigit(data[i] / 16, l.caps) && s[at + 1] == HexDigit(data[i] % 16, l.caps)
            && (i > 0 && i % l.block == 0 ==> at >= |l.separator| && s[at - |l.separator|..at] == l.separator)
  {
    var x := HexSuffix(data, i, l);
    SuffixLength(data, i, l, x);
    var at, two := Offset(i, l), Hex2(data[i], l.caps);
    SliceAfter(x, Gap(i, l), two, HexFrom(data, i + 1, l));
    assert HexDump(data, l)[at..at + 2][0] == two[0] && HexDump(data, l)[at..at + 2][1] == two[1];
  }

  /** What is allocated where no bound is given. */
  function AllocSize(size: nat, l: Layout): nat
    requires ValidLayout(l)
  {
    size * 2 + size / l.block * |l.separator| + 2
  }

  /** The allocation holds the whole dump and two bytes more. */
  lemma DumpFitsAllocation(data: seq<byte>, l: Layout)
    requires ValidLayout(l)
    ensures |HexDump(data, l)| + 2 <= AllocSize(|data|, l)
  {
    HexFromLength(data, 0, l);
    PiecesFit(|data|, |data|, l.block, |l.separator|);
  }

  // ---------------------------------------------------------------------
  // Printing into a buffer of limited size
  // ---------------------------------------------------------------------

  /** As much of a text as fits together with its terminator. */
  function Cut(s: string, capacity: nat): (c: string)
    requires capacity > 0
    ensures |c| < capacity
  {
    if |s| < capacity then s else s[..capacity - 1]
  }

  lemma CutTwice(a: string, b: string, capacity: nat)
    requires capacity > 0
    ensures Cut(Cut(a, capacity) + b, capacity) == Cut(a + b, capacity)
  {
  }

  /** Appends a text to a buffer, which keeps its last byte for the terminator; says whether all of it fitted. */
  method BufPrintf(buf: string, capacity: nat, s: string) returns (r: string, all: bool)
    requires |buf| < capacity
    ensures r == Cut(buf + s, capacity) && (all <==> |buf| + |s| < capacity)
  {
    var cap := capacity - |buf|;
    if |s| < cap {
      return buf + s, true;
    }
    r := buf + s[..cap - 1];
    return r, false;
  }

  const MORE: string := "[more...]"

  /** What is left of a full dump in a buffer: the end is overwritten once less than two bytes are free. */
  function Bounded(full: string, capacity: nat): string
    requires capacity > 0
  {
    if |full| + 1 < capacity then full
    else if |MORE| + 1 < capacity then full[..capacity - 1 - |MORE|] + MORE
    else full[..capacity - 1]
  }

  /** Overwrites the end of a buffer that is full. */
  method BufCatrunc(buf: string, capacity: nat, str: string) returns (r: string)
    requires |buf| < capacity
    ensures r == if capacity - |buf| <= 1 && |str| + 1 < capacity then buf[..capacity - 1 - |str|] + str else buf
  {
    r := buf;
    if capacity - |buf| <= 1 {
      var len := |str| + 1;
      if len < capacity {
        r := buf[..capacity - len] + str;
      }
    }
  }

  /**
   * A dump comes out whole exactly when two bytes of the buffer stay free, or
   * when it fills a buffer too small for the mark. So a dump that just fits is
   * marked as cut off all the same.
   */
  lemma WholeIff(full: string, capacity: nat)
    requires capacity > 0 && '[' !in full
    ensures Bounded(full, capacity) == full <==>
            |full| + 1 < capacity || (|full| + 1 == capacity && capacity <= |MORE| + 1)
  {
    if |full| + 1 >= capacity > |MORE| + 1 {
      var k := capacity - 1 - |MORE|;
      assert Bounded(full, capacity)[k] == '[' && full[k] in full;
    }
  }

  lemma {:induction false} DumpHasNo(data: seq<byte>, i: nat, l: Layout, c: char)
    requires ValidLayout(l) && i <= |data| && c !in l.separator && !IsXDigit(c)
    ensures c !in HexFrom(data, i, l)
    decreases |data| - i
  {
    if i < |data| {
      FromHexOfHex2(data[i], l.caps);
      DumpHasNo(data, i + 1, l, c);
    }
  }

  /** The length of a dump: two digits a byte, and a separator for every whole block in front of the last byte. */
  function DumpLen(size: nat, l: Layout): nat
    requires ValidLayout(l)
  {
    if size == 0 then 0 else size * 2 + (size - 1) / l.block * |l.separator|
  }

  lemma DumpHasLength(data: seq<byte>, l: Layout)
    requires ValidLayout(l)
    ensures |HexDump(data, l)| == DumpLen(|data|, l)
  {
    HexFromLength(data, 0, l);
    if data != [] { SeparatorsAre(|data| - 1, l.block); }
  }

  /** The same for dumps, in terms of the size of the data: only a separator could be taken for the mark. */
  lemma DumpWholeIff(data: seq<byte>, l: Layout, capacity: nat)
    requires ValidLayout(l) && capacity > 0 && '[' !in l.separator
    ensures var full, len := HexDump(data, l), DumpLen(|data|, l);
            Bounded(full, capacity) == full <==> len + 1 < capacity || (len + 1 == capacity && capacity <= |MORE| + 1)
  {
    DumpHasLength(data, l);
    DumpHasNo(data, 0, l, '[');
    WholeIff(HexDump(data, l), capacity);
  }

  /** Six bytes make twelve digits, which fit thirteen bytes with their terminator; yet the last nine are overwritten. */
  lemma JustFittingIsMarked(data: seq<byte>, caps: bool)
    requires |data| == 6
    ensures var full := HexDump(data, Layout(16, " ", caps));
            |full| == 12 && Bounded(full, 13) == full[..3] + MORE && Bounded(full, 13) != full
  {
    var l := Layout(16, " ", caps);
    DumpHasLength(data, l);
    DumpWholeIff(data, l, 13);
  }

  /** One iteration of the dump: the separator, if it is due, and two digits. */
  method PrintByte(buf: string, capacity: nat, i: nat, b: byte, l: Layout, ghost text: string) returns (r: string)
    requires ValidLayout(l) && capacity > 0 && buf == Cut(text, capacity)
    ensures r == Cut(text + (Gap(i, l) + Hex2(b, l.caps)), capacity)
  {
    r := buf;
    var all: bool;
    ghost var gap, digits := Gap(i, l), Hex2(b, l.caps);
    CutTwice(text, gap, capacity);
    CutTwice(text + gap, digits, capacity);
    Associative(text, gap, digits);
    if i > 0 && i % l.block == 0 {
      r, all := BufPrintf(r, capacity, l.separator);
    }
    assert r == Cut(text + gap, capacity) by { assert buf + "" == buf; }
    r, all := BufPrintf(r, capacity, Hex2(b, l.caps));
  }

  /** The loop: whatever no longer fits is dropped. */
  method PrintBytes(data: seq<byte>, capacity: nat, l: Layout) returns (out: string)
    requires ValidLayout(l) && capacity > 0
    ensures out == Cut(HexDump(data, l), capacity)
  {
    ghost var text := "";
    out := "";
    var i := 0;
    while i < |data|
      invariant i <= |data|
      invariant text + HexFrom(data, i, l) == HexDump(data, l) && out == Cut(text, capacity)
    {
      ghost var piece := Gap(i, l) + Hex2(data[i], l.caps);
      Associative(text, piece, HexFrom(data, i + 1, l));
      out := PrintByte(out, capacity, i, data[i], l, text);
      text := text + piece;
      i := i + 1;
    }
    assert text + "" == text;
  }

  /** No separator is the same as an empty one. */
  function LayoutOf(block: nat, separator: Option<string>, caps: bool): Layout {
    if separator.None? then Layout(1, "", caps) else Layout(block, separator.value, caps)
  }

  /**
   * The hex dump. Without a bound (maxoutput 0) it is complete; otherwise the
   * buffer has that size and the dump is cut off and marked when it fills it.
   */
  method FormatHexEx(data: seq<byte>, maxoutput: nat, block: nat, caps: bool, separator: Option<string>)
    returns (out: string)
    requires maxoutput == 0 || separator.Some? ==> block > 0
    ensures maxoutput == 0 ==> out == HexDump(data, LayoutOf(block, separator, caps))
    ensures maxoutput > 0 ==> out == Bounded(HexDump(data, LayoutOf(block, separator, caps)), maxoutput)
  {
    var l := LayoutOf(block, separator, caps);
    var capacity := maxoutput;
    if maxoutput == 0 {
      capacity := |data| * 2 + |data| / block * (if separator.Some? then |separator.value| else 0) + 2;
      assert capacity == AllocSize(|data|, l);
      DumpFitsAllocation(data, l);
    }
    out := PrintBytes(data, capacity, l);
    out := BufCatrunc(out, capacity, MORE);
  }
}

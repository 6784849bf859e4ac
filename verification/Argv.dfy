/**
 * Building an argument vector from a printf style format: the words of the
 * format are joined with a delimiter, the result is expanded, and the
 * expansion is split at the delimiter again. The arguments are given as the
 * texts that the directives print, whatever each of them is printed from.
 */
module Argv {
  import opened Octets

  /** The ASCII group separator. */
  const DELIM: char := 29 as char

  // ---------------------------------------------------------------------
  // Words
  // ---------------------------------------------------------------------

  /** The words of a format when `cur` has been read of the current one. */
  function WordsFrom(cur: string, s: string): seq<string>
    decreases s
  {
    var open := if cur == "" then [] else [cur];
    if s == "" then open
    else if s[0] == ' ' then open + WordsFrom("", s[1..])
    else WordsFrom(cur + [s[0]], s[1..])
  }

  function Words(format: string): seq<string> { WordsFrom("", format) }

  function Join(words: seq<string>, d: char): string {
    if words == [] then "" else if |words| == 1 then words[0] else words[0] + [d] + Join(words[1..], d)
  }

  function Flat(words: seq<string>): string { if words == [] then "" else words[0] + Flat(words[1..]) }

  function Without(c: char, s: string): string {
    if s == "" then "" else (if s[0] == c then "" else [s[0]]) + Without(c, s[1..])
  }

  /** Words are not empty, hold no spaces, and make up all of the format but its spaces. */
  lemma {:induction false} WordsAre(cur: string, s: string)
    requires ' ' !in cur
    ensures forall w <- WordsFrom(cur, s) :: w != "" && ' ' !in w
    ensures Flat(WordsFrom(cur, s)) == cur + Without(' ', s)
    decreases s
  {
    if s == "" {
      assert cur + "" == cur;
    } else if s[0] == ' ' {
      var rest := WordsFrom("", s[1..]);
      WordsAre("", s[1..]);
      if cur != "" { assert ([cur] + rest)[1..] == rest; } else { assert [] + rest == rest; }
      assert "" + Without(' ', s[1..]) == Without(' ', s[1..]);
    } else {
      WordsAre(cur + [s[0]], s[1..]);
      assert cur + [s[0]] + Without(' ', s[1..]) == cur + ([s[0]] + Without(' ', s[1..]));
    }
  }

  lemma Associative(a: string, b: string, c: string)
    ensures a + (b + c) == (a + b) + c
  {
  }

  lemma {:induction false} JoinSnoc(words: seq<string>, w: string, d: char)
    ensures Join(words + [w], d) == if words == [] then w else Join(words, d) + [d] + w
  {
    if |words| > 1 {
      assert (words + [w])[1..] == words[1..] + [w];
      JoinSnoc(words[1..], w, d);
      var front, rest := words[0] + [d], Join(words[1..], d);
      Associative(front, rest + [d], w);
      Associative(front, rest, [d]);
    } else if |words| == 1 {
      assert (words + [w])[1..] == [w];
    } else {
      assert words + [w] == [w];
    }
  }

  lemma JoinGrows(words: seq<string>, w: string, c: char, d: char)
    ensures Join(words + [w + [c]], d) == Join(words + [w], d) + [c]
  {
    JoinSnoc(words, w, d);
    JoinSnoc(words, w + [c], d);
    if words != [] { assert Join(words, d) + [d] + (w + [c]) == Join(words, d) + [d] + w + [c]; }
  }

  /** The words read so far; inside a word the last of them is still open. */
  ghost predicate Reading(format: string, i: nat, words: seq<string>, inToken: bool) {
    && i <= |format| && (inToken ==> words != []) && (forall w <- words :: w != "")
    && Words(format) == if inToken then words[..|words| - 1] + WordsFrom(words[|words| - 1], format[i..])
                        else words + WordsFrom("", format[i..])
  }

  lemma ReadSpace(format: string, i: nat, words: seq<string>, inToken: bool)
    requires Reading(format, i, words, inToken) && i < |format| && format[i] == ' '
    ensures Reading(format, i + 1, words, false)
  {
    assert format[i..][1..] == format[i + 1..];
    var rest := WordsFrom("", format[i + 1..]);
    if inToken {
      var last := words[|words| - 1];
      assert last in words && words[..|words| - 1] + ([last] + rest) == words + rest;
    }
  }

  lemma ReadFirst(format: string, i: nat, words: seq<string>)
    requires Reading(format, i, words, false) && i < |format| && format[i] != ' '
    ensures Reading(format, i + 1, words + [[format[i]]], true)
  {
    assert format[i..][1..] == format[i + 1..];
    assert (words + [[format[i]]])[..|words|] == words && "" + [format[i]] == [format[i]];
  }

  lemma ReadNext(format: string, i: nat, words: seq<string>)
    requires Reading(format, i, words, true) && i < |format| && format[i] != ' '
    ensures Reading(format, i + 1, words[..|words| - 1] + [words[|words| - 1] + [format[i]]], true)
  {
    assert format[i..][1..] == format[i + 1..];
    var front, last := words[..|words| - 1], words[|words| - 1];
    assert (front + [last + [format[i]]])[..|words| - 1] == front;
    assert forall w <- front :: w in words;
  }

  lemma ReadAll(format: string, words: seq<string>, inToken: bool)
    requires Reading(format, |format|, words, inToken)
    ensures words == Words(format)
  {
    assert format[|format|..] == "";
    if inToken {
      assert words[|words| - 1] in words;
      assert words[..|words| - 1] + [words[|words| - 1]] == words;
    } else {
      assert words + [] == words;
    }
  }

  /** The text written so far joins the words read so far. */
  ghost predicate Prepared(format: string, delim: char, i: nat, words: seq<string>, inToken: bool, f: string) {
    Reading(format, i, words, inToken) && f == Join(words, delim)
  }

  lemma JoinEmpty(words: seq<string>, d: char)
    requires forall w <- words :: w != ""
    ensures Join(words, d) == "" <==> words == []
  {
    if words != [] { assert words[0] in words; }
  }

  lemma PrepareFirst(format: string, delim: char, i: nat, words: seq<string>, f: string)
    requires Prepared(format, delim, i, words, false, f) && i < |format| && format[i] != ' '
    ensures Prepared(format, delim, i + 1, words + [[format[i]]], true,
                     (if f != "" then f + [delim] else f) + [format[i]])
  {
    ReadFirst(format, i, words);
    JoinEmpty(words, delim);
    JoinSnoc(words, [format[i]], delim);
  }

  lemma PrepareNext(format: string, delim: char, i: nat, words: seq<string>, f: string) returns (now: seq<string>)
    requires Prepared(format, delim, i, words, true, f) && i < |format| && format[i] != ' '
    ensures |now| == |words| && Prepared(format, delim, i + 1, now, true, f + [format[i]])
  {
    ReadNext(format, i, words);
    var front, last := words[..|words| - 1], words[|words| - 1];
    JoinGrows(front, last, format[i], delim);
    assert front + [last] == words;
    now := front + [last + [format[i]]];
  }

  /** Drops the spaces and puts one delimiter between words. */
  method ArgvPrepFormat(format: string, delim: char, count: nat) returns (f: string, n: nat)
    ensures f == Join(Words(format), delim) && n == count + |Words(format)|
  {
    f, n := "", count;
    var inToken := false;
    ghost var words: seq<string> := [];
    assert format[0..] == format && [] + Words(format) == Words(format);
    var i := 0;
    while i < |format|
      invariant i <= |format| && n == count + |words|
      invariant Prepared(format, delim, i, words, inToken, f)
    {
      if format[i] == ' ' {
        ReadSpace(format, i, words, inToken);
        inToken := false;
      } else {
        if !inToken {
          n := n + 1;
          PrepareFirst(format, delim, i, words, f);
          words := words + [[format[i]]];
          if f != "" {
            f := f + [delim];
          }
        } else {
          words := PrepareNext(format, delim, i, words, f);
        }
        f := f + [format[i]];
        inToken := true;
      }
      i := i + 1;
    }
    ReadAll(format, words, inToken);
  }

  // ---------------------------------------------------------------------
  // Expansion
  // ---------------------------------------------------------------------

  predicate IsConversion(c: char) {
    || c == 's' || c == 'c' || c == 'd' || c == 'i' || c == 'u' || c == 'x' || c == 'X' || c == 'o' || c == 'p'
    || c == 'e' || c == 'f' || c == 'g' || c == 'a' || c == 'E' || c == 'F' || c == 'G' || c == 'A'
  }

  /** Flags, field widths, precisions and lengths; a space flag would end the word. */
  predicate IsModifier(c: char) {
    || '0' <= c <= '9' || c == '.' || c == '*' || c == '-' || c == '+' || c == '#'
    || c == 'l' || c == 'h' || c == 'z' || c == 'j' || c == 't' || c == 'L'
  }

  /** The length of modifiers and conversion at the front of a text, 0 if it does not begin like that. */
  function SpecLen(s: string): (n: nat)
    ensures n <= |s|
  {
    if s == "" then 0
    else if IsConversion(s[0]) then 1
    else if IsModifier(s[0]) && SpecLen(s[1..]) > 0 then 1 + SpecLen(s[1..])
    else 0
  }

  /** The length of what a format begins with: a literal character, %%, or a directive; 0 if it is none of these. */
  function HeadLen(f: string): (n: nat)
    requires f != ""
    ensures n <= |f|
  {
    if f[0] != '%' then 1
    else if |f| >= 2 && f[1] == '%' then 2
    else if SpecLen(f[1..]) > 0 then 1 + SpecLen(f[1..])
    else 0
  }

  predicate TakesArg(f: string)
    requires f != ""
  {
    f[0] == '%' && !(|f| >= 2 && f[1] == '%')
  }

  /** Literal characters and complete directives. */
  predicate Simple(f: string) { f == "" || (HeadLen(f) > 0 && Simple(f[HeadLen(f)..])) }

  /** How many directives of a format print something. */
  function Holes(f: string): nat
    requires Simple(f)
  {
    if f == "" then 0 else (if TakesArg(f) then 1 else 0) + Holes(f[HeadLen(f)..])
  }

  /** What the front of a format prints: the text of the directive, or the character itself. */
  function HeadText(f: string, args: seq<string>): string
    requires f != "" && (TakesArg(f) ==> args != [])
  {
    if TakesArg(f) then args[0] else [f[0]]
  }

  function LaterArgs(f: string, args: seq<string>): seq<string>
    requires f != "" && (TakesArg(f) ==> args != [])
  {
    if TakesArg(f) then args[1..] else args
  }

  function Expand(f: string, args: seq<string>): string
    requires Simple(f) && |args| == Holes(f)
  {
    if f == "" then "" else HeadText(f, args) + Expand(f[HeadLen(f)..], LaterArgs(f, args))
  }

  lemma {:induction false} SpecLenConcat(a: string, b: string)
    requires SpecLen(a) > 0
    ensures SpecLen(a + b) == SpecLen(a)
  {
    if !IsConversion(a[0]) {
      assert (a + b)[1..] == a[1..] + b;
      SpecLenConcat(a[1..], b);
    }
  }

  lemma HeadLenConcat(a: string, b: string)
    requires a != "" && HeadLen(a) > 0
    ensures HeadLen(a + b) == HeadLen(a) && TakesArg(a + b) == TakesArg(a)
  {
    assert (a + b)[1..] == a[1..] + b;
    if a[0] == '%' && SpecLen(a[1..]) > 0 { SpecLenConcat(a[1..], b); }
  }

  lemma {:induction false} SimpleConcat(a: string, b: string)
    requires Simple(a) && Simple(b)
    ensures Simple(a + b) && Holes(a + b) == Holes(a) + Holes(b)
  {
    if a == "" {
      assert a + b == b;
    } else {
      var n := HeadLen(a);
      HeadLenConcat(a, b);
      assert (a + b)[n..] == a[n..] + b;
      SimpleConcat(a[n..], b);
    }
  }

  lemma HeadConcat(a: string, b: string, x: seq<string>, y: seq<string>)
    requires a != "" && HeadLen(a) > 0 && (TakesArg(a) ==> x != [])
    ensures HeadLen(a + b) == HeadLen(a) && TakesArg(a + b) == TakesArg(a)
    ensures (a + b)[HeadLen(a)..] == a[HeadLen(a)..] + b
    ensures HeadText(a + b, x + y) == HeadText(a, x) && LaterArgs(a + b, x + y) == LaterArgs(a, x) + y
  {
    HeadLenConcat(a, b);
  }

  lemma {:induction false} ExpandConcat(a: string, b: string, x: seq<string>, y: seq<string>)
    requires Simple(a) && Simple(b) && |x| == Holes(a) && |y| == Holes(b)
    ensures Simple(a + b) && Holes(a + b) == |x + y|
    ensures Expand(a + b, x + y) == Expand(a, x) + Expand(b, y)
  {
    SimpleConcat(a, b);
    if a == "" {
      assert a + b == b && x + y == y;
    } else {
      var n := HeadLen(a);
      HeadConcat(a, b, x, y);
      ExpandConcat(a[n..], b, LaterArgs(a, x), y);
      Associative(HeadText(a, x), Expand(a[n..], LaterArgs(a, x)), Expand(b, y));
    }
  }

  predicate AllSimple(words: seq<string>) { forall w <- words :: Simple(w) }

  function AllHoles(words: seq<string>): nat
    requires AllSimple(words)
  {
    if words == [] then 0 else Holes(words[0]) + AllHoles(words[1..])
  }

  /** Each word with its own share of the arguments. */
  function ExpandWords(words: seq<string>, args: seq<string>): (r: seq<string>)
    requires AllSimple(words) && |args| == AllHoles(words)
    ensures |r| == |words|
  {
    if words == [] then []
    else
      var h := Holes(words[0]);
      [Expand(words[0], args[..h])] + ExpandWords(words[1..], args[h..])
  }

  lemma SimpleChar(c: char)
    requires c != '%'
    ensures Simple([c]) && Holes([c]) == 0 && Expand([c], []) == [c]
  {
    assert [c][1..] == "";
  }

  lemma ExpandThree(a: string, b: string, c: string, x: seq<string>, z: seq<string>)
    requires Simple(a) && Simple(b) && Simple(c) && |x| == Holes(a) && Holes(b) == 0 && |z| == Holes(c)
    ensures Simple(a + b + c) && Holes(a + b + c) == |x + z|
    ensures Expand(a + b + c, x + z) == Expand(a, x) + Expand(b, []) + Expand(c, z)
  {
    ExpandConcat(a, b, x, []);
    assert x + [] == x;
    ExpandConcat(a + b, c, x, z);
  }

  /** Expanding the joined words gives the joined expansions of the words. */
  lemma {:induction false} ExpandJoin(words: seq<string>, args: seq<string>, d: char)
    requires AllSimple(words) && |args| == AllHoles(words) && d != '%'
    ensures Simple(Join(words, d)) && Holes(Join(words, d)) == |args|
    ensures Expand(Join(words, d), args) == Join(ExpandWords(words, args), d)
  {
    if |words| == 1 {
      assert args[..Holes(words[0])] == args;
    } else if |words| > 1 {
      var w, h, rest := words[0], Holes(words[0]), words[1..];
      var mine, others := args[..h], args[h..];
      SimpleChar(d);
      ExpandJoin(rest, others, d);
      ExpandThree(w, [d], Join(rest, d), mine, others);
      assert mine + others == args;
      assert ExpandWords(words, args)[1..] == ExpandWords(rest, others);
    }
  }

  /** No part of any directive. */
  predicate Plain(c: char) { c != '%' && !IsModifier(c) && !IsConversion(c) }

  lemma {:induction false} SpecHasNo(s: string, c: char)
    requires Plain(c)
    ensures c !in s[..SpecLen(s)]
  {
    if SpecLen(s) > 1 {
      SpecHasNo(s[1..], c);
      assert s[..SpecLen(s)] == [s[0]] + s[1..][..SpecLen(s) - 1];
    }
  }

  lemma HeadHasNo(f: string, c: char)
    requires f != "" && f[0] == '%' && Plain(c)
    ensures c !in f[..HeadLen(f)]
  {
    SpecHasNo(f[1..], c);
    if HeadLen(f) > 2 || (HeadLen(f) == 2 && f[1] != '%') {
      assert f[..HeadLen(f)] == [f[0]] + f[1..][..SpecLen(f[1..])];
    }
  }

  lemma {:induction false} SpecAlone(s: string)
    ensures SpecLen(s[..SpecLen(s)]) == SpecLen(s)
  {
    if SpecLen(s) > 1 {
      SpecAlone(s[1..]);
      assert s[..SpecLen(s)][1..] == s[1..][..SpecLen(s) - 1];
    }
  }

  lemma HeadAlone(f: string)
    requires f != "" && HeadLen(f) > 0
    ensures var h := f[..HeadLen(f)];
            Simple(h) && Holes(h) == if TakesArg(f) then 1 else 0
  {
    var n := HeadLen(f);
    var h := f[..n];
    if TakesArg(f) {
      SpecAlone(f[1..]);
      assert h[1..] == f[1..][..n - 1];
    }
    assert HeadLen(h) == n && h[n..] == "";
  }

  lemma {:induction false} WordsSkip(cur: string, s: string, n: nat)
    requires n <= |s| && ' ' !in s[..n]
    ensures WordsFrom(cur, s) == WordsFrom(cur + s[..n], s[n..])
    decreases n
  {
    if n == 0 {
      assert cur + s[..0] == cur && s[0..] == s;
    } else {
      assert s[0] == s[..n][0] && s[1..][..n - 1] == s[..n][1..];
      WordsSkip(cur + [s[0]], s[1..], n - 1);
      assert cur + [s[0]] + s[1..][..n - 1] == cur + s[..n] && s[1..][n - 1..] == s[n..];
    }
  }

  /** The words of a simple format are simple and take the same number of arguments. */
  lemma {:induction false} SimpleWords(cur: string, s: string)
    requires Simple(cur) && Simple(s)
    ensures AllSimple(WordsFrom(cur, s)) && AllHoles(WordsFrom(cur, s)) == Holes(cur) + Holes(s)
    decreases s
  {
    if s == "" {
    } else if s[0] == ' ' {
      var rest := WordsFrom("", s[1..]);
      SimpleWords("", s[1..]);
      if cur != "" { assert ([cur] + rest)[1..] == rest; } else { assert [] + rest == rest; }
    } else {
      var n := HeadLen(s);
      HeadAlone(s);
      if s[0] == '%' { HeadHasNo(s, ' '); } else { assert s[..1] == [s[0]]; }
      WordsSkip(cur, s, n);
      SimpleConcat(cur, s[..n]);
      SimpleWords(cur + s[..n], s[n..]);
    }
  }

  // ---------------------------------------------------------------------
  // Splitting
  // ---------------------------------------------------------------------

  /** The pieces between delimiters; there is always at least one. */
  function Split(s: string, d: char): (r: seq<string>)
    ensures |r| > 0
  {
    if s == "" then [""]
    else
      var rest := Split(s[1..], d);
      if s[0] == d then [""] + rest else [[s[0]] + rest[0]] + rest[1..]
  }

  function Count(c: char, s: string): nat {
    if s == "" then 0 else (if s[0] == c then 1 else 0) + Count(c, s[1..])
  }

  lemma {:induction false} CountConcat(c: char, a: string, b: string)
    ensures Count(c, a + b) == Count(c, a) + Count(c, b)
  {
    if a == "" {
      assert a + b == b;
    } else {
      assert (a + b)[1..] == a[1..] + b;
      CountConcat(c, a[1..], b);
    }
  }

  lemma {:induction false} CountIn(c: char, s: string)
    ensures Count(c, s) == 0 <==> c !in s
  {
    if s != "" {
      CountIn(c, s[1..]);
      assert s == [s[0]] + s[1..];
    }
  }

  lemma {:induction false} SplitLength(s: string, d: char)
    ensures |Split(s, d)| == Count(d, s) + 1
  {
    if s != "" { SplitLength(s[1..], d); }
  }

  lemma {:induction false} SplitFirst(w: string, s: string, d: char)
    requires d !in w
    ensures Split(w + [d] + s, d) == [w] + Split(s, d) && Split(w, d) == [w]
  {
    if w == "" {
      assert w + [d] + s == [d] + s && ([d] + s)[1..] == s;
    } else {
      assert w == [w[0]] + w[1..];
      SplitFirst(w[1..], s, d);
      assert (w + [d] + s)[1..] == w[1..] + [d] + s;
      assert [w[0]] + w[1..] == w;
      assert ([w[1..]] + Split(s, d))[1..] == Split(s, d);
    }
  }

  /** Splitting undoes joining where no word holds the delimiter. */
  lemma {:induction false} SplitJoin(words: seq<string>, d: char)
    requires words != [] && forall w <- words :: d !in w
    ensures Split(Join(words, d), d) == words
  {
    SplitFirst(words[0], Join(words[1..], d), d);
    if |words| > 1 { SplitJoin(words[1..], d); }
  }

  function CountAll(c: char, words: seq<string>): nat {
    if words == [] then 0 else Count(c, words[0]) + CountAll(c, words[1..])
  }

  lemma {:induction false} CountJoin(words: seq<string>, d: char)
    requires words != []
    ensures Count(d, Join(words, d)) == CountAll(d, words) + |words| - 1
  {
    if |words| == 1 {
      assert CountAll(d, words[1..]) == 0;
    } else {
      CountConcat(d, words[0], [d]);
      CountConcat(d, words[0] + [d], Join(words[1..], d));
      assert [d][1..] == "";
      CountJoin(words[1..], d);
    }
  }

  lemma {:induction false} CountAllIn(c: char, words: seq<string>)
    ensures CountAll(c, words) == 0 <==> forall w <- words :: c !in w
  {
    if words != [] {
      CountIn(c, words[0]);
      CountAllIn(c, words[1..]);
      assert words == [words[0]] + words[1..];
    }
  }

  lemma {:induction false} CountAllConcat(c: char, a: seq<string>, b: seq<string>)
    ensures CountAll(c, a + b) == CountAll(c, a) + CountAll(c, b)
  {
    if a == [] {
      assert a + b == b;
    } else {
      assert (a + b)[1..] == a[1..] + b;
      CountAllConcat(c, a[1..], b);
    }
  }

  lemma CountHead(f: string, d: char)
    requires f != "" && f[0] == '%' && HeadLen(f) > 0 && Plain(d)
    ensures Count(d, f) == Count(d, f[HeadLen(f)..])
  {
    HeadHasNo(f, d);
    CountIn(d, f[..HeadLen(f)]);
    CountConcat(d, f[..HeadLen(f)], f[HeadLen(f)..]);
    assert f == f[..HeadLen(f)] + f[HeadLen(f)..];
  }

  /** An expansion holds the delimiters of its format and those of its arguments. */
  lemma {:induction false} CountExpand(f: string, args: seq<string>, d: char)
    requires Simple(f) && |args| == Holes(f) && Plain(d)
    ensures Count(d, Expand(f, args)) == Count(d, f) + CountAll(d, args)
  {
    if f != "" {
      var rest := f[HeadLen(f)..];
      if f[0] == '%' { CountHead(f, d); }
      if TakesArg(f) {
        CountConcat(d, args[0], Expand(rest, args[1..]));
        CountExpand(rest, args[1..], d);
      } else {
        CountExpand(rest, args, d);
        assert ([f[0]] + Expand(rest, args))[1..] == Expand(rest, args);
      }
    }
  }

  lemma CountAllCons(c: char, w: string, rest: seq<string>)
    ensures CountAll(c, [w] + rest) == Count(c, w) + CountAll(c, rest)
  {
    assert ([w] + rest)[1..] == rest;
  }

  lemma {:induction false} CountExpandWords(words: seq<string>, args: seq<string>, d: char)
    requires AllSimple(words) && |args| == AllHoles(words) && Plain(d)
    ensures CountAll(d, ExpandWords(words, args)) == CountAll(d, words) + CountAll(d, args)
  {
    if words != [] {
      var h := Holes(words[0]);
      CountExpand(words[0], args[..h], d);
      CountExpandWords(words[1..], args[h..], d);
      CountAllCons(d, Expand(words[0], args[..h]), ExpandWords(words[1..], args[h..]));
      CountAllConcat(d, args[..h], args[h..]);
      assert args == args[..h] + args[h..];
    }
  }

  lemma {:induction false} CountWords(cur: string, s: string, d: char)
    requires d != ' '
    ensures CountAll(d, WordsFrom(cur, s)) == Count(d, cur) + Count(d, s)
    decreases s
  {
    if s == "" {
    } else if s[0] == ' ' {
      var rest := WordsFrom("", s[1..]);
      CountWords("", s[1..], d);
      if cur != "" { assert ([cur] + rest)[1..] == rest; } else { assert [] + rest == rest; }
    } else {
      CountWords(cur + [s[0]], s[1..], d);
      CountConcat(d, cur, [s[0]]);
      assert [s[0]][1..] == "";
    }
  }

  /** Neither the format nor an argument holds the delimiter. */
  predicate Clean(format: string, args: seq<string>) {
    DELIM !in format && forall a <- args :: DELIM !in a
  }

  /**
   * Joining, expanding and splitting gives as many pieces as there are words
   * exactly when there is a word and the delimiter occurs nowhere; the pieces
   * are then the expansions of the words.
   */
  lemma PiecesAreWords(format: string, args: seq<string>)
    requires Simple(format) && |args| == Holes(format)
    ensures var words := Words(format);
            && AllSimple(words) && |args| == AllHoles(words)
            && Simple(Join(words, DELIM)) && |args| == Holes(Join(words, DELIM))
            && var pieces := Split(Expand(Join(words, DELIM), args), DELIM);
               (|pieces| == |words| <==> words != [] && Clean(format, args))
               && (words != [] && Clean(format, args) ==> pieces == ExpandWords(words, args))
  {
    var words := Words(format);
    SimpleWords("", format);
    ExpandJoin(words, args, DELIM);
    var parts := ExpandWords(words, args);
    SplitLength(Join(parts, DELIM), DELIM);
    if words != [] {
      CountJoin(parts, DELIM);
      CountExpandWords(words, args, DELIM);
      CountWords("", format, DELIM);
      CountIn(DELIM, format);
      CountAllIn(DELIM, args);
      if Clean(format, args) {
        CountAllIn(DELIM, parts);
        SplitJoin(parts, DELIM);
      }
    }
  }

  // ---------------------------------------------------------------------
  // The vector
  // ---------------------------------------------------------------------

  ghost predicate IsPowerOf2(n: nat) { exists k: nat :: n == Pow2(k) }

  /** The next power of two. */
  method AdjustPowerOf2(u: nat) returns (r: nat)
    ensures r >= u && IsPowerOf2(r) && (u > 0 ==> r < 2 * u)
  {
    r := 1;
    ghost var k: nat := 0;
    while r < u
      invariant r == Pow2(k) && r >= 1 && (u > 0 ==> r < 2 * u)
      decreases 2 * u - r
    {
      r := r * 2;
      k := k + 1;
    }
  }

  lemma PieceStep(c: seq<string>, rest: string, end: nat, d: char)
    requires end < |rest| && d !in rest[..end] && rest[end] == d
    ensures c + Split(rest, d) == (c + [rest[..end]]) + Split(rest[end + 1..], d)
  {
    var piece, more := rest[..end], rest[end + 1..];
    assert rest == piece + [d] + more;
    SplitFirst(piece, more, d);
    assert c + ([piece] + Split(more, d)) == (c + [piece]) + Split(more, d);
  }

  /** A vector of strings in an array that grows; unused places hold no string. */
  class Vector {
    var argv: array<Option<string>>
    var argc: nat

    ghost predicate Valid()
      reads this, argv
    {
      && argc < argv.Length
      && (forall i :: 0 <= i < argc ==> argv[i].Some?)
      && (forall i :: argc <= i < argv.Length ==> argv[i].None?)
    }

    ghost function Contents(): seq<string>
      requires Valid()
      reads this, argv
    {
      seq(argc, i requires 0 <= i < argc && Valid() reads this, argv => argv[i].value)
    }

    constructor ()
      ensures Valid() && fresh(argv) && Contents() == []
    {
      argv := new Option<string>[8](_ => None);
      argc := 0;
    }

    /** Moves to a larger array; never to a smaller one. */
    method Extend(newcap: nat)
      requires Valid()
      modifies this
      ensures Valid() && argc == old(argc) && Contents() == old(Contents())
      ensures argv == old(argv) || fresh(argv)
      ensures argv.Length >= newcap && argv.Length >= old(argv.Length)
    {
      if newcap > argv.Length {
        var newargv := new Option<string>[newcap](_ => None);
        var i := 0;
        while i < argc
          invariant argc == old(argc) && argv == old(argv)
          invariant i <= argc && fresh(newargv)
          invariant forall k :: 0 <= k < i ==> newargv[k] == argv[k]
          invariant forall k :: i <= k < newcap ==> newargv[k].None?
        {
          newargv[i] := argv[i];
          i := i + 1;
        }
        argv := newargv;
      }
    }

    method Grow(add: nat)
      requires Valid()
      modifies this
      ensures Valid() && argc == old(argc) && Contents() == old(Contents())
      ensures argv == old(argv) || fresh(argv)
      ensures argc + add < argv.Length
    {
      var newargc := argc + add + 1;
      var capacity := AdjustPowerOf2(newargc);
      Extend(capacity);
    }

    method Append(str: string)
      requires Valid()
      modifies this, argv
      ensures Valid() && Contents() == old(Contents()) + [str]
      ensures argv == old(argv) || fresh(argv)
    {
      Grow(1);
      ghost var c := Contents();
      argv[argc] := Some(str);
      argc := argc + 1;
      assert Contents() == c + [str];
    }

    method Reset()
      requires Valid()
      modifies this, argv
      ensures Valid() && Contents() == [] && argv == old(argv)
    {
      var i := 0;
      while i < argc
        invariant i <= argc
        invariant argc == old(argc) && argv == old(argv)
        invariant forall k :: 0 <= k < i ==> argv[k].None?
        invariant forall k :: argc <= k < argv.Length ==> argv[k].None?
      {
        argv[i] := None;
        i := i + 1;
      }
      argc := 0;
    }

    /** Appends the pieces of a string. */
    method AppendPieces(buf: string, delim: char)
      requires Valid()
      modifies this, argv
      ensures Valid() && Contents() == old(Contents()) + Split(buf, delim)
      ensures argv == old(argv) || fresh(argv)
    {
      ghost var goal := Contents() + Split(buf, delim);
      var rest := buf;
      var end: nat := FindChar(rest, delim);
      while end < |rest|
        invariant Valid() && Contents() + Split(rest, delim) == goal
        invariant argv == old(argv) || fresh(argv)
        invariant end <= |rest| && delim !in rest[..end] && (end < |rest| ==> rest[end] == delim)
        decreases |rest|
      {
        PieceStep(Contents(), rest, end, delim);
        Append(rest[..end]);
        rest := rest[end + 1..];
        end := FindChar(rest, delim);
      }
      assert rest[..end] == rest;
      SplitFirst(rest, "", delim);
      Append(rest);
    }

    /**
     * Appends the expansion of every word of the format. Fails, and then drops
     * everything from the vector, exactly when there is no word or the format
     * or an argument holds the delimiter. Without a format, or where the
     * printing itself fails, nothing happens.
     */
    method PrintfArglist(format: Option<string>, args: seq<string>, printed: bool) returns (res: bool)
      requires Valid()
      requires format.Some? && printed ==> Simple(format.value) && |args| == Holes(format.value)
      modifies this, argv
      ensures Valid() && (argv == old(argv) || fresh(argv))
      ensures format.None? || !printed ==> !res && Contents() == old(Contents())
      ensures format.Some? && printed ==>
                var words := Words(format.value);
                && AllSimple(words) && |args| == AllHoles(words)
                && (res <==> words != [] && Clean(format.value, args))
                && Contents() == if res then old(Contents()) + ExpandWords(words, args) else []
    {
      if format.None? {
        return false;
      }
      var f, count := ArgvPrepFormat(format.value, DELIM, argc);
      if !printed {
        return false;
      }
      PiecesAreWords(format.value, args);
      var buf := Expand(f, args);
      AppendPieces(buf, DELIM);
      assert |Contents()| == argc;
      if argc != count {
        Reset();
        return false;
      }
      return true;
    }
  }

  /** The first position of a character, or the length of the string. */
  method FindChar(s: string, c: char) returns (i: nat)
    ensures i <= |s| && c !in s[..i] && (i < |s| ==> s[i] == c)
  {
    i := 0;
    while i < |s| && s[i] != c
      invariant i <= |s| && c !in s[..i]
    {
      assert s[..i + 1] == s[..i] + [s[i]];
      i := i + 1;
    }
  }
}

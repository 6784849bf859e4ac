/**
 * The DHCP option for DNS search domains: each name as length-prefixed labels
 * that end in a zero byte (section 3.1 of RFC 1035, section 2 of RFC 3397).
 */
module SearchDomains {
  import opened Octets

  type Name = seq<byte>
  type Label = seq<byte>

  const DOT: byte := 46
  const TMP_SIZE: nat := 256
  const MAX_LABEL: nat := 63

  /** The labels of a name when `cur` has been read of the first one. */
  function Split(cur: Label, s: seq<byte>): (r: seq<Label>)
    ensures |r| > 0
    decreases s
  {
    if s == [] then [cur]
    else if s[0] == DOT then [cur] + Split([], s[1..])
    else Split(cur + [s[0]], s[1..])
  }

  function Labels(name: Name): seq<Label> { Split([], name) }

  function Join(labels: seq<Label>): Name
    requires labels != []
  {
    if |labels| == 1 then labels[0] else labels[0] + [DOT] + Join(labels[1..])
  }

  /** Labels hold no dots, and joining them with dots gives the name back. */
  lemma {:induction false} JoinSplit(cur: Label, s: seq<byte>)
    requires DOT !in cur
    ensures forall l <- Split(cur, s) :: DOT !in l
    ensures Join(Split(cur, s)) == cur + s
    decreases s
  {
    if s != [] {
      if s[0] == DOT {
        JoinSplit([], s[1..]);
        var rest := Split([], s[1..]);
        assert ([cur] + rest)[1..] == rest;
        assert cur + [DOT] + ([] + s[1..]) == cur + s;
      } else {
        JoinSplit(cur + [s[0]], s[1..]);
        assert cur + [s[0]] + s[1..] == cur + s;
      }
    }
  }

  // ---------------------------------------------------------------------
  // Encoding
  // ---------------------------------------------------------------------

  function EncodeLabels(labels: seq<Label>): seq<byte> {
    if labels == [] then [] else [|labels[0]| % 256] + labels[0] + EncodeLabels(labels[1..])
  }

  function EncodeName(name: Name): seq<byte> { EncodeLabels(Labels(name)) + [0] }

  function EncodeNames(names: seq<Name>): seq<byte> {
    if names == [] then [] else EncodeName(names[0]) + EncodeNames(names[1..])
  }

  lemma {:induction false} SplitLength(cur: Label, s: seq<byte>)
    ensures |EncodeLabels(Split(cur, s))| == |cur| + |s| + 1
    decreases s
  {
    if s != [] {
      if s[0] == DOT {
        SplitLength([], s[1..]);
        var rest := Split([], s[1..]);
        assert ([cur] + rest)[1..] == rest;
      } else {
        SplitLength(cur + [s[0]], s[1..]);
      }
    } else {
      assert [cur][1..] == [];
    }
  }

  /** Two bytes more than the name: a length for the first label and the zero at the end. */
  lemma EncodedLength(name: Name)
    ensures |EncodeName(name)| == |name| + 2
  {
    SplitLength([], name);
  }

  lemma {:induction false} EncodeNamesConcat(a: seq<Name>, b: seq<Name>)
    ensures EncodeNames(a + b) == EncodeNames(a) + EncodeNames(b)
  {
    if a == [] {
      assert a + b == b;
    } else {
      assert (a + b)[1..] == a[1..] + b;
      EncodeNamesConcat(a[1..], b);
    }
  }

  // ---------------------------------------------------------------------
  // Decoding
  // ---------------------------------------------------------------------

  /** A name off the front: its labels and the bytes behind its zero. */
  function DecodeName(s: seq<byte>): (r: Option<(seq<Label>, seq<byte>)>)
    ensures r.Some? ==> |r.value.1| < |s|
  {
    if s == [] then None
    else
      var n: nat := s[0];
      if n == 0 then Some(([], s[1..]))
      else if n > MAX_LABEL || n + 1 > |s| then None
      else
        var rest := DecodeName(s[n + 1..]);
        if rest.None? then None else Some(([s[1..n + 1]] + rest.value.0, rest.value.1))
  }

  function DecodeNames(s: seq<byte>): Option<seq<seq<Label>>>
    decreases |s|
  {
    if s == [] then Some([])
    else
      var name := DecodeName(s);
      if name.None? then None
      else
        var rest := DecodeNames(name.value.1);
        if rest.None? then None else Some([name.value.0] + rest.value)
  }

  predicate GoodLabels(labels: seq<Label>) { forall l <- labels :: 1 <= |l| <= MAX_LABEL }

  lemma FrontParts(n: byte, l: Label, more: seq<byte>)
    requires n == |l|
    ensures var s := [n] + l + more;
            |s| > |l| && s[0] == n && s[1..|l| + 1] == l && s[|l| + 1..] == more
  {
  }

  lemma LabelInFront(labels: seq<Label>, rest: seq<byte>)
    requires labels != [] && |labels[0]| < 256
    ensures EncodeLabels(labels) + rest == [|labels[0]|] + labels[0] + (EncodeLabels(labels[1..]) + rest)
  {
    var n: byte := |labels[0]|;
    assert |labels[0]| % 256 == n;
  }

  /** One label off the front; an empty one ends the name, a long one is an error. */
  lemma DecodeLabel(l: Label, more: seq<byte>)
    requires |l| < 256
    ensures var d, rest := DecodeName([|l|] + l + more), DecodeName(more);
            if l == [] then d == Some(([], more))
            else if |l| > MAX_LABEL || rest.None? then d.None?
            else d == Some(([l] + rest.value.0, rest.value.1))
  {
    FrontParts(|l|, l, more);
  }

  /** Decoding a name gives its labels back if they all have lengths 1 to 63, and never otherwise. */
  lemma {:induction false} DecodeOfEncodeLabels(labels: seq<Label>, tail: seq<byte>)
    requires forall l <- labels :: |l| < 256
    requires tail != [] && tail[0] == 0
    ensures var d := DecodeName(EncodeLabels(labels) + tail);
            if GoodLabels(labels) then d == Some((labels, tail[1..])) else d.None? || d.value.0 != labels
  {
    if labels == [] {
      assert [] + tail == tail;
    } else {
      var l, more := labels[0], labels[1..];
      assert labels == [l] + more;
      LabelInFront(labels, tail);
      DecodeLabel(l, EncodeLabels(more) + tail);
      DecodeOfEncodeLabels(more, tail);
      var rest := DecodeName(EncodeLabels(more) + tail);
      if l != [] && |l| <= MAX_LABEL && rest.Some? && rest.value.0 != more {
        assert ([l] + rest.value.0)[1..] == rest.value.0;
      }
    }
  }

  function AllLabels(names: seq<Name>): seq<seq<Label>> {
    if names == [] then [] else [Labels(names[0])] + AllLabels(names[1..])
  }

  predicate GoodNames(names: seq<Name>) { forall n <- names :: GoodLabels(Labels(n)) }

  lemma {:induction false} SplitShort(cur: Label, s: seq<byte>)
    ensures forall l <- Split(cur, s) :: |l| <= |cur| + |s|
    decreases s
  {
    if s != [] {
      if s[0] == DOT { SplitShort([], s[1..]); } else { SplitShort(cur + [s[0]], s[1..]); }
    }
  }

  lemma DecodeFirst(name: Name, rest: seq<byte>)
    requires |EncodeName(name) + rest| <= 255
    ensures var d := DecodeName(EncodeName(name) + rest);
            if GoodLabels(Labels(name)) then d == Some((Labels(name), rest)) else d.None? || d.value.0 != Labels(name)
  {
    ShortLabels(name, |rest|);
    Associative(EncodeLabels(Labels(name)), [0], rest);
    DecodeOfEncodeLabels(Labels(name), [0] + rest);
    assert ([0] + rest)[1..] == rest;
  }

  lemma ShortLabels(name: Name, n: nat)
    requires |EncodeName(name)| + n <= 255
    ensures forall l <- Labels(name) :: |l| < 256
  {
    EncodedLength(name);
    SplitShort([], name);
  }

  lemma Associative(a: seq<byte>, b: seq<byte>, c: seq<byte>)
    ensures a + b + c == a + (b + c)
  {
  }

  /** A written option decodes to the same names exactly when all labels have lengths 1 to 63. */
  lemma {:induction false} DecodeOfEncode(names: seq<Name>)
    requires |EncodeNames(names)| <= 255
    ensures DecodeNames(EncodeNames(names)) == Some(AllLabels(names)) <==> GoodNames(names)
  {
    if names != [] {
      DecodeFirst(names[0], EncodeNames(names[1..]));
      DecodeOfEncode(names[1..]);
      assert GoodNames(names) <==> GoodLabels(Labels(names[0])) && GoodNames(names[1..]) by {
        assert names == [names[0]] + names[1..];
      }
      DecodeStep(EncodeNames(names), Labels(names[0]), EncodeNames(names[1..]), AllLabels(names[1..]),
                 GoodLabels(Labels(names[0])), GoodNames(names[1..]));
    }
  }

  lemma DecodeStep(s: seq<byte>, labels: seq<Label>, rest: seq<byte>, more: seq<seq<Label>>, first: bool, others: bool)
    requires s != []
    requires var d := DecodeName(s);
             if first then d == Some((labels, rest)) else d.None? || d.value.0 != labels
    requires DecodeNames(rest) == Some(more) <==> others
    ensures DecodeNames(s) == Some([labels] + more) <==> first && others
  {
    var d := DecodeName(s);
    if d.Some? {
      HeadTail(d.value.0, labels, DecodeNames(d.value.1), more);
    }
  }

  lemma HeadTail<T(!new)>(a: T, b: T, x: Option<seq<T>>, y: seq<T>)
    ensures x.Some? ==> ([a] + x.value == [b] + y <==> a == b && x.value == y)
  {
    if x.Some? && [a] + x.value == [b] + y {
      assert ([a] + x.value)[0] == ([b] + y)[0] && ([a] + x.value)[1..] == ([b] + y)[1..];
    }
  }

  lemma {:induction false} SplitNoDot(cur: Label, s: seq<byte>)
    requires DOT !in s
    ensures Split(cur, s) == [cur + s]
    decreases s
  {
    if s == [] {
      assert cur + s == cur;
    } else {
      SplitNoDot(cur + [s[0]], s[1..]);
      assert cur + [s[0]] + s[1..] == cur + s;
    }
  }

  lemma {:induction false} SplitLastDot(cur: Label, s: seq<byte>)
    requires DOT !in s
    ensures Split(cur, s + [DOT]) == [cur + s, []]
    decreases s
  {
    if s == [] {
      assert s + [DOT] == [DOT] && [DOT][1..] == [] && cur + s == cur;
    } else {
      assert (s + [DOT])[1..] == s[1..] + [DOT];
      SplitLastDot(cur + [s[0]], s[1..]);
      assert cur + [s[0]] + s[1..] == cur + s;
    }
  }

  lemma OneName(name: Name)
    ensures EncodeNames([name]) == EncodeName(name) && |EncodeNames([name])| == |name| + 2
    ensures AllLabels([name]) == [Labels(name)] && (GoodNames([name]) <==> GoodLabels(Labels(name)))
  {
    EncodedLength(name);
    assert EncodeNames([name]) == EncodeName(name) + EncodeNames([name][1..]);
    assert AllLabels([name][1..]) == [];
  }

  /** A label of 64 characters or more is written, but its length byte does not read as one. */
  lemma LongLabelIsLost(name: Name)
    requires MAX_LABEL < |name| <= 253 && DOT !in name
    ensures |EncodeNames([name])| <= 255
    ensures DecodeNames(EncodeNames([name])) != Some([[name]])
  {
    OneName(name);
    SplitNoDot([], name);
    assert [] + name == name && name in Labels(name);
    DecodeOfEncode([name]);
  }

  /** A dot at the end is written as an empty label, which reads as the end of one name and the start of another. */
  lemma TrailingDotIsLost(name: Name)
    requires |name| <= 252 && DOT !in name
    ensures |EncodeNames([name + [DOT]])| <= 255
    ensures DecodeNames(EncodeNames([name + [DOT]])) != Some([[name, []]])
  {
    OneName(name + [DOT]);
    SplitLastDot([], name);
    assert [] + name == name && [] in Labels(name + [DOT]);
    DecodeOfEncode([name + [DOT]]);
  }

  // ---------------------------------------------------------------------
  // Writing the option
  // ---------------------------------------------------------------------

  /** How many bytes of the temporary buffer the names take, up to the first one that is refused. */
  function TempUse(names: seq<Name>, len: nat): nat {
    if names == [] || |names[0]| + len + 1 > TMP_SIZE then len
    else TempUse(names[1..], len + |names[0]| + 2)
  }

  predicate GuardsPass(names: seq<Name>, len: nat) {
    names == [] || (|names[0]| + len + 1 <= TMP_SIZE && GuardsPass(names[1..], len + |names[0]| + 2))
  }

  /** Names that fit the option never trip the guard of the temporary buffer. */
  lemma {:induction false} FittingNamesPass(names: seq<Name>, len: nat)
    requires len + |EncodeNames(names)| <= 255
    ensures GuardsPass(names, len)
  {
    if names != [] {
      EncodedLength(names[0]);
      FittingNamesPass(names[1..], len + |names[0]| + 2);
    }
  }

  /** Some name ends exactly where the guard still lets it pass although its closing zero no longer fits. */
  ghost predicate OnTheEdge(names: seq<Name>, len: nat) {
    exists k :: 0 <= k < |names| && len + |EncodeNames(names[..k])| + |names[k]| + 1 == TMP_SIZE
  }

  lemma EdgeStep(names: seq<Name>, len: nat)
    requires names != []
    ensures OnTheEdge(names, len) <==>
            len + |names[0]| + 1 == TMP_SIZE || OnTheEdge(names[1..], len + |names[0]| + 2)
  {
    var rest, more := names[1..], len + |names[0]| + 2;
    EncodedLength(names[0]);
    forall k | 0 <= k < |rest|
      ensures len + |EncodeNames(names[..k + 1])| == more + |EncodeNames(rest[..k])| && rest[k] == names[k + 1]
    {
      assert names[..k + 1][1..] == rest[..k] && names[..k + 1][0] == names[0];
    }
    if OnTheEdge(names, len) {
      var k :| 0 <= k < |names| && len + |EncodeNames(names[..k])| + |names[k]| + 1 == TMP_SIZE;
      if k == 0 {
        assert names[..0] == [];
      } else {
        assert names[..k - 1 + 1] == names[..k];
        assert more + |EncodeNames(rest[..k - 1])| + |rest[k - 1]| + 1 == TMP_SIZE;
      }
    }
    if len + |names[0]| + 1 == TMP_SIZE {
      assert len + |EncodeNames(names[..0])| + |names[0]| + 1 == TMP_SIZE;
    }
    if OnTheEdge(rest, more) {
      var k :| 0 <= k < |rest| && more + |EncodeNames(rest[..k])| + |rest[k]| + 1 == TMP_SIZE;
      assert len + |EncodeNames(names[..k + 1])| + |names[k + 1]| + 1 == TMP_SIZE;
    }
  }

  lemma {:induction false} NoEdgeBehindTheEnd(names: seq<Name>, len: nat)
    requires len >= TMP_SIZE
    ensures !OnTheEdge(names, len)
  {
    if names != [] {
      EdgeStep(names, len);
      NoEdgeBehindTheEnd(names[1..], len + |names[0]| + 2);
    }
  }

  /** The temporary buffer holds all that is written, except that names on the edge need one byte more. */
  lemma {:induction false} TempUseBounded(names: seq<Name>, len: nat)
    requires len <= TMP_SIZE
    ensures TempUse(names, len) <= TMP_SIZE + 1
    ensures TempUse(names, len) == TMP_SIZE + 1 <==> OnTheEdge(names, len)
  {
    if names != [] {
      var more := len + |names[0]| + 2;
      EdgeStep(names, len);
      if more <= TMP_SIZE {
        TempUseBounded(names[1..], more);
      } else {
        NoEdgeBehindTheEnd(names[1..], more);
        assert more == TMP_SIZE + 1 ==> TempUse(names[1..], more) == more;
      }
    }
  }

  /** A single name of 255 characters is on the edge. */
  lemma EdgeExample(name: Name)
    requires |name| == 255
    ensures TempUse([name], 0) == TMP_SIZE + 1 && GuardsPass([name], 0)
  {
    assert [name][1..] == [];
  }

  lemma EncodeEnd(cur: Label)
    ensures EncodeLabels(Split(cur, [])) == [|cur| % 256] + cur
  {
    assert [cur][1..] == [];
    assert [|cur| % 256] + cur + [] == [|cur| % 256] + cur;
  }

  lemma EncodeDot(cur: Label, s: seq<byte>)
    requires s != [] && s[0] == DOT
    ensures EncodeLabels(Split(cur, s)) == [|cur| % 256] + cur + EncodeLabels(Split([], s[1..]))
  {
    var rest := Split([], s[1..]);
    assert ([cur] + rest)[1..] == rest;
  }

  /** What the name still to be written adds to the bytes in front of the current label. */
  ghost predicate Pending(goal: seq<byte>, done: seq<byte>, cur: Label, rest: seq<byte>) {
    done + EncodeLabels(Split(cur, rest)) == goal
  }

  lemma PendingDot(goal: seq<byte>, done: seq<byte>, cur: Label, rest: seq<byte>)
    requires Pending(goal, done, cur, rest) && rest != [] && rest[0] == DOT
    ensures Pending(goal, done + [|cur| % 256] + cur, [], rest[1..])
  {
    EncodeDot(cur, rest);
    assert done + ([|cur| % 256] + cur + EncodeLabels(Split([], rest[1..])))
        == done + [|cur| % 256] + cur + EncodeLabels(Split([], rest[1..]));
  }

  lemma PendingEnd(goal: seq<byte>, done: seq<byte>, cur: Label)
    requires Pending(goal, done, cur, [])
    ensures done + [|cur| % 256] + cur == goal
  {
    EncodeEnd(cur);
    assert done + ([|cur| % 256] + cur) == done + [|cur| % 256] + cur;
  }

  /** The bytes written so far, with the length of the current label still to be put in at `pos`. */
  ghost predicate Writing(goal: seq<byte>, t: seq<byte>, pos: nat, rest: seq<byte>) {
    pos < |t| && Pending(goal, t[..pos], t[pos + 1..], rest)
  }

  function WithLength(t: seq<byte>, pos: nat): seq<byte>
    requires pos < |t|
  {
    t[pos := (|t| - pos - 1) % 256]
  }

  lemma WritingEnds(goal: seq<byte>, t: seq<byte>, pos: nat)
    requires Writing(goal, t, pos, [])
    ensures WithLength(t, pos) == goal
  {
    PendingEnd(goal, t[..pos], t[pos + 1..]);
    assert WithLength(t, pos) == t[..pos] + [|t[pos + 1..]| % 256] + t[pos + 1..];
  }

  lemma WritingDot(goal: seq<byte>, t: seq<byte>, pos: nat, rest: seq<byte>)
    requires Writing(goal, t, pos, rest) && rest != [] && rest[0] == DOT
    ensures Writing(goal, WithLength(t, pos) + [DOT], |t|, rest[1..])
  {
    PendingDot(goal, t[..pos], t[pos + 1..], rest);
    var u := WithLength(t, pos);
    assert u == t[..pos] + [|t[pos + 1..]| % 256] + t[pos + 1..];
    assert (u + [DOT])[..|t|] == u && (u + [DOT])[|t| + 1..] == [];
  }

  lemma WritingChar(goal: seq<byte>, t: seq<byte>, pos: nat, rest: seq<byte>)
    requires Writing(goal, t, pos, rest) && rest != [] && rest[0] != DOT
    ensures Writing(goal, t + [rest[0]], pos, rest[1..])
  {
    assert (t + [rest[0]])[..pos] == t[..pos] && (t + [rest[0]])[pos + 1..] == t[pos + 1..] + [rest[0]];
  }

  method PutByte(tmp: array<byte>, len: nat, c: byte)
    requires len < tmp.Length
    modifies tmp
    ensures tmp[..len + 1] == old(tmp[..len]) + [c]
  {
    tmp[len] := c;
  }

  method PutLength(tmp: array<byte>, len: nat, pos: nat)
    requires pos < len <= tmp.Length
    modifies tmp
    ensures tmp[..len] == WithLength(old(tmp[..len]), pos)
  {
    tmp[pos] := (len - pos - 1) % 256;
  }

  /** Writes one name, putting in each label's length once the label is over. */
  method WriteName(tmp: array<byte>, start: nat, name: Name) returns (len: nat)
    requires start + |name| + 2 <= tmp.Length
    modifies tmp
    ensures len == start + |name| + 2
    ensures tmp[..len] == old(tmp[..start]) + EncodeName(name)
  {
    ghost var goal := tmp[..start] + EncodeLabels(Labels(name));
    var labelLengthPos := start;
    len := start + 1;
    var k := 0;
    assert tmp[..len][..start] == tmp[..start] && tmp[..len][start + 1..] == [] && name[0..] == name;
    while true
      invariant k <= |name| && len == start + 1 + k
      invariant Writing(goal, tmp[..len], labelLengthPos, name[k..])
      decreases |name| - k
    {
      assert k < |name| ==> name[k..][0] == name[k] && name[k..][1..] == name[k + 1..];
      if k == |name| || name[k] == DOT {
        if k == |name| {
          WritingEnds(goal, tmp[..len], labelLengthPos);
        } else {
          WritingDot(goal, tmp[..len], labelLengthPos, name[k..]);
        }
        PutLength(tmp, len, labelLengthPos);
        labelLengthPos := len;
        if k == |name| {
          break;
        }
      } else {
        WritingChar(goal, tmp[..len], labelLengthPos, name[k..]);
      }
      PutByte(tmp, len, name[k]);
      len := len + 1;
      k := k + 1;
    }
    PutByte(tmp, len, 0);
    len := len + 1;
    Associative(old(tmp[..start]), EncodeLabels(Labels(name)), [0]);
  }

  /**
   * Appends the option to a buffer with `room` bytes left, or reports an error
   * and leaves it alone. `used` counts the bytes written to the temporary
   * buffer, which is one byte longer here than in the source so that names on
   * the edge can be told apart.
   */
  method WriteDhcpSearchStr(buf: seq<byte>, room: nat, kind: byte, names: seq<Name>)
    returns (r: Option<seq<byte>>, used: nat)
    ensures used == TempUse(names, 0)
    ensures var e := EncodeNames(names);
            r == if |e| <= 255 && 2 + |e| <= room then Some(buf + [kind, |e|] + e) else None
  {
    var tmp := new byte[TMP_SIZE + 1];
    var len: nat := 0;
    var i := 0;
    assert names[0..] == names && names[..0] == [];
    while i < |names|
      invariant i <= |names| && len <= TMP_SIZE + 1
      invariant tmp[..len] == EncodeNames(names[..i])
      invariant TempUse(names[i..], len) == TempUse(names, 0)
      invariant GuardsPass(names[i..], len) <==> GuardsPass(names, 0)
    {
      assert names[i..][0] == names[i] && names[i..][1..] == names[i + 1..];
      if |names[i]| + len + 1 > TMP_SIZE {
        if |EncodeNames(names)| <= 255 { FittingNamesPass(names, 0); }
        return None, len;
      }
      EncodeSnoc(names, i);
      len := WriteName(tmp, len, names[i]);
      i := i + 1;
    }
    assert names[..i] == names;
    used := len;
    if 2 + len > room {
      return None, len;
    }
    if len > 255 {
      return None, len;
    }
    return Some(buf + [kind, len] + tmp[..len]), len;
  }

  lemma EncodeSnoc(names: seq<Name>, i: nat)
    requires i < |names|
    ensures EncodeNames(names[..i + 1]) == EncodeNames(names[..i]) + EncodeName(names[i])
  {
    assert names[..i + 1] == names[..i] + [names[i]];
    EncodeNamesConcat(names[..i], [names[i]]);
    assert EncodeNames([names[i]]) == EncodeName(names[i]);
  }
}

/**
 * The list of buffers that management and push messages are queued in: a
 * singly linked list with head, tail and size, and the aggregation of its
 * first entries into one.
 */
module BufferList {
  import opened Octets

  type Data = seq<byte>

  // ---------------------------------------------------------------------
  // What aggregation does to the contents
  // ---------------------------------------------------------------------

  /** Every buffer followed by the separator, the last one too. */
  function Separated(bufs: seq<Data>, sep: Data): Data {
    if bufs == [] then [] else bufs[0] + sep + Separated(bufs[1..], sep)
  }

  /** How many buffers are taken when `size` bytes are in use already. */
  function Fitting(bufs: seq<Data>, maxLen: nat, sep: Data, size: nat): (n: nat)
    ensures n <= |bufs|
  {
    if bufs == [] || size + |bufs[0]| + |sep| > maxLen then 0
    else 1 + Fitting(bufs[1..], maxLen, sep, size + |bufs[0]| + |sep|)
  }

  function Aggregated(bufs: seq<Data>, maxLen: nat, sep: Data): seq<Data> {
    var n := Fitting(bufs, maxLen, sep, 0);
    if n < 2 then bufs else [Separated(bufs[..n], sep)] + bufs[n..]
  }

  lemma {:induction false} SeparatedConcat(a: seq<Data>, b: seq<Data>, sep: Data)
    ensures Separated(a + b, sep) == Separated(a, sep) + Separated(b, sep)
  {
    if a == [] {
      assert a + b == b;
    } else {
      assert (a + b)[1..] == a[1..] + b;
      SeparatedConcat(a[1..], b, sep);
    }
  }

  lemma SeparatedSnoc(bufs: seq<Data>, k: nat, sep: Data)
    requires k < |bufs|
    ensures Separated(bufs[..k + 1], sep) == Separated(bufs[..k], sep) + bufs[k] + sep
  {
    assert bufs[..k + 1] == bufs[..k] + [bufs[k]];
    SeparatedConcat(bufs[..k], [bufs[k]], sep);
    assert Separated([bufs[k]], sep) == bufs[k] + sep + [];
  }

  /** The merged buffers are the longest prefix whose separated length is within the limit. */
  lemma {:induction false} FittingIsLongest(bufs: seq<Data>, maxLen: nat, sep: Data, size: nat, k: nat)
    requires k <= |bufs|
    requires size <= maxLen
    ensures size + |Separated(bufs[..k], sep)| <= maxLen <==> k <= Fitting(bufs, maxLen, sep, size)
  {
    if k > 0 {
      var more := size + |bufs[0]| + |sep|;
      assert bufs[..k][0] == bufs[0] && bufs[..k][1..] == bufs[1..][..k - 1];
      if more <= maxLen {
        FittingIsLongest(bufs[1..], maxLen, sep, more, k - 1);
      }
    }
  }

  function Concat(bufs: seq<Data>): Data { if bufs == [] then [] else bufs[0] + Concat(bufs[1..]) }

  lemma {:induction false} SeparatedByNothing(bufs: seq<Data>)
    ensures Separated(bufs, []) == Concat(bufs)
  {
    if bufs != [] { SeparatedByNothing(bufs[1..]); }
  }

  /** Without a separator no byte is lost, added or moved. */
  lemma AggregationConserves(bufs: seq<Data>, maxLen: nat)
    ensures Concat(Aggregated(bufs, maxLen, [])) == Concat(bufs)
  {
    var n := Fitting(bufs, maxLen, [], 0);
    if n >= 2 {
      assert bufs == bufs[..n] + bufs[n..];
      SeparatedByNothing(bufs);
      SeparatedByNothing(bufs[..n]);
      SeparatedByNothing(bufs[n..]);
      SeparatedConcat(bufs[..n], bufs[n..], []);
    }
  }

  /** The merged buffer is within the limit, and the one behind it would not have fitted in. */
  lemma AggregatedHeadFits(bufs: seq<Data>, maxLen: nat, sep: Data)
    requires Fitting(bufs, maxLen, sep, 0) >= 2
    ensures var a := Aggregated(bufs, maxLen, sep);
            && |a| == |bufs| - Fitting(bufs, maxLen, sep, 0) + 1
            && |a[0]| <= maxLen
            && (|a| > 1 ==> |a[0]| + |a[1]| + |sep| > maxLen)
  {
    var n := Fitting(bufs, maxLen, sep, 0);
    FittingIsLongest(bufs, maxLen, sep, 0, n);
    if n < |bufs| {
      FittingIsLongest(bufs, maxLen, sep, 0, n + 1);
      SeparatedSnoc(bufs, n, sep);
    }
  }

  // ---------------------------------------------------------------------
  // The list
  // ---------------------------------------------------------------------

  class Entry {
    var buf: Data
    var next: Entry?

    constructor (buf: Data)
      ensures this.buf == buf && next == null
    {
      this.buf, next := buf, null;
    }
  }

  /** The entry at a position, null outside the list. */
  ghost function At(spine: seq<Entry>, i: int): Entry? { if 0 <= i < |spine| then spine[i] else null }

  class List {
    var head: Entry?
    var tail: Entry?
    var size: nat
    ghost var spine: seq<Entry>

    /** Head, tail, size and links all follow the spine, in which no entry occurs twice. */
    ghost predicate Valid()
      reads this, spine
    {
      && size == |spine|
      && head == At(spine, 0)
      && tail == At(spine, |spine| - 1)
      && (forall i :: 0 <= i < |spine| ==> spine[i].next == At(spine, i + 1))
      && (forall i, j :: 0 <= i < j < |spine| ==> spine[i] != spine[j])
    }

    ghost function Contents(): seq<Data>
      reads this, spine
    {
      seq(|spine|, i requires 0 <= i < |spine| reads this, spine => spine[i].buf)
    }

    constructor ()
      ensures Valid() && Contents() == [] && spine == []
    {
      head, tail, size, spine := null, null, 0, [];
    }

    method PushData(data: Data) returns (e: Entry)
      requires Valid()
      modifies this, spine
      ensures Valid() && fresh(e) && spine == old(spine) + [e]
      ensures Contents() == old(Contents()) + [data]
    {
      e := new Entry(data);
      size := size + 1;
      if tail != null {
        assert head != null;
        tail.next := e;
      } else {
        assert head == null;
        head := e;
      }
      tail := e;
      spine := spine + [e];
    }

    method Pop()
      requires Valid()
      modifies this
      ensures Valid() && spine == if old(spine) == [] then [] else old(spine)[1..]
      ensures Contents() == if old(Contents()) == [] then [] else old(Contents())[1..]
    {
      if head != null && size > 0 {
        var e := head.next;
        assert e == At(spine, 1);
        head := e;
        size := size - 1;
        if e == null {
          tail := null;
        }
        ghost var was := spine;
        spine := spine[1..];
        assert forall i :: 0 <= i <= |spine| ==> At(spine, i) == At(was, i + 1);
      }
    }

    /** Drops n bytes off the first buffer, and the buffer itself when nothing is left of it. */
    method Advance(n: nat)
      requires Valid() && (spine != [] ==> n <= |spine[0].buf|)
      modifies this, spine
      ensures Valid()
      ensures var was := old(Contents());
              Contents() == if was == [] then [] else if n == |was[0]| then was[1..] else [was[0][n..]] + was[1..]
    {
      if head != null {
        head.buf := head.buf[n..];
        if |head.buf| == 0 {
          Pop();
        }
      }
    }

    /** Walks along the list as long as the limit allows. */
    method CountFitting(maxLen: nat, sep: Data) returns (more: Entry?, length: nat, count: nat)
      requires Valid()
      ensures count == Fitting(Contents(), maxLen, sep, 0) && more == At(spine, count)
      ensures length == |Separated(Contents()[..count], sep)|
    {
      ghost var c := Contents();
      more, length, count := head, 0, 0;
      assert c[0..] == c && c[..0] == [];
      while more != null
        invariant count <= |spine| && more == At(spine, count)
        invariant Fitting(c, maxLen, sep, 0) == count + Fitting(c[count..], maxLen, sep, length)
        invariant length == |Separated(c[..count], sep)|
        decreases |spine| - count
      {
        var extraLen := |more.buf| + |sep|;
        assert c[count..][0] == more.buf && c[count..][1..] == c[count + 1..];
        if length + extraLen > maxLen {
          break;
        }
        SeparatedSnoc(c, count, sep);
        length := length + extraLen;
        more := more.next;
        count := count + 1;
      }
    }

    /** Puts an entry in the place of the first ones. */
    method Replace(f: Entry, count: nat, more: Entry?)
      requires Valid() && f !in spine && 1 <= count <= |spine| && more == At(spine, count)
      modifies this, f`next
      ensures Valid() && spine == [f] + old(spine)[count..]
    {
      ghost var was := spine;
      head := f;
      size := size - (count - 1);
      f.next := more;
      if more == null {
        tail := f;
      }
      spine := [f] + spine[count..];
      assert forall i :: 0 < i <= |spine| ==> At(spine, i) == At(was, i + count - 1);
    }

    /** Merges the longest prefix that fits, provided it has at least two entries. */
    method AggregateSeparator(maxLen: nat, sep: Data)
      requires Valid()
      modifies this
      ensures Valid() && Contents() == Aggregated(old(Contents()), maxLen, sep)
    {
      ghost var c := Contents();
      var more, length, count := CountFitting(maxLen, sep);
      if count >= 2 {
        var f := Merge(count, length, sep);
        Replace(f, count, more);
        assert Contents() == [f.buf] + c[count..];
      }
    }

    /** Copies the first buffers, each with its separator, into one; all of them fit what was allocated. */
    method Merge(count: nat, length: nat, sep: Data) returns (f: Entry)
      requires Valid() && count <= |spine| && length == |Separated(Contents()[..count], sep)|
      ensures fresh(f) && f.buf == Separated(Contents()[..count], sep)
    {
      ghost var c := Contents();
      f := new Entry([]);
      var capacity := length + 1;
      var e := head;
      var i := 0;
      assert c[..0] == [];
      while e != null && i < count
        invariant i <= count && fresh(f)
        invariant e == At(spine, i)
        invariant f.buf == Separated(c[..i], sep)
        decreases count - i
      {
        var next := e.next;
        SeparatedSnoc(c, i, sep);
        SeparatedPrefix(c, i + 1, count, sep);
        assert |f.buf| + |e.buf| <= capacity;
        f.buf := f.buf + e.buf;
        assert |f.buf| + |sep| <= capacity;
        f.buf := f.buf + sep;
        e := next;
        i := i + 1;
      }
    }
  }

  lemma SeparatedPrefix(bufs: seq<Data>, i: nat, n: nat, sep: Data)
    requires i <= n <= |bufs|
    ensures |Separated(bufs[..i], sep)| <= |Separated(bufs[..n], sep)|
  {
    assert bufs[..n] == bufs[..i] + bufs[i..n];
    SeparatedConcat(bufs[..i], bufs[i..n], sep);
  }
}

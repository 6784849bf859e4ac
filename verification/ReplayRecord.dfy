/** The replay record as it is updated in place, over a circular list in an array. */
module ReplayRecord {
  import opened Octets
  import opened PacketId

  /** x on a circle of the given circumference, moved by y. */
  function ModuloAdd(x: int, y: int, circle: int): (r: int)
    requires 0 <= x < circle && -circle <= y <= circle
    ensures 0 <= r < circle && (r == x + y || r == x + y - circle || r == x + y + circle)
  {
    var sum := x + y;
    var low := if sum >= circle then sum - circle else sum;
    if low < 0 then low + circle else low
  }

  class SeqList {
    var list: array<nat>
    var head: nat
    var size: nat

    ghost predicate Valid()
      reads this
    {
      head < list.Length && size <= list.Length
    }

    /** Newest first. */
    ghost function Items(): (s: seq<nat>)
      requires Valid()
      reads this, list
      ensures |s| == size
    {
      seq(size, i requires 0 <= i < size && Valid() reads this, list => list[ModuloAdd(head, i, list.Length)])
    }

    constructor (cap: nat)
      requires cap > 0
      ensures Valid() && fresh(list) && list.Length == cap && Items() == []
    {
      list := new nat[cap](i => 0);
      head, size := 0, 0;
    }

    method Push(item: nat)
      requires Valid()
      modifies this`head, this`size, list
      ensures Valid() && Items() == Take([item] + old(Items()), list.Length)
    {
      ghost var was := Items();
      head := ModuloAdd(head, -1, list.Length);
      list[head] := item;
      size := Min(size + 1, list.Length);
      forall i | 0 <= i < size ensures Items()[i] == ([item] + was)[i] {
        if i > 0 { assert ModuloAdd(head, i, list.Length) == ModuloAdd(old(head), i - 1, list.Length); }
      }
    }

    method Item(index: nat) returns (v: nat)
      requires Valid() && index < size
      ensures v == Items()[index]
    {
      v := list[ModuloAdd(head, index, list.Length)];
    }

    method SetItem(index: nat, v: nat)
      requires Valid() && index < size
      modifies list
      ensures Valid() && Items() == old(Items())[index := v]
    {
      list[ModuloAdd(head, index, list.Length)] := v;
    }

    /** Marks everything from the first stale entry on as expired, stopping where that was done before. */
    method Expire(timeBacktrack: nat, now: nat)
      requires Valid()
      modifies list
      ensures Valid() && Items() == Expired(old(Items()), timeBacktrack, now)
    {
      ghost var w := Items();
      ghost var k, live := FirstStale(w, timeBacktrack, now), LiveLen(w);
      var expire, i := false, 0;
      while i < size
        invariant 0 <= i <= live <= size == |w| && Valid()
        invariant expire == (k < i)
        invariant Items() == Marked(w, k, i)
      {
        var t := Item(i);
        assert t == w[i];
        if t == SEQ_EXPIRED {
          break;
        }
        if !expire && t != SEQ_UNSEEN && t + timeBacktrack < now {
          expire := true;
        }
        if expire {
          SetItem(i, SEQ_EXPIRED);
        }
        assert Items() == Marked(w, k, i + 1);
        i := i + 1;
      }
    }

    method Reset()
      requires Valid()
      modifies this`head, this`size
      ensures Valid() && Items() == []
    {
      head, size := 0, 0;
    }
  }

  class PacketIdRec {
    var lastReap: nat
    var time: nat
    var id: nat
    var seqBacktrack: nat
    var timeBacktrack: nat
    var seqList: SeqList?

    ghost function Repr(): set<object>
      reads this, seqList
    {
      if seqList == null then {this} else {this, seqList as object, seqList.list}
    }

    /** The list exists exactly in the reordering mode, and then has `seqBacktrack` places. */
    ghost predicate Shape()
      reads this, seqList
    {
      && (seqList == null <==> seqBacktrack == 0)
      && (seqList != null ==> seqList.Valid() && seqList.list.Length == seqBacktrack)
    }

    ghost function Abs(): ReplayRec
      requires Shape()
      reads this, seqList, if seqList == null then {} else {seqList.list}
    {
      ReplayRec(lastReap, time, id, seqBacktrack, timeBacktrack,
                if seqList == null then [] else seqList.Items())
    }

    ghost predicate Valid()
      reads this, seqList, if seqList == null then {} else {seqList.list}
    {
      Shape() && ValidRec(Abs())
    }

    constructor (seqBacktrack: nat, timeBacktrack: nat)
      ensures Valid() && fresh(Repr()) && Abs() == FreshRec(seqBacktrack, timeBacktrack)
    {
      lastReap, time, id := 0, 0, 0;
      this.seqBacktrack := seqBacktrack;
      this.timeBacktrack := if seqBacktrack == 0 then 0 else timeBacktrack;
      if seqBacktrack > 0 {
        seqList := new SeqList(seqBacktrack);
      } else {
        seqList := null;
      }
    }

    /** Whether the packet id may pass; nothing is remembered yet. */
    method TestId(pin: PacketIdNet) returns (ok: bool)
      requires Valid()
      ensures ok == Test(Abs(), pin)
    {
      if pin.id == 0 { return false; }
      if seqBacktrack > 0 {
        if pin.time == time {
          if pin.id > id { return true; }
          var diff := id - pin.id;
          if diff >= seqList.size { return false; }
          var v := seqList.Item(diff);
          return v == SEQ_UNSEEN;
        }
        return pin.time > time;
      }
      if pin.time == time { return id == 0 || pin.id == id + 1; }
      return pin.time > time && pin.id == 1;
    }

    method RestartFor(pin: PacketIdNet)
      requires Shape() && seqList != null
      modifies this`time, this`id, seqList
      ensures Shape() && Abs() == Restarted(old(Abs()), pin)
      ensures seqList == old(seqList) && seqList.list == old(seqList.list)
    {
      if seqList.size == 0 || pin.time > time || (pin.id >= seqBacktrack && pin.id - seqBacktrack > id) {
        time, id := pin.time, 0;
        if pin.id > seqBacktrack { id := pin.id - seqBacktrack; }
        seqList.Reset();
      }
    }

    method AdvanceTo(upTo: nat)
      requires Shape() && seqList != null
      modifies this`id, seqList, seqList.list
      ensures Shape() && Abs() == Advanced(old(Abs()), upTo)
      ensures seqList == old(seqList) && seqList.list == old(seqList.list)
    {
      ghost var q := Abs();
      while id < upTo
        invariant seqList.Valid() && seqList.list == old(seqList.list)
        invariant q.id <= id <= Max(q.id, upTo)
        invariant seqList.Items() == Advanced(q, id).window
      {
        AdvancedStep(q, id);
        seqList.Push(SEQ_UNSEEN);
        id := id + 1;
      }
    }

    method AddId(pin: PacketIdNet, now: nat)
      requires Valid()
      modifies this`time, this`id, seqList, if seqList == null then {} else {seqList.list}
      ensures Valid() && Abs() == Add(old(Abs()), pin, now)
      ensures seqList == old(seqList)
      ensures seqList != null ==> seqList.list == old(seqList.list)
    {
      if seqList == null {
        time, id := pin.time, pin.id;
        return;
      }
      RestartFor(pin);
      AdvanceTo(pin.id);
      var diff := id - pin.id;
      if diff < seqList.size && now > SEQ_EXPIRED {
        seqList.SetItem(diff, now);
      }
    }

    /** Marks as expired every id that is not newer than one accepted too long ago. */
    method ReapIds(now: nat)
      requires Valid()
      modifies this`lastReap, if seqList == null then {} else {seqList.list}
      ensures Valid() && Abs() == Reap(old(Abs()), now)
      ensures seqList == old(seqList)
    {
      if timeBacktrack > 0 {
        seqList.Expire(timeBacktrack, now);
      }
      lastReap := now;
    }

    method ReapTest(now: nat)
      requires Valid()
      modifies this`lastReap, if seqList == null then {} else {seqList.list}
      ensures Valid() && Abs() == ReapIfDue(old(Abs()), now)
      ensures seqList == old(seqList)
    {
      if lastReap + SEQ_REAP_INTERVAL <= now {
        ReapIds(now);
      }
    }

    /** Reaps when due, then tests the packet id and remembers it if it passes. */
    method CheckId(pin: PacketIdNet, now: nat) returns (ok: bool)
      requires Valid()
      modifies Repr()
      ensures Valid() && (ok, Abs()) == Check(old(Abs()), pin, now)
      ensures Repr() == old(Repr())
    {
      ReapTest(now);
      ok := TestId(pin);
      if ok {
        AddId(pin, now);
      }
    }

    /** Takes over the list of `src`, which starts again with an empty one. */
    method MoveFrom(src: PacketIdRec)
      requires src != this && src.Valid()
      modifies this, src
      ensures Valid() && Abs() == old(src.Abs())
      ensures src.Valid() && src.Abs() == FreshRec(src.seqBacktrack, src.timeBacktrack)
      ensures src.seqBacktrack == old(src.seqBacktrack) && src.timeBacktrack == old(src.timeBacktrack)
      ensures seqList == old(src.seqList)
      ensures src.seqList != null ==> fresh(src.seqList) && fresh(src.seqList.list)
    {
      lastReap, time, id := src.lastReap, src.time, src.id;
      seqBacktrack, timeBacktrack, seqList := src.seqBacktrack, src.timeBacktrack, src.seqList;
      src.lastReap, src.time, src.id := 0, 0, 0;
      if seqBacktrack > 0 {
        src.seqList := new SeqList(seqBacktrack);
      } else {
        src.seqList := null;
      }
    }
  }
}

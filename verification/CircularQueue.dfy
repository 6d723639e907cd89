/** spdlog's ring buffer: one slot more than its capacity, so that head and tail tell full from empty. */
module CircularQueue {

  /** A bounded sequence after one more item: the oldest one goes if there was no room. */
  function Pushed<T>(q: seq<T>, capacity: nat, item: T): seq<T> {
    if |q| < capacity then q + [item] else (q + [item])[1..]
  }

  class CircularQ<T(0)> {
    var maxItems: nat
    var head: nat
    var tail: nat
    var overrunCounter: nat
    var v: array<T>

    ghost predicate Valid()
      reads this
    {
      if maxItems == 0 then head == 0 && tail == 0
      else v.Length == maxItems && head < maxItems && tail < maxItems
    }

    function Size(): (n: nat)
      requires Valid()
      reads this
      ensures maxItems > 0 ==> n < maxItems
    {
      if tail >= head then tail - head else maxItems - (head - tail)
    }

    /** The stored items, oldest first. */
    ghost function Contents(): (s: seq<T>)
      requires Valid()
      reads this, v
      ensures |s| == Size()
    {
      if maxItems == 0 then [] else Segment(v[..], head, tail)
    }

    /** The default constructor makes a disabled queue. */
    constructor Disabled()
      ensures Valid() && maxItems == 0 && Contents() == [] && overrunCounter == 0 && fresh(v)
    {
      maxItems, head, tail, overrunCounter := 0, 0, 0, 0;
      v := new T[0];
    }

    constructor (capacity: nat)
      ensures Valid() && maxItems == capacity + 1 && Contents() == [] && overrunCounter == 0 && fresh(v)
    {
      maxItems, head, tail, overrunCounter := capacity + 1, 0, 0, 0;
      v := new T[capacity + 1];
    }

    /** Appends, and lets the oldest item go if there is no room; a disabled queue ignores the item. */
    method PushBack(item: T)
      requires Valid()
      modifies this`tail, this`head, this`overrunCounter, v
      ensures Valid()
      ensures maxItems == 0 ==> Contents() == old(Contents()) && overrunCounter == old(overrunCounter)
      ensures maxItems > 0 ==>
                && Contents() == Pushed(old(Contents()), maxItems - 1, item)
                && overrunCounter == old(overrunCounter) + if old(Size()) < maxItems - 1 then 0 else 1
    {
      if maxItems > 0 {
        SegmentPush(v[..], head, tail, item);
        v[tail] := item;
        tail := (tail + 1) % maxItems;
        if tail == head {
          head := (head + 1) % maxItems;
          overrunCounter := overrunCounter + 1;
        }
      }
    }

    method Front() returns (item: T)
      requires Valid() && Size() > 0
      ensures item == Contents()[0]
    {
      item := v[head];
    }

    method At(i: nat) returns (item: T)
      requires Valid() && i < Size()
      ensures item == Contents()[i]
    {
      WrapsAround(head + i, maxItems);
      item := v[(head + i) % maxItems];
    }

    method PopFront()
      requires Valid() && Size() > 0
      modifies this`head
      ensures Valid() && Contents() == old(Contents())[1..]
    {
      SegmentPop(v[..], head, tail);
      head := (head + 1) % maxItems;
    }

    method Empty() returns (b: bool)
      requires Valid()
      ensures b <==> Contents() == []
    {
      b := tail == head;
    }

    /** A disabled queue is never full. */
    method Full() returns (b: bool)
      requires Valid()
      ensures b <==> maxItems > 0 && |Contents()| == maxItems - 1
    {
      if maxItems > 0 {
        WrapsAround(tail + 1, maxItems);
        return (tail + 1) % maxItems == head;
      }
      return false;
    }

    /** Moving takes the items over and leaves a disabled, valid queue behind. */
    method MoveFrom(other: CircularQ<T>)
      requires other != this && other.Valid()
      modifies this, other
      ensures Valid() && other.Valid()
      ensures Contents() == old(other.Contents()) && overrunCounter == old(other.overrunCounter)
      ensures maxItems == old(other.maxItems)
      ensures other.maxItems == 0 && other.Contents() == [] && other.overrunCounter == 0
    {
      maxItems, head, tail := other.maxItems, other.head, other.tail;
      overrunCounter, v := other.overrunCounter, other.v;
      other.maxItems, other.head, other.tail, other.overrunCounter := 0, 0, 0, 0;
      other.v := new T[0];
    }
  }

  /** The items from slot h up to slot t, around the end of the array if need be. */
  function Segment<T>(a: seq<T>, h: nat, t: nat): seq<T>
    requires h < |a| && t < |a|
  {
    if t >= h then a[h..t] else a[h..] + a[..t]
  }

  lemma SegmentPush<T>(a: seq<T>, h: nat, t: nat, x: T)
    requires h < |a| && t < |a|
    ensures var t' := (t + 1) % |a|;
            && t' < |a| && (h + 1) % |a| < |a|
            && (t' == h <==> |Segment(a, h, t)| == |a| - 1)
            && (t' != h ==> Segment(a[t := x], h, t') == Segment(a, h, t) + [x])
            && (t' == h ==> Segment(a[t := x], (h + 1) % |a|, t') == (Segment(a, h, t) + [x])[1..])
  {
    WrapsAround(t + 1, |a|);
    WrapsAround(h + 1, |a|);
    var b := a[t := x];
    if t + 1 == |a| {
      assert b[h..] == a[h..t] + [x];
    } else {
      assert b[..t + 1] == a[..t] + [x];
    }
  }

  lemma SegmentPop<T>(a: seq<T>, h: nat, t: nat)
    requires h < |a| && t < |a| && h != t
    ensures (h + 1) % |a| < |a| && Segment(a, (h + 1) % |a|, t) == Segment(a, h, t)[1..]
  {
    WrapsAround(h + 1, |a|);
  }

  lemma WrapsAround(x: nat, n: nat)
    requires x < 2 * n
    ensures x % n == if x < n then x else x - n
  {
  }
}

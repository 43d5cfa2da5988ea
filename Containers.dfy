/** The fixed-capacity containers of the runtime header: TVector (elements
    shifted in place inside a fixed buffer), TDeque<TUniquePtr> (an index
    window over a fixed array of owning pointers) and TPeriodicTrigger. */
module Containers {
  import opened Time
  import opened Ownership

  /** TVector<ItemType, Capacity>: `size` plays the role of the End pointer. */
  class Vector<T(0)> {
    const capacity: nat
    var data: array<T>
    var size: nat

    ghost predicate Valid()
      reads this
    {
      data.Length == capacity && size <= capacity
    }

    function Contents(): seq<T>
      reads this, data
      requires Valid()
    {
      data[..size]
    }

    constructor (cap: nat)
      ensures Valid() && fresh(data)
      ensures capacity == cap && Contents() == []
    {
      capacity := cap;
      data := new T[cap];
      size := 0;
    }

    function Empty(): (r: bool)
      reads this, data
      requires Valid()
      ensures r <==> Contents() == []
    {
      size == 0
    }

    /** insert(it, item): when there is room, shift [pos, size) one slot to
        the right and place the item at pos; when full, change nothing. The
        returned iterator is always the position that was asked for. */
    method Insert(pos: nat, item: T) returns (r: nat)
      requires Valid() && pos <= size
      modifies data, this`size
      ensures Valid() && data == old(data) && r == pos
      ensures old(size) < capacity ==>
        Contents() == old(Contents())[..pos] + [item] + old(Contents())[pos..]
      ensures old(size) == capacity ==> Contents() == old(Contents()) && size == old(size)
    {
      if size < capacity {
        ghost var s := data[..size];
        var dst := size;
        while dst > pos
          invariant pos <= dst <= size < data.Length && size == |s|
          invariant forall k :: 0 <= k < pos ==> data[k] == s[k]
          invariant forall k :: pos <= k < dst ==> data[k] == s[k]
          invariant forall k :: dst < k <= size ==> data[k] == s[k - 1]
          decreases dst
        {
          data[dst] := data[dst - 1];
          dst := dst - 1;
        }
        data[pos] := item;
        size := size + 1;
        assert Contents() == s[..pos] + [item] + s[pos..];
      }
      r := pos;
    }

    method PushBack(item: T)
      requires Valid()
      modifies data, this`size
      ensures Valid() && data == old(data)
      ensures old(size) < capacity ==> Contents() == old(Contents()) + [item]
      ensures old(size) == capacity ==> Contents() == old(Contents())
    {
      var _ := Insert(size, item);
    }

    method PushFront(item: T)
      requires Valid()
      modifies data, this`size
      ensures Valid() && data == old(data)
      ensures old(size) < capacity ==> Contents() == [item] + old(Contents())
      ensures old(size) == capacity ==> Contents() == old(Contents())
    {
      var _ := Insert(0, item);
    }

    /** erase(it): shift (pos, size) one slot to the left. The source returns
        the iterator its loop stopped at, which is the old end(). */
    method Erase(pos: nat) returns (r: nat)
      requires Valid() && pos < size
      modifies data, this`size
      ensures Valid() && data == old(data)
      ensures Contents() == old(Contents())[..pos] + old(Contents())[pos + 1..]
      ensures r == old(size) && size == old(size) - 1
    {
      ghost var s := data[..size];
      var k := pos;
      while k + 1 < size
        invariant pos <= k < size <= data.Length && size == |s|
        invariant forall j :: 0 <= j < pos ==> data[j] == s[j]
        invariant forall j :: pos <= j < k ==> data[j] == s[j + 1]
        invariant forall j :: k < j < size ==> data[j] == s[j]
      {
        data[k] := data[k + 1];
        k := k + 1;
      }
      r := size;
      size := size - 1;
      assert Contents() == s[..pos] + s[pos + 1..];
    }
  }

  /** What `move(b, e, to)` leaves at index k after its first i element
      moves: moved slots hold their source, vacated sources are null. The
      forward copy (to < b) has moved [b, b + i); the backward copy has moved
      [b + i', e) where i' counts down, expressed by `lo`. */
  function MovedAt<T>(s: seq<Option<T>>, b: nat, dst: nat, lo: nat, hi: nat, k: nat): Option<T>
    requires k < |s| && (lo <= hi && dst + lo <= k < dst + hi ==> b + (k - dst) < |s|)
  {
    if lo <= hi && dst + lo <= k < dst + hi then s[b + (k - dst)]
    else if b + lo <= k < b + hi then None
    else s[k]
  }

  /** TDeque<TUniquePtr<ItemType>, Capacity>: the window [beginIdx, endIdx)
      of a fixed array of owning pointers. The indices are signed 4-bit
      bitfields in the source (range -8..7), which the window indices stay
      within as long as the capacity is at most 7. */
  class Deque<T(==)> {
    const capacity: nat
    var data: array<Option<T>>
    var beginIdx: int
    var endIdx: int
    /** What the deque printed on the serial console ("\nOVERFLOW!\n"). */
    ghost var printed: seq<string>

    /** The window lies in the array and no slot outside it owns anything. */
    ghost predicate Window()
      reads this, data
    {
      && data.Length == capacity
      && 1 <= capacity <= 7
      && 0 <= beginIdx <= endIdx <= capacity
      && (forall k :: 0 <= k < beginIdx ==> data[k] == None)
      && (forall k :: endIdx <= k < capacity ==> data[k] == None)
    }

    /** ... and an empty window sits at index 0. */
    ghost predicate Valid()
      reads this, data
    {
      Window() && (beginIdx == endIdx ==> beginIdx == 0)
    }

    ghost function Contents(): seq<Option<T>>
      reads this, data
      requires Window()
    {
      data[beginIdx..endIdx]
    }

    constructor (cap: nat)
      requires 1 <= cap <= 7
      ensures Valid() && fresh(data)
      ensures capacity == cap && Contents() == [] && printed == []
    {
      capacity := cap;
      data := new Option<T>[cap](_ => None);
      beginIdx, endIdx := 0, 0;
      printed := [];
    }

    function Size(): (r: int)
      reads this, data
      requires Valid()
      ensures r == |Contents()|
    {
      endIdx - beginIdx
    }

    function IsEmpty(): (r: bool)
      reads this, data
      requires Valid()
      ensures r <==> Contents() == []
    {
      beginIdx == endIdx
    }

    /** move(b, e, to): element-wise `*to = Move(*it)`, forwards when the
        target lies before the source and backwards otherwise. */
    method Move(b: nat, e: nat, dst: nat)
      requires b <= e <= data.Length && dst + (e - b) <= data.Length && dst != b
      modifies data
      ensures forall k :: dst <= k < dst + (e - b) ==> data[k] == old(data[b + (k - dst)])
      ensures forall k :: b <= k < e && !(dst <= k < dst + (e - b)) ==> data[k] == None
      ensures forall k :: 0 <= k < data.Length && !(b <= k < e) && !(dst <= k < dst + (e - b)) ==>
        data[k] == old(data[k])
      ensures data[dst..dst + (e - b)] == old(data[b..e])
    {
      if b == e {
        return;
      }
      ghost var s := data[..];
      if dst < b {
        MoveForward(b, e - b, dst);
      } else {
        MoveBackward(b, e - b, dst);
      }
      assert forall k :: 0 <= k < data.Length ==> data[k] == MovedAt(s, b, dst, 0, e - b, k);
    }

    /** The forward copy of move, for a target before the source. */
    method MoveForward(b: nat, n: nat, dst: nat)
      requires b + n <= data.Length && dst < b
      modifies data
      ensures forall k :: 0 <= k < data.Length ==> data[k] == MovedAt(old(data[..]), b, dst, 0, n, k)
    {
      ghost var s := data[..];
      var i := 0;
      while i < n
        invariant 0 <= i <= n
        invariant forall k :: 0 <= k < data.Length ==> data[k] == MovedAt(s, b, dst, 0, i, k)
      {
        data[dst + i] := data[b + i];
        data[b + i] := None;
        i := i + 1;
      }
    }

    /** The backward copy of move, for a target after the source. */
    method MoveBackward(b: nat, n: nat, dst: nat)
      requires b < dst && dst + n <= data.Length
      modifies data
      ensures forall k :: 0 <= k < data.Length ==> data[k] == MovedAt(old(data[..]), b, dst, 0, n, k)
    {
      ghost var s := data[..];
      var i := n;
      while i > 0
        invariant 0 <= i <= n
        invariant forall k :: 0 <= k < data.Length ==> data[k] == MovedAt(s, b, dst, i, n, k)
      {
        i := i - 1;
        var v := data[b + i];
        data[b + i] := None;
        data[dst + i] := v;
      }
    }

    /** insert(it, item). Full: print OVERFLOW and drop the item. At begin():
        use the free slot before the window, or shift the window right. At
        end(): use the free slot after the window, or shift the window left.
        Anywhere else: nothing is inserted. */
    method Insert(it: int, item: Option<T>) returns (r: int)
      requires Valid()
      modifies this, data
      ensures Valid() && data == old(data)
      ensures old(Size()) == capacity ==>
        Contents() == old(Contents()) && printed == old(printed) + ["\nOVERFLOW!\n"] && r == it
      ensures old(Size()) < capacity ==> printed == old(printed)
      ensures old(Size()) < capacity && it == old(beginIdx) ==>
        Contents() == [item] + old(Contents()) && r == beginIdx
      ensures old(Size()) < capacity && it != old(beginIdx) && it == old(endIdx) ==>
        Contents() == old(Contents()) + [item] && r == endIdx - 1
      ensures old(Size()) < capacity && it != old(beginIdx) && it != old(endIdx) ==>
        Contents() == old(Contents()) && r == it
    {
      r := it;
      if endIdx - beginIdx < capacity {
        if it == beginIdx {
          r := InsertAtBegin(item);
        } else if it == endIdx {
          r := InsertAtEnd(item);
        }
      } else {
        printed := printed + ["\nOVERFLOW!\n"];
      }
    }

    /** The `it == begin()` branch of insert. */
    method InsertAtBegin(item: Option<T>) returns (r: int)
      requires Valid() && Size() < capacity
      modifies this`beginIdx, this`endIdx, data
      ensures Valid()
      ensures Contents() == [item] + old(Contents()) && r == beginIdx
    {
      if beginIdx > 0 {
        r := PrependInFreeSlot(item);
        return;
      }
      ShiftRight();
      data[0] := item;
      assert data[0..endIdx] == [item] + data[1..endIdx];
      r := 0;
    }

    /** `--BeginIdx; *begin() = item` when there is a free slot before the
        window. */
    method PrependInFreeSlot(item: Option<T>) returns (r: int)
      requires Valid() && 0 < beginIdx
      modifies this`beginIdx, data
      ensures Valid()
      ensures Contents() == [item] + old(Contents()) && r == beginIdx
    {
      ghost var s := data[beginIdx..endIdx];
      beginIdx := beginIdx - 1;
      data[beginIdx] := item;
      assert data[beginIdx..endIdx] == [item] + s;
      r := beginIdx;
    }

    /** `move(it, end(), it + 1); ++EndIdx` with `it == begin()` at index 0:
        the window grows by a cleared first slot. */
    method ShiftRight()
      requires Valid() && beginIdx == 0 && endIdx < capacity
      modifies this`endIdx, data
      ensures Window() && beginIdx == 0 && endIdx == old(endIdx) + 1
      ensures data[0] == None && data[1..endIdx] == old(Contents())
    {
      Move(0, endIdx, 1);
      endIdx := endIdx + 1;
    }

    /** The `it == end()` branch of insert. */
    method InsertAtEnd(item: Option<T>) returns (r: int)
      requires Valid() && Size() < capacity
      modifies this`beginIdx, this`endIdx, data
      ensures Valid()
      ensures Contents() == old(Contents()) + [item] && r == endIdx - 1
    {
      if endIdx < capacity {
        r := AppendInFreeSlot(item);
        return;
      }
      ShiftLeft();
      r := endIdx - 1;
      data[r] := item;
      assert data[beginIdx..endIdx] == data[beginIdx..r] + [item];
    }

    /** `*end() = item; ++EndIdx` when there is a free slot after the
        window. */
    method AppendInFreeSlot(item: Option<T>) returns (r: int)
      requires Valid() && endIdx < capacity
      modifies this`endIdx, data
      ensures Valid()
      ensures Contents() == old(Contents()) + [item] && r == endIdx - 1
    {
      ghost var s := data[beginIdx..endIdx];
      data[endIdx] := item;
      endIdx := endIdx + 1;
      assert data[beginIdx..endIdx] == s + [item];
      r := endIdx - 1;
    }

    /** `move(begin(), end(), begin() - 1); --BeginIdx` with the window at the
        end of the array: the window's last slot is left cleared. */
    method ShiftLeft()
      requires Valid() && 0 < beginIdx && endIdx == capacity
      modifies this`beginIdx, data
      ensures Window() && beginIdx == old(beginIdx) - 1 && endIdx == capacity
      ensures data[endIdx - 1] == None && data[beginIdx..endIdx - 1] == old(Contents())
    {
      Move(beginIdx, endIdx, beginIdx - 1);
      beginIdx := beginIdx - 1;
    }

    method PushBack(item: Option<T>)
      requires Valid()
      modifies this, data
      ensures Valid() && data == old(data)
      ensures old(Size()) < capacity ==> Contents() == old(Contents()) + [item]
      ensures old(Size()) == capacity ==> Contents() == old(Contents())
    {
      var _ := Insert(endIdx, item);
    }

    method PushFront(item: Option<T>)
      requires Valid()
      modifies this, data
      ensures Valid() && data == old(data)
      ensures old(Size()) < capacity ==> Contents() == [item] + old(Contents())
      ensures old(Size()) == capacity ==> Contents() == old(Contents())
    {
      var _ := Insert(beginIdx, item);
    }

    /** pop_front(): destroy the first pointer; an emptied deque resets both
        indices to 0. */
    method PopFront() returns (deleted: Option<T>)
      requires Valid() && Size() > 0
      modifies this, data
      ensures Valid() && data == old(data)
      ensures deleted == old(Contents())[0] && Contents() == old(Contents())[1..]
      ensures Contents() == [] ==> beginIdx == 0 && endIdx == 0
    {
      deleted := data[beginIdx];
      data[beginIdx] := None;
      beginIdx := beginIdx + 1;
      if beginIdx == endIdx {
        beginIdx, endIdx := 0, 0;
      }
    }

    /** erase(it): destroy the pointer at `it` and close the gap. The result
        designates the element that followed the erased one. */
    method Erase(it: int) returns (deleted: Option<T>, r: int)
      requires Valid() && beginIdx <= it < endIdx
      modifies this`beginIdx, this`endIdx, data
      ensures Valid()
      ensures deleted == old(data[it])
      ensures Contents() == old(Contents())[..it - old(beginIdx)] + old(Contents())[it - old(beginIdx) + 1..]
      ensures r - beginIdx == it - old(beginIdx)
      ensures Contents() == [] ==> beginIdx == 0 && endIdx == 0
    {
      ghost var s := data[beginIdx..endIdx];
      ghost var k := it - beginIdx;
      deleted := data[it];
      data[it] := None;
      assert data[beginIdx..endIdx] == s[k := None];
      r := it;
      if it == beginIdx {
        DropFirst();
        r := r + 1;
      } else if it == endIdx - 1 {
        DropLast();
      } else {
        CloseGap(it);
      }
      ClearedThenRemoved(s, k, None);
      if beginIdx == endIdx {
        beginIdx, endIdx := 0, 0;
        r := 0;
      }
    }

    /** The `it == begin()` branch of erase, once the slot is cleared:
        `++BeginIdx`. */
    method DropFirst()
      requires Valid() && beginIdx < endIdx && data[beginIdx] == None
      modifies this`beginIdx
      ensures Window() && beginIdx == old(beginIdx) + 1
      ensures Contents() == old(Contents())[..0] + old(Contents())[1..]
    {
      beginIdx := beginIdx + 1;
    }

    /** The `it == end() - 1` branch of erase, once the slot is cleared:
        `--EndIdx`. */
    method DropLast()
      requires Valid() && beginIdx < endIdx && data[endIdx - 1] == None
      modifies this`endIdx
      ensures Window() && endIdx == old(endIdx) - 1
      ensures Contents() == old(Contents())[..endIdx - beginIdx] + old(Contents())[endIdx - beginIdx + 1..]
    {
      endIdx := endIdx - 1;
    }

    /** The general branch of erase: `move(it + 1, end(), it)` then `--EndIdx`. */
    method CloseGap(it: int)
      requires Valid() && beginIdx < it < endIdx - 1
      modifies this`endIdx, data
      ensures Valid() && endIdx == old(endIdx) - 1
      ensures Contents() == old(Contents())[..it - beginIdx] + old(Contents())[it - beginIdx + 1..]
    {
      ghost var a := data[..];
      Move(it + 1, endIdx, it);
      CloseGapWindow(a, data[..], beginIdx, it, endIdx);
      endIdx := endIdx - 1;
    }
  }

  /** Moving [it + 1, e) one slot down leaves the window [lo, e - 1) holding
      the old window [lo, e) without its slot at it. */
  lemma CloseGapWindow<T>(a: seq<T>, m: seq<T>, lo: nat, it: nat, e: nat)
    requires lo < it < e - 1 && e <= |a| == |m|
    requires forall k :: lo <= k < it ==> m[k] == a[k]
    requires forall k :: it <= k < e - 1 ==> m[k] == a[k + 1]
    ensures m[lo..e - 1] == a[lo..e][..it - lo] + a[lo..e][it - lo + 1..]
  {
  }

  /** Whatever is stored at k first, removing slot k gives the same result. */
  lemma ClearedThenRemoved<T>(s: seq<T>, k: nat, v: T)
    requires k < |s|
    ensures s[k := v][..k] + s[k := v][k + 1..] == s[..k] + s[k + 1..]
  {
    assert s[k := v][..k] == s[..k] && s[k := v][k + 1..] == s[k + 1..];
  }

  /** TPeriodicTrigger: remembers when it last fired. */
  class PeriodicTrigger {
    var lastTriggered: Time

    constructor ()
      ensures lastTriggered == Zero
    {
      lastTriggered := Zero;
    }

    /** IsTriggered(period, context): fires iff LastTriggered + period
        (wrapping) is not after Now, and then remembers Now. */
    method IsTriggered(period: Time, now: Time) returns (fired: bool)
      modifies this
      ensures fired <==> Add(old(lastTriggered), period) <= now
      ensures lastTriggered == if fired then now else old(lastTriggered)
    {
      if Add(lastTriggered, period) <= now {
        lastTriggered := now;
        return true;
      }
      return false;
    }
  }
}

/**
 SimpleVector: a growable array of int over one owned buffer. The buffer
 (items) always has exactly capacity slots; the first size of them are the live
 elements. Every operation that needs more room allocates a new buffer, copies
 the live elements into it and then swaps it in.
 */
module Vector {
  import opened VectorSpec

  /** The capacity hint produced by Reserve(n) and consumed by the reserving constructor. */
  datatype ReserveProxyObj = ReserveProxyObj(capacity: nat)

  /**
   Reserve(capacity_to_reserve): wraps the requested capacity in a proxy object.
   The default ReserveProxyObj() is ReserveProxyObj(0).
   */
  function Reserve(capacityToReserve: nat): (r: ReserveProxyObj)
    ensures r.capacity == capacityToReserve
  {
    ReserveProxyObj(capacityToReserve)
  }

  datatype Error = OutOfRange
  datatype Result<T> = Ok(value: T) | Err(error: Error)

  /** std::fill of a[lo..hi] with value. */
  method Fill(a: array<int>, lo: nat, hi: nat, value: int)
    requires lo <= hi <= a.Length
    modifies a
    ensures forall k :: 0 <= k < a.Length ==> a[k] == if lo <= k < hi then value else old(a[k])
  {
    var i := lo;
    while i < hi
      invariant lo <= i <= hi
      invariant forall k :: 0 <= k < a.Length ==> a[k] == if lo <= k < i then value else old(a[k])
    {
      a[i] := value;
      i := i + 1;
    }
  }

  /** std::copy of src[from..to] into dst starting at slot at, for two distinct buffers. */
  method CopyInto(src: array<int>, from: nat, to: nat, dst: array<int>, at: nat)
    requires from <= to <= src.Length && at + (to - from) <= dst.Length
    requires src != dst
    modifies dst
    ensures forall k :: 0 <= k < dst.Length ==>
      dst[k] == if at <= k < at + (to - from) then src[from + (k - at)] else old(dst[k])
  {
    var i := from;
    while i < to
      invariant from <= i <= to
      invariant forall k :: 0 <= k < dst.Length ==>
        dst[k] == if at <= k < at + (i - from) then src[from + (k - at)] else old(dst[k])
    {
      dst[at + (i - from)] := src[i];
      i := i + 1;
    }
  }

  class SimpleVector {
    var items: array<int>
    var size: nat
    var capacity: nat

    /** The class invariant: size <= capacity == length of the buffer. */
    ghost predicate Valid()
      reads this
    {
      size <= capacity && capacity == items.Length
    }

    /** The live elements, in order. */
    ghost function Contents(): seq<int>
      reads this, items
      requires Valid()
    {
      items[..size]
    }

    /** The default constructor: no elements, no capacity. */
    constructor ()
      ensures Valid() && fresh(items)
      ensures Contents() == [] && capacity == 0
    {
      items := new int[0];
      size, capacity := 0, 0;
    }

    /** SimpleVector(size): size elements, all 0, and no spare capacity. */
    constructor Sized(n: nat)
      ensures Valid() && fresh(items)
      ensures Contents() == Zeros(n) && capacity == n
    {
      var a := new int[n];
      Fill(a, 0, n, 0);
      items := a;
      size, capacity := n, n;
    }

    /** SimpleVector(size, value): size copies of value, and no spare capacity. */
    constructor Filled(n: nat, value: int)
      ensures Valid() && fresh(items)
      ensures |Contents()| == n && capacity == n
      ensures forall i :: 0 <= i < n ==> Contents()[i] == value
    {
      var a := new int[n];
      Fill(a, 0, n, 0);
      Fill(a, 0, n, value);
      items := a;
      size, capacity := n, n;
    }

    /** SimpleVector(initializer_list): the list's elements in order, and no spare capacity. */
    constructor FromList(init: seq<int>)
      ensures Valid() && fresh(items)
      ensures Contents() == init && capacity == |init|
    {
      var a := new int[|init|];
      var i := 0;
      while i < |init|
        invariant 0 <= i <= |init|
        invariant a[..i] == init[..i]
      {
        a[i] := init[i];
        i := i + 1;
      }
      items := a;
      size, capacity := |init|, |init|;
    }

    /** SimpleVector(ReserveProxyObj): empty, with the reserved capacity. */
    constructor Reserved(proxy: ReserveProxyObj)
      ensures Valid() && fresh(items)
      ensures Contents() == [] && capacity == proxy.capacity
    {
      items := new int[proxy.capacity];
      size, capacity := 0, proxy.capacity;
    }

    /** The copy constructor: equal contents and the same capacity, in a buffer of its own. */
    constructor Copy(other: SimpleVector)
      requires other.Valid()
      ensures Valid() && fresh(items)
      ensures Contents() == other.Contents() && capacity == other.capacity
    {
      var a := new int[other.capacity];
      Fill(a, 0, other.capacity, 0);
      CopyInto(other.items, 0, other.size, a, 0);
      assert a[..other.size] == other.items[..other.size];
      items := a;
      size, capacity := other.size, other.capacity;
    }

    /** The move constructor: takes over other's buffer and leaves other empty with no capacity. */
    constructor Moved(other: SimpleVector)
      requires other.Valid()
      modifies other
      ensures Valid() && items == old(other.items)
      ensures Contents() == old(other.Contents()) && capacity == old(other.capacity)
      ensures other.Valid() && fresh(other.items)
      ensures other.Contents() == [] && other.capacity == 0
    {
      items := other.items;
      size, capacity := other.size, other.capacity;
      new;
      other.items := new int[0];
      other.size, other.capacity := 0, 0;
    }

    /** GetSize: the number of live elements. */
    function GetSize(): (r: nat)
      reads this, items
      requires Valid()
      ensures r == |Contents()|
    {
      size
    }

    /** GetCapacity: never below the number of live elements. */
    function GetCapacity(): (r: nat)
      reads this, items
      requires Valid()
      ensures r >= |Contents()|
    {
      capacity
    }

    /** IsEmpty: true exactly when there are no live elements. */
    function IsEmpty(): (r: bool)
      reads this, items
      requires Valid()
      ensures r <==> Contents() == []
    {
      size == 0
    }

    /** operator[]: unchecked access, so the caller must stay below the size. */
    function Get(index: nat): (r: int)
      reads this, items
      requires Valid() && index < size
      ensures r == Contents()[index]
    {
      items[index]
    }

    /** At: checked access; the element when index < size, otherwise out_of_range. */
    function At(index: nat): (r: Result<int>)
      reads this, items
      requires Valid()
      ensures index < |Contents()| ==> r == Ok(Contents()[index])
      ensures index >= |Contents()| ==> r == Err(OutOfRange)
    {
      if index >= size then Err(OutOfRange) else Ok(items[index])
    }

    /**
     Resize(new_size): truncates or extends with default (0) elements. A size that fits
     in the capacity keeps the buffer; a larger one reallocates to max(new_size, 2 * capacity).
     */
    method Resize(newSize: nat)
      requires Valid()
      modifies this, items
      ensures Valid()
      ensures Contents() == Resized(old(Contents()), newSize)
      ensures capacity == ResizeCapacity(old(capacity), newSize)
      ensures newSize <= old(capacity) ==> items == old(items)
      ensures newSize > old(capacity) ==> fresh(items)
      ensures newSize <= old(size) ==> unchanged(items)
    {
      ghost var s := Contents();
      if newSize <= size {
        size := newSize;
      } else if newSize <= capacity {
        Fill(items, size, newSize, 0);
        assert items[..size] == s;
        size := newSize;
        assert Contents() == s + Zeros(newSize - |s|);
      } else {
        var newCapacity := Max(newSize, capacity * 2);
        var more := new int[newCapacity];
        CopyInto(items, 0, size, more, 0);
        Fill(more, size, newSize, 0);
        assert more[..size] == s;
        items := more;
        size, capacity := newSize, newCapacity;
        assert Contents() == s + Zeros(newSize - |s|);
      }
    }

    /** Clear: no live elements, with the buffer and capacity kept. */
    method Clear()
      requires Valid()
      modifies this, items
      ensures Valid() && items == old(items) && unchanged(items)
      ensures Contents() == [] && capacity == old(capacity)
    {
      Resize(0);
    }

    /**
     PushBack(item): appends item. When there is spare room it is written in place;
     otherwise the buffer is reallocated to max(1, 2 * capacity) first.
     */
    method PushBack(item: int)
      requires Valid()
      modifies this, items
      ensures Valid()
      ensures Contents() == old(Contents()) + [item]
      ensures capacity == PushCapacity(old(size), old(capacity))
      ensures old(capacity) > old(size) ==> items == old(items)
      ensures old(capacity) <= old(size) ==> fresh(items)
    {
      ghost var s := Contents();
      if capacity > size {
        items[size] := item;
        size := size + 1;
        assert Contents() == items[..size - 1] + [item];
      } else {
        var newCapacity := Max(1, capacity * 2);
        var temp := new int[newCapacity];
        CopyInto(items, 0, size, temp, 0);
        temp[size] := item;
        assert temp[..size] == s;
        items := temp;
        size, capacity := size + 1, newCapacity;
        assert Contents() == items[..size - 1] + [item];
      }
    }

    /**
     Insert(pos, value) at offset pos in [0, size]: the tail moves one slot right and
     value fills the gap; a full vector first grows to max(1, 2 * capacity).
     Returns the offset of the inserted element.
     */
    method Insert(pos: nat, value: int) returns (r: nat)
      requires Valid() && pos <= size
      modifies this, items
      ensures Valid()
      ensures r == pos
      ensures Contents() == Inserted(old(Contents()), pos, value)
      ensures capacity == PushCapacity(old(size), old(capacity))
      ensures old(capacity) > old(size) ==> items == old(items)
      ensures old(capacity) <= old(size) ==> fresh(items)
    {
      ghost var s := Contents();
      InsertedAt(s, pos, value);
      if capacity > size {
        // copy_backward of [pos, size) onto [pos + 1, size + 1)
        var i := size;
        while i > pos
          modifies items
          invariant pos <= i <= size
          invariant forall k :: 0 <= k <= i ==> items[k] == old(items[k])
          invariant forall k :: i < k <= size ==> items[k] == s[k - 1]
        {
          items[i] := items[i - 1];
          i := i - 1;
        }
        items[pos] := value;
        size := size + 1;
      } else {
        var newCapacity := Max(1, capacity * 2);
        var temp := new int[newCapacity];
        CopyInto(items, 0, pos, temp, 0);
        temp[pos] := value;
        CopyInto(items, pos, size, temp, pos + 1);
        items := temp;
        capacity := newCapacity;
        size := size + 1;
      }
      r := pos;
    }

    /** PopBack: drops the last element; the vector must not be empty. */
    method PopBack()
      requires Valid() && size != 0
      modifies this
      ensures Valid() && items == old(items)
      ensures Contents() == old(Contents())[..old(size) - 1] && capacity == old(capacity)
    {
      size := size - 1;
    }

    /**
     Erase(pos) at offset pos < size: the elements after pos move one slot left.
     Never reallocates. Returns the offset of the element that now follows the removed one.
     */
    method Erase(pos: nat) returns (r: nat)
      requires Valid() && pos < size
      modifies this, items
      ensures Valid() && items == old(items)
      ensures r == pos
      ensures Contents() == Erased(old(Contents()), pos) && capacity == old(capacity)
    {
      ghost var s := Contents();
      ErasedAt(s, pos);
      var i := pos;
      while i + 1 < size
        modifies items
        invariant pos <= i < size
        invariant forall k :: 0 <= k < pos ==> items[k] == s[k]
        invariant forall k :: pos <= k < i ==> items[k] == s[k + 1]
        invariant forall k :: i <= k < size ==> items[k] == s[k]
      {
        items[i] := items[i + 1];
        i := i + 1;
      }
      size := size - 1;
      r := pos;
    }

    /** swap: exchanges buffer, size and capacity with other. */
    method Swap(other: SimpleVector)
      requires Valid() && other.Valid()
      modifies this, other
      ensures Valid() && other.Valid()
      ensures items == old(other.items) && other.items == old(items)
      ensures Contents() == old(other.Contents()) && capacity == old(other.capacity)
      ensures other.Contents() == old(Contents()) && other.capacity == old(capacity)
    {
      var buffer := items;
      items := other.items;
      other.items := buffer;
      var x := size;
      var y := capacity;
      size := other.size;
      capacity := other.capacity;
      other.size := x;
      other.capacity := y;
    }

    /** Reserve(new_capacity): a no-op unless it asks for more; then capacity becomes exactly new_capacity. */
    method Reserve(newCapacity: nat)
      requires Valid()
      modifies this
      ensures Valid()
      ensures Contents() == old(Contents())
      ensures capacity == ReserveCapacity(old(capacity), newCapacity)
      ensures newCapacity <= old(capacity) ==> items == old(items)
      ensures newCapacity > old(capacity) ==> fresh(items)
    {
      if newCapacity <= capacity {
        return;
      }
      ghost var s := Contents();
      var temp := new int[newCapacity];
      CopyInto(items, 0, size, temp, 0);
      assert temp[..size] == s;
      items := temp;
      capacity := newCapacity;
    }

    /** Copy assignment: copy-and-swap; this ends with rhs's contents and capacity, rhs is untouched. */
    method CopyAssign(rhs: SimpleVector)
      requires Valid() && rhs.Valid()
      modifies this
      ensures Valid() && rhs.Valid()
      ensures Contents() == old(rhs.Contents()) && capacity == old(rhs.capacity)
      ensures rhs.Contents() == old(rhs.Contents())
      ensures this != rhs ==> fresh(items)
    {
      if this != rhs {
        var copy := new SimpleVector.Copy(rhs);
        Swap(copy);
      }
    }

    /**
     Move assignment, corrected: this takes over rhs's buffer, size and capacity, so the
     buffer length still equals the capacity, and rhs is left empty with no capacity.
     */
    method MoveAssign(rhs: SimpleVector)
      requires Valid() && rhs.Valid()
      modifies this, rhs
      ensures Valid() && rhs.Valid()
      ensures Contents() == old(rhs.Contents()) && capacity == old(rhs.capacity)
      ensures rhs != this ==> rhs.Contents() == [] && rhs.capacity == 0
      ensures rhs != this ==> items == old(rhs.items) && fresh(rhs.items)
    {
      if this != rhs {
        items := rhs.items;
        size, capacity := rhs.size, rhs.capacity;
        rhs.items := new int[0];
        rhs.size, rhs.capacity := 0, 0;
      }
    }
  }
}

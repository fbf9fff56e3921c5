/**
 The value-level meaning of the growable array's operations: what each mutator
 does to the sequence of live elements, and the capacity rule it follows.
 The class in module Vector is proved against these functions.
 */
module VectorSpec {

  function Max(a: nat, b: nat): nat {
    if a >= b then a else b
  }

  /** The capacity chosen when PushBack or Insert finds the buffer full: max(1, 2 * capacity). */
  function GrowCapacity(capacity: nat): (r: nat)
    ensures r > capacity
  {
    Max(1, 2 * capacity)
  }

  /** Capacity after one PushBack or Insert on a vector of this size and capacity. */
  function PushCapacity(size: nat, capacity: nat): (r: nat)
    requires size <= capacity
    ensures r >= capacity && r > size
  {
    if capacity > size then capacity else GrowCapacity(capacity)
  }

  /** Capacity after Resize(newSize): kept when the new size fits, otherwise max(newSize, 2 * capacity). */
  function ResizeCapacity(capacity: nat, newSize: nat): (r: nat)
    ensures r >= capacity && r >= newSize
    ensures newSize <= capacity ==> r == capacity
  {
    if newSize <= capacity then capacity else Max(newSize, 2 * capacity)
  }

  /** Capacity after Reserve(request): only ever raised, and then to exactly the request. */
  function ReserveCapacity(capacity: nat, request: nat): (r: nat)
    ensures r >= capacity && r >= request
    ensures r == capacity || r == request
  {
    if request <= capacity then capacity else request
  }

  /** n copies of the default element 0. */
  function Zeros(n: nat): (r: seq<int>)
    ensures |r| == n && forall i :: 0 <= i < n ==> r[i] == 0
  {
    seq(n, _ => 0)
  }

  /** The live elements after inserting value at offset pos. */
  function Inserted(s: seq<int>, pos: nat, value: int): seq<int>
    requires pos <= |s|
  {
    s[..pos] + [value] + s[pos..]
  }

  /** The live elements after erasing the element at offset pos. */
  function Erased(s: seq<int>, pos: nat): seq<int>
    requires pos < |s|
  {
    s[..pos] + s[pos + 1..]
  }

  /** The live elements after Resize(newSize): truncated, or extended with default elements. */
  function Resized(s: seq<int>, newSize: nat): seq<int> {
    if newSize <= |s| then s[..newSize] else s + Zeros(newSize - |s|)
  }

  /** Element by element: Insert moves the tail one slot right and puts value in the gap. */
  lemma InsertedAt(s: seq<int>, pos: nat, value: int)
    requires pos <= |s|
    ensures |Inserted(s, pos, value)| == |s| + 1
    ensures Inserted(s, pos, value)[pos] == value
    ensures forall i :: 0 <= i < pos ==> Inserted(s, pos, value)[i] == s[i]
    ensures forall i :: pos < i <= |s| ==> Inserted(s, pos, value)[i] == s[i - 1]
  {
  }

  /** Element by element: Erase moves the tail one slot left over the removed element. */
  lemma ErasedAt(s: seq<int>, pos: nat)
    requires pos < |s|
    ensures |Erased(s, pos)| == |s| - 1
    ensures forall i :: 0 <= i < pos ==> Erased(s, pos)[i] == s[i]
    ensures forall i :: pos <= i < |s| - 1 ==> Erased(s, pos)[i] == s[i + 1]
  {
  }

  /** Resize sets the size, keeps the common prefix and gives new elements the default value. */
  lemma ResizedAt(s: seq<int>, newSize: nat)
    ensures |Resized(s, newSize)| == newSize
    ensures forall i :: 0 <= i < newSize && i < |s| ==> Resized(s, newSize)[i] == s[i]
    ensures forall i :: |s| <= i < newSize ==> Resized(s, newSize)[i] == 0
  {
  }

  /** Erasing at the offset Insert returned restores the original contents. */
  lemma EraseAfterInsert(s: seq<int>, pos: nat, value: int)
    requires pos <= |s|
    ensures Erased(Inserted(s, pos, value), pos) == s
  {
  }

  /** Re-inserting an erased element where it was restores the original contents. */
  lemma InsertAfterErase(s: seq<int>, pos: nat)
    requires pos < |s|
    ensures Inserted(Erased(s, pos), pos, s[pos]) == s
  {
  }

  /** Shrinking never loses the kept prefix: a shrink followed by a regrow defaults exactly the dropped tail. */
  lemma ShrinkThenGrow(s: seq<int>, k: nat)
    requires k <= |s|
    ensures Resized(Resized(s, k), |s|) == s[..k] + Zeros(|s| - k)
  {
  }

  // ---------------------------------------------------------------------------
  // Growth over a run of PushBack calls

  /** Capacity after k calls of PushBack starting from the given size and capacity. */
  function CapacityAfterPushes(size: nat, capacity: nat, k: nat): (r: nat)
    requires size <= capacity
    ensures r >= capacity && r >= size + k
  {
    if k == 0 then capacity
    else PushCapacity(size + k - 1, CapacityAfterPushes(size, capacity, k - 1))
  }

  /** Elements copied into new buffers by k calls of PushBack (a reallocation copies every live element). */
  function CopiesAfterPushes(size: nat, capacity: nat, k: nat): nat
    requires size <= capacity
  {
    if k == 0 then 0
    else
      var before := CapacityAfterPushes(size, capacity, k - 1);
      CopiesAfterPushes(size, capacity, k - 1) + (if before > size + k - 1 then 0 else size + k - 1)
  }

  /**
   Appending n elements to an empty vector leaves a capacity below 2n and at least n,
   and copies fewer than 2n elements in all: append is amortized constant time.
   */
  lemma {:induction false} PushesFromEmpty(n: nat)
    ensures n <= CapacityAfterPushes(0, 0, n)
    ensures n > 0 ==> CapacityAfterPushes(0, 0, n) < 2 * n
    ensures n > 0 ==> CopiesAfterPushes(0, 0, n) == CapacityAfterPushes(0, 0, n) - 1
    ensures n > 0 ==> CopiesAfterPushes(0, 0, n) < 2 * n
  {
    if n > 1 {
      PushesFromEmpty(n - 1);
    }
  }

  /** With enough capacity reserved, k calls of PushBack never reallocate. */
  lemma {:induction false} ReservedPushesKeepCapacity(size: nat, capacity: nat, k: nat)
    requires size + k <= capacity
    ensures CapacityAfterPushes(size, capacity, k) == capacity
    ensures CopiesAfterPushes(size, capacity, k) == 0
  {
    if k > 0 {
      ReservedPushesKeepCapacity(size, capacity, k - 1);
    }
  }
}

/**
 Three code paths of simple_vector.h modelled as they are written, over a
 vector's fields taken as plain values, each with a lemma that says when the path
 departs from the documented behaviour. The class in module Vector implements the
 documented behaviour instead.
 */
module AsWritten {
  import opened VectorSpec

  /** A vector's fields as values: the whole buffer, the size and the capacity. */
  datatype State = State(buffer: seq<int>, size: nat, capacity: nat)
  {
    ghost predicate Valid() {
      size <= capacity && capacity == |buffer|
    }

    ghost function Contents(): seq<int>
      requires Valid()
    {
      buffer[..size]
    }
  }

  /**
   Resize, branch size < new_size <= capacity, as written: std::fill zeroes the old
   live range [0, size), and the slots [size, new_size) are exposed as they were.
   */
  function ResizeInCapacity(v: State, newSize: nat): (r: State)
    requires v.Valid() && v.size < newSize <= v.capacity
    ensures r.Valid() && r.size == newSize && r.capacity == v.capacity
  {
    State(Zeros(v.size) + v.buffer[v.size..], newSize, v.capacity)
  }

  /**
   The written branch gives the documented result (old elements kept, new ones 0)
   exactly when the first new_size slots of the buffer already hold 0: any non-zero
   live element is wiped, and any non-zero stale slot leaks into the vector.
   */
  lemma ResizeInCapacityMatchesOnlyOnZeros(v: State, newSize: nat)
    requires v.Valid() && v.size < newSize <= v.capacity
    ensures ResizeInCapacity(v, newSize).Contents() == Resized(v.Contents(), newSize)
        <==> v.buffer[..newSize] == Zeros(newSize)
  {
  }

  /** A concrete case: [7] with a stale 9 in its spare slot, resized to 2, gives [0, 9] instead of [7, 0]. */
  lemma ResizeInCapacityCounterexample()
    ensures ResizeInCapacity(State([7, 9], 1, 2), 2).Contents() == [0, 9]
    ensures Resized(State([7, 9], 1, 2).Contents(), 2) == [7, 0]
  {
  }

  /**
   Insert(pos, Type&&) when the vector is full, as written: the new buffer starts out
   holding initial (whatever the buffer allocation puts there); the prefix [0, pos) is moved onto
   itself in the old buffer, so the new buffer keeps initial's values there; value and the
   tail are placed correctly.
   */
  function InsertMovedWhenFull(v: State, pos: nat, value: int, initial: seq<int>): (r: State)
    requires v.Valid() && pos <= v.size == v.capacity
    requires |initial| == GrowCapacity(v.capacity)
    ensures r.Valid() && r.size == v.size + 1 && r.capacity == GrowCapacity(v.capacity)
  {
    State(initial[..pos] + [value] + v.buffer[pos..v.size] + initial[v.size + 1..], v.size + 1, |initial|)
  }

  /** The written path inserts correctly exactly when the initial buffer happens to hold the old prefix already. */
  lemma {:induction false} InsertMovedMatchesOnlyOnEqualPrefix(v: State, pos: nat, value: int, initial: seq<int>)
    requires v.Valid() && pos <= v.size == v.capacity
    requires |initial| == GrowCapacity(v.capacity)
    ensures InsertMovedWhenFull(v, pos, value, initial).Contents() == Inserted(v.Contents(), pos, value)
        <==> initial[..pos] == v.buffer[..pos]
  {
    var written := InsertMovedWhenFull(v, pos, value, initial).Contents();
    var intended := Inserted(v.Contents(), pos, value);
    assert written == initial[..pos] + [value] + v.buffer[pos..v.size];
    assert intended == v.buffer[..pos] + [value] + v.buffer[pos..v.size];
    if written == intended {
      assert written[..pos] == initial[..pos];
      assert intended[..pos] == v.buffer[..pos];
    }
  }

  /**
   Move assignment as written, for distinct operands (the guard this != &rhs): a temporary
   of rhs.size elements receives rhs's elements, then its capacity field is overwritten with
   rhs.capacity before the swap. Only the left side's new state is modelled; rhs keeps its
   elements (moving an int copies it).
   */
  function MoveAssign(rhs: State): (r: State)
    requires rhs.Valid()
    ensures r.buffer == rhs.Contents() && |r.buffer| == r.size
    ensures r.capacity == rhs.capacity
  {
    State(rhs.buffer[..rhs.size], rhs.size, rhs.capacity)
  }

  /**
   The elements arrive intact, but the result keeps the class invariant (capacity equal
   to the buffer length) only when rhs had no spare capacity.
   */
  lemma MoveAssignValidOnlyWhenFull(rhs: State)
    requires rhs.Valid()
    ensures MoveAssign(rhs).buffer[..rhs.size] == rhs.Contents()
    ensures MoveAssign(rhs).Valid() <==> rhs.size == rhs.capacity
  {
  }
}

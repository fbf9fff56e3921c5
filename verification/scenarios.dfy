/**
 Clients of SimpleVector that rely only on its contracts: the insert/erase round
 trip on a live vector, and the usage sequences the container is meant to support.
 */
module Scenarios {
  import opened VectorSpec
  import opened Vector
  import Comparison

  /** Insert followed by Erase at the offset Insert returned leaves the elements as they were. */
  method InsertThenErase(v: SimpleVector, pos: nat, value: int)
    requires v.Valid() && pos <= v.size
    modifies v, v.items
    ensures v.Valid() && v.Contents() == old(v.Contents())
    ensures v.capacity == PushCapacity(old(v.size), old(v.capacity))
  {
    ghost var s := v.Contents();
    var at := v.Insert(pos, value);
    at := v.Erase(at);
    EraseAfterInsert(s, pos, value);
  }

  /** After copy assignment the left side owns a buffer of its own: appending to it leaves the right side alone. */
  method CopyAssignThenPush(a: SimpleVector, b: SimpleVector, item: int)
    requires a.Valid() && b.Valid() && a != b
    modifies a, a.items
    ensures a.Valid() && b.Valid()
    ensures a.Contents() == old(b.Contents()) + [item]
    ensures b.Contents() == old(b.Contents())
  {
    a.CopyAssign(b);
    a.PushBack(item);
  }

  /** After move assignment the right side owns a fresh empty buffer: appending to the left side leaves it empty. */
  method MoveAssignThenPush(a: SimpleVector, b: SimpleVector, item: int)
    requires a.Valid() && b.Valid() && a != b
    modifies a, b, b.items
    ensures a.Valid() && b.Valid()
    ensures a.Contents() == old(b.Contents()) + [item]
    ensures b.Contents() == []
  {
    a.MoveAssign(b);
    a.PushBack(item);
  }

  /** Push 1, 2, 3; erase the middle; insert 5 there; compare with {1, 5, 3} and {1, 5, 4}. */
  method EditAndCompare()
  {
    var v := new SimpleVector();
    v.PushBack(1);
    v.PushBack(2);
    v.PushBack(3);
    assert v.Contents() == [1, 2, 3] && v.capacity == 4;
    var r := v.Erase(1);
    assert r == 1 && v.Contents() == [1, 3];
    r := v.Insert(1, 5);
    assert r == 1 && v.Contents() == [1, 5, 3];
    var same := new SimpleVector.FromList([1, 5, 3]);
    var larger := new SimpleVector.FromList([1, 5, 4]);
    assert Comparison.Equal(v.Contents(), same.Contents());
    assert Comparison.Less(v.Contents(), larger.Contents());
    assert v.At(3) == Err(OutOfRange);
  }

  /** Reserving 10 and then pushing 5 elements never reallocates. */
  method ReserveThenPush()
  {
    var v := new SimpleVector.Reserved(Reserve(10));
    var buffer := v.items;
    var i := 0;
    while i < 5
      invariant 0 <= i <= 5
      invariant v.Valid() && v.items == buffer && v.capacity == 10 && v.size == i
      modifies v, buffer
    {
      v.PushBack(i);
      i := i + 1;
    }
    var zeros := new SimpleVector.Sized(3);
    assert zeros.Contents() == [0, 0, 0] && zeros.capacity == 3;
  }
}

/**
  Client code of Vector: what a caller can prove from the contracts of
  vector.dfy alone, including the concrete behaviour of the source's move
  assignment next to the corrected one.
*/
module Scenarios {
  import opened VectorSpec
  import opened AdvancedVector

  /**
    Builds a vector from empty by pushing `values` in order. The elements the
    reallocations migrate are counted on the vector itself, and together they
    number one less than the final capacity, so fewer than twice the pushes.
  */
  method FromPushes<T(0)>(values: seq<T>) returns (v: Vector<T>)
    ensures v.Valid() && fresh(v.Repr())
    ensures v.Elems() == values && v.Capacity() == CapacityAfterPushes(|values|)
    ensures v.migrated == MigrationsAfterPushes(|values|)
    ensures |values| > 0 ==> v.migrated + 1 == v.Capacity() < 2 * |values|
  {
    v := new Vector();
    var i := 0;
    while i < |values|
      invariant i <= |values|
      invariant v.Valid() && fresh(v.Repr())
      invariant v.Elems() == values[..i] && v.Capacity() == CapacityAfterPushes(i)
      invariant v.migrated == MigrationsAfterPushes(i)
    {
      v.PushBack(values[i]);
      i := i + 1;
    }
    PushBackGrowth(|values|);
  }

  /**
    After any sequence of PushBack calls on an empty vector, operator[] at i
    yields the i-th pushed value, the size is the number of pushes, and the
    capacity follows the doubling rule.
  */
  method PushBackThenIndex<T(0)>(values: seq<T>) returns (read: seq<T>, size: nat, capacity: nat)
    ensures read == values && size == |values|
    ensures capacity == CapacityAfterPushes(|values|)
  {
    var v := FromPushes(values);
    read := [];
    var i := 0;
    while i < v.Size()
      invariant i <= v.Size() == |values|
      invariant read == values[..i]
    {
      read := read + [v.At(i)];
      i := i + 1;
    }
    size, capacity := v.Size(), v.Capacity();
  }

  /** Inserting at k and then erasing at k leaves a vector's elements as they were. */
  method InsertThenErase<T(0)>(values: seq<T>, k: nat, x: T) returns (items: seq<T>)
    requires k <= |values|
    ensures items == values
  {
    var v := FromPushes(values);
    var it := v.Insert(k, x);
    it := v.Erase(it);
    EraseAfterInsert(values, k, x);
    items := v.Items();
  }

  /** Pushing 1, 2, 3 into an empty vector gives capacities 1, 2, 4 after each push. */
  method PushThree() returns (capacities: seq<nat>, items: seq<int>)
    ensures capacities == [1, 2, 4] && items == [1, 2, 3]
  {
    var v := new Vector<int>();
    v.PushBack(1);
    capacities := [v.Capacity()];
    v.PushBack(2);
    capacities := capacities + [v.Capacity()];
    v.PushBack(3);
    capacities := capacities + [v.Capacity()];
    items := v.Items();
  }

  /** In [1, 2, 3], inserting 99 at index 1 and then erasing index 0. */
  method InsertThenEraseFront() returns (inserted: seq<int>, erased: seq<int>)
    ensures inserted == [1, 99, 2, 3] && erased == [99, 2, 3]
  {
    var v := FromPushes([1, 2, 3]);
    var it := v.Insert(1, 99);
    assert v.Elems() == Inserted([1, 2, 3], 1, 99) == [1, 99, 2, 3];
    inserted := v.Items();
    it := v.Erase(0);
    assert v.Elems() == Erased([1, 99, 2, 3], 0) == [99, 2, 3];
    erased := v.Items();
  }

  /** The sized constructor gives n value-initialised elements. */
  method SizedConstruction() returns (items: seq<int>, capacity: nat)
    ensures items == [0, 0, 0] && capacity == 3
  {
    var v := new Vector<int>.Sized(3, 0);
    items := v.Items();
    capacity := v.Capacity();
  }

  /** A copy is independent: changing the copy leaves the original as it was. */
  method CopyIsIndependent<T(0)>(values: seq<T>, x: T) returns (original: seq<T>, copy: seq<T>)
    requires |values| > 0
    ensures original == values && copy == values[0 := x]
  {
    var v := FromPushes(values);
    var c := new Vector.Copy(v);
    c.Set(0, x);
    original := v.Items();
    copy := c.Items();
  }

  /** A moved-from vector is empty and the new one holds its elements in order. */
  method MoveConstruction<T(0)>(values: seq<T>) returns (moved: seq<T>, sourceSize: nat, sourceCapacity: nat)
    ensures moved == values && sourceSize == 0 && sourceCapacity == 0
  {
    var v := FromPushes(values);
    var w := new Vector.Move(v);
    moved := w.Items();
    sourceSize, sourceCapacity := v.Size(), v.Capacity();
  }

  /** Reserve beyond the capacity keeps the elements and sets the capacity exactly. */
  method ReserveKeepsElements<T(0)>(values: seq<T>, n: nat) returns (items: seq<T>, capacity: nat)
    requires n > CapacityAfterPushes(|values|)
    ensures items == values && capacity == n
  {
    var v := FromPushes(values);
    v.Reserve(n);
    items := v.Items();
    capacity := v.Capacity();
  }

  /**
    The source's move assignment from a one-element vector into a
    three-element one: the target keeps size 3 over storage for 1 element.
  */
  method MoveAssignAsWrittenKeepsStaleSize() returns (size: nat, capacity: nat)
    ensures size == 3 && capacity == 1
  {
    var target := new Vector<int>.Sized(3, 0);
    var source := new Vector<int>.Sized(1, 7);
    target.MoveAssignAsWritten(source);
    size, capacity := target.size, target.Capacity();
  }

  /** The source's move assignment of a two-element vector to itself empties it. */
  method MoveAssignAsWrittenEmptiesOnSelf() returns (size: nat)
    ensures size == 0
  {
    var v := new Vector<int>.Sized(2, 5);
    v.MoveAssignAsWritten(v);
    size := v.size;
  }

  /** The corrected move assignment in the same situations. */
  method MoveAssignAdoptsSource() returns (items: seq<int>, capacity: nat, sourceSize: nat, selfItems: seq<int>)
    ensures items == [7] && capacity == 1 && sourceSize == 0
    ensures selfItems == [5, 5]
  {
    var target := new Vector<int>.Sized(3, 0);
    var source := new Vector<int>.Sized(1, 7);
    target.MoveAssign(source);
    items := target.Items();
    capacity, sourceSize := target.Capacity(), source.Size();
    var v := new Vector<int>.Sized(2, 5);
    v.MoveAssign(v);
    selfItems := v.Items();
  }

  /** Copy assignment into a smaller vector grows it to exactly the source's size. */
  method CopyAssignIntoSmaller() returns (items: seq<int>, capacity: nat, sourceItems: seq<int>)
    ensures items == [4, 4, 4] && capacity == 3 && sourceItems == [4, 4, 4]
  {
    var target := new Vector<int>.Sized(1, 0);
    var source := new Vector<int>.Sized(3, 4);
    target.CopyAssign(source);
    items := target.Items();
    sourceItems := source.Items();
    capacity := target.Capacity();
  }

  /** Resize shrinks in place and then grows with value-initialised elements. */
  method ResizeShrinkThenGrow() returns (shrunk: seq<int>, grown: seq<int>, capacity: nat)
    ensures shrunk == [1] && grown == [1, 0, 0, 0, 0] && capacity == 5
  {
    var v := new Vector<int>();
    v.PushBack(1);
    v.PushBack(2);
    v.Resize(1, 0);
    shrunk := v.Items();
    v.Resize(5, 0);
    grown := v.Items();
    capacity := v.Capacity();
  }
}

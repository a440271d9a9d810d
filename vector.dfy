/**
  Vector<T>: a growable contiguous container over an owning raw-storage
  handle RawMemory<T>. Storage is a Dafny array whose length is the
  capacity; positions [0, size) hold the live elements. Positions are
  integer indices in [0, size] instead of raw-address iterators (T*).
*/
module AdvancedVector {
  import opened VectorSpec
  import opened Algorithms

  /**
    Owning handle to raw storage for exactly Capacity() elements. The slots
    hold arbitrary values of T until Vector writes them: RawMemory never
    constructs or destroys elements itself.
  */
  class RawMemory<T(0)> {
    var buffer: array<T>

    /** Allocates storage for `capacity` elements; a capacity of 0 allocates nothing. */
    constructor (capacity: nat)
      ensures fresh(buffer) && buffer.Length == capacity
    {
      buffer := new T[capacity];
    }

    /** Move constructor: takes over the storage of `other`, which is left empty. */
    constructor Move(other: RawMemory<T>)
      modifies other
      ensures buffer == old(other.buffer)
      ensures fresh(other.buffer) && other.buffer.Length == 0
    {
      buffer := other.buffer;
      new;
      other.buffer := new T[0];
    }

    /** The number of element slots the storage provides. */
    function Capacity(): (c: nat)
      reads this
      ensures c == buffer.Length
    {
      buffer.Length
    }

    /** Indexing; the index must lie inside the storage (the source asserts it). */
    function Get(index: nat): (x: T)
      requires index < Capacity()
      reads this, buffer
      ensures x == buffer[..][index]
    {
      buffer[index]
    }

    /** Exchanges the storage of the two handles. */
    method Swap(other: RawMemory<T>)
      modifies this, other
      ensures buffer == old(other.buffer) && other.buffer == old(buffer)
    {
      var tmp := buffer;
      buffer := other.buffer;
      other.buffer := tmp;
    }

    /**
      Move assignment: a no-op on itself; otherwise moves `other` into a
      temporary and swaps with it, so this handle owns other's storage, other
      is left empty and this handle's old storage is released.
    */
    method MoveAssign(other: RawMemory<T>)
      modifies this, other
      ensures this == other ==> buffer == old(buffer)
      ensures this != other ==> buffer == old(other.buffer)
      ensures this != other ==> fresh(other.buffer) && other.buffer.Length == 0
    {
      if this != other {
        var temp := new RawMemory.Move(other);
        Swap(temp);
      }
    }
  }

  class Vector<T(0)> {
    var data: RawMemory<T>
    var size: nat
    /**
      Bookkeeping only: the number of live elements that insertions and
      Reserve/Resize have migrated from old storage into new storage.
    */
    ghost var migrated: nat

    /** The objects this vector owns. */
    ghost function Repr(): set<object>
      reads this, data
    {
      {this, data, data.buffer}
    }

    ghost predicate Valid()
      reads this, data
    {
      size <= data.buffer.Length
    }

    /** The live elements, in order. */
    ghost function Elems(): seq<T>
      requires Valid()
      reads this, data, data.buffer
    {
      data.buffer[..size]
    }

    /** Default constructor: empty, with no storage. */
    constructor ()
      ensures Valid() && fresh(Repr())
      ensures Elems() == [] && Capacity() == 0 && migrated == 0
    {
      data := new RawMemory(0);
      size := 0;
      migrated := 0;
    }

    /** Sized constructor: n value-initialised elements (`zero` stands for T()) in storage for exactly n. */
    constructor Sized(n: nat, zero: T)
      ensures Valid() && fresh(Repr())
      ensures Elems() == seq(n, _ => zero) && Capacity() == n
    {
      data := new RawMemory(n);
      size := n;
      new;
      ValueConstructN(data.buffer, 0, n, zero);
    }

    /** Copy constructor: a copy of other's elements in storage for exactly other's size. */
    constructor Copy(other: Vector<T>)
      requires other.Valid()
      ensures Valid() && fresh(Repr())
      ensures Elems() == other.Elems() && Capacity() == other.size
    {
      data := new RawMemory(other.size);
      size := other.size;
      new;
      CopyN(other.data.buffer, 0, data.buffer, 0, other.size);
    }

    /**
      Move constructor: takes over other's storage and size without touching
      any element; other is left with size 0 and no storage.
    */
    constructor Move(other: Vector<T>)
      requires other.Valid()
      modifies other, other.data
      ensures Valid() && other.Valid()
      ensures Elems() == old(other.Elems()) && Capacity() == old(other.Capacity())
      ensures data.buffer == old(other.data.buffer) && fresh(data)
      ensures other.data == old(other.data) && fresh(other.data.buffer)
      ensures other.Elems() == [] && other.Capacity() == 0
    {
      data := new RawMemory.Move(other.data);
      size := other.size;
      new;
      other.size := 0;
    }

    /** The capacity of the owned storage; it never falls below the size. */
    function Capacity(): (c: nat)
      reads this, data
      ensures c == data.buffer.Length
      ensures Valid() ==> size <= c
    {
      data.Capacity()
    }

    function Size(): (n: nat)
      requires Valid()
      reads this, data, data.buffer
      ensures n == |Elems()| && n <= Capacity()
    {
      size
    }

    /** operator[] read: the element at `index`, which must be live (the source asserts it). */
    function At(index: nat): (x: T)
      requires Valid() && index < Size()
      reads this, data, data.buffer
      ensures x == Elems()[index]
    {
      data.Get(index)
    }

    /** operator[] write through the returned reference: replaces the element at `index`. */
    method Set(index: nat, x: T)
      requires Valid() && index < size
      modifies data.buffer
      ensures Valid() && Elems() == old(Elems())[index := x]
    {
      data.buffer[index] := x;
    }

    /** Traversal from begin() to end(): the live elements in order. */
    method Items() returns (items: seq<T>)
      requires Valid()
      ensures items == Elems()
    {
      items := [];
      var i := 0;
      while i < size
        invariant i <= size
        invariant items == Elems()[..i]
      {
        items := items + [At(i)];
        i := i + 1;
      }
    }

    /**
      Copy assignment. When the capacity is too small for other's size, a full
      copy is built and swapped in; otherwise the common prefix is assigned,
      surplus elements are dropped or missing ones copied in place, and the
      storage is kept.
    */
    method CopyAssign(other: Vector<T>)
      requires Valid() && other.Valid()
      requires this == other || Repr() !! other.Repr()
      modifies Repr()
      ensures Valid() && data == old(data) && fresh(Repr() - old(Repr()))
      ensures Elems() == old(other.Elems())
      ensures Capacity() == ReservedCapacity(old(Capacity()), old(other.size))
      ensures old(other.size) <= old(Capacity()) ==> data.buffer == old(data.buffer)
      ensures other.Valid() && other.Elems() == old(other.Elems())
    {
      if Capacity() < other.size {
        var temp := new Vector.Copy(other);
        Swap(temp);
      } else {
        CopyInPlace(other);
        size := other.size;
      }
    }

    /**
      The in-place branch of copy assignment: the common prefix is assigned
      and, when other is longer, its remaining elements are copied into the
      raw slots after this vector's own; surplus elements of this vector are
      simply left beyond the new size.
    */
    method CopyInPlace(other: Vector<T>)
      requires Valid() && other.Valid() && other.size <= Capacity()
      requires this == other || Repr() !! other.Repr()
      modifies data.buffer
      ensures data.buffer[..other.size] == old(other.Elems())
      ensures other.data.buffer[..] == old(other.data.buffer[..])
    {
      ghost var elems := other.Elems();
      var common := if size < other.size then size else other.size;
      CopyN(other.data.buffer, 0, data.buffer, 0, common);
      if size <= other.size {
        CopyN(other.data.buffer, size, data.buffer, size, other.size - size);
        assert data.buffer[..other.size] == data.buffer[..size] + data.buffer[size..other.size];
      }
    }

    /**
      Move assignment exactly as the source writes it: it empties `other`
      and moves other's storage into this vector, but it keeps this vector's
      own size instead of adopting other's.
    */
    method MoveAssignAsWritten(other: Vector<T>)
      requires Valid() && other.Valid()
      requires this == other || Repr() !! other.Repr()
      modifies this, data, other, other.data
      ensures data == old(data) && other.data == old(other.data)
      ensures other.size == 0
      ensures this == other ==> data.buffer == old(data.buffer)
      ensures this != other ==> size == old(size) && data.buffer == old(other.data.buffer)
      ensures this != other ==> fresh(other.data.buffer) && other.Capacity() == 0
    {
      other.size := 0;
      data.MoveAssign(other.data);
    }

    /**
      Move assignment as intended: a no-op on itself; otherwise this vector
      takes over other's storage and size, and other is left with size 0 and
      no storage.
    */
    method MoveAssign(other: Vector<T>)
      requires Valid() && other.Valid()
      requires this == other || Repr() !! other.Repr()
      modifies this, data, other, other.data
      ensures Valid() && other.Valid()
      ensures data == old(data) && other.data == old(other.data)
      ensures this == other ==> size == old(size) && data.buffer == old(data.buffer)
      ensures this != other ==> Elems() == old(other.Elems()) && Capacity() == old(other.Capacity())
      ensures this != other ==> data.buffer == old(other.data.buffer) && fresh(other.data.buffer)
      ensures this != other ==> other.Elems() == [] && other.Capacity() == 0
    {
      if this != other {
        size := other.size;
        other.size := 0;
        data.MoveAssign(other.data);
      }
    }

    /**
      Inserts `v` before position `pos` and returns the position of the new
      element. A full vector first grows to GrownCapacity(size).
    */
    method Emplace(pos: nat, v: T) returns (it: nat)
      requires Valid() && pos <= size
      modifies Repr()
      ensures Valid() && data == old(data) && fresh(Repr() - old(Repr()))
      ensures it == pos
      ensures Elems() == Inserted(old(Elems()), pos, v)
      ensures Capacity() == if old(size) == old(Capacity()) then GrownCapacity(old(size)) else old(Capacity())
      ensures old(size) < old(Capacity()) ==> data.buffer == old(data.buffer)
      ensures migrated == old(migrated) + if old(size) == old(Capacity()) then old(size) else 0
    {
      if size == data.Capacity() {
        ReallocateAndEmbed(pos, v);
        migrated := migrated + size;
      } else {
        Embed(pos, v);
      }
      size := size + 1;
      it := pos;
    }

    /** Appends `v` and returns the position of the new element. */
    method EmplaceBack(v: T) returns (it: nat)
      requires Valid()
      modifies Repr()
      ensures Valid() && data == old(data) && fresh(Repr() - old(Repr()))
      ensures it == old(size) && Elems() == old(Elems()) + [v]
      ensures Capacity() == if old(size) == old(Capacity()) then GrownCapacity(old(size)) else old(Capacity())
      ensures old(size) < old(Capacity()) ==> data.buffer == old(data.buffer)
      ensures migrated == old(migrated) + if old(size) == old(Capacity()) then old(size) else 0
    {
      InsertedAtEnd(Elems(), v);
      it := Emplace(size, v);
    }

    /** Inserts `v` before position `pos`: Emplace with a copy of `v`. */
    method Insert(pos: nat, v: T) returns (it: nat)
      requires Valid() && pos <= size
      modifies Repr()
      ensures Valid() && data == old(data) && fresh(Repr() - old(Repr()))
      ensures it == pos
      ensures Elems() == Inserted(old(Elems()), pos, v)
      ensures Capacity() == if old(size) == old(Capacity()) then GrownCapacity(old(size)) else old(Capacity())
      ensures old(size) < old(Capacity()) ==> data.buffer == old(data.buffer)
      ensures migrated == old(migrated) + if old(size) == old(Capacity()) then old(size) else 0
    {
      it := Emplace(pos, v);
    }

    /** Appends `v`. */
    method PushBack(v: T)
      requires Valid()
      modifies Repr()
      ensures Valid() && data == old(data) && fresh(Repr() - old(Repr()))
      ensures Elems() == old(Elems()) + [v]
      ensures Capacity() == if old(size) == old(Capacity()) then GrownCapacity(old(size)) else old(Capacity())
      ensures old(size) < old(Capacity()) ==> data.buffer == old(data.buffer)
      ensures migrated == old(migrated) + if old(size) == old(Capacity()) then old(size) else 0
    {
      var _ := EmplaceBack(v);
    }

    /**
      Removes the element at `pos`, closing the gap by moving the later
      elements one slot left, and returns `pos`. The storage is kept.
    */
    method Erase(pos: nat) returns (it: nat)
      requires Valid() && pos < size
      modifies this, data.buffer
      ensures Valid() && data == old(data) && data.buffer == old(data.buffer)
      ensures Capacity() == old(Capacity()) && migrated == old(migrated)
      ensures it == pos
      ensures Elems() == Erased(old(Elems()), pos)
    {
      Algorithms.Move(data.buffer, pos + 1, size, pos);
      size := size - 1;
      it := pos;
    }

    /** Removes the last element; the vector must not be empty. The storage is kept. */
    method PopBack()
      requires Valid() && size > 0
      modifies this
      ensures Valid() && data == old(data)
      ensures Elems() == old(Elems())[..old(size) - 1]
      ensures Capacity() == old(Capacity()) && migrated == old(migrated)
    {
      size := size - 1;
    }

    /**
      Makes room for at least `capacity` elements. Nothing changes when the
      capacity already suffices; otherwise the elements migrate to new
      storage for exactly `capacity` elements.
    */
    method Reserve(capacity: nat)
      requires Valid()
      modifies this, data
      ensures Valid() && data == old(data) && size == old(size) && fresh(Repr() - old(Repr()))
      ensures Elems() == old(Elems())
      ensures Capacity() == ReservedCapacity(old(Capacity()), capacity)
      ensures capacity <= old(Capacity()) ==> data.buffer == old(data.buffer)
      ensures migrated == old(migrated) + if capacity <= old(Capacity()) then 0 else old(size)
    {
      if capacity <= data.Capacity() {
        return;
      }
      var newData := new RawMemory(capacity);
      CopyN(data.buffer, 0, newData.buffer, 0, size);
      data.Swap(newData);
      migrated := migrated + size;
    }

    /**
      Sets the size to `newSize`: surplus elements are dropped, missing ones
      are value-initialised (`zero` stands for T()). Storage grows to exactly
      `newSize` when it is too small and is kept otherwise.
    */
    method Resize(newSize: nat, zero: T)
      requires Valid()
      modifies Repr()
      ensures Valid() && data == old(data) && fresh(Repr() - old(Repr()))
      ensures Elems() == Resized(old(Elems()), newSize, zero)
      ensures Capacity() == ReservedCapacity(old(Capacity()), newSize)
      ensures newSize <= old(Capacity()) ==> data.buffer == old(data.buffer)
      ensures migrated == old(migrated) + if newSize <= old(Capacity()) then 0 else old(size)
    {
      ghost var elems := Elems();
      if newSize <= data.Capacity() {
        if size <= newSize {
          ValueConstructN(data.buffer, size, newSize - size, zero);
          assert data.buffer[..newSize] == elems + seq(newSize - size, _ => zero);
        }
      } else {
        ReallocateAndFill(newSize, zero);
        migrated := migrated + size;
      }
      size := newSize;
    }

    /**
      Growing past the capacity: builds storage for exactly `newSize`
      elements, migrates the live elements into it, value-initialises the
      slots after them and installs the new storage. The size itself is
      updated by Resize.
    */
    method ReallocateAndFill(newSize: nat, zero: T)
      requires Valid() && Capacity() < newSize
      modifies data
      ensures fresh(data.buffer) && Capacity() == newSize
      ensures data.buffer[..newSize] == old(Elems()) + seq(newSize - size, _ => zero)
    {
      ghost var elems := Elems();
      var newData := new RawMemory(newSize);
      CopyN(data.buffer, 0, newData.buffer, 0, size);
      assert newData.buffer[..size] == elems;
      ValueConstructN(newData.buffer, size, newSize - size, zero);
      assert newData.buffer[..newSize] == newData.buffer[..size] + newData.buffer[size..newSize];
      data.Swap(newData);
    }

    /** Exchanges the storage and the sizes of the two vectors; no element is touched. */
    method Swap(other: Vector<T>)
      requires Valid() && other.Valid()
      requires this == other || Repr() !! other.Repr()
      modifies this, data, other, other.data
      ensures Valid() && other.Valid()
      ensures data == old(data) && other.data == old(other.data)
      ensures data.buffer == old(other.data.buffer) && other.data.buffer == old(data.buffer)
      ensures Elems() == old(other.Elems()) && other.Elems() == old(Elems())
      ensures Capacity() == old(other.Capacity()) && other.Capacity() == old(Capacity())
    {
      data.Swap(other.data);
      var tmp := size;
      size := other.size;
      other.size := tmp;
    }

    /**
      Insertion into a full vector: builds storage for GrownCapacity(size)
      elements, places `v` at `distance`, migrates the elements before and
      after it around it, and installs the new storage. The size itself is
      updated by Emplace.
    */
    method ReallocateAndEmbed(distance: nat, v: T)
      requires Valid() && distance <= size && size == Capacity()
      modifies data
      ensures fresh(data.buffer) && Capacity() == GrownCapacity(size)
      ensures size + 1 <= Capacity()
      ensures data.buffer[..size + 1] == Inserted(old(Elems()), distance, v)
    {
      ghost var elems := Elems();
      var newData := new RawMemory(GrownCapacity(size));
      var target := newData.buffer;
      target[distance] := v;
      CopyN(data.buffer, 0, target, 0, distance);
      ghost var front := target[..];
      CopyN(data.buffer, distance, target, distance + 1, size - distance);
      assert target[..distance + 1] == front[..distance + 1];
      InsertedFromParts(target[..], elems, distance, v);
      data.Swap(newData);
    }

    /**
      Insertion with room to spare: at the end, `v` goes into the first free
      slot; in the middle, the last element moves into the free slot, the
      elements from `pos` on shift one slot right and `v` takes slot `pos`.
      The size itself is updated by Emplace.
    */
    method Embed(pos: nat, v: T)
      requires Valid() && pos <= size < Capacity()
      modifies data.buffer
      ensures data.buffer[..size + 1] == Inserted(old(Elems()), pos, v)
    {
      ghost var elems := Elems();
      var buffer := data.buffer;
      if pos == size {
        buffer[size] := v;
        assert buffer[..size + 1] == elems + [v];
        InsertedAtEnd(elems, v);
      } else {
        var arg := v;
        buffer[size] := buffer[size - 1];
        ghost var moved := buffer[..];
        MoveBackward(buffer, pos, size - 1, size);
        ghost var shifted := buffer[..];
        assert shifted[pos + 1..size + 1] == moved[pos..size - 1] + [moved[size]];
        buffer[pos] := arg;
        assert buffer[..][..pos] == shifted[..pos] && buffer[..][pos + 1..] == shifted[pos + 1..];
        InsertedFromParts(buffer[..], elems, pos, arg);
      }
    }
  }
}

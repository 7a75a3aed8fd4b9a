/** SimpleVector: a growable array that owns one buffer `items`, a logical
    length `size` and an allocated capacity `capacity`. Positions that the
    C++ class passes as iterators are indices here, and the value-initialised
    element `Type{}` is passed in as `dflt` where the class uses it. */
module Vectors {
  import opened VectorSpec
  import opened StdAlgorithms
  import VectorCompare

  /** The capacity hint consumed by the reserving constructor. */
  datatype ReserveProxyObj = ReserveProxyObj(capacityToReserve: nat)
  {
    function GetSize(): nat
    {
      capacityToReserve
    }
  }

  /** Builds a capacity hint; the hint hands back exactly what was asked for. */
  function Reserve(capacityToReserve: nat): (hint: ReserveProxyObj)
    ensures hint.GetSize() == capacityToReserve
  {
    ReserveProxyObj(capacityToReserve)
  }

  /** Outcome of checked access: the element, or the out-of-range error. */
  datatype Checked<T> = Ok(value: T) | OutOfRange

  class SimpleVector<T(0)> {
    var items: array<T>
    var size: nat
    var capacity: nat

    /** The class invariant: the live prefix fits the buffer, and the
        capacity is the length of the buffer. */
    ghost predicate Valid()
      reads this
    {
      size <= capacity && capacity == items.Length
    }

    /** The live elements, items[0..size). Slots past size are unspecified. */
    ghost function Elements(): seq<T>
      reads this, items
      requires Valid()
    {
      items[..size]
    }

    /** The empty vector: no elements, no allocation. */
    constructor ()
      ensures Valid() && fresh(items)
      ensures Elements() == [] && capacity == 0
    {
      items := new T[0];
      size, capacity := 0, 0;
    }

    /** The vector built from a capacity hint: empty, with exactly the hinted
        capacity reserved. */
    constructor WithReserve(hint: ReserveProxyObj)
      ensures Valid() && fresh(items)
      ensures Elements() == [] && capacity == hint.GetSize()
    {
      items := new T[0];
      size, capacity := 0, 0;
      new;
      Reserve(hint.GetSize());
    }

    /** n copies of value, with capacity exactly n. The size-only constructor
        is this one with value == Type{}. */
    constructor Filled(n: nat, value: T)
      ensures Valid() && fresh(items)
      ensures Elements() == seq(n, _ => value) && capacity == n
    {
      var a := new T[n];
      Fill(a, 0, n, value);
      items := a;
      size, capacity := n, n;
    }

    /** The elements of an initializer list, in order, with capacity exactly
        its length. */
    constructor FromList(init: seq<T>)
      ensures Valid() && fresh(items)
      ensures Elements() == init && capacity == |init|
    {
      var a := new T[|init|];
      var i := 0;
      while i < |init|
        invariant 0 <= i <= |init|
        invariant forall k :: 0 <= k < i ==> a[k] == init[k]
      {
        a[i] := init[i];
        i := i + 1;
      }
      items := a;
      size, capacity := |init|, |init|;
    }

    /** A deep copy: the same live elements in a fresh buffer whose capacity
        is the source's size, not its capacity. */
    constructor Copy(other: SimpleVector<T>)
      requires other.Valid()
      ensures Valid() && fresh(items)
      ensures Elements() == other.Elements() && capacity == other.size
    {
      var a := new T[other.size];
      CopyForward(other.items, 0, other.size, a, 0);
      items := a;
      size, capacity := other.size, other.size;
    }

    /** Takes over the source's buffer, size and capacity; the source is left
        empty with capacity 0. */
    constructor Move(other: SimpleVector<T>)
      requires other.Valid()
      modifies other
      ensures Valid() && other.Valid()
      ensures items == old(other.items) && capacity == old(other.capacity)
      ensures Elements() == old(other.Elements())
      ensures other.Elements() == [] && other.capacity == 0 && fresh(other.items)
    {
      items, size, capacity := other.items, other.size, other.capacity;
      var empty := new T[0];
      other.items, other.size, other.capacity := empty, 0, 0;
    }

    /** Copy assignment, by copy-and-swap: afterwards this holds the elements
        of rhs in a fresh buffer of capacity rhs.size; rhs is untouched.
        Self-assignment changes nothing. */
    method CopyAssign(rhs: SimpleVector<T>)
      requires Valid() && rhs.Valid()
      modifies this
      ensures Valid() && Elements() == old(rhs.Elements())
      ensures rhs != this ==> capacity == old(rhs.size) && fresh(items)
      ensures rhs == this ==> unchanged(this)
    {
      if this != rhs {
        var tmp := new SimpleVector.Copy(rhs);
        Swap(tmp);
      }
    }

    /** Move assignment: this and rhs exchange buffer, size and capacity. */
    method MoveAssign(rhs: SimpleVector<T>)
      requires Valid() && rhs.Valid()
      modifies this, rhs
      ensures Valid() && rhs.Valid()
      ensures items == old(rhs.items) && size == old(rhs.size) && capacity == old(rhs.capacity)
      ensures rhs.items == old(items) && rhs.size == old(size) && rhs.capacity == old(capacity)
      ensures Elements() == old(rhs.Elements()) && rhs.Elements() == old(Elements())
    {
      if this != rhs {
        Swap(rhs);
      }
    }

    /** Exchanges buffer, size and capacity with other; no element moves. */
    method Swap(other: SimpleVector<T>)
      requires Valid() && other.Valid()
      modifies this, other
      ensures Valid() && other.Valid()
      ensures items == old(other.items) && size == old(other.size) && capacity == old(other.capacity)
      ensures other.items == old(items) && other.size == old(size) && other.capacity == old(capacity)
      ensures Elements() == old(other.Elements()) && other.Elements() == old(Elements())
    {
      items, other.items := other.items, items;
      size, other.size := other.size, size;
      capacity, other.capacity := other.capacity, capacity;
    }

    /** Number of live elements. */
    function GetSize(): (n: nat)
      reads this, items
      requires Valid()
      ensures n == |Elements()|
    {
      size
    }

    /** Number of allocated slots; never less than the size. */
    function GetCapacity(): (c: nat)
      reads this, items
      requires Valid()
      ensures c == items.Length && |Elements()| <= c
    {
      capacity
    }

    /** Whether there are no live elements. */
    function IsEmpty(): (b: bool)
      reads this, items
      requires Valid()
      ensures b <==> Elements() == []
    {
      size == 0
    }

    /** Unchecked read access; the caller guarantees index < size. */
    function Get(index: nat): (x: T)
      reads this, items
      requires Valid() && index < size
      ensures x == Elements()[index]
    {
      items[index]
    }

    /** A write through the reference returned by unchecked access: only
        element index changes. */
    method Set(index: nat, value: T)
      requires Valid() && index < size
      modifies items
      ensures Valid() && Elements() == old(Elements())[index := value]
    {
      items[index] := value;
    }

    /** Checked access: the out-of-range error exactly when index is not
        below the size, otherwise the element at index. Reading never
        changes the vector. */
    function At(index: nat): (r: Checked<T>)
      reads this, items
      requires Valid()
      ensures r.OutOfRange? <==> index >= |Elements()|
      ensures r.Ok? ==> r.value == Elements()[index]
    {
      if index >= size then OutOfRange else Ok(items[index])
    }

    /** Drops every element and keeps the buffer and capacity. */
    method Clear()
      requires Valid()
      modifies this
      ensures Valid() && Elements() == []
      ensures items == old(items) && capacity == old(capacity)
    {
      size := 0;
    }

    /** Truncates to newSize or pads with dflt up to newSize. Reallocates to
        exactly newSize when newSize is not the current size and does not fit
        strictly below the capacity. */
    method Resize(newSize: nat, dflt: T)
      requires Valid()
      modifies this, items
      ensures Valid()
      ensures Elements() == Resized(old(Elements()), newSize, dflt)
      ensures capacity == CapacityAfterResize(old(size), old(capacity), newSize)
      ensures newSize == old(size) ==> unchanged(this) && unchanged(items)
      ensures newSize < old(capacity) ==> items == old(items)
      ensures newSize != old(size) && newSize >= old(capacity) ==> fresh(items)
    {
      if newSize == size {
        return;
      }
      ghost var s := Elements();
      ResizedAt(s, newSize, dflt);
      if newSize < capacity {
        Fill(items, size, if size < newSize then newSize else size, dflt);
      } else {
        var a := new T[newSize];
        CopyForward(items, 0, size, a, 0);
        items := a;
        Fill(items, size, newSize, dflt);
        capacity := newSize;
      }
      size := newSize;
      assert forall k :: 0 <= k < newSize ==> items[k] == Resized(s, newSize, dflt)[k];
    }

    /** Appends value. The earlier elements stay; capacity grows by the
        doubling policy only when the buffer was full. */
    method PushBack(value: T)
      requires Valid()
      modifies this, items
      ensures Valid()
      ensures Elements() == old(Elements()) + [value]
      ensures capacity == CapacityAfterPush(old(size), old(capacity))
      ensures old(size) < old(capacity) ==> items == old(items)
      ensures old(size) == old(capacity) ==> fresh(items)
    {
      if size < capacity {
        items[size] := value;
      } else {
        var newCapacity := Grow(capacity);
        var a := new T[newCapacity];
        CopyForward(items, 0, size, a, 0);
        items := a;
        items[size] := value;
        capacity := newCapacity;
      }
      size := size + 1;
    }

    /** Inserts value before position pos (pos == size appends) and returns
        the position of the inserted element. Capacity grows by the doubling
        policy only when the buffer was full. */
    method Insert(pos: nat, value: T) returns (r: nat)
      requires Valid() && pos <= size
      modifies this, items
      ensures Valid()
      ensures Elements() == Inserted(old(Elements()), pos, value)
      ensures r == pos && r < |Elements()| && Elements()[r] == value
      ensures capacity == CapacityAfterPush(old(size), old(capacity))
      ensures old(size) < old(capacity) ==> items == old(items)
      ensures old(size) == old(capacity) ==> fresh(items)
    {
      ghost var s := Elements();
      InsertedAt(s, pos, value);
      if size < capacity {
        CopyBackward(items, pos, size, items, size + 1);
        items[pos] := value;
      } else {
        var newCapacity := Grow(capacity);
        var a := new T[newCapacity];
        CopyForward(items, 0, pos, a, 0);
        CopyBackward(items, pos, size, a, size + 1);
        a[pos] := value;
        items := a;
        capacity := newCapacity;
      }
      size := size + 1;
      assert forall k :: 0 <= k < size ==> items[k] == Inserted(s, pos, value)[k];
      r := pos;
    }

    /** Drops the last element; the caller guarantees the vector is not
        empty. Buffer and capacity stay. */
    method PopBack()
      requires Valid() && size > 0
      modifies this
      ensures Valid() && Elements() == old(Elements())[..old(size) - 1]
      ensures items == old(items) && capacity == old(capacity)
    {
      size := size - 1;
    }

    /** Removes the element at pos (pos < size), shifting the rest left, and
        returns pos, now the position of the element that followed it.
        Buffer and capacity stay. */
    method Erase(pos: nat) returns (r: nat)
      requires Valid() && pos < size
      modifies this, items
      ensures Valid() && Elements() == Erased(old(Elements()), pos)
      ensures items == old(items) && capacity == old(capacity)
      ensures r == pos && r <= |Elements()|
    {
      ghost var s := Elements();
      ErasedAt(s, pos);
      CopyForward(items, pos + 1, size, items, pos);
      size := size - 1;
      assert forall k :: 0 <= k < size ==> items[k] == Erased(s, pos)[k];
      r := pos;
    }

    /** Grows the capacity to exactly newCapacity when it is larger than the
        current one, relocating the live elements; otherwise does nothing.
        Never shrinks; the live elements never change. */
    method Reserve(newCapacity: nat)
      requires Valid()
      modifies this
      ensures Valid() && Elements() == old(Elements())
      ensures newCapacity <= old(capacity) ==> unchanged(this)
      ensures newCapacity > old(capacity) ==> capacity == newCapacity && fresh(items)
    {
      if newCapacity > capacity {
        var a := new T[newCapacity];
        CopyForward(items, 0, size, a, 0);
        items := a;
        capacity := newCapacity;
      }
    }
  }

  /** Appends, an insert and an erase from an empty vector, with the
      capacities the growth policy dictates. */
  method ScenarioGrowth()
  {
    var v := new SimpleVector<int>();
    v.PushBack(1);
    assert v.Elements() == [1] && v.capacity == 1;
    v.PushBack(2);
    assert v.Elements() == [1, 2] && v.capacity == 2;
    v.PushBack(3);
    assert v.Elements() == [1, 2, 3] && v.capacity == 4;
    var p := v.Insert(1, 9);
    assert v.Elements() == [1, 9, 2, 3] && v.capacity == 4 && p == 1;
    p := v.Erase(1);
    assert v.Elements() == [1, 2, 3] && v.capacity == 4;
  }

  /** Growing and shrinking resizes, then checked access. */
  method ScenarioResize()
  {
    var v := new SimpleVector<int>.FromList([1, 2, 3]);
    assert v.capacity == 3;
    v.Resize(5, 0);
    assert v.Elements() == [1, 2, 3, 0, 0] && v.capacity == 5;
    v.Resize(2, 0);
    assert v.Elements() == [1, 2] && v.capacity == 5;
    assert v.At(2) == OutOfRange && v.At(1) == Ok(2);
  }

  /** A copy equals its source but owns its storage: writing to the copy
      leaves the source as it was. */
  method ScenarioCopy()
  {
    var v := new SimpleVector<int>.FromList([1, 2]);
    var w := new SimpleVector<int>.Copy(v);
    assert VectorCompare.Equal(w.Elements(), v.Elements());
    w.Set(0, 7);
    assert VectorCompare.NotEqual(w.Elements(), v.Elements());
    assert w.Elements() == [7, 2] && v.Elements() == [1, 2];
  }
}

/**
 * `Utils::Meta::Templates::ConstrainedArray`: an array of `T` with a
 * minimum and a maximum element count. When both bounds are equal and not
 * the "unbounded" value `SIZE_MAX` the storage is a fixed-size
 * `std::array`; otherwise it is a `std::vector` and only then can elements
 * be added, removed or cleared.
 *
 * The element type is left generic; `zero` stands for the all-zero object
 * representation that `Add` writes with `memset`.
 */
module ConstrainedArrays {
  import ByteBuffers

  /** The storage a pair of bounds selects. */
  datatype Storage = FixedArray(length: nat) | Vector

  /** Which storage the bounds select: a fixed array only for equal, bounded limits. */
  function StorageFor(sizeMin: nat, sizeMax: nat): (s: Storage)
    ensures s.FixedArray? <==> sizeMin == sizeMax && sizeMax < ByteBuffers.SIZE_MAX
    ensures s.FixedArray? ==> s.length == sizeMax
  {
    if sizeMax == sizeMin && sizeMax < ByteBuffers.SIZE_MAX then FixedArray(sizeMax) else Vector
  }

  /** The default bounds select a vector. */
  lemma DefaultBoundsAreDynamic()
    ensures StorageFor(ByteBuffers.SIZE_MAX, ByteBuffers.SIZE_MAX) == Vector
  {
  }

  class ConstrainedArray<T> {
    const sizeMin: nat
    const sizeMax: nat
    const zero: T
    var data: seq<T>

    /** A fixed array always holds its length; a vector never holds more than the maximum. */
    ghost predicate Valid()
      reads this
    {
      match StorageFor(sizeMin, sizeMax)
      case FixedArray(n) => |data| == n
      case Vector => |data| <= sizeMax
    }

    /**
     * A new array: a vector starts empty; a fixed array starts with its
     * `sizeMax` elements, whose values `initial` stands for.
     */
    constructor (sizeMin: nat, sizeMax: nat, zero: T, initial: seq<T>)
      requires StorageFor(sizeMin, sizeMax).FixedArray? ==> |initial| == sizeMax
      requires StorageFor(sizeMin, sizeMax).Vector? ==> initial == []
      ensures this.sizeMin == sizeMin && this.sizeMax == sizeMax && this.zero == zero
      ensures data == initial && Valid()
    {
      this.sizeMin := sizeMin;
      this.sizeMax := sizeMax;
      this.zero := zero;
      data := initial;
    }

    /** Appends a zeroed element and returns its index; the maximum must not be reached. */
    method Add() returns (index: nat)
      requires Valid() && StorageFor(sizeMin, sizeMax).Vector?
      requires sizeMax - |data| >= 1
      modifies this
      ensures data == old(data) + [zero] && index == |old(data)| && Valid()
    {
      data := data + [zero];
      index := |data| - 1;
    }

    /** Erases the element at `index` (the iterator overload erases at the iterator's position). */
    method Remove(index: nat)
      requires Valid() && StorageFor(sizeMin, sizeMax).Vector?
      requires index < |data|
      modifies this
      ensures data == old(data[..index] + data[index + 1..]) && Valid()
    {
      data := data[..index] + data[index + 1..];
    }

    /** The element at `index` (both `At` and the subscript operator). */
    function At(index: nat): (item: T)
      requires index < |data|
      reads this
      ensures item == data[index]
    {
      data[index]
    }

    /**
     * A write through the `T&` that `Add`, `At` and the subscript operator
     * return: the element at `index` becomes `value`, the others are kept.
     */
    method Set(index: nat, value: T)
      requires Valid() && index < |data|
      modifies this
      ensures data == old(data)[index := value] && Valid()
    {
      data := data[index := value];
    }

    /** Removes every element. */
    method Clear()
      requires Valid() && StorageFor(sizeMin, sizeMax).Vector?
      modifies this
      ensures data == [] && Valid()
    {
      data := [];
    }
  }

  /**
   * After `Add` and a write of `value` through the returned reference, the
   * array is the old one with `value` appended: the new element is last
   * and the others are where they were.
   */
  lemma AddThenSet<T>(data: seq<T>, zero: T, value: T)
    ensures var filled := (data + [zero])[|data| := value];
      filled == data + [value]
      && |filled| == |data| + 1 && filled[|data|] == value
      && forall j | 0 <= j < |data| :: filled[j] == data[j]
  {
  }

  /**
   * After `Remove(index)` the elements before `index` stay put, the ones
   * after it move down by one, and none is lost or duplicated.
   */
  lemma RemoveShifts<T>(data: seq<T>, index: nat)
    requires index < |data|
    ensures var removed := data[..index] + data[index + 1..];
      |removed| == |data| - 1
      && (forall j | 0 <= j < index :: removed[j] == data[j])
      && (forall j | index <= j < |removed| :: removed[j] == data[j + 1])
      && multiset(removed) + multiset{data[index]} == multiset(data)
  {
    var removed := data[..index] + data[index + 1..];
    assert data == data[..index] + [data[index]] + data[index + 1..];
  }
}

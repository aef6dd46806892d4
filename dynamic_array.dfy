/**
 * The growable array of strings that holds the shell's history
 * (dynamic_array.c): a buffer of `capacity` slots of which the first `size`
 * are in use, doubled when an append finds it full, with a bounds-checked
 * read and a delete that shifts the tail left by one.
 */
module DynamicArrays {
  import opened Types

  /** The sequence `s` without its element at `i`. */
  function RemoveAt<T>(s: seq<T>, i: nat): (r: seq<T>)
    requires i < |s|
    ensures |r| == |s| - 1
    ensures forall k :: 0 <= k < i ==> r[k] == s[k]
    ensures forall k :: i <= k < |r| ==> r[k] == s[k + 1]
  {
    s[..i] + s[i + 1..]
  }

  /** Deleting the element just appended gives back what was there. */
  lemma RemoveLastAppended<T>(s: seq<T>, v: T)
    ensures RemoveAt(s + [v], |s|) == s
  {
    assert (s + [v])[..|s|] == s;
  }

  class DynamicArray {
    var data: array<string>
    var size: nat
    var capacity: nat
    ghost var Repr: set<object>

    ghost predicate Valid()
      reads this, Repr
    {
      this in Repr && data in Repr &&
      data.Length == capacity && size <= capacity
    }

    /** The elements in use, oldest first. */
    function Elements(): seq<string>
      reads this, data
      requires size <= data.Length
    {
      data[..size]
    }

    /** da_create: an empty array with room for `initCapacity` elements. */
    constructor (initCapacity: nat)
      ensures Valid() && fresh(Repr)
      ensures size == 0 && capacity == initCapacity
      ensures Elements() == []
    {
      data := new string[initCapacity](_ => "");
      size := 0;
      capacity := initCapacity;
      Repr := {this, data};
    }

    /** da_put: appends a copy of `val`, doubling the capacity first when the
        array is full. A zero capacity would stay zero when doubled, so the
        source relies on its caller never creating one. */
    method Put(val: string)
      requires Valid() && capacity > 0
      modifies Repr
      ensures Valid() && fresh(Repr - old(Repr))
      ensures Elements() == old(Elements()) + [val]
      ensures capacity == if old(size) == old(capacity) then 2 * old(capacity) else old(capacity)
    {
      if size == capacity {
        capacity := capacity * 2;
        var grown := new string[capacity](_ => "");
        var i := 0;
        while i < size
          invariant 0 <= i <= size
          invariant forall k :: 0 <= k < i ==> grown[k] == data[k]
          modifies grown
        {
          grown[i] := data[i];
          i := i + 1;
        }
        data := grown;
        Repr := {this, data};
      }
      data[size] := val;
      size := size + 1;
    }

    /** da_get: the element at `ind`, or nothing when `ind` is past the end. */
    method Get(ind: nat) returns (r: Option<string>)
      requires Valid()
      ensures ind < size ==> r == Some(Elements()[ind])
      ensures ind >= size ==> r == None
    {
      if ind >= size {
        return None;
      }
      return Some(data[ind]);
    }

    /** da_delete: removes the element at `ind` by shifting the later ones
        left; an index past the end changes nothing. The buffer and the
        capacity stay as they are. */
    method Delete(ind: nat)
      requires Valid()
      modifies data, this
      ensures Valid() && Repr == old(Repr)
      ensures data == old(data) && capacity == old(capacity)
      ensures ind < old(size) ==> Elements() == RemoveAt(old(Elements()), ind)
      ensures ind >= old(size) ==> Elements() == old(Elements())
    {
      if ind >= size {
        return;
      }
      var i := ind;
      while i < size - 1
        invariant ind <= i <= size - 1
        invariant forall k :: 0 <= k < ind ==> data[k] == old(data[k])
        invariant forall k :: ind <= k < i ==> data[k] == old(data[k + 1])
        invariant forall k :: i <= k < data.Length ==> data[k] == old(data[k])
        modifies data
      {
        data[i] := data[i + 1];
        i := i + 1;
      }
      size := size - 1;
    }

    /** da_print: visits the elements in order; every slot in use holds a
        string, so every element is listed, once each. */
    method Print() returns (lines: seq<string>)
      requires Valid()
      ensures lines == Elements()
    {
      lines := [];
      var i := 0;
      while i < size
        invariant 0 <= i <= size
        invariant lines == data[..i]
      {
        lines := lines + [data[i]];
        i := i + 1;
      }
    }
  }
}

/** A growable vector.  `capacity` is the length of the backing array; `reallocs` counts how
    often an append found it full, so "nothing is reallocated" is a statement about a field. */
module Vectors {

  class Vec<T(0)> {
    var data: array<T>
    var len: nat
    var reallocs: nat

    ghost predicate Valid()
      reads this
    {
      len <= data.Length
    }

    ghost function Elems(): (s: seq<T>)
      reads this, data
      requires Valid()
      ensures |s| == len
    {
      data[..len]
    }

    constructor WithCapacity(capacity: nat)
      ensures Valid() && fresh(data)
      ensures Elems() == [] && data.Length == capacity && reallocs == 0
    {
      data := new T[capacity];
      len := 0;
      reallocs := 0;
    }

    /** Appends `x`.  The backing array is replaced exactly when it is full. */
    method Push(x: T)
      requires Valid()
      modifies this, data
      ensures Valid()
      ensures Elems() == old(Elems()) + [x]
      ensures old(len) < old(data.Length) ==> data == old(data) && reallocs == old(reallocs)
      ensures old(len) == old(data.Length) ==> fresh(data) && reallocs == old(reallocs) + 1
    {
      if len == data.Length {
        Grow(2 * len + 1);
      }
      data[len] := x;
      len := len + 1;
    }

    method Grow(capacity: nat)
      requires Valid() && data.Length < capacity
      modifies this
      ensures Valid() && fresh(data) && data.Length == capacity
      ensures Elems() == old(Elems()) && reallocs == old(reallocs) + 1
    {
      var bigger := new T[capacity];
      forall i | 0 <= i < len {
        bigger[i] := data[i];
      }
      data := bigger;
      reallocs := reallocs + 1;
    }

    method Pop()
      requires Valid() && len > 0
      modifies this`len
      ensures Valid() && Elems() == old(Elems())[..old(len) - 1]
    {
      len := len - 1;
    }

    /** Extends to `newLen` elements, filling with `x`. */
    method Resize(newLen: nat, x: T)
      requires Valid() && len <= newLen
      modifies this, data
      ensures Valid()
      ensures Elems() == old(Elems()) + seq(newLen - old(len), _ => x)
      ensures newLen <= old(data.Length) ==> data == old(data) && reallocs == old(reallocs)
      ensures newLen > old(data.Length) ==> fresh(data) && reallocs > old(reallocs)
    {
      if newLen > data.Length {
        Grow(newLen);
      }
      forall i | len <= i < newLen {
        data[i] := x;
      }
      len := newLen;
    }
  }
}

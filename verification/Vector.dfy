/** The growing array of libds/vector.c.  The sizes of the elements are not part of the model. */
module Vectors {

  import opened Basics

  const BASE_CAP := 10

  function Swapped<T>(s: seq<T>, i: nat, j: nat): (t: seq<T>)
    requires i < |s| && j < |s|
    ensures multiset(t) == multiset(s)
  {
    s[i := s[j]][j := s[i]]
  }

  class Vector<T(0)> {
    var data: array<T>
    var length: nat

    ghost predicate Valid()
      reads this
    {
      length <= data.Length && BASE_CAP <= data.Length
    }

    ghost function Contents(): (s: seq<T>)
      requires Valid()
      reads this, data
      ensures |s| == length
    {
      data[..length]
    }

    /** `create_vector`. */
    constructor ()
      ensures Valid() && fresh(data) && Contents() == []
    {
      data, length := new T[BASE_CAP], 0;
    }

    /** `check_length`: half as much room again when the array is full. */
    method CheckLength()
      requires Valid()
      modifies this`data
      ensures Valid() && length < data.Length
      ensures data.Length == old(if length < data.Length then data.Length else data.Length * 3 / 2)
      ensures data == old(data) || fresh(data)
      ensures Contents() == old(Contents())
    {
      if length >= data.Length {
        var room := new T[data.Length * 3 / 2];
        var i := 0;
        while i < length
          invariant i <= length && forall k :: 0 <= k < i ==> room[k] == data[k]
          modifies room
        {
          room[i] := data[i];
          i := i + 1;
        }
        data := room;
      }
    }

    /** `vector_add`. */
    method Add(x: T)
      requires Valid()
      modifies this, data
      ensures Valid() && (data == old(data) || fresh(data))
      ensures Contents() == old(Contents()) + [x]
    {
      CheckLength();
      data[length] := x;
      length := length + 1;
    }

    /** `vector_get`. */
    method Get(i: nat) returns (x: Option<T>)
      requires Valid()
      ensures x == if i < length then Some(Contents()[i]) else None
    {
      x := if i < length then Some(data[i]) else None;
    }

    /** `vector_remove`: the elements behind `i` move up. */
    method Remove(i: nat)
      requires Valid()
      modifies this`length, data
      ensures Valid()
      ensures data == old(data)
      ensures i < old(length) ==> Contents() == old(Contents())[..i] + old(Contents())[i + 1..]
      ensures i >= old(length) ==> Contents() == old(Contents())
    {
      if i >= length {
        return;
      }
      length := length - 1;
      var x := i;
      while x < length
        invariant i <= x <= length == old(length) - 1 && data == old(data)
        invariant forall k :: 0 <= k < x ==> data[k] == old(data[if k < i then k else k + 1])
        invariant forall k :: x <= k < data.Length ==> data[k] == old(data[k])
      {
        data[x] := data[x + 1];
        x := x + 1;
      }
    }

    /** `vector_swap`. */
    method Swap(i: nat, j: nat)
      requires Valid()
      modifies data
      ensures i < length && j < length ==> Contents() == Swapped(old(Contents()), i, j)
      ensures i >= length || j >= length ==> Contents() == old(Contents())
    {
      if i >= length || j >= length {
        return;
      }
      data[i], data[j] := data[j], data[i];
    }
  }
}

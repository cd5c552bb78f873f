/**
 * `stack_t`: a growable buffer of one-byte elements used by the engine as a
 * small set of digits. `data` is the allocated buffer of `capacity` elements,
 * of which the first `length` are in use.
 */
module Stacks {

  class Stack {
    var data: seq<int>
    var length: nat
    var capacity: nat

    /** The buffer has `capacity` elements, at least `length` of them, and `capacity` is a positive multiple of 8. */
    ghost predicate Valid()
      reads this
    {
      |data| == capacity && length <= capacity && capacity >= 8 && capacity % 8 == 0
    }

    /** The elements in use, bottom first. */
    ghost function Contents(): seq<int>
      reads this
      requires Valid()
    {
      data[..length]
    }

    /** stackNew: an empty stack with room for 8 elements (calloc zeroes the buffer). */
    constructor ()
      ensures Valid() && Contents() == [] && length == 0 && capacity == 8
    {
      data := seq(8, _ => 0);
      length := 0;
      capacity := 8;
    }

    /** stackPush: grow by 8 elements when full, then append the value. */
    method Push(value: int)
      requires Valid()
      modifies this
      ensures Valid()
      ensures Contents() == old(Contents()) + [value] && length == old(length) + 1
      ensures capacity == if old(length) == old(capacity) then old(capacity) + 8 else old(capacity)
    {
      if capacity == length {
        capacity := capacity + 8;
        data := data + seq(8, _ => 0);
      }
      data := data[length := value];
      length := length + 1;
    }

    /** stackPop: remove and return the last element; give back 8 elements when more than 10 are unused. */
    method Pop() returns (value: int)
      requires Valid() && length > 0
      modifies this
      ensures Valid()
      ensures value == old(Contents())[old(length) - 1]
      ensures Contents() == old(Contents())[..old(length) - 1] && length == old(length) - 1
      ensures capacity == if old(capacity) - length > 10 && old(capacity) >= 9 then old(capacity) - 8 else old(capacity)
    {
      value := data[length - 1];
      length := length - 1;
      if capacity - length > 10 && capacity >= 9 {
        data := data[..capacity - 8];
        capacity := capacity - 8;
      }
    }

    /** stackContains: a linear scan of the elements in use. */
    method Contains(value: int) returns (found: bool)
      requires Valid()
      ensures found <==> value in Contents()
    {
      var i := 0;
      while i < length
        invariant 0 <= i <= length
        invariant value !in data[..i]
      {
        if data[i] == value {
          return true;
        }
        i := i + 1;
      }
      return false;
    }
  }

  /** A push followed by a pop hands back the pushed value and restores the elements in use. */
  method PushThenPop(s: Stack, value: int) returns (popped: int)
    requires s.Valid()
    modifies s
    ensures s.Valid() && popped == value
    ensures s.Contents() == old(s.Contents()) && s.length == old(s.length)
  {
    s.Push(value);
    popped := s.Pop();
  }
}

/** The stack of free session slots (`struct bt_stack`): it grows downwards inside a fixed buffer. */
module SlotStack {
  import opened Common

  class BtStack {
    var sp: U16
    const maxSp: U16
    const arr: array<U16>

    ghost predicate Valid()
      reads this, arr
    {
      arr.Length == maxSp && sp <= maxSp
    }

    /** The stacked numbers, top of the stack first. */
    ghost function Contents(): seq<U16>
      requires Valid()
      reads this, arr
    {
      arr[sp..]
    }

    constructor (capacity: U16)
      ensures Valid() && fresh(arr) && maxSp == capacity && Contents() == []
    {
      arr := new U16[capacity](_ => 0);
      sp := capacity;
      maxSp := capacity;
    }

    method Pop() returns (ret: int)
      requires Valid()
      modifies this`sp
      ensures Valid()
      ensures old(Contents()) == [] ==> ret == -1 && Contents() == []
      ensures old(Contents()) != [] ==> ret >= 0 && old(Contents()) == [ret] + Contents()
    {
      if sp == maxSp {
        return -1;
      }
      ret := arr[sp];
      sp := sp + 1;
    }

    method Push(n: U16) returns (ret: int)
      requires Valid()
      modifies this`sp, arr
      ensures Valid()
      ensures |old(Contents())| == maxSp ==> ret == -1 && Contents() == old(Contents())
      ensures |old(Contents())| < maxSp ==> ret == n && Contents() == [n] + old(Contents())
    {
      if sp == 0 {
        return -1;
      }
      arr[sp - 1] := n;
      sp := sp - 1;
      ret := n;
    }
  }
}

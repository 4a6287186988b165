/**
 A fixed array of descriptors used as a queue with three cursors: entries are
 published at the write position, handed out at the read position and freed at
 the flush position. Stream chunks and frame pictures are both kept this way.
 */
module CursorFifo {
  import opened Common
  import opened Ring

  class CursorFifo<T> {
    const slots: array<T>
    var nValid: nat
    var nUnread: nat
    var readPos: nat
    var writePos: nat
    var flushPos: nat

    ghost predicate Valid()
      reads this
    {
      && flushPos < slots.Length
      && nUnread <= nValid <= slots.Length
      && readPos == Fwd(flushPos, nValid - nUnread, slots.Length)
      && writePos == Fwd(flushPos, nValid, slots.Length)
    }

    /** The published entries that are not freed, oldest first. */
    ghost function Contents(): (s: seq<T>)
      requires Valid()
      reads this, slots
      ensures |s| == nValid
    {
      Lin(slots[..], flushPos, nValid)
    }

    /** How many of them are handed out. */
    ghost function Taken(): nat
      requires Valid()
      reads this
    {
      nValid - nUnread
    }

    constructor (size: nat, x: T)
      requires size > 0
      ensures Valid() && fresh(slots) && slots.Length == size && Contents() == [] && Taken() == 0
    {
      slots := new T[size](_ => x);
      nValid, nUnread, readPos, writePos, flushPos := 0, 0, 0, 0, 0;
    }

    function Next(pos: nat): (r: nat)
      reads this
      requires pos < slots.Length
      ensures r == Fwd(pos, 1, slots.Length)
    {
      if pos + 1 >= slots.Length then 0 else pos + 1
    }

    /** Fills the slot at the write position; what is published stays as it is. */
    method Put(x: T)
      requires Valid() && nValid < slots.Length
      modifies slots
      ensures Valid() && Contents() == old(Contents()) && slots[writePos] == x
    {
      WriteAgrees(slots[..], flushPos, nValid, nValid, x);
      LinAgree(slots[..], slots[..][writePos := x], flushPos, nValid, 0, nValid);
      slots[writePos] := x;
      assert slots[..] == old(slots[..])[writePos := x];
    }

    /** The slot at the write position becomes the newest entry. */
    method Publish()
      requires Valid() && nValid < slots.Length
      modifies this
      ensures Valid() && Taken() == old(Taken())
      ensures Contents() == old(Contents()) + [slots[old(writePos)]]
      ensures flushPos == old(flushPos)
    {
      ghost var n := nValid;
      LinSplit(slots[..], flushPos, n, 1);
      FwdFwd(flushPos, n, 1, slots.Length);
      writePos := Next(writePos);
      nValid := nValid + 1;
      nUnread := nUnread + 1;
    }

    /** Hands out the oldest entry not handed out yet. */
    method Request() returns (slot: Option<nat>)
      requires Valid()
      modifies this
      ensures Valid() && Contents() == old(Contents())
      ensures slot.None? <==> old(nUnread) == 0
      ensures slot.None? ==> Taken() == old(Taken())
      ensures slot.Some? ==>
                && slot.value == old(readPos) && slot.value < slots.Length
                && slots[slot.value] == Contents()[old(Taken())] && Taken() == old(Taken()) + 1
      ensures flushPos == old(flushPos) && writePos == old(writePos)
    {
      if nUnread == 0 {
        return None;
      }
      slot := Some(readPos);
      FwdFwd(flushPos, nValid - nUnread, 1, slots.Length);
      readPos := Next(readPos);
      nUnread := nUnread - 1;
    }

    /** Takes back the entry handed out last; any other slot is refused by the program. */
    method Return(slot: nat) returns (ok: bool)
      requires Valid()
      requires nValid != 0 ==> Taken() > 0 && slot == Fwd(flushPos, Taken() - 1, slots.Length)
      modifies this
      ensures Valid() && Contents() == old(Contents())
      ensures ok <==> old(nValid) != 0
      ensures Taken() == if ok then old(Taken()) - 1 else old(Taken())
      ensures flushPos == old(flushPos) && writePos == old(writePos)
    {
      if nValid == 0 {
        return false;
      }
      readPos := if readPos == 0 then slots.Length - 1 else readPos - 1;
      nUnread := nUnread + 1;
      ok := true;
    }

    /** Frees the oldest entry, which has been handed out; any other slot is refused by the program. */
    method Flush(slot: nat) returns (ok: bool)
      requires Valid()
      requires nValid != 0 ==> Taken() > 0 && slot == flushPos
      modifies this
      ensures Valid()
      ensures ok <==> old(nValid) != 0
      ensures if ok then Contents() == old(Contents())[1..] && Taken() == old(Taken()) - 1
              else Contents() == old(Contents()) && Taken() == old(Taken())
      ensures writePos == old(writePos)
    {
      if nValid == 0 {
        return false;
      }
      LinSlice(slots[..], flushPos, nValid, 1, nValid);
      FwdFwd(flushPos, 1, nValid - 1, slots.Length);
      FwdFwd(flushPos, 1, nValid - nUnread - 1, slots.Length);
      flushPos := Next(flushPos);
      nValid := nValid - 1;
      ok := true;
    }

    method Reset()
      modifies this
      requires slots.Length > 0
      ensures Valid() && Contents() == [] && Taken() == 0
      ensures nValid == nUnread == readPos == writePos == flushPos == 0
    {
      readPos, writePos, flushPos, nValid, nUnread := 0, 0, 0, 0, 0;
    }
  }
}

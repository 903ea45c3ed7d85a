/** `CIRCLE_BUFF`: a bump allocator on a circle, freed in allocation order. */
module Allocator {
  import opened Words
  import opened Circular

  /** The value of a `CIRCLE_BUFF`. */
  datatype Ring = Ring(rawBuff: nat, span: nat, writeOffset: nat, readOffset: nat, spaceAvailable: nat) {
    function Freed(amt: nat): Ring
      requires span > 0
    {
      this.(spaceAvailable := spaceAvailable + amt, readOffset := (readOffset + amt) % span)
    }

    function Allocated(amt: nat): Ring
      requires span > 0 && amt <= spaceAvailable
    {
      this.(spaceAvailable := spaceAvailable - amt, writeOffset := (writeOffset + amt) % span)
    }

    function NextAddress(): nat { U32(rawBuff + writeOffset) }
  }

  class CircleBuff {
    var rawBuff: nat
    var span: nat
    var writeOffset: nat
    var readOffset: nat
    var spaceAvailable: nat

    constructor ()
      ensures Value() == Ring(0, 0, 0, 0, 0)
    {
      rawBuff, span, writeOffset, readOffset, spaceAvailable := 0, 0, 0, 0, 0;
    }

    ghost function Value(): Ring
      reads this
    {
      Ring(rawBuff, span, writeOffset, readOffset, spaceAvailable)
    }

    /** `cbuff_init` */
    method Init(buff: nat, size: nat)
      modifies this
      ensures Value() == Ring(buff, size, 0, 0, size)
    {
      rawBuff := buff;
      span := size;
      writeOffset := 0;
      readOffset := 0;
      spaceAvailable := size;
    }

    /** `cbuff_free` */
    method Free(amt: nat)
      requires span > 0
      modifies this
      ensures Value() == old(Value()).Freed(amt)
    {
      spaceAvailable := spaceAvailable + amt;
      readOffset := (readOffset + amt) % span;
    }

    /** `cbuff_alloc` */
    method Alloc(amt: nat) returns (result: nat)
      requires span > 0 && amt <= spaceAvailable
      modifies this
      ensures Value() == old(Value()).Allocated(amt)
      ensures result == old(Value()).NextAddress()
    {
      spaceAvailable := spaceAvailable - amt;
      result := U32(rawBuff + writeOffset);
      writeOffset := (writeOffset + amt) % span;
    }
  }

  /** The bytes between the absolute positions `head` and `tail` are allocated,
      and `leaked` of those before `head` were never given back. Full and empty
      differ in `spaceAvailable` although the offsets coincide. */
  ghost predicate Tracks(r: Ring, head: nat, tail: nat, leaked: nat) {
    && r.span > 0 && leaked <= head
    && head <= tail && tail - head + leaked <= r.span
    && r.readOffset == (head - leaked) % r.span
    && r.writeOffset == tail % r.span
    && r.spaceAvailable == r.span - (tail - head) - leaked
  }

  /** Freeing gives back `amt` of the next `amt + more` bytes. */
  lemma FreeTracks(r: Ring, head: nat, tail: nat, leaked: nat, amt: nat, more: nat)
    requires Tracks(r, head, tail, leaked) && head + amt + more <= tail
    ensures Tracks(r.Freed(amt), head + amt + more, tail, leaked + more)
  {
    ModAdd(head - leaked, amt, r.span);
  }

  /** An allocation returns the address of the first free byte. */
  lemma AllocTracks(r: Ring, head: nat, tail: nat, leaked: nat, amt: nat)
    requires Tracks(r, head, tail, leaked) && amt <= r.spaceAvailable
    requires r.rawBuff + r.span <= B31
    ensures Tracks(r.Allocated(amt), head, tail + amt, leaked)
    ensures r.NextAddress() == Address(r.rawBuff, r.span, tail)
  {
    ModAdd(tail, amt, r.span);
    ModSmall(r.rawBuff + r.writeOffset, B32);
  }

  /** The write offset is determined by the read offset and the free space,
      whatever has leaked. */
  lemma OffsetLaw(r: Ring, head: nat, tail: nat, leaked: nat)
    requires Tracks(r, head, tail, leaked)
    ensures r.writeOffset == (r.readOffset + r.span - r.spaceAvailable) % r.span
  {
    ModAdd(head - leaked, tail - head + leaked, r.span);
  }
}

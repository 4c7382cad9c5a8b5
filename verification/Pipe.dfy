/** The ring buffer of pipe.c: a bounded first-in first-out queue of `size - 1` bytes. */
module Pipe {
  import opened Words

  function Min(a: int, b: int): int { if a < b then a else b }

  class Ring {
    const size: int
    const buffer: array<Byte>
    var writePtr: int
    var readPtr: int

    ghost predicate Valid()
      reads this
    {
      1 <= size == buffer.Length && 0 <= writePtr < size && 0 <= readPtr < size
    }

    /** The bytes written and not yet read, oldest first. */
    ghost function Contents(): seq<Byte>
      requires Valid()
      reads this, buffer
    {
      if readPtr <= writePtr then buffer[readPtr..writePtr] else buffer[readPtr..] + buffer[..writePtr]
    }

    constructor (n: int)
      requires 1 <= n
      ensures Valid() && fresh(buffer) && size == n && Contents() == []
    {
      size, buffer := n, new Byte[n](_ => 0);
      writePtr, readPtr := 0, 0;
    }

    function Unread(): (n: int)
      requires Valid()
      reads this, buffer
      ensures n == |Contents()|
    {
      if readPtr == writePtr then 0
      else if readPtr > writePtr then (size - readPtr) + writePtr
      else writePtr - readPtr
    }

    function Available(): (n: int)
      requires Valid()
      reads this, buffer
      ensures n == size - 1 - |Contents()| && n >= 0
    {
      if readPtr == writePtr then size - 1
      else if readPtr > writePtr then readPtr - writePtr - 1
      else (size - writePtr) + readPtr - 1
    }

    /** One byte out. */
    method Take() returns (b: Byte)
      requires Valid() && Contents() != []
      modifies this`readPtr
      ensures Valid() && Contents() == old(Contents())[1..] && b == old(Contents())[0]
    {
      b := buffer[readPtr];
      readPtr := readPtr + 1;
      if readPtr == size {
        readPtr := 0;
      }
    }

    /** One byte in. */
    method Put(b: Byte)
      requires Valid() && |Contents()| < size - 1
      modifies this`writePtr, buffer
      ensures Valid() && Contents() == old(Contents()) + [b]
    {
      buffer[writePtr] := b;
      writePtr := writePtr + 1;
      if writePtr == size {
        writePtr := 0;
      }
    }

    /** pipe_read takes out the first min(n, unread) bytes, in order. */
    method Read(n: nat, out: array<Byte>) returns (read: nat)
      requires Valid() && n <= out.Length && out != buffer
      modifies this`readPtr, out
      ensures Valid() && read == Min(n, |old(Contents())|)
      ensures out[..read] == old(Contents())[..read] && out[read..] == old(out[read..])
      ensures Contents() == old(Contents())[read..]
    {
      read := 0;
      for i := 0 to n
        invariant Valid() && read == i <= |old(Contents())|
        invariant out[..i] == old(Contents())[..i] && out[i..] == old(out[i..])
        invariant Contents() == old(Contents())[i..]
      {
        if Unread() == 0 {
          break;
        }
        out[i] := Take();
        read := read + 1;
      }
    }

    /** pipe_write appends the first min(n, available) bytes, in order. */
    method Write(n: nat, data: array<Byte>) returns (written: nat)
      requires Valid() && n <= data.Length && data != buffer
      modifies this`writePtr, buffer
      ensures Valid() && written == Min(n, size - 1 - |old(Contents())|)
      ensures Contents() == old(Contents()) + data[..written]
    {
      written := 0;
      for i := 0 to n
        invariant Valid() && written == i <= size - 1 - |old(Contents())|
        invariant Contents() == old(Contents()) + data[..i]
      {
        if Available() == 0 {
          break;
        }
        Put(data[i]);
        written := written + 1;
      }
    }

    /** clean_process looks for unread output by reading up to the node's size and writing it back: what
        it read ends up behind what it did not, so the queue is unchanged when the node's size covers
        the unread bytes. */
    method ReadAndRestore(nodeSize: nat) returns (sz: nat)
      requires Valid()
      modifies this, buffer
      ensures Valid() && sz == Min(nodeSize, |old(Contents())|)
      ensures Contents() == old(Contents())[sz..] + old(Contents())[..sz]
      ensures |old(Contents())| <= nodeSize || nodeSize == 0 ==> Contents() == old(Contents())
    {
      ghost var was := Contents();
      var buff := new Byte[nodeSize](_ => 0);
      sz := Read(nodeSize, buff);
      if sz != 0 {
        var _ := Write(sz, buff);
        assert buff[..sz] == was[..sz];
      }
    }
  }
}

/** The growing output buffer of the printer. */
module PrintBuffers {
  import opened Bytes
  import opened Numbers
  import opened Heap

  /** `struct printbuffer`; `mem` and `canResize` are its hooks, `others` all other live blocks. */
  class PrintBuffer {
    var buffer: array?<byte>
    var length: nat
    var offset: nat
    var depth: nat
    const noalloc: bool
    const format: bool
    const canResize: bool
    const mem: Memory
    ghost const others: set<object>

    constructor (buffer: array<byte>, noalloc: bool, format: bool, canResize: bool, mem: Memory)
      ensures this.buffer == buffer && length == buffer.Length && offset == 0 && depth == 0
      ensures this.noalloc == noalloc && this.format == format && this.canResize == canResize && this.mem == mem
      ensures others == mem.live - {buffer}
    {
      this.buffer, length, offset, depth := buffer, buffer.Length, 0, 0;
      this.noalloc, this.format, this.canResize, this.mem := noalloc, format, canResize, mem;
      others := mem.live - {buffer};
    }

    /** The buffer is the only block the printer owns. A preallocated one stays the caller's. */
    ghost predicate Accounted()
      reads this, mem
    {
      && (buffer != null ==> buffer !in others) && others <= mem.live
      && if noalloc then buffer != null && mem.live - {buffer} == others else mem.live == others + Block(buffer)
    }

    ghost predicate Intact()
      reads this, mem
    {
      && Accounted() && buffer != null && length == buffer.Length && length <= INT_MAX
      && (length == 0 ==> offset == 0 && (noalloc || canResize))
    }

    /** The offset is inside the buffer, or the buffer is still empty. */
    ghost predicate Usable()
      reads this, mem
    {
      Intact() && (length > 0 ==> offset < length)
    }

    ghost function Written(): Text
      requires buffer != null && offset <= buffer.Length
      reads this, buffer
    {
      buffer[..offset]
    }

    /** The buffer starts with `w` and a NUL, and the offset has not passed it. */
    ghost predicate Shows(w: Text)
      reads this, buffer
    {
      buffer != null && offset <= |w| < buffer.Length && buffer[..|w|] == w && buffer[|w|] == NUL
    }

    /** The largest size the buffer can get. */
    ghost function Limit(): nat
      reads this
    {
      if noalloc then length else INT_MAX
    }

    twostate predicate Kept()
      reads this, mem
    {
      && mem.failures >= old(mem.failures)
      && (noalloc ==> buffer == old(buffer) && length == old(length))
      && (noalloc ==> mem.live == old(mem.live) && mem.failures == old(mem.failures))
      && (buffer != null && buffer != old(buffer) ==> fresh(buffer))
    }

    /** ensure: room for `needed` more bytes and one, if it can be had. */
    method Ensure(needed: nat) returns (ok: bool)
      requires Intact()
      modifies this`buffer, this`length, mem
      ensures Accounted() && Kept()
      ensures ok ==> Usable() && offset + needed + 1 <= length
      ensures ok ==> var total := offset + needed + 1;
        length == if total <= old(length) then old(length)
          else if 2 * total < 0x8000_0000 then 2 * total else 0x7FFF_FFFF
      ensures ok ==> old(offset <= buffer.Length) && Written() == old(Written())
      ensures !ok ==> old(0 < length <= offset) || offset + needed + 1 > Limit() || mem.failures > old(mem.failures)
    {
      if length > 0 && offset >= length {
        return false;
      }
      if needed > INT_MAX {
        return false;
      }
      var total := needed + offset + 1;
      if total <= length {
        return true;
      }
      if noalloc {
        return false;
      }
      if total > INT_MAX {
        return false;
      }
      var size := if total > INT_MAX / 2 then INT_MAX else total * 2;
      ok := Grow(size);
    }

    method Grow(size: nat) returns (ok: bool)
      requires Usable() && !noalloc && length <= size <= INT_MAX && offset < size
      modifies this`buffer, this`length, mem
      ensures Accounted() && Kept()
      ensures ok ==> Usable() && length == size && Written() == old(Written())
      ensures !ok ==> mem.failures > old(mem.failures)
    {
      var newBuffer;
      if canResize {
        newBuffer := mem.Resize(buffer, size);
      } else {
        newBuffer := mem.NewBlock(size);
        if newBuffer != null {
          forall i | 0 <= i < offset + 1 { newBuffer[i] := buffer[i]; }
        }
      }
      if newBuffer == null {
        mem.Free(buffer);
        length, buffer := 0, null;
        return false;
      }
      if !canResize {
        mem.Free(buffer);
      }
      length, buffer := size, newBuffer;
      ok := true;
    }

    /** update_offset: strlen from the offset finds the NUL behind what was written. */
    method UpdateOffset(ghost w: Text)
      requires Usable() && Shows(w) && NulFree(w[offset..])
      modifies this`offset
      ensures Usable() && offset == |w| && Written() == w
    {
      assert forall k | offset <= k < |w| :: buffer[k] == buffer[..|w|][k] && w[k] == w[offset..][k - offset];
      var n := 0;
      while buffer[offset + n] != NUL
        invariant offset + n <= |w|
        decreases |w| - n
      {
        n := n + 1;
      }
      offset := offset + n;
    }

    /** Writes `s` and `end` at the offset, after reserving `needed` bytes, and steps over `s`. */
    method Append(needed: nat, s: Text, end: Text) returns (ok: bool)
      requires Usable() && |end| <= 1 && |s| <= needed <= |s| + 1
      modifies this, buffer, mem
      ensures Accounted() && Kept() && depth == old(depth)
      ensures ok ==> Usable() && Written() == old(Written()) + s
      ensures ok ==> old(offset) + needed + 1 <= Limit()
      ensures !ok ==> old(offset) + |s| + 2 > Limit() || mem.failures > old(mem.failures)
    {
      ok := Ensure(needed);
      if ok {
        ghost var w := Written();
        CopyBytes(buffer, offset, s + end);
        assert buffer[..|w| + |s|] == buffer[..|w| + |s + end|][..|w| + |s|];
        assert (w + (s + end))[..|w| + |s|] == w + s;
        offset := offset + |s|;
      }
    }

    /** Writes `s` and a NUL at the offset and stays in front of it. */
    method Leave(s: Text) returns (ok: bool)
      requires Usable()
      modifies this, buffer, mem
      ensures Accounted() && Kept() && offset == old(offset) && depth == old(depth)
      ensures ok ==> Usable() && Shows(old(Written()) + s) && old(offset) + |s| + 2 <= Limit()
      ensures !ok ==> old(offset) + |s| + 2 > Limit() || mem.failures > old(mem.failures)
    {
      ok := Ensure(|s| + 1);
      if ok {
        ghost var w := Written();
        CopyBytes(buffer, offset, s + [NUL]);
        assert w + (s + [NUL]) == (w + s) + [NUL];
      }
    }
  }

  /** strcpy, memcpy and single stores. */
  method CopyBytes(b: array<byte>, at: nat, s: Text)
    requires at + |s| <= b.Length
    modifies b
    ensures b[..at + |s|] == old(b[..at]) + s
  {
    forall i | 0 <= i < |s| { b[at + i] := s[i]; }
  }
}

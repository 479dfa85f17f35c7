/** The part of `java.nio.ByteBuffer` the codec uses: a fixed backing array
    and a position that each relative `put`/`get` advances. The limit is the
    capacity throughout (the source never flips or limits a buffer). */
module Buffers {
  import opened Common

  class ByteBuffer {
    /** The backing array, the one `array()` returns. */
    const hb: array<byte>
    var position: nat

    ghost predicate Valid()
      reads this
    {
      position <= hb.Length
    }

    /** The bytes between the position and the limit. */
    function Remaining(): seq<byte>
      reads this, hb
      requires Valid()
    {
      hb[position..]
    }

    /** `ByteBuffer.allocate(capacity)` for a non-negative capacity (the
        caller raises IllegalArgumentException for a negative one). */
    constructor Allocate(capacity: nat)
      ensures Valid() && fresh(hb)
      ensures hb[..] == Zeros(capacity) && position == 0
    {
      hb := new byte[capacity](_ => 0);
      position := 0;
    }

    /** `ByteBuffer.wrap(a)`: a buffer over `a` itself, at position 0. */
    constructor Wrap(a: array<byte>)
      ensures Valid() && hb == a && position == 0
    {
      hb := a;
      position := 0;
    }

    /** `putInt(x)`: four big-endian bytes at the position, or
        BufferOverflowException (`false`) with nothing written when fewer than
        four bytes remain. */
    method PutInt(x: int) returns (ok: bool)
      requires Valid() && IsInt(x)
      modifies this, hb
      ensures Valid()
      ensures ok <==> old(position) + 4 <= hb.Length
      ensures ok ==> hb[..] == old(hb[..position]) + BE32(x) + old(hb[position + 4..])
      ensures ok ==> position == old(position) + 4
      ensures !ok ==> hb[..] == old(hb[..]) && position == old(position)
    {
      if position + 4 > hb.Length {
        return false;
      }
      ghost var before := hb[..];
      var b := BE32(x);
      hb[position] := b[0];
      hb[position + 1] := b[1];
      hb[position + 2] := b[2];
      hb[position + 3] := b[3];
      assert hb[..] == before[..position] + b + before[position + 4..];
      position := position + 4;
      ok := true;
    }

    /** `put(b)`: one byte at the position, or BufferOverflowException
        (`false`) when the buffer is full. */
    method Put(b: byte) returns (ok: bool)
      requires Valid()
      modifies this, hb
      ensures Valid()
      ensures ok <==> old(position) < hb.Length
      ensures ok ==> hb[..] == old(hb[..])[old(position) := b] && position == old(position) + 1
      ensures !ok ==> hb[..] == old(hb[..]) && position == old(position)
    {
      if position >= hb.Length {
        return false;
      }
      hb[position] := b;
      position := position + 1;
      ok := true;
    }

    /** `put(src)`: the bytes of `src` at the position, or
        BufferOverflowException (`false`) with nothing written when they do
        not fit. */
    method PutBytes(src: seq<byte>) returns (ok: bool)
      requires Valid()
      modifies this, hb
      ensures Valid()
      ensures ok <==> old(position) + |src| <= hb.Length
      ensures ok ==> hb[..] == old(hb[..position]) + src + old(hb[position + |src|..])
      ensures ok ==> position == old(position) + |src|
      ensures !ok ==> hb[..] == old(hb[..]) && position == old(position)
    {
      if position + |src| > hb.Length {
        return false;
      }
      ghost var before := hb[..];
      var start := position;
      var i := 0;
      while i < |src|
        invariant 0 <= i <= |src| && position == start && |before| == hb.Length
        invariant hb[..] == before[..start] + src[..i] + before[start + i..]
      {
        hb[start + i] := src[i];
        assert src[..i + 1] == src[..i] + [src[i]];
        i := i + 1;
      }
      assert src[..i] == src;
      position := position + |src|;
      ok := true;
    }

    /** `getInt()`: the big-endian `int` at the position, or
        BufferUnderflowException when fewer than four bytes remain. */
    method GetInt() returns (r: Result<int>)
      requires Valid()
      modifies this
      ensures Valid()
      ensures r.Err? <==> |old(Remaining())| < 4
      ensures r.Err? ==> r.error == BufferUnderflow && position == old(position)
      ensures r.Ok? ==> r.value == BE32Signed(old(Remaining())[..4]) && position == old(position) + 4
    {
      if position + 4 > hb.Length {
        return Err(BufferUnderflow);
      }
      r := Ok(BE32Signed(hb[position..position + 4]));
      position := position + 4;
    }

    /** `get()`: the byte at the position, or BufferUnderflowException when
        none remains. */
    method Get() returns (r: Result<byte>)
      requires Valid()
      modifies this
      ensures Valid()
      ensures r.Err? <==> |old(Remaining())| == 0
      ensures r.Err? ==> r.error == BufferUnderflow && position == old(position)
      ensures r.Ok? ==> r.value == old(Remaining())[0] && position == old(position) + 1
    {
      if position >= hb.Length {
        return Err(BufferUnderflow);
      }
      r := Ok(hb[position]);
      position := position + 1;
    }

    /** `get(dst)` into an array of `n` bytes: the next `n` bytes, or
        BufferUnderflowException with the position unchanged when fewer
        remain. */
    method GetBytes(n: nat) returns (r: Result<seq<byte>>)
      requires Valid()
      modifies this
      ensures Valid()
      ensures r.Err? <==> |old(Remaining())| < n
      ensures r.Err? ==> r.error == BufferUnderflow && position == old(position)
      ensures r.Ok? ==> r.value == old(Remaining())[..n] && position == old(position) + n
    {
      if position + n > hb.Length {
        return Err(BufferUnderflow);
      }
      r := Ok(hb[position..position + n]);
      position := position + n;
    }
  }
}

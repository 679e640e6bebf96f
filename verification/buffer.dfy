/** The packet as the Rust `Packet` holds it: a mutable, fixed-length byte array
    and a length field, mutated in place. Each method is proved to leave the
    object in the state the corresponding function of `Packets` computes, so
    every property proved about those functions carries over. */
module PacketBuffers {
  import opened Packets

  class PacketBuffer {
    var buffer: array<u8>
    var len: nat

    /** The class invariant `len <= capacity`. */
    ghost predicate Inv()
      reads this
    {
      len <= buffer.Length
    }

    /** The value this object currently stands for. */
    ghost function Model(): Packet
      reads this, buffer
    {
      Packet(buffer[..], len)
    }

    /** `PacketPool::acquire` on the buffer the source handed out. */
    constructor Acquire(acquired: array<u8>)
      ensures Inv()
      ensures buffer == acquired
      ensures Model() == Wrap(acquired[..])
    {
      buffer := acquired;
      len := 0;
    }

    /** `capacity`. */
    method Capacity() returns (c: nat)
      ensures c == Packets.Capacity(Model())
    {
      c := buffer.Length;
    }

    /** `clear`. */
    method Clear()
      requires Inv()
      modifies this
      ensures Inv() && buffer == old(buffer)
      ensures Model() == Packets.Clear(old(Model()))
    {
      len := 0;
    }

    /** `resize`, with the fill loop over `[len, n)`. */
    method Resize(n: nat, v: u8)
      requires Inv()
      requires n <= buffer.Length
      modifies this, buffer
      ensures Inv() && buffer == old(buffer)
      ensures Model() == Packets.Resize(old(Model()), n, v)
    {
      var i := len;
      while i < n
        modifies buffer
        invariant len <= i && (i <= n || i == len)
        invariant forall k :: 0 <= k < buffer.Length ==>
          (buffer[k] == if len <= k < i then v else old(buffer[k]))
      {
        buffer[i] := v;
        i := i + 1;
      }
      assert buffer[..] == Fill(old(buffer[..]), len, n, v);
      len := n;
    }

    /** `truncate`. */
    method Truncate(n: nat)
      requires Inv()
      modifies this
      ensures Inv() && buffer == old(buffer)
      ensures Model() == Packets.Truncate(old(Model()), n)
    {
      if n < len {
        len := n;
      }
    }

    /** `extend`, with the element-wise copy of `copy_from_slice`. */
    method Extend(other: seq<u8>)
      requires Inv()
      requires len + |other| <= buffer.Length
      modifies this, buffer
      ensures Inv() && buffer == old(buffer)
      ensures Model() == Packets.Extend(old(Model()), other)
    {
      var j := 0;
      while j < |other|
        modifies buffer
        invariant j <= |other|
        invariant forall k :: 0 <= k < buffer.Length ==>
          (buffer[k] == if len <= k < len + j then other[k - len] else old(buffer[k]))
      {
        buffer[len + j] := other[j];
        j := j + 1;
      }
      assert buffer[..] == CopyInto(old(buffer[..]), len, other);
      len := len + |other|;
    }

    /** `deref`: the logical content. */
    method Deref() returns (s: seq<u8>)
      requires Inv()
      ensures s == Packets.Deref(Model())
    {
      s := buffer[..len];
    }

    /** `as_slice`: the whole buffer. */
    method AsSlice() returns (s: seq<u8>)
      ensures s == Packets.AsSlice(Model())
    {
      s := buffer[..];
    }
  }
}

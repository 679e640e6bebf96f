/** `PacketPool`: a thin factory around a buffer source. The source itself is
    external (its `acquire` may allocate, reuse or block), so the buffer it
    hands out on each call is a parameter of `Acquire` here. */
module Pools {
  import opened Packets

  /** The pool only stores its buffer source. */
  datatype PacketPool<P> = PacketPool(source: P)

  /** `PacketPool::new`: store the source, nothing else. */
  function New<P>(source: P): (pool: PacketPool<P>)
    ensures pool.source == source
  {
    PacketPool(source)
  }

  /** `PacketPool::acquire`, given the buffer that `source.acquire()` returned:
      an empty packet whose capacity is that buffer's length and whose buffer
      bytes are exactly the ones acquired. */
  function Acquire<P>(pool: PacketPool<P>, acquired: seq<u8>): (p: Packet)
    ensures Valid(p)
    ensures p.len == 0
    ensures Deref(p) == []
    ensures Capacity(p) == |acquired|
    ensures AsSlice(p) == acquired
  {
    Wrap(acquired)
  }
}

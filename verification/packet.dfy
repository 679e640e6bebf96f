/** A fixed-capacity packet buffer: a byte region whose length (the capacity)
    never changes, paired with a logical length `len` that says how many of
    its leading bytes are currently meaningful.

    Every operation is a pure function from the packet before the call to the
    packet after it. The two operations that panic in the Rust `Packet` (`resize`
    past the capacity, `extend` past the capacity) carry that condition as a
    precondition; module `Scripts` models the panic itself as a value. */
module Packets {

  /** An unsigned byte. */
  newtype u8 = x: int | 0 <= x < 256

  /** The physical buffer plus the logical length over it. */
  datatype Packet = Packet(buffer: seq<u8>, len: nat)

  /** The one invariant of a packet: the logical length never passes the buffer's end. */
  predicate Valid(p: Packet) {
    p.len <= |p.buffer|
  }

  /** The static capacity: the length of the underlying buffer. */
  function Capacity(p: Packet): (c: nat)
    ensures c == |p.buffer|
    ensures Valid(p) <==> p.len <= c
  {
    |p.buffer|
  }

  /** A packet over a freshly acquired buffer, as `PacketPool::acquire` builds it. */
  function Wrap(buffer: seq<u8>): (p: Packet)
    ensures Valid(p)
    ensures Deref(p) == []
    ensures AsSlice(p) == buffer
    ensures Capacity(p) == |buffer|
  {
    Packet(buffer, 0)
  }

  // ---------------------------------------------------------------------------
  // Views

  /** `Deref`/`DerefMut` for reading: the logical content only. */
  function Deref(p: Packet): (s: seq<u8>)
    requires Valid(p)
    ensures |s| == p.len
    ensures s <= AsSlice(p)
  {
    p.buffer[..p.len]
  }

  /** `as_slice`: the WHOLE buffer, stale bytes past `len` included. */
  function AsSlice(p: Packet): (s: seq<u8>)
    ensures |s| == Capacity(p)
  {
    p.buffer
  }

  /** The two read views agree exactly when the packet is full; otherwise
      `as_slice` exposes `Capacity(p) - p.len` stale bytes that `Deref` hides. */
  lemma ViewsAgreeIffFull(p: Packet)
    requires Valid(p)
    ensures Deref(p) == AsSlice(p) <==> p.len == Capacity(p)
    ensures AsSlice(p) == Deref(p) + AsSlice(p)[p.len..]
  {
  }

  /** The state after the caller overwrites every byte of the view returned
      by `as_mut_slice` with `contents`. The length is untouched, so bytes past
      `len` may be changed and bytes below it become part of the new content. */
  function AsMutSlice(p: Packet, contents: seq<u8>): (q: Packet)
    requires Valid(p)
    requires |contents| == Capacity(p)
    ensures Valid(q)
    ensures q.len == p.len
    ensures AsSlice(q) == contents
    ensures Deref(q) == contents[..p.len]
  {
    Packet(contents, p.len)
  }

  /** The state after the caller overwrites every byte of the view returned
      by `deref_mut` with `contents`: only the logical prefix can change. */
  function DerefMut(p: Packet, contents: seq<u8>): (q: Packet)
    requires Valid(p)
    requires |contents| == p.len
    ensures Valid(q)
    ensures Capacity(q) == Capacity(p)
    ensures Deref(q) == contents
    ensures AsSlice(q)[p.len..] == AsSlice(p)[p.len..]
  {
    Packet(contents + p.buffer[p.len..], p.len)
  }

  /** Writing back through a mutable view exactly what the matching read view
      shows changes nothing, and a write through `deref_mut` is a write through
      `as_mut_slice` that keeps the stale tail. */
  lemma MutableViewsRoundTrip(p: Packet, contents: seq<u8>)
    requires Valid(p)
    requires |contents| == p.len
    ensures AsMutSlice(p, AsSlice(p)) == p
    ensures DerefMut(p, Deref(p)) == p
    ensures DerefMut(p, contents) == AsMutSlice(p, contents + AsSlice(p)[p.len..])
  {
  }

  // ---------------------------------------------------------------------------
  // Mutating operations

  /** `clear`: forget the content without touching a byte. */
  function Clear(p: Packet): (q: Packet)
    requires Valid(p)
    ensures Valid(q)
    ensures Deref(q) == []
    ensures AsSlice(q) == AsSlice(p)
  {
    p.(len := 0)
  }

  /** The fill loop of `resize`: writes `v` at every index of `[from, to)`,
      one index at a time; an empty range (`to <= from`) writes nothing. */
  function Fill(b: seq<u8>, from: nat, to: nat, v: u8): (r: seq<u8>)
    requires to <= |b|
    ensures |r| == |b|
    ensures forall i :: 0 <= i < |b| ==> (r[i] == if from <= i < to then v else b[i])
    decreases if to <= from then 0 else to - from
  {
    if to <= from then b else Fill(b[from := v], from + 1, to, v)
  }

  /** `resize(n, v)`: the new length is `n`; growing fills the new region with
      `v`, shrinking writes nothing. */
  function Resize(p: Packet, n: nat, v: u8): (q: Packet)
    requires Valid(p)
    requires n <= Capacity(p)
    ensures Valid(q)
    ensures q.len == n
    ensures Capacity(q) == Capacity(p)
    ensures forall i :: p.len <= i < n ==> AsSlice(q)[i] == v
    ensures forall i :: 0 <= i < p.len && i < n ==> AsSlice(q)[i] == AsSlice(p)[i]
    ensures forall i :: p.len <= i < Capacity(p) && n <= i ==> AsSlice(q)[i] == AsSlice(p)[i]
    ensures n <= p.len ==> AsSlice(q) == AsSlice(p)
  {
    Packet(Fill(p.buffer, p.len, n, v), n)
  }

  /** `v` repeated `k` times. */
  function Repeat(v: u8, k: nat): (r: seq<u8>)
    ensures |r| == k
    ensures forall i :: 0 <= i < k ==> r[i] == v
  {
    seq(k, _ => v)
  }

  /** What `resize` does to the logical content: shrinking keeps a prefix,
      growing appends `n - len` copies of `v`. */
  lemma ResizeView(p: Packet, n: nat, v: u8)
    requires Valid(p)
    requires n <= Capacity(p)
    ensures n <= p.len ==> Deref(Resize(p, n, v)) == Deref(p)[..n]
    ensures p.len <= n ==> Deref(Resize(p, n, v)) == Deref(p) + Repeat(v, n - p.len)
  {
  }

  /** `truncate(n)`: the length becomes `min(len, n)`; no byte is touched. */
  function Truncate(p: Packet, n: nat): (q: Packet)
    requires Valid(p)
    ensures Valid(q)
    ensures q.len <= p.len
    ensures n < p.len ==> q.len == n
    ensures p.len <= n ==> q == p
    ensures Deref(q) <= Deref(p)
    ensures AsSlice(q) == AsSlice(p)
  {
    if n < p.len then p.(len := n) else p
  }

  /** Truncating twice to the same bound is truncating once, and truncating
      to a bound at or past the current length changes nothing. */
  lemma TruncateIdempotent(p: Packet, n: nat)
    requires Valid(p)
    ensures Truncate(Truncate(p, n), n) == Truncate(p, n)
    ensures p.len <= n ==> Truncate(p, n) == p
  {
  }

  /** Successive truncations keep the smaller bound. */
  lemma TruncateComposes(p: Packet, a: nat, b: nat)
    requires Valid(p)
    ensures Truncate(Truncate(p, a), b) == Truncate(p, if a < b then a else b)
  {
  }

  /** `truncate` and `resize` agree when shrinking; they differ only in that
      `resize` may also grow. */
  lemma TruncateIsShrinkingResize(p: Packet, n: nat, v: u8)
    requires Valid(p)
    requires n <= p.len
    ensures Truncate(p, n) == Resize(p, n, v)
  {
  }

  /** The buffer after `copy_from_slice` of `src` into `b[at..at + |src|]`. */
  function CopyInto(b: seq<u8>, at: nat, src: seq<u8>): (r: seq<u8>)
    requires at + |src| <= |b|
    ensures |r| == |b|
    ensures r[..at] == b[..at]
    ensures r[at..at + |src|] == src
    ensures r[at + |src|..] == b[at + |src|..]
  {
    b[..at] + src + b[at + |src|..]
  }

  /** `extend(bytes)`: appends `bytes` to the logical content. */
  function Extend(p: Packet, bytes: seq<u8>): (q: Packet)
    requires Valid(p)
    requires p.len + |bytes| <= Capacity(p)
    ensures Valid(q)
    ensures q.len == p.len + |bytes|
    ensures Capacity(q) == Capacity(p)
    ensures Deref(q) == Deref(p) + bytes
    ensures AsSlice(q)[q.len..] == AsSlice(p)[q.len..]
  {
    var r := CopyInto(p.buffer, p.len, bytes);
    assert r[..p.len + |bytes|] == r[..p.len] + r[p.len..p.len + |bytes|];
    Packet(r, p.len + |bytes|)
  }

  /** Extending by two slices in turn is extending by their concatenation. */
  lemma ExtendExtend(p: Packet, a: seq<u8>, b: seq<u8>)
    requires Valid(p)
    requires p.len + |a| + |b| <= Capacity(p)
    ensures Extend(Extend(p, a), b) == Extend(p, a + b)
  {
  }

  /** `clear` followed by `extend` makes the content exactly the new bytes,
      whatever the packet held before. */
  lemma ClearThenExtend(p: Packet, bytes: seq<u8>)
    requires Valid(p)
    requires |bytes| <= Capacity(p)
    ensures Deref(Extend(Clear(p), bytes)) == bytes
  {
  }
}

# Packet buffers of turbulence, modelled in Dafny

The `turbulence` crate builds its transport on `Packet<B>`: a byte buffer of
fixed length (the capacity, normally the transport's MTU) obtained from an
external `BufferPool`, plus a logical length `len` saying how many leading
bytes are meaningful. `PacketPool::acquire` wraps a freshly acquired buffer
with `len = 0`; `clear`, `resize`, `truncate` and `extend` move `len` and
write bytes; `Deref`/`DerefMut` show `buffer[0..len]`, while `as_slice` and
`as_mut_slice` show the WHOLE buffer, stale bytes past `len` included.

This project models that file in four modules:

- `Packets` (`packet.dfy`): the packet as an immutable value
  `Packet(buffer, len)` with the invariant `Valid` (`len <= |buffer|`), the
  views, and every operation as a pure function whose contract is stated in
  terms of what a caller can observe: the logical view `Deref`, the full view
  `AsSlice`, and `Capacity`. `u8` is a newtype over 0 to 255.
- `Pools` (`pool.dfy`): `PacketPool::new` and `PacketPool::acquire`.
- `Scripts` (`scripts.dfy`): sequences of calls in which the two `assert!`
  panics are an outcome rather than a precondition, so that "a capacity
  violation panics and is never clamped" and "the invariant and the capacity
  survive any sequence of calls" can be stated; also a walk-through on an
  8-byte buffer.
- `PacketBuffers` (`buffer.dfy`): the packet as the Rust `Packet` holds it, a class
  with a mutable `array<u8>` and a `len` field, whose `resize` fill loop and
  `extend` copy loop are proved to produce exactly the state the
  corresponding `Packets` function computes.

The panicking `assert!`s of `resize` and `extend` are preconditions of the
`Packets` functions and of the class methods; `Scripts.Step` models the panic
itself. The buffer that the external buffer source returns is a parameter of
`Pools.Acquire`.

`as_slice`/`as_mut_slice` return the whole buffer, not `buffer[0..len]`:
`AsSlice` has length `Capacity(p)`, and `Packets.ViewsAgreeIffFull` shows it
agrees with `Deref` only when the packet is full.

## Model

| member | source | states |
|---|---|---|
| `Packets.Capacity` | src/packet.rs:44-46 | `capacity` is the buffer's length, and a packet is valid exactly when `len` does not exceed it |
| `Packets.Wrap` | src/packet.rs:26-29 | the `Packet { buffer, len: 0 }` literal is valid, has an empty logical view, keeps the buffer's bytes and has the buffer's length as capacity |
| `Pools.New` | src/packet.rs:19-21 | the pool holds exactly the given buffer source and nothing else |
| `Pools.Acquire` | src/packet.rs:25-29 | a fresh packet is valid, has an empty logical view, has capacity equal to the acquired buffer's length, and exposes that buffer's bytes untouched through `as_slice` |
| `Packets.Deref` | src/packet.rs:87-89 | the logical view has length exactly `len` and is a prefix of the full buffer |
| `Packets.AsSlice` | src/packet.rs:72-74 | the full view has length `capacity`, not `len` |
| `Packets.ViewsAgreeIffFull` | src/packet.rs:72-89 | the logical and full views coincide if and only if `len == capacity`; the full view is always the logical view followed by the stale tail |
| `Packets.AsMutSlice` | src/packet.rs:76-78 | writing through `as_mut_slice` can change any byte, including bytes past `len`, keeps `len`, and the logical view becomes the first `len` written bytes |
| `Packets.DerefMut` | src/packet.rs:96-98 | writing through `deref_mut` replaces exactly the logical view and leaves every byte past `len` and the capacity unchanged |
| `Packets.MutableViewsRoundTrip` | src/packet.rs:76-98 | writing back what a read view shows leaves the packet unchanged, and a `deref_mut` write equals an `as_mut_slice` write that keeps the bytes past `len` |
| `Packets.Clear` | src/packet.rs:48-50 | after `clear` the logical view is empty and no buffer byte has changed |
| `Packets.Fill` | src/packet.rs:56-58 | the fill loop writes `v` exactly at the indices in `[from, to)` and nowhere else; an empty range writes nothing |
| `Packets.Resize` | src/packet.rs:54-60 | `resize(n, v)` with `n <= capacity` sets `len = n`, keeps the capacity, writes `v` on `[old_len, n)`, keeps bytes below `min(old_len, n)` and at or beyond `max(old_len, n)`, and writes nothing when `n <= old_len` |
| `Packets.ResizeView` | src/packet.rs:54-60 | shrinking by `resize` keeps a prefix of the logical view; growing appends `n - old_len` copies of `v` to it |
| `Packets.Truncate` | src/packet.rs:62-64 | `truncate(n)` makes `len` the minimum of the old `len` and `n`, never grows it, keeps the retained prefix, and touches no byte |
| `Packets.TruncateIdempotent` | src/packet.rs:62-64 | truncating twice to `n` equals truncating once, and truncating to `n >= len` is a no-op |
| `Packets.TruncateComposes` | src/packet.rs:62-64 | two truncations equal one truncation to the smaller bound |
| `Packets.TruncateIsShrinkingResize` | src/packet.rs:54-64 | for `n <= len`, `resize(n, v)` and `truncate(n)` give the same packet, whatever `v` is |
| `Packets.CopyInto` | src/packet.rs:68 | `copy_from_slice` into `buffer[at..at + k]` puts the source bytes there and leaves the bytes before and after unchanged |
| `Packets.Extend` | src/packet.rs:66-70 | `extend(b)` with `len + |b| <= capacity` makes the logical view the old view followed by `b`, grows `len` by `|b|`, keeps the capacity, and leaves bytes past the new `len` unchanged |
| `Packets.ExtendExtend` | src/packet.rs:66-70 | extending by `a` then `b` gives the same packet as extending by `a + b` |
| `Packets.ClearThenExtend` | src/packet.rs:48-70 | after `clear` then `extend(b)` the logical view is exactly `b`, whatever the stale bytes were |
| `Scripts.Step` | src/packet.rs:54-69 | a call panics exactly when `resize` targets more than the capacity or `extend` would pass it; `clear` and `truncate` never panic; a returning `resize` reaches exactly the requested length (no clamping) and a returning `extend` appends exactly the given bytes; a returning call keeps the invariant and the capacity |
| `Scripts.Run` | src/packet.rs:44-69 | after any sequence of calls that does not panic the packet is still valid and its capacity is unchanged; a panic is reported at an index of the sequence |
| `Scripts.RunPanicsAtFailingCall` | src/packet.rs:54-69 | the reported panic index is the call whose capacity `assert!` failed: every earlier call returned, and that call panics on the packet they left |
| `Scripts.RunAppend` | src/packet.rs:44-69 | running two call sequences in turn is running their concatenation, with the panic index shifted |
| `Scripts.WorkedExample` | src/packet.rs:54-70 | on any 8-byte buffer, extend `[1,2,3]`, resize to 6 with 9, truncate to 2, extend `[4,4,4,4]` ends with `len = 6` and logical view `[1,2,4,4,4,4]` |
| `Scripts.OverrunsPanic` | src/packet.rs:54-69 | on an 8-byte buffer `resize(9, 0)` panics, and an `extend` of 6 bytes after 3 panics at that second call |
| `PacketBuffers.PacketBuffer.Acquire` | src/packet.rs:25-29 | wrapping an acquired array takes that array as the buffer and yields the packet `Packets.Wrap` describes over its bytes |
| `PacketBuffers.PacketBuffer.Clear` | src/packet.rs:48-50 | in-place `clear` keeps the same array and leaves the object in the state `Packets.Clear` describes: empty view, no byte touched |
| `PacketBuffers.PacketBuffer.Truncate` | src/packet.rs:62-64 | in-place `truncate` keeps the same array and leaves the object in the state `Packets.Truncate` describes |
| `PacketBuffers.PacketBuffer.AsSlice` | src/packet.rs:72-74 | the full view read from the array is the whole buffer, as `Packets.AsSlice` describes |
| `PacketBuffers.PacketBuffer.Capacity` | src/packet.rs:44-46 | `capacity` returns the array's length, the capacity of the modelled packet |
| `PacketBuffers.PacketBuffer.Resize` | src/packet.rs:54-60 | the in-place fill loop leaves the object in exactly the state `Packets.Resize` describes, on the same array |
| `PacketBuffers.PacketBuffer.Extend` | src/packet.rs:66-70 | the in-place element-wise copy leaves the object in exactly the state `Packets.Extend` describes, on the same array |
| `PacketBuffers.PacketBuffer.Deref` | src/packet.rs:87-89 | the logical view read from the array is the one `Packets.Deref` describes |

## Left out

- The `BufferPool` trait and the generic `B: Deref<Target = [u8]> + DerefMut` plumbing: the buffer is a concrete byte sequence (or `array<u8>`), and the buffer a source's `acquire` returns is a parameter, since the allocator and its reuse policy are external.
- The convention that all buffers of a pool share one length of at most 32 KiB: it is a doc comment, never checked in code, so nothing in the model depends on it.
- Rust ownership, aliasing through `as_mut_slice`/`deref_mut`, and dropping: a write through a mutable view is modelled as replacing the whole view with new contents of the same length (`Packets.AsMutSlice`, `Packets.DerefMut`); the class has no mutable-view methods.
- The derived `Clone`, `Debug` and `Default` implementations.
- `usize` arithmetic: `len + other.len()` in `extend` cannot overflow because slice lengths stay below `isize::MAX`, so lengths are unbounded `nat`s.
- The panics of `resize` and `extend` abort the caller's thread; the model has no threads, so a panic is either an unmet precondition or the `Panicked` outcome of `Scripts.Step`.

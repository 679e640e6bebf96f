/** Sequences of packet operations, with the two capacity panics of the
    Rust `Packet` (`assert!` in `resize` and `extend`) modelled as an outcome
    instead of a precondition. This is where "a capacity violation aborts the
    call and is never silently clamped" is stated, and where the invariant
    and the fixed capacity are shown to survive any sequence of calls. */
module Scripts {
  import opened Packets

  /** One call on a packet. */
  datatype Op =
    | ClearOp
    | ResizeOp(n: nat, v: u8)
    | TruncateOp(n: nat)
    | ExtendOp(bytes: seq<u8>)

  /** Either every call returned, leaving `packet`, or the call at index
      `step` panicked. */
  datatype Outcome = Done(packet: Packet) | Panicked(step: nat)

  /** One call: a capacity violation panics (step 0), everything else
      returns the packet the operation in `Packets` computes. */
  function Step(p: Packet, op: Op): (r: Outcome)
    requires Valid(p)
    ensures r.Done? ==> Valid(r.packet) && Capacity(r.packet) == Capacity(p)
    ensures r.Panicked? ==> r.step == 0
    ensures op.ClearOp? || op.TruncateOp? ==> r.Done?
    ensures op.ResizeOp? ==> (r.Panicked? <==> Capacity(p) < op.n)
    ensures op.ResizeOp? && r.Done? ==> r.packet.len == op.n
    ensures op.ExtendOp? ==> (r.Panicked? <==> Capacity(p) < p.len + |op.bytes|)
    ensures op.ExtendOp? && r.Done? ==> Deref(r.packet) == Deref(p) + op.bytes
  {
    match op
    case ClearOp => Done(Clear(p))
    case ResizeOp(n, v) => if n <= Capacity(p) then Done(Resize(p, n, v)) else Panicked(0)
    case TruncateOp(n) => Done(Truncate(p, n))
    case ExtendOp(b) => if p.len + |b| <= Capacity(p) then Done(Extend(p, b)) else Panicked(0)
  }

  /** Run the calls in order, stopping at the first panic. */
  function Run(p: Packet, ops: seq<Op>): (r: Outcome)
    requires Valid(p)
    ensures r.Done? ==> Valid(r.packet) && Capacity(r.packet) == Capacity(p)
    ensures r.Panicked? ==> r.step < |ops|
    decreases |ops|
  {
    if ops == [] then Done(p)
    else
      match Step(p, ops[0])
      case Panicked(_) => Panicked(0)
      case Done(q) =>
        match Run(q, ops[1..])
        case Done(q') => Done(q')
        case Panicked(k) => Panicked(k + 1)
  }

  /** Running two scripts in turn is running their concatenation: the packet
      carries no hidden state between calls beyond its buffer and length. */
  lemma {:induction false} RunAppend(p: Packet, xs: seq<Op>, ys: seq<Op>)
    requires Valid(p)
    ensures Run(p, xs + ys) ==
      match Run(p, xs)
      case Panicked(k) => Panicked(k)
      case Done(q) =>
        match Run(q, ys)
        case Done(q') => Done(q')
        case Panicked(k) => Panicked(|xs| + k)
    decreases |xs|
  {
    if xs == [] {
      assert xs + ys == ys;
    } else {
      assert (xs + ys)[0] == xs[0];
      assert (xs + ys)[1..] == xs[1..] + ys;
      match Step(p, xs[0])
      case Panicked(_) =>
      case Done(q) =>
        RunAppend(q, xs[1..], ys);
    }
  }

  /** A reported panic is at the call whose capacity check failed: every call
      before it returned, and that call panics on the packet they left. */
  lemma {:induction false} RunPanicsAtFailingCall(p: Packet, ops: seq<Op>)
    requires Valid(p)
    ensures Run(p, ops).Panicked? ==>
      var k := Run(p, ops).step;
      Run(p, ops[..k]).Done? && Step(Run(p, ops[..k]).packet, ops[k]).Panicked?
    decreases |ops|
  {
    if ops != [] {
      match Step(p, ops[0])
      case Panicked(_) =>
        assert ops[..0] == [];
      case Done(q) =>
        RunPanicsAtFailingCall(q, ops[1..]);
        match Run(q, ops[1..])
        case Done(_) =>
        case Panicked(j) =>
          var pre := ops[..j + 1];
          assert pre[0] == ops[0];
          assert pre[1..] == ops[1..][..j];
          assert ops[j + 1] == ops[1..][j];
    }
  }

  /** A walk-through on an 8-byte buffer with arbitrary stale
      bytes: extend [1,2,3], resize to 6 with 9, truncate to 2, extend
      [4,4,4,4]. */
  lemma WorkedExample(buffer: seq<u8>)
    requires |buffer| == 8
    ensures
      var r := Run(Wrap(buffer), [ExtendOp([1, 2, 3]), ResizeOp(6, 9), TruncateOp(2), ExtendOp([4, 4, 4, 4])]);
      r.Done? && r.packet.len == 6 && Deref(r.packet) == [1, 2, 4, 4, 4, 4]
  {
  }

  /** The two violation scenarios on an 8-byte buffer: resizing to 9 and
      extending past the end both panic at the offending call instead of
      clamping. */
  lemma OverrunsPanic(buffer: seq<u8>)
    requires |buffer| == 8
    ensures Run(Wrap(buffer), [ResizeOp(9, 0)]) == Panicked(0)
    ensures Run(Wrap(buffer), [ExtendOp([1, 2, 3]), ExtendOp([0, 0, 0, 0, 0, 0])]) == Panicked(1)
  {
  }
}

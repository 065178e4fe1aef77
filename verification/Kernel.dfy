/** The kernel as the other end of the rings. Its moves are the environment assumptions:
    a descriptor taken from TX is completed with the same address; an address taken from
    fill is delivered on RX as a descriptor inside the same frame; only frames it took
    from fill are written; nothing else is created or destroyed. Both ends' ring accesses
    are sequentially consistent. */
module Kernel {
  import opened Words
  import opened Rings
  import opened RingObjects
  import opened Frames
  import opened Packet

  /** No frame occurs twice. */
  ghost predicate Distinct(frames: multiset<nat>) {
    forall f: nat :: frames[f] <= 1
  }

  /** The bytes a descriptor points at. */
  function Bytes(buffer: seq<u8>, d: XdpDesc): seq<u8>
    requires d.addr + d.len <= |buffer|
  {
    buffer[d.addr..d.addr + d.len]
  }

  /** A descriptor's range lies in one frame and holds the given packet. */
  ghost predicate Carries(buffer: seq<u8>, d: XdpDesc, frameSize: nat, packet: seq<u8>)
    requires frameSize > 0
  {
    && InFrame(d.addr, d.len, frameSize, |buffer|)
    && d.addr + d.len <= |buffer|
    && Bytes(buffer, d) == packet
  }

  /** Changing bytes of other frames does not disturb a descriptor's packet. */
  lemma CarriesKept(before: seq<u8>, after: seq<u8>, d: XdpDesc, frameSize: nat, packet: seq<u8>)
    requires frameSize > 0 && |before| == |after| && Carries(before, d, frameSize, packet)
    requires forall i: nat :: i < |before| && FrameOf(i, frameSize) == FrameOf(d.addr, frameSize) ==>
               after[i] == before[i]
    ensures Carries(after, d, frameSize, packet)
  {
    RangeInFrame(d.addr, d.len, frameSize, |before|);
    assert Bytes(after, d) == Bytes(before, d);
  }

  // ---------------------------------------------------------------- transmit side

  /** Everything on the transmit side that is not the free list: the TX ring, descriptors the
      kernel has taken (with their TX positions), and the completion ring. */
  datatype TxState = TxState(tx: Fifo<XdpDesc>, inflight: seq<XdpDesc>, positions: seq<nat>, done: Fifo<nat>)

  ghost predicate TxWellFormed(s: TxState) {
    && s.tx.read <= |s.tx.log|
    && s.done.read <= |s.done.log|
    && |s.positions| == |s.inflight|
    && forall k: nat :: k < |s.positions| ==> s.positions[k] < s.tx.read && s.inflight[k] == s.tx.log[s.positions[k]]
  }

  /** Frames on the transmit side, by place. */
  ghost function TxHeld(s: TxState, frameSize: nat): multiset<nat>
    requires frameSize > 0 && TxWellFormed(s)
  {
    DescPlace(s.tx.Pending(), frameSize) + DescPlace(s.inflight, frameSize) + AddrPlace(s.done.Pending(), frameSize)
  }

  /** TX positions whose packet the kernel may still look at. */
  ghost predicate TxLive(s: TxState, p: nat) {
    p < |s.tx.log| && (s.tx.read <= p || p in s.positions)
  }

  lemma LiveIsHeld(s: TxState, frameSize: nat, p: nat)
    requires frameSize > 0 && TxWellFormed(s) && TxLive(s, p)
    ensures FrameOf(s.tx.log[p].addr, frameSize) in TxHeld(s, frameSize)
  {
    if s.tx.read <= p {
      DescPlaceMember(s.tx.log[s.tx.read..], p - s.tx.read, frameSize);
    } else {
      var k: nat :| k < |s.positions| && s.positions[k] == p;
      DescPlaceMember(s.inflight, k, frameSize);
    }
  }

  /** What any amount of kernel activity may do to the transmit side. */
  ghost predicate TxEvolves(a: TxState, b: TxState, frameSize: nat)
    requires frameSize > 0 && TxWellFormed(a) && TxWellFormed(b)
  {
    && b.tx.log == a.tx.log && b.tx.head == a.tx.head && b.tx.seenTail == a.tx.seenTail
    && a.tx.tail <= b.tx.tail && a.tx.read <= b.tx.read
    && a.done.log <= b.done.log && a.done.head <= b.done.head
    && b.done.read == a.done.read && b.done.tail == a.done.tail && b.done.seenHead == a.done.seenHead
    && TxHeld(b, frameSize) == TxHeld(a, frameSize)
    && forall p: nat :: TxLive(b, p) ==> TxLive(a, p)
  }

  lemma TakeEvolves(a: TxState, frameSize: nat)
    requires frameSize > 0 && TxWellFormed(a) && a.tx.read < |a.tx.log|
    ensures var b := a.(tx := a.tx.Take(), inflight := a.inflight + [a.tx.log[a.tx.read]],
                        positions := a.positions + [a.tx.read]);
            TxWellFormed(b) && TxEvolves(a, b, frameSize)
  {
    hide FrameOf, AddrPlace, DescPlace;
    var d := a.tx.log[a.tx.read];
    DescPlaceTake(a.tx.log, a.tx.read, frameSize);
    DescPlaceAppend(a.inflight, [d], frameSize);
    DescPlaceOne(d, frameSize);
  }

  lemma CompleteEvolves(a: TxState, k: nat, frameSize: nat)
    requires frameSize > 0 && TxWellFormed(a) && k < |a.inflight|
    ensures var b := a.(inflight := Without(a.inflight, k), positions := Without(a.positions, k),
                        done := a.done.Push(a.inflight[k].addr));
            TxWellFormed(b) && TxEvolves(a, b, frameSize)
  {
    hide FrameOf, AddrPlace, DescPlace;
    DescPlaceRemove(a.inflight, k, frameSize);
    AddrPlacePush(a.done.log, a.done.read, a.inflight[k].addr, frameSize);
  }

  class TxKernel {
    const tx: RxRing
    const done: RxFillRing
    const frameSize: nat
    const cooperative: bool
    var inflight: seq<XdpDesc>
    ghost var positions: seq<nat>

    /** A cooperative kernel ends its activity by transmitting all it can see. */
    constructor (tx: RxRing, done: RxFillRing, frameSize: nat, cooperative: bool)
      requires tx.Valid() && done.Valid() && frameSize > 0
      ensures Valid() && this.tx == tx && this.done == done && this.frameSize == frameSize && inflight == []
      ensures this.cooperative == cooperative
    {
      this.tx, this.done, this.frameSize, this.cooperative := tx, done, frameSize, cooperative;
      inflight, positions := [], [];
    }

    ghost function State(): TxState
      reads this, tx.mmap, done.mmap
    {
      TxState(tx.mmap.fifo, inflight, positions, done.mmap.fifo)
    }

    ghost predicate Valid()
      reads this, tx.consumer, tx.mmap, tx.mmap.desc, done.producer, done.mmap, done.mmap.desc
    {
      frameSize > 0 && tx.Valid() && done.Valid() && TxWellFormed(State())
    }

    /** Moves the next visible TX descriptor into the kernel. */
    method Take()
      requires Valid()
      modifies this, tx.consumer, tx.mmap
      ensures Valid() && TxEvolves(old(State()), State(), frameSize)
      ensures var f := old(tx.mmap.fifo); tx.mmap.fifo == if f.read < f.seenHead then f.Take() else f
      ensures done.mmap.fifo == old(done.mmap.fifo)
    {
      hide SharedRel, ProducerRel, ConsumerRel, AddrPlace, DescPlace;
      SharedOrdered(tx.mmap.View(), tx.mmap.fifo);
      ghost var s := State();
      var d := tx.Read();
      if d.Some? {
        positions := positions + [s.tx.read];
        inflight := inflight + [d.value];
        TakeEvolves(s, frameSize);
      }
    }

    /** Posts a completion for a descriptor it holds, in any order, if there is room. */
    method Complete(k: nat)
      requires Valid() && k < |inflight|
      modifies this, done.producer, done.mmap, done.mmap.desc
      ensures Valid() && TxEvolves(old(State()), State(), frameSize)
      ensures tx.mmap.fifo == old(tx.mmap.fifo)
      ensures var f := old(done.mmap.fifo);
              if f.Room(done.size) > 0
              then done.mmap.fifo == f.Push(old(inflight[k]).addr) && |inflight| + 1 == |old(inflight)|
              else done.mmap.fifo == f && inflight == old(inflight)
    {
      hide SharedRel, ProducerRel, ConsumerRel, AddrPlace, DescPlace;
      ghost var s := State();
      var d := inflight[k];
      var ok := done.Write(Frame(d.addr, 0));
      if ok {
        inflight := Without(inflight, k);
        positions := Without(positions, k);
        CompleteEvolves(s, k, frameSize);
      }
    }

    method Step()
      requires Valid()
      modifies this, tx.consumer, tx.mmap, done.producer, done.mmap, done.mmap.desc
      ensures Valid() && TxEvolves(old(State()), State(), frameSize)
    {
      hide SharedRel, ProducerRel, ConsumerRel, AddrPlace, DescPlace, Carries;
      SharedOrdered(tx.mmap.View(), tx.mmap.fifo);
      SharedOrdered(done.mmap.View(), done.mmap.fifo);
      var choice: nat := *;
      match choice
      case 0 => tx.Sync(false);
      case 1 => tx.Commit();
      case 2 => done.Sync(false);
      case 3 => done.Commit();
      case 4 => Take();
      case _ =>
        var k: nat := *;
        if k < |inflight| {
          Complete(k);
        }
    }

    /** Takes every published descriptor and releases its slot. */
    method TakeAll()
      requires Valid()
      modifies this, tx.consumer, tx.mmap
      ensures Valid() && TxEvolves(old(State()), State(), frameSize)
      ensures tx.mmap.fifo.read == tx.mmap.fifo.tail == tx.mmap.fifo.head && done.mmap.fifo == old(done.mmap.fifo)
    {
      hide SharedRel, ProducerRel, ConsumerRel, AddrPlace, DescPlace, Carries;
      SharedOrdered(tx.mmap.View(), tx.mmap.fifo);
      tx.Sync(false);
      ghost var head := tx.mmap.fifo.head;
      while !(tx.consumer.Available() == 0)
        invariant Valid() && TxEvolves(old(State()), State(), frameSize)
        invariant tx.mmap.fifo.head == tx.mmap.fifo.seenHead == head && tx.mmap.fifo.read <= head
        invariant done.mmap.fifo == old(done.mmap.fifo)
        decreases head - tx.mmap.fifo.read
      {
        Take();
      }
      SharedOrdered(tx.mmap.View(), tx.mmap.fifo);
      tx.Commit();
    }

    /** Posts a completion for everything it holds, as far as the completion ring goes. */
    method CompleteAll()
      requires Valid()
      modifies this, done.producer, done.mmap, done.mmap.desc
      ensures Valid() && TxEvolves(old(State()), State(), frameSize)
      ensures tx.mmap.fifo == old(tx.mmap.fifo) && done.mmap.fifo.head == |done.mmap.fifo.log|
      ensures inflight == [] || |done.mmap.fifo.log| == done.mmap.fifo.tail + done.size
    {
      hide SharedRel, ProducerRel, ConsumerRel, AddrPlace, DescPlace, Carries;
      SharedOrdered(done.mmap.View(), done.mmap.fifo);
      done.Sync(false);
      while |inflight| > 0 && done.Available() > 0
        invariant Valid() && TxEvolves(old(State()), State(), frameSize)
        invariant tx.mmap.fifo == old(tx.mmap.fifo)
        invariant done.mmap.fifo.seenTail == done.mmap.fifo.tail
        decreases |inflight|
      {
        Complete(0);
      }
      SharedOrdered(done.mmap.View(), done.mmap.fifo);
      done.Commit();
    }

    /** Nothing published is untaken, and whatever it still holds waits for a completion slot. */
    ghost predicate CaughtUp()
      reads this, tx.mmap, done.mmap
    {
      && tx.mmap.fifo.read == tx.mmap.fifo.tail == tx.mmap.fifo.head
      && done.mmap.fifo.head == |done.mmap.fifo.log|
      && (inflight == [] || |done.mmap.fifo.log| == done.mmap.fifo.tail + done.size)
    }

    /** Any finite number of kernel moves; a cooperative kernel then catches up. */
    method Run()
      requires Valid()
      modifies this, tx.consumer, tx.mmap, done.producer, done.mmap, done.mmap.desc
      ensures Valid() && TxEvolves(old(State()), State(), frameSize)
      ensures cooperative ==> CaughtUp()
    {
      hide SharedRel, ProducerRel, ConsumerRel, AddrPlace, DescPlace, Carries;
      var moves: nat := *;
      while moves > 0
        invariant Valid() && TxEvolves(old(State()), State(), frameSize)
      {
        Step();
        moves := moves - 1;
      }
      if cooperative {
        TakeAll();
        CompleteAll();
      }
    }
  }

  // ---------------------------------------------------------------- receive side

  /** The receive side: the fill ring, addresses the kernel has taken, and the RX ring with
      the packet delivered at each of its positions. */
  datatype RxState = RxState(fill: Fifo<nat>, inflight: seq<nat>, rx: Fifo<XdpDesc>, received: seq<seq<u8>>)

  ghost predicate RxWellFormed(s: RxState) {
    && s.fill.read <= |s.fill.log|
    && s.rx.read <= |s.rx.log|
    && |s.received| == |s.rx.log|
  }

  /** Frames the kernel may write into. */
  ghost function Fillable(s: RxState, frameSize: nat): multiset<nat>
    requires frameSize > 0 && RxWellFormed(s)
  {
    AddrPlace(s.fill.Pending(), frameSize) + AddrPlace(s.inflight, frameSize)
  }

  ghost function RxHeld(s: RxState, frameSize: nat): multiset<nat>
    requires frameSize > 0 && RxWellFormed(s)
  {
    Fillable(s, frameSize) + DescPlace(s.rx.Pending(), frameSize)
  }

  /** Every unread RX descriptor still carries the packet delivered there. */
  ghost predicate RxIntact(s: RxState, buffer: seq<u8>, frameSize: nat)
    requires frameSize > 0 && RxWellFormed(s)
  {
    forall p: nat :: s.rx.read <= p < |s.rx.log| ==> Carries(buffer, s.rx.log[p], frameSize, s.received[p])
  }

  ghost predicate RxEvolves(a: RxState, b: RxState, frameSize: nat)
    requires frameSize > 0 && RxWellFormed(a) && RxWellFormed(b)
  {
    && b.fill.log == a.fill.log && b.fill.head == a.fill.head && b.fill.seenTail == a.fill.seenTail
    && a.fill.tail <= b.fill.tail && a.fill.read <= b.fill.read
    && a.rx.log <= b.rx.log && a.received <= b.received && a.rx.head <= b.rx.head
    && b.rx.read == a.rx.read && b.rx.tail == a.rx.tail && b.rx.seenHead == a.rx.seenHead
    && RxHeld(b, frameSize) == RxHeld(a, frameSize)
    && Fillable(b, frameSize) <= Fillable(a, frameSize)
  }

  /** Bytes changed only in the given frames. */
  ghost predicate ChangedOnlyIn(before: seq<u8>, after: seq<u8>, frames: multiset<nat>, frameSize: nat)
    requires frameSize > 0
  {
    && |after| == |before|
    && forall i: nat :: i < |before| && FrameOf(i, frameSize) !in frames ==> after[i] == before[i]
  }

  lemma TakeFillEvolves(a: RxState, frameSize: nat)
    requires frameSize > 0 && RxWellFormed(a) && a.fill.read < |a.fill.log|
    ensures var b := a.(fill := a.fill.Take(), inflight := a.inflight + [a.fill.log[a.fill.read]]);
            RxWellFormed(b) && RxEvolves(a, b, frameSize)
  {
    hide FrameOf, AddrPlace, DescPlace;
    var addr := a.fill.log[a.fill.read];
    AddrPlaceTake(a.fill.log, a.fill.read, frameSize);
    AddrPlaceAppend(a.inflight, [addr], frameSize);
    AddrPlaceOne(addr, frameSize);
  }

  lemma DeliverEvolves(a: RxState, k: nat, d: XdpDesc, packet: seq<u8>, frameSize: nat)
    requires frameSize > 0 && RxWellFormed(a) && k < |a.inflight|
    requires FrameOf(d.addr, frameSize) == FrameOf(a.inflight[k], frameSize)
    ensures var b := a.(inflight := Without(a.inflight, k), rx := a.rx.Push(d), received := a.received + [packet]);
            RxWellFormed(b) && RxEvolves(a, b, frameSize)
  {
    hide FrameOf, AddrPlace, DescPlace;
    AddrPlaceRemove(a.inflight, k, frameSize);
    DescPlacePush(a.rx.log, a.rx.read, d, frameSize);
  }

  lemma DeliverIntact(a: RxState, k: nat, d: XdpDesc, packet: seq<u8>, buffer: seq<u8>, frameSize: nat)
    requires frameSize > 0 && RxWellFormed(a) && RxIntact(a, buffer, frameSize) && k < |a.inflight|
    requires Carries(buffer, d, frameSize, packet)
    ensures var b := a.(inflight := Without(a.inflight, k), rx := a.rx.Push(d), received := a.received + [packet]);
            RxWellFormed(b) && RxIntact(b, buffer, frameSize)
  {
  }

  /** Writing into a frame the kernel holds leaves every unread packet as it was. */
  lemma IntactUnderWrites(s: RxState, before: seq<u8>, after: seq<u8>, frameSize: nat)
    requires frameSize > 0 && RxWellFormed(s) && RxIntact(s, before, frameSize)
    requires Distinct(RxHeld(s, frameSize))
    requires ChangedOnlyIn(before, after, Fillable(s, frameSize), frameSize)
    ensures RxIntact(s, after, frameSize)
  {
    forall p: nat | s.rx.read <= p < |s.rx.log|
      ensures Carries(after, s.rx.log[p], frameSize, s.received[p])
    {
      var d := s.rx.log[p];
      DescPlaceMember(s.rx.Pending(), p - s.rx.read, frameSize);
      assert RxHeld(s, frameSize)[FrameOf(d.addr, frameSize)] <= 1;
      CarriesKept(before, after, d, frameSize, s.received[p]);
    }
  }

  lemma SpliceInFrame(was: seq<u8>, addr: nat, packet: seq<u8>, frames: multiset<nat>, frameSize: nat)
    requires frameSize > 0 && InFrame(addr, |packet|, frameSize, |was|) && |packet| < U32_SPAN
    requires FrameOf(addr, frameSize) in frames
    ensures addr + |packet| <= |was|
    ensures ChangedOnlyIn(was, Splice(was, addr, packet), frames, frameSize)
    ensures Carries(Splice(was, addr, packet), XdpDesc(addr, |packet|, 0), frameSize, packet)
  {
    RangeInFrame(addr, |packet|, frameSize, |was|);
    SpliceRange(was, addr, packet);
  }

  class RxKernel {
    const fill: TxCompletionRing
    const rx: TxRing
    const buffer: array<u8>
    const frameSize: nat
    var inflight: seq<nat>
    ghost var received: seq<seq<u8>>

    constructor (fill: TxCompletionRing, rx: TxRing, buffer: array<u8>, frameSize: nat)
      requires fill.Valid() && rx.Valid() && frameSize > 0
      requires rx.mmap.fifo.read == |rx.mmap.fifo.log|
      ensures Valid() && this.fill == fill && this.rx == rx && this.buffer == buffer && this.frameSize == frameSize
      ensures inflight == []
    {
      this.fill, this.rx, this.buffer, this.frameSize := fill, rx, buffer, frameSize;
      inflight, received := [], seq(|rx.mmap.fifo.log|, _ => []);
    }

    ghost function State(): RxState
      reads this, fill.mmap, rx.mmap
    {
      RxState(fill.mmap.fifo, inflight, rx.mmap.fifo, received)
    }

    ghost predicate Valid()
      reads this, fill.consumer, fill.mmap, fill.mmap.desc, rx.producer, rx.mmap, rx.mmap.desc, buffer
    {
      && frameSize > 0 && fill.Valid() && rx.Valid()
      && RxWellFormed(State()) && RxIntact(State(), buffer[..], frameSize)
    }

    method Take()
      requires Valid()
      modifies this, fill.consumer, fill.mmap
      ensures Valid() && RxEvolves(old(State()), State(), frameSize)
    {
      hide SharedRel, ProducerRel, ConsumerRel, AddrPlace, DescPlace;
      SharedOrdered(fill.mmap.View(), fill.mmap.fifo);
      ghost var s := State();
      var addr := fill.Read();
      if addr.Some? {
        inflight := inflight + [addr.value];
        TakeFillEvolves(s, frameSize);
      }
    }

    /** Puts a packet somewhere inside a frame it holds. */
    method Store(k: nat, addr: nat, packet: seq<u8>)
      requires Valid() && Distinct(RxHeld(State(), frameSize)) && k < |inflight|
      requires FrameOf(addr, frameSize) == FrameOf(inflight[k], frameSize)
      requires InFrame(addr, |packet|, frameSize, buffer.Length) && |packet| < U32_SPAN
      modifies buffer
      ensures Valid() && State() == old(State())
      ensures ChangedOnlyIn(old(buffer[..]), buffer[..], Fillable(State(), frameSize), frameSize)
      ensures Carries(buffer[..], XdpDesc(addr, |packet|, 0), frameSize, packet)
    {
      hide SharedRel, ProducerRel, ConsumerRel, AddrPlace, DescPlace, Carries, RxHeld;
      ghost var was := buffer[..];
      RangeInFrame(addr, |packet|, frameSize, buffer.Length);
      CopyInto(buffer, addr, packet);
      AddrPlaceMember(inflight, k, frameSize);
      SpliceInFrame(was, addr, packet, Fillable(State(), frameSize), frameSize);
      IntactUnderWrites(State(), was, buffer[..], frameSize);
    }

    /** Delivers a packet in a frame it holds, if the RX ring has room. */
    method Deliver(k: nat, addr: nat, packet: seq<u8>)
      requires Valid() && Distinct(RxHeld(State(), frameSize)) && k < |inflight|
      requires FrameOf(addr, frameSize) == FrameOf(inflight[k], frameSize)
      requires InFrame(addr, |packet|, frameSize, buffer.Length) && |packet| < U32_SPAN
      modifies this, rx.producer, rx.mmap, rx.mmap.desc, buffer
      ensures Valid() && RxEvolves(old(State()), State(), frameSize)
      ensures ChangedOnlyIn(old(buffer[..]), buffer[..], old(Fillable(State(), frameSize)), frameSize)
    {
      hide SharedRel, ProducerRel, ConsumerRel, RxIntact, RxHeld, Fillable, Carries, InFrame, ChangedOnlyIn, Distinct;
      ghost var s := State();
      Store(k, addr, packet);
      ghost var bytes := buffer[..];
      ghost var d := XdpDesc(addr, |packet|, 0);
      DeliverEvolves(s, k, d, packet, frameSize);
      DeliverIntact(s, k, d, packet, bytes, frameSize);
      assert |packet| % U32_SPAN == |packet|;
      var ok := rx.Write(Frame(addr, |packet|), 0);
      assert buffer[..] == bytes;
      if ok {
        inflight := Without(inflight, k);
        received := received + [packet];
        assert State() == s.(inflight := inflight, rx := s.rx.Push(d), received := received);
      } else {
        assert State() == s;
      }
    }

    method Step()
      requires Valid() && Distinct(RxHeld(State(), frameSize))
      modifies this, fill.consumer, fill.mmap, rx.producer, rx.mmap, rx.mmap.desc, buffer
      ensures Valid() && RxEvolves(old(State()), State(), frameSize)
      ensures ChangedOnlyIn(old(buffer[..]), buffer[..], old(Fillable(State(), frameSize)), frameSize)
    {
      hide SharedRel, ProducerRel, ConsumerRel, AddrPlace, DescPlace, Carries;
      SharedOrdered(fill.mmap.View(), fill.mmap.fifo);
      SharedOrdered(rx.mmap.View(), rx.mmap.fifo);
      var choice: nat := *;
      match choice
      case 0 => fill.Sync(false);
      case 1 => fill.Commit();
      case 2 => rx.Sync(false);
      case 3 => rx.Commit();
      case 4 => Take();
      case _ =>
        var k: nat, addr: nat, packet: seq<u8> := *, *, *;
        if && k < |inflight| && |packet| < U32_SPAN
           && FrameOf(addr, frameSize) == FrameOf(inflight[k], frameSize)
           && InFrame(addr, |packet|, frameSize, buffer.Length) {
          Deliver(k, addr, packet);
        }
    }

    method Run()
      requires Valid() && Distinct(RxHeld(State(), frameSize))
      modifies this, fill.consumer, fill.mmap, rx.producer, rx.mmap, rx.mmap.desc, buffer
      ensures Valid() && RxEvolves(old(State()), State(), frameSize)
      ensures ChangedOnlyIn(old(buffer[..]), buffer[..], old(Fillable(State(), frameSize)), frameSize)
    {
      hide SharedRel, ProducerRel, ConsumerRel, AddrPlace, DescPlace, Carries;
      var moves: nat := *;
      while moves > 0
        invariant Valid() && RxEvolves(old(State()), State(), frameSize)
        invariant ChangedOnlyIn(old(buffer[..]), buffer[..], old(Fillable(State(), frameSize)), frameSize)
      {
        Step();
        moves := moves - 1;
      }
    }
  }
}

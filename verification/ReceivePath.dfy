/** The receive side as the loops use it: UMEM free list, fill ring and RX ring, with the
    kernel at the other end. Shared by the receive loop and the relay loop. */
module ReceivePath {
  import opened Words
  import opened Rings
  import opened RingObjects
  import opened Frames
  import opened Umem
  import opened Packet
  import opened Kernel
  import opened RelayModel

  /** Everything outside the receive side that the conservation law speaks about. */
  datatype Rest = Rest(tx: TxState, lost: multiset<nat>, pool: multiset<nat>, wire: seq<seq<u8>>)

  class RxPath {
    const umem: SliceUmem
    const fill: RxFillRing
    const rx: RxRing
    const kernel: RxKernel
    ghost const objects: set<object>

    /** Over a new or prepopulated socket. */
    constructor (umem: SliceUmem, fill: RxFillRing, rx: RxRing, kernel: RxKernel)
      requires kernel.frameSize == umem.frameSize && kernel.buffer == umem.buffer
      requires kernel.fill.mmap == fill.mmap && kernel.rx.mmap == rx.mmap
      ensures this.umem == umem && this.fill == fill && this.rx == rx && this.kernel == kernel && Wired()
    {
      this.umem, this.fill, this.rx, this.kernel := umem, fill, rx, kernel;
      objects := {kernel, kernel.fill.consumer, kernel.rx.producer, umem, umem.buffer, fill.producer, fill.mmap,
                  fill.mmap.desc, rx.consumer, rx.mmap, rx.mmap.desc};
    }

    ghost predicate Wired() {
      && kernel.frameSize == umem.frameSize && kernel.buffer == umem.buffer
      && kernel.fill.mmap == fill.mmap && kernel.rx.mmap == rx.mmap
      && objects == {kernel, kernel.fill.consumer, kernel.rx.producer, umem, umem.buffer, fill.producer, fill.mmap,
                     fill.mmap.desc, rx.consumer, rx.mmap, rx.mmap.desc}
    }

    ghost predicate Consistent()
      reads objects
    {
      Wired() && umem.Valid() && fill.Valid() && rx.Valid() && kernel.Valid()
    }

    ghost predicate Accounted(hand: Hand, rest: Rest)
      reads objects
    {
      Wired() && RelayInv(umem.availableFrames, hand, kernel.State(), rest.tx, rest.lost, rest.pool, rest.wire,
                          umem.buffer[..], umem.frameSize)
    }

    /** The path is sound, and with the rest of the world every frame is accounted for. */
    ghost predicate Inv(hand: Hand, rest: Rest)
      reads objects
    {
      Consistent() && Accounted(hand, rest)
    }

    /** Nothing has been received yet, and the pool's frames are free or in the fill ring. */
    ghost predicate Ready(pool: multiset<nat>)
      reads objects
    {
      && Consistent()
      && kernel.inflight == [] && rx.mmap.fifo.read == |rx.mmap.fifo.log|
      && pool == multiset(umem.availableFrames) + AddrPlace(fill.mmap.fifo.Pending(), umem.frameSize)
      && Distinct(pool) && forall f: nat :: f in pool ==> f < umem.buffer.Length / umem.frameSize
    }

    /** Then, with an idle transmit side, every frame is accounted for. */
    lemma ReadyIsAccounted(rest: Rest)
      requires Ready(rest.pool) && rest.lost == multiset{}
      requires TxWellFormed(rest.tx) && |rest.wire| == |rest.tx.tx.log|
      requires rest.tx.tx.read == |rest.tx.tx.log| && rest.tx.inflight == [] && rest.tx.done.read == |rest.tx.done.log|
      ensures Inv(Nothing, rest)
    {
      hide SharedRel, ProducerRel, ConsumerRel, RelayInv, RxIntact, AddrPlace;
      InvInitial(umem.availableFrames, kernel.State(), rest.tx, rest.pool, rest.wire, umem.buffer[..], umem.frameSize);
    }

    ghost function Rx(): Fifo<XdpDesc>
      reads rx.mmap
    {
      rx.mmap.fifo
    }

    ghost function Fill(): Fifo<nat>
      reads fill.mmap
    {
      fill.mmap.fifo
    }

    lemma Ordered()
      requires Consistent()
      ensures Rx().Ordered(rx.size) && Fill().Ordered(fill.size)
    {
      SharedOrdered(rx.mmap.View(), rx.mmap.fifo);
      SharedOrdered(fill.mmap.View(), fill.mmap.fifo);
    }

    method KernelActs(ghost hand: Hand, ghost rest: Rest)
      requires Inv(hand, rest)
      modifies objects
      ensures Inv(hand, rest)
      ensures umem.availableFrames == old(umem.availableFrames)
      ensures Rx() == old(Rx()).(log := Rx().log, head := Rx().head, seenTail := Rx().seenTail)
      ensures old(kernel.received) <= kernel.received && old(Rx().log) <= Rx().log
      ensures Fill() == old(Fill()).(tail := Fill().tail, read := Fill().read, seenHead := Fill().seenHead)
      ensures old(Fill().tail) <= Fill().tail && old(Rx().head) <= Rx().head
    {
      hide SharedRel, ProducerRel, ConsumerRel, RelayInv, RxWellFormed, RxIntact, RxHeld;
      hide Fillable, ChangedOnlyIn, Distinct;
      ghost var s, before := kernel.State(), umem.buffer[..];
      ReceiveSideDistinct(umem.availableFrames, hand, s, rest.tx, rest.lost, rest.pool, rest.wire, before,
                          umem.frameSize);
      kernel.Run();
      ghost var s' := kernel.State();
      InvRxKernel(umem.availableFrames, hand, s, s', rest.tx, rest.lost, rest.pool, rest.wire, before, umem.buffer[..],
                  umem.frameSize);
      ProducerKept(End(fill.producer.cachedProducer, fill.producer.cachedConsumer), s.fill, s'.fill);
      ConsumerKept(End(rx.consumer.cachedProducer, rx.consumer.cachedConsumer), s.rx, s'.rx);
    }

    method SyncRx(ghost hand: Hand, ghost rest: Rest)
      requires Inv(hand, rest)
      modifies objects
      ensures Inv(hand, rest)
      ensures umem.availableFrames == old(umem.availableFrames) && kernel.received == old(kernel.received)
      ensures Rx() == old(Rx()).SeeHead() && Fill() == old(Fill())
    {
      hide SharedRel, ProducerRel, ConsumerRel, RelayInv, RxWellFormed, RxIntact;
      ghost var s := kernel.State();
      rx.Sync(false);
      ghost var s' := kernel.State();
      InvRxCursors(umem.availableFrames, hand, s, s', rest.tx, rest.lost, rest.pool, rest.wire, umem.buffer[..],
                   umem.frameSize);
      IntactKept(s, s', umem.buffer[..], umem.frameSize);
      ProducerKept(End(kernel.rx.producer.cachedProducer, kernel.rx.producer.cachedConsumer), s.rx, s'.rx);
    }

    method CommitRx(ghost hand: Hand, ghost rest: Rest)
      requires Inv(hand, rest)
      modifies objects
      ensures Inv(hand, rest)
      ensures umem.availableFrames == old(umem.availableFrames) && kernel.received == old(kernel.received)
      ensures Rx() == old(Rx()).Release() && Fill() == old(Fill())
    {
      hide SharedRel, ProducerRel, ConsumerRel, RelayInv, RxWellFormed, RxIntact;
      ghost var s := kernel.State();
      rx.Commit();
      ghost var s' := kernel.State();
      InvRxCursors(umem.availableFrames, hand, s, s', rest.tx, rest.lost, rest.pool, rest.wire, umem.buffer[..],
                   umem.frameSize);
      IntactKept(s, s', umem.buffer[..], umem.frameSize);
      ProducerKept(End(kernel.rx.producer.cachedProducer, kernel.rx.producer.cachedConsumer), s.rx, s'.rx);
    }

    method SyncFill(ghost hand: Hand, ghost rest: Rest)
      requires Inv(hand, rest)
      modifies objects
      ensures Inv(hand, rest)
      ensures umem.availableFrames == old(umem.availableFrames) && kernel.received == old(kernel.received)
      ensures Fill() == old(Fill()).SeeTail() && Rx() == old(Rx())
    {
      hide SharedRel, ProducerRel, ConsumerRel, RelayInv, RxWellFormed, RxIntact;
      ghost var s := kernel.State();
      fill.Sync(false);
      ghost var s' := kernel.State();
      InvRxCursors(umem.availableFrames, hand, s, s', rest.tx, rest.lost, rest.pool, rest.wire, umem.buffer[..],
                   umem.frameSize);
      IntactKept(s, s', umem.buffer[..], umem.frameSize);
      ConsumerKept(End(kernel.fill.consumer.cachedProducer, kernel.fill.consumer.cachedConsumer), s.fill, s'.fill);
    }

    method CommitFill(ghost hand: Hand, ghost rest: Rest)
      requires Inv(hand, rest)
      modifies objects
      ensures Inv(hand, rest)
      ensures umem.availableFrames == old(umem.availableFrames) && kernel.received == old(kernel.received)
      ensures Fill() == old(Fill()).Publish() && Rx() == old(Rx())
    {
      hide SharedRel, ProducerRel, ConsumerRel, RelayInv, RxWellFormed, RxIntact;
      ghost var s := kernel.State();
      fill.Commit();
      ghost var s' := kernel.State();
      InvRxCursors(umem.availableFrames, hand, s, s', rest.tx, rest.lost, rest.pool, rest.wire, umem.buffer[..],
                   umem.frameSize);
      IntactKept(s, s', umem.buffer[..], umem.frameSize);
      ConsumerKept(End(kernel.fill.consumer.cachedProducer, kernel.fill.consumer.cachedConsumer), s.fill, s'.fill);
    }

    /** Takes a free frame in hand, if there is one. */
    method Reserve(ghost rest: Rest) returns (frame: Option<Frame>)
      requires Inv(Nothing, rest)
      modifies objects
      ensures umem.frameSize > 0
      ensures Inv(if frame.Some? then Bare(FrameOf(frame.value.offset, umem.frameSize)) else Nothing, rest)
      ensures frame.None? <==> old(umem.availableFrames) == []
      ensures frame.Some? ==> |umem.availableFrames| + 1 == |old(umem.availableFrames)|
      ensures frame.None? ==> umem.availableFrames == []
      ensures Rx() == old(Rx()) && Fill() == old(Fill()) && kernel.received == old(kernel.received)
    {
      hide SharedRel, ProducerRel, ConsumerRel, RelayInv, RxWellFormed, RxIntact;
      ghost var free := umem.availableFrames;
      frame := umem.Reserve();
      if frame.Some? {
        InvReserve(free, umem.availableFrames, FrameOf(frame.value.offset, umem.frameSize), kernel.State(), rest.tx,
                   rest.lost, rest.pool, rest.wire, umem.buffer[..], umem.frameSize);
      }
    }

    /** Puts the frame in hand back on the free list. */
    method Release(ghost hand: Hand, ghost rest: Rest, offset: nat)
      requires umem.frameSize > 0 && Inv(hand, rest)
      requires HandFrames(hand, umem.frameSize) == multiset{FrameOf(offset, umem.frameSize)}
      modifies objects
      ensures Inv(Nothing, rest)
      ensures umem.availableFrames == old(umem.availableFrames) + [FrameOf(offset, umem.frameSize)]
      ensures Rx() == old(Rx()) && Fill() == old(Fill()) && kernel.received == old(kernel.received)
    {
      hide SharedRel, ProducerRel, ConsumerRel, RelayInv, RxWellFormed, RxIntact;
      InvRelease(umem.availableFrames, hand, kernel.State(), rest.tx, rest.lost, rest.pool, rest.wire, umem.buffer[..],
                 umem.frameSize, offset);
      umem.Release(offset);
    }

    /** Offers the frame in hand to the kernel; it stays in hand when the fill ring is full. */
    method Offer(ghost hand: Hand, ghost rest: Rest, offset: nat) returns (ok: bool)
      requires umem.frameSize > 0 && Inv(hand, rest)
      requires HandFrames(hand, umem.frameSize) == multiset{FrameOf(offset, umem.frameSize)}
      modifies objects
      ensures Inv(if ok then Nothing else hand, rest)
      ensures ok == (old(Fill()).Room(fill.size) > 0)
      ensures Fill() == if ok then old(Fill()).Push(offset) else old(Fill())
      ensures umem.availableFrames == old(umem.availableFrames)
      ensures Rx() == old(Rx()) && kernel.received == old(kernel.received)
    {
      hide SharedRel, ProducerRel, ConsumerRel, RelayInv, RxWellFormed, RxIntact;
      ghost var s := kernel.State();
      ok := fill.Write(Frame(offset, 0));
      if ok {
        ghost var s' := kernel.State();
        InvFill(umem.availableFrames, hand, s, rest.tx, rest.lost, rest.pool, rest.wire, umem.buffer[..],
                umem.frameSize, offset);
        IntactKept(s, s', umem.buffer[..], umem.frameSize);
        ConsumerKept(End(kernel.fill.consumer.cachedProducer, kernel.fill.consumer.cachedConsumer), s.fill, s'.fill);
      }
    }

    /** Takes the next received packet in hand. */
    method Receive(ghost rest: Rest) returns (desc: Option<XdpDesc>)
      requires Inv(Nothing, rest)
      modifies objects
      ensures umem.availableFrames == old(umem.availableFrames)
      ensures Fill() == old(Fill()) && kernel.received == old(kernel.received)
      ensures desc.Some? <==> old(Rx().read < Rx().seenHead)
      ensures desc.None? ==> Inv(Nothing, rest) && Rx() == old(Rx())
      ensures desc.Some? ==>
                && Rx() == old(Rx()).Take() && old(Rx().read) < |kernel.received|
                && umem.frameSize > 0 && old(Rx().read) < |Rx().log| && desc.value == Rx().log[old(Rx().read)]
                && Inv(Holding(desc.value, kernel.received[old(Rx().read)]), rest)
    {
      hide SharedRel, ProducerRel, ConsumerRel, RelayInv, RxIntact;
      ghost var s := kernel.State();
      SharedOrdered(rx.mmap.View(), rx.mmap.fifo);
      desc := rx.Read();
      if desc.Some? {
        ghost var s' := kernel.State();
        InvReceive(umem.availableFrames, s, rest.tx, rest.lost, rest.pool, rest.wire, umem.buffer[..], umem.frameSize);
        IntactKept(s, s', umem.buffer[..], umem.frameSize);
        ProducerKept(End(kernel.rx.producer.cachedProducer, kernel.rx.producer.cachedConsumer), s.rx, s'.rx);
      }
    }

    /** Rewrites the headers of the packet in hand, in place. */
    method Rewrite(d: XdpDesc, ghost packet: seq<u8>, ghost rest: Rest, route: Route)
      requires Inv(Holding(d, packet), rest) && d.len >= PACKET_HEADER_SIZE && |packet| == d.len
      modifies objects
      ensures Inv(Holding(d, Rewritten(route, packet)), rest)
      ensures umem.availableFrames == old(umem.availableFrames)
      ensures Rx() == old(Rx()) && Fill() == old(Fill()) && kernel.received == old(kernel.received)
    {
      hide SharedRel, ProducerRel, ConsumerRel, RxWellFormed, RxIntact, Headers, RxHeld, TxHeld, TxLive;
      ghost var before := umem.buffer[..];
      WriteHeaders(umem.buffer, d.addr, route, d.len - PACKET_HEADER_SIZE);
      RewriteInFrame(before, d, packet, route, umem.frameSize);
      InvRewrite(umem.availableFrames, d, packet, Rewritten(route, packet), kernel.State(), rest.tx, rest.lost,
                 rest.pool, rest.wire, before, umem.buffer[..], umem.frameSize);
    }

    /** A byte of the packet in hand. */
    lemma PacketInHand(d: XdpDesc, packet: seq<u8>, rest: Rest)
      requires Inv(Holding(d, packet), rest)
      ensures |packet| == d.len && d.addr + d.len <= umem.buffer.Length && umem.frameSize > 0
      ensures umem.buffer[..][d.addr..d.addr + d.len] == packet
    {
      hide Consistent, RxHeld, TxHeld, TxLive, AddrPlace, DescPlace, InFrame, Distinct;
    }

    /** The transmit side moved on its own. */
    lemma TxMoved(hand: Hand, rest: Rest, tx: TxState)
      requires Inv(hand, rest) && umem.frameSize > 0 && TxWellFormed(rest.tx) && TxWellFormed(tx)
      requires TxEvolves(rest.tx, tx, umem.frameSize)
      ensures Inv(hand, rest.(tx := tx))
    {
      hide SharedRel, ProducerRel, ConsumerRel, RelayInv;
      InvTxKernel(umem.availableFrames, hand, kernel.State(), rest.tx, tx, rest.lost, rest.pool, rest.wire,
                  umem.buffer[..], umem.frameSize);
    }

    lemma TxCursorsMoved(hand: Hand, rest: Rest, tx: TxState)
      requires Inv(hand, rest)
      requires tx.tx.log == rest.tx.tx.log && tx.tx.read == rest.tx.tx.read
      requires tx.done.log == rest.tx.done.log && tx.done.read == rest.tx.done.read
      requires tx.inflight == rest.tx.inflight && tx.positions == rest.tx.positions
      ensures Inv(hand, rest.(tx := tx))
    {
      hide SharedRel, ProducerRel, ConsumerRel, RelayInv;
      InvTxCursors(umem.availableFrames, hand, kernel.State(), rest.tx, tx, rest.lost, rest.pool, rest.wire,
                   umem.buffer[..], umem.frameSize);
    }

    /** The packet in hand was queued for transmission. */
    lemma Queued(d: XdpDesc, packet: seq<u8>, rest: Rest, queued: XdpDesc)
      requires Inv(Holding(d, packet), rest) && queued.addr == d.addr && queued.len == d.len
      ensures Inv(Nothing, rest.(tx := rest.tx.(tx := rest.tx.tx.Push(queued)), wire := rest.wire + [packet]))
    {
      hide SharedRel, ProducerRel, ConsumerRel, RelayInv;
      InvForward(umem.availableFrames, d, packet, kernel.State(), rest.tx, rest.lost, rest.pool, rest.wire,
                 umem.buffer[..], umem.frameSize, queued);
    }

    lemma Lose(frame: nat, rest: Rest)
      requires Inv(Bare(frame), rest)
      ensures Inv(Nothing, rest.(lost := rest.lost + multiset{frame}))
    {
      hide SharedRel, ProducerRel, ConsumerRel, RelayInv;
      InvLose(umem.availableFrames, frame, kernel.State(), rest.tx, rest.lost, rest.pool, rest.wire,
              umem.buffer[..], umem.frameSize);
    }

    /** Takes a completed frame, just read from the completion ring, back to the free list. */
    method Credit(ghost hand: Hand, ghost rest: Rest, offset: nat)
      requires Inv(hand, rest)
      requires rest.tx.done.read < |rest.tx.done.log| && offset == rest.tx.done.log[rest.tx.done.read]
      modifies objects
      ensures Inv(hand, rest.(tx := rest.tx.(done := rest.tx.done.Take())))
      ensures Rx() == old(Rx()) && Fill() == old(Fill()) && kernel.received == old(kernel.received)
    {
      hide SharedRel, ProducerRel, ConsumerRel, RelayInv, RxIntact;
      InvCompletion(umem.availableFrames, hand, kernel.State(), rest.tx, rest.lost, rest.pool, rest.wire,
                    umem.buffer[..], umem.frameSize);
      umem.Release(offset);
    }

    /** Gives the frame in hand back: to the kernel, or to the free list when the fill ring is full. */
    method Recycle(ghost hand: Hand, ghost rest: Rest, offset: nat)
      requires umem.frameSize > 0 && Inv(hand, rest)
      requires HandFrames(hand, umem.frameSize) == multiset{FrameOf(offset, umem.frameSize)}
      modifies objects
      ensures Inv(Nothing, rest)
      ensures Rx() == old(Rx()) && kernel.received == old(kernel.received)
      ensures if old(Fill()).Room(fill.size) > 0
              then Fill() == old(Fill()).Push(offset) && umem.availableFrames == old(umem.availableFrames)
              else && Fill() == old(Fill())
                   && umem.availableFrames == old(umem.availableFrames) + [FrameOf(offset, umem.frameSize)]
    {
      hide Consistent, Accounted;
      var ok := Offer(hand, rest, offset);
      if !ok {
        Release(hand, rest, offset);
      }
    }

    function Room(): (n: u32)
      requires Consistent()
      reads objects, fill.mmap
      ensures n == Fill().Room(fill.size)
    {
      fill.Available()
    }

    /** Fills the fill ring from the free list as far as both go. */
    method Refill(ghost rest: Rest)
      requires Inv(Nothing, rest)
      modifies objects
      ensures Inv(Nothing, rest)
      ensures Rx() == old(Rx()) && kernel.received == old(kernel.received)
      ensures Fill().Room(fill.size) <= 0 || umem.availableFrames == []
      ensures Fill() == old(Fill()).(log := Fill().log) && old(Fill().log) <= Fill().log
    {
      hide Consistent, Accounted;
      while Room() > 0
        invariant Inv(Nothing, rest)
        invariant Fill() == old(Fill()).(log := Fill().log) && old(Fill().log) <= Fill().log
        invariant Rx() == old(Rx()) && kernel.received == old(kernel.received)
        decreases |umem.availableFrames|
      {
        var frame := Reserve(rest);
        if frame.None? {
          break;
        }
        ghost var hand := Bare(FrameOf(frame.value.offset, umem.frameSize));
        // The write cannot fail with room in the ring, so the loops' fallback is dead code here.
        var ok := Offer(hand, rest, frame.value.offset);
        assert ok;
      }
    }
  }

  lemma RewriteInFrame(before: seq<u8>, d: XdpDesc, packet: seq<u8>, route: Route, frameSize: nat)
    requires frameSize > 0 && Carries(before, d, frameSize, packet) && |packet| >= PACKET_HEADER_SIZE
    ensures var after := Splice(before, d.addr, Headers(route, |packet| - PACKET_HEADER_SIZE));
            && ChangedOnlyIn(before, after, multiset{FrameOf(d.addr, frameSize)}, frameSize)
            && Carries(after, d, frameSize, Rewritten(route, packet))
  {
    var headers := Headers(route, |packet| - PACKET_HEADER_SIZE);
    hide Headers, FrameOf;
    RangeInFrame(d.addr, d.len, frameSize, |before|);
    SpliceRewrites(before, d.addr, d.len, headers);
    assert Bytes(Splice(before, d.addr, headers), d) == Rewritten(route, packet);
    hide Rewritten, Bytes;
  }

  lemma SpliceRewrites(before: seq<u8>, at: nat, len: nat, headers: seq<u8>)
    requires at + len <= |before| && |headers| <= len
    ensures Splice(before, at, headers)[at..at + len] == headers + before[at..at + len][|headers|..]
    ensures forall i: nat :: i < |before| && !(at <= i < at + len) ==> Splice(before, at, headers)[i] == before[i]
  {
  }

  /** Moves of the reader and of the fill ring's writer keep every unread packet intact. */
  lemma IntactKept(a: RxState, b: RxState, buffer: seq<u8>, frameSize: nat)
    requires frameSize > 0 && RxWellFormed(a) && RxIntact(a, buffer, frameSize)
    requires b.rx.log == a.rx.log && b.received == a.received
    requires b.rx.read == a.rx.read || (b.rx.read == a.rx.read + 1 && a.rx.read < |a.rx.log|)
    requires b.fill.read == a.fill.read && |a.fill.log| <= |b.fill.log|
    ensures RxWellFormed(b) && RxIntact(b, buffer, frameSize)
  {
  }
}

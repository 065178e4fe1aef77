/** The transmit loop: batching, waiting for space, building packets in UMEM frames, chunked
    commits and the final drain, interleaved with arbitrary kernel activity. */
module TxLoop {
  import opened Words
  import opened Rings
  import opened RingObjects
  import opened Frames
  import opened Umem
  import opened Packet
  import opened Kernel
  import opened TxModel
  import opened TxProgress

  /** How far a run got: to its end, until its poll budget ran out, or to a job that stops it. */
  datatype Progress = Done | OutOfPolls | Stopped(fate: Fate)

  /** Why the loop had to wait for space, and what was out with the kernel at that moment. */
  datatype Wait = Wait(ringFull: bool, published: int, noFrames: bool, framesOut: int)

  ghost predicate Justified(w: Wait) {
    (w.ringFull ==> w.published > 0) && (w.noFrames ==> w.framesOut > 0)
  }

  /** The loop's counters and the objects it works on. `fates` records what became of each
      address, `wire` the packet written at each TX position since `base`. */
  class TxSession {
    const config: Config
    const umem: SliceUmem
    const ring: TxRing
    const completion: TxCompletionRing
    const kernel: TxKernel
    var batchedPackets: nat
    var chunkRemaining: nat
    var polls: nat
    ghost var fates: seq<Fate>
    ghost const pool: multiset<nat>
    ghost const objects: set<object>
    ghost const base: nat
    ghost var wire: seq<seq<u8>>
    ghost var waitsJustified: bool

    /** A session over a new socket: every ring is empty and the kernel holds nothing. */
    constructor (config: Config, umem: SliceUmem, ring: TxRing, completion: TxCompletionRing, kernel: TxKernel,
                 polls: nat)
      requires umem.Valid() && ring.Valid() && completion.Valid() && kernel.Valid()
      requires kernel.frameSize == umem.frameSize == config.frameSize
      requires kernel.tx.mmap == ring.mmap && kernel.done.mmap == completion.mmap
      requires kernel.inflight == []
      requires ring.mmap.fifo.read == |ring.mmap.fifo.log|
      requires completion.mmap.fifo.read == |completion.mmap.fifo.log|
      requires Distinct(multiset(umem.availableFrames))
      requires forall f: nat :: f in umem.availableFrames ==> f < umem.capacity
      ensures this.config == config && this.umem == umem && this.ring == ring
      ensures this.completion == completion && this.kernel == kernel && this.polls == polls
      ensures batchedPackets == 0 && fates == [] && waitsJustified
      ensures pool == multiset(umem.availableFrames) && Uncommitted() == 0 && Inv(multiset{})
      ensures objects == KernelSide() + {umem, umem.buffer, ring.producer, ring.mmap, ring.mmap.desc,
                                         completion.consumer, completion.mmap, completion.mmap.desc}
    {
      this.config, this.umem, this.ring := config, umem, ring;
      this.completion, this.kernel, this.polls := completion, kernel, polls;
      batchedPackets, chunkRemaining, fates, waitsJustified := 0, 0, [], true;
      pool, base := multiset(umem.availableFrames), |ring.mmap.fifo.log|;
      objects := {kernel, kernel.tx.consumer, kernel.tx.mmap, kernel.done.producer, kernel.done.mmap,
                  kernel.done.mmap.desc, umem, umem.buffer, ring.producer, ring.mmap, ring.mmap.desc,
                  completion.consumer, completion.mmap, completion.mmap.desc};
      wire := seq(|ring.mmap.fifo.log|, _ => []);
      new;
      hide TxInv, SharedRel, ProducerRel, ConsumerRel;
      InvInitial(umem.availableFrames, kernel.State(), wire, umem.buffer[..], umem.frameSize);
    }

    /** What kernel activity may touch. */
    ghost function KernelSide(): set<object> {
      {kernel, kernel.tx.consumer, kernel.tx.mmap, kernel.done.producer, kernel.done.mmap, kernel.done.mmap.desc}
    }

    /** The kernel works on the same rings and frames; `objects` is everything below the session. */
    ghost predicate Wired() {
      && kernel.frameSize == umem.frameSize
      && kernel.tx.mmap == ring.mmap
      && kernel.done.mmap == completion.mmap
      && objects == KernelSide() + {umem, umem.buffer, ring.producer, ring.mmap, ring.mmap.desc,
                                    completion.consumer, completion.mmap, completion.mmap.desc}
    }

    ghost predicate Consistent()
      reads objects
    {
      Wired() && umem.Valid() && ring.Valid() && completion.Valid() && kernel.Valid()
    }

    /** Every frame of the pool is in exactly one place, every live descriptor intact. */
    ghost predicate Accounted(loose: multiset<nat>)
      reads this`wire, objects
    {
      Wired() && TxInv(umem.availableFrames, loose, kernel.State(), pool, wire, umem.buffer[..], umem.frameSize)
    }

    /** The packets written since the start are those of the sent fates, in order. */
    ghost predicate Recorded()
      reads this`wire, this`fates
    {
      base <= |wire| && wire[base..] == SentPackets(fates)
    }

    ghost predicate Inv(loose: multiset<nat>)
      reads this`wire, this`fates, objects
    {
      config.frameSize == umem.frameSize && this !in objects && Consistent() && Accounted(loose) && Recorded()
    }

    ghost function Tx(): Fifo<XdpDesc>
      reads ring.mmap
    {
      ring.mmap.fifo
    }

    ghost function Completed(): Fifo<nat>
      reads completion.mmap
    {
      completion.mmap.fifo
    }

    /** Completions posted and not yet taken back. */
    ghost function Backlog(): int
      reads completion.mmap
    {
      |Completed().log| - Completed().read
    }

    /** The kernel has taken all that was published, and what it still holds waits for room. */
    ghost predicate CaughtUp()
      reads ring.mmap, completion.mmap, kernel
    {
      && Tx().read == Tx().tail == Tx().head && Completed().head == |Completed().log|
      && (kernel.inflight == [] || |Completed().log| == Completed().tail + completion.size)
    }

    /** Slots and frames unpublished work can use up. */
    ghost function Limit(): nat {
      Min(ring.size, |pool|)
    }

    /** Descriptors written and not yet published. */
    ghost function Uncommitted(): int
      reads ring.mmap
    {
      |Tx().log| - Tx().head
    }

    ghost function Counters(): Tally
      reads this`fates, this`batchedPackets, this`chunkRemaining, ring.mmap
    {
      Tally(fates, batchedPackets, chunkRemaining, Uncommitted())
    }

    /** Any amount of kernel activity. */
    method KernelActs(ghost loose: multiset<nat>)
      requires Inv(loose)
      modifies objects
      ensures umem.availableFrames == old(umem.availableFrames)
      ensures Inv(loose)
      ensures Tx() == old(Tx()).(tail := Tx().tail, read := Tx().read, seenHead := Tx().seenHead)
      ensures var f := Completed();
              f == old(Completed()).(log := f.log, head := f.head, seenTail := f.seenTail)
      ensures old(Completed().log) <= Completed().log
      ensures kernel.cooperative ==> CaughtUp()
    {
      hide SharedRel, ProducerRel, ConsumerRel, TxInv, TxWellFormed;
      ghost var s := kernel.State();
      kernel.Run();
      ghost var s' := kernel.State();
      InvKernel(umem.availableFrames, loose, s, s', pool, wire, umem.buffer[..], umem.frameSize);
      ProducerKept(End(ring.producer.cachedProducer, ring.producer.cachedConsumer), s.tx, s'.tx);
      ConsumerKept(End(completion.consumer.cachedProducer, completion.consumer.cachedConsumer), s.done, s'.done);
    }

    /** The store and the load of a completion sync; the kernel may act between them. */
    method CommitCompletion(ghost loose: multiset<nat>)
      requires Inv(loose)
      modifies objects
      ensures Tx() == old(Tx()) && umem.availableFrames == old(umem.availableFrames)
      ensures Inv(loose) && kernel.inflight == old(kernel.inflight)
      ensures Completed() == old(Completed()).Release()
    {
      hide SharedRel, ProducerRel, ConsumerRel, TxInv, TxWellFormed;
      ghost var s := kernel.State();
      completion.Commit();
      ghost var s' := kernel.State();
      InvCursors(umem.availableFrames, loose, s, s', pool, wire, umem.buffer[..], umem.frameSize);
      ProducerKept(End(kernel.done.producer.cachedProducer, kernel.done.producer.cachedConsumer), s.done, s'.done);
    }

    method SyncCompletion(ghost loose: multiset<nat>)
      requires Inv(loose)
      modifies objects
      ensures Tx() == old(Tx()) && umem.availableFrames == old(umem.availableFrames)
      ensures Inv(loose) && kernel.inflight == old(kernel.inflight)
      ensures Completed() == old(Completed()).SeeHead()
    {
      hide SharedRel, ProducerRel, ConsumerRel, TxInv, TxWellFormed;
      ghost var s := kernel.State();
      completion.Sync(false);
      ghost var s' := kernel.State();
      InvCursors(umem.availableFrames, loose, s, s', pool, wire, umem.buffer[..], umem.frameSize);
      ProducerKept(End(kernel.done.producer.cachedProducer, kernel.done.producer.cachedConsumer), s.done, s'.done);
    }

    method SyncRing(ghost loose: multiset<nat>)
      requires Inv(loose)
      modifies objects
      ensures umem.availableFrames == old(umem.availableFrames)
      ensures Completed() == old(Completed())
      ensures Inv(loose) && kernel.inflight == old(kernel.inflight)
      ensures Tx() == old(Tx()).SeeTail()
    {
      hide SharedRel, ProducerRel, ConsumerRel, TxInv, TxWellFormed;
      ghost var s := kernel.State();
      ring.Sync(false);
      ghost var s' := kernel.State();
      InvCursors(umem.availableFrames, loose, s, s', pool, wire, umem.buffer[..], umem.frameSize);
      ConsumerKept(End(kernel.tx.consumer.cachedProducer, kernel.tx.consumer.cachedConsumer), s.tx, s'.tx);
    }

    method CommitRing(ghost loose: multiset<nat>)
      requires Inv(loose)
      modifies objects
      ensures umem.availableFrames == old(umem.availableFrames)
      ensures Inv(loose)
      ensures Tx() == old(Tx()).Publish()
    {
      hide SharedRel, ProducerRel, ConsumerRel, TxInv, TxWellFormed;
      ghost var s := kernel.State();
      ring.Commit();
      ghost var s' := kernel.State();
      InvCursors(umem.availableFrames, loose, s, s', pool, wire, umem.buffer[..], umem.frameSize);
      ConsumerKept(End(kernel.tx.consumer.cachedProducer, kernel.tx.consumer.cachedConsumer), s.tx, s'.tx);
    }

    /** Takes one visible completion back to the free list. */
    method TakeCompletion() returns (got: bool)
      requires Inv(multiset{})
      modifies objects
      ensures Tx() == old(Tx()) && kernel.inflight == old(kernel.inflight)
      ensures Inv(multiset{})
      ensures var f := old(Completed());
              if f.read < f.seenHead then got && Completed() == f.Take() else !got && Completed() == f
      ensures |umem.availableFrames| == |old(umem.availableFrames)| + (if got then 1 else 0)
    {
      hide SharedRel, ProducerRel, ConsumerRel, TxInv;
      ghost var s := kernel.State();
      ghost var free := umem.availableFrames;
      SharedOrdered(completion.mmap.View(), completion.mmap.fifo);
      var offset := completion.Read();
      if offset.None? {
        return false;
      }
      umem.Release(offset.value);
      ghost var s' := kernel.State();
      InvRelease(free, multiset{}, s, pool, wire, umem.buffer[..], umem.frameSize);
      ProducerKept(End(kernel.done.producer.cachedProducer, kernel.done.producer.cachedConsumer), s.done, s'.done);
      return true;
    }

    /** Returns every completion the consumer can see. */
    method ReleaseCompleted()
      requires Inv(multiset{})
      modifies objects
      ensures Tx() == old(Tx()) && kernel.inflight == old(kernel.inflight)
      ensures Inv(multiset{})
      ensures Completed() == old(Completed()).(read := Completed().read)
      ensures Completed().read >= Completed().seenHead && Completed().read >= old(Completed().read)
      ensures |umem.availableFrames| == |old(umem.availableFrames)| + Completed().read - old(Completed().read)
    {
      hide Consistent, Accounted, Recorded;
      var more := true;
      while more
        invariant Inv(multiset{}) && Tx() == old(Tx()) && kernel.inflight == old(kernel.inflight)
        invariant Completed() == old(Completed()).(read := Completed().read)
        invariant Completed().read >= old(Completed().read)
        invariant |umem.availableFrames| == |old(umem.availableFrames)| + Completed().read - old(Completed().read)
        invariant !more ==> Completed().read >= Completed().seenHead
        decreases more, Completed().seenHead - Completed().read
      {
        more := TakeCompletion();
      }
    }

    /** Every frame of the pool, counted by place; a reader is never ahead of a writer. */
    lemma FramesCounted()
      requires Inv(multiset{})
      ensures |pool| == |umem.availableFrames| + |Tx().log| - Tx().read + |kernel.inflight| + Backlog()
      ensures Tx().read <= Tx().head <= |Tx().log| && Completed().read <= Completed().seenHead <= |Completed().log|
      ensures 0 < completion.size
    {
      SharedOrdered(ring.mmap.View(), ring.mmap.fifo);
      SharedOrdered(completion.mmap.View(), completion.mmap.fifo);
      SizeBound(completion.size);
      HeldCount(kernel.State(), umem.frameSize);
      var free, held := multiset(umem.availableFrames), TxHeld(kernel.State(), umem.frameSize);
      assert pool == free + held;
      assert |pool| == |free| + |held|;
    }

    /** Room in the TX ring and a free frame, as the loop sees them. */
    function HasSpace(): (space: bool)
      requires Consistent()
      reads objects
      ensures space == (Tx().Room(ring.size) > 0 && |umem.availableFrames| > 0)
    {
      ring.Available() > 0 && umem.Available() > 0
    }

    /** Takes back what the kernel completed and refreshes the view of the TX ring. With a
        cooperative kernel only unpublished work keeps its slots, a waiting completion yields a
        frame, and without frames and completions everything is unpublished. */
    method Poll()
      requires Inv(multiset{})
      modifies objects
      ensures Inv(multiset{})
      ensures Tx().log == old(Tx().log) && Tx().head == old(Tx().head)
      ensures kernel.cooperative ==> Tx().Room(ring.size) == ring.size - Uncommitted()
      ensures kernel.cooperative && old(Backlog()) > 0 ==> |umem.availableFrames| > 0
      ensures kernel.cooperative && |umem.availableFrames| == 0 && Backlog() == 0 ==> Uncommitted() >= |pool|
      ensures 0 <= Backlog()
    {
      hide Consistent, Accounted, Recorded;
      FramesCounted();
      KernelActs(multiset{});
      CommitCompletion(multiset{});
      KernelActs(multiset{});
      SyncCompletion(multiset{});
      KernelActs(multiset{});
      SyncRing(multiset{});
      ReleaseCompleted();
      FramesCounted();
    }

    /** Polls until there is room in the ring and a free frame, or the poll budget is spent.
        It can only succeed if not every slot and not every frame is held by unpublished work;
        and then a cooperative kernel makes it succeed at the second poll at the latest. */
    method WaitForSpace() returns (space: bool)
      requires Inv(multiset{})
      modifies this`polls, objects
      ensures Inv(multiset{})
      ensures Tx().log == old(Tx().log) && Tx().head == old(Tx().head)
      ensures space ==> Tx().Room(ring.size) > 0 && |umem.availableFrames| > 0
      ensures space ==> old(Uncommitted()) < Limit()
      ensures kernel.cooperative && old(polls) >= 2 && old(Uncommitted()) < Limit() ==> space
      ensures kernel.cooperative && space ==> polls + 2 >= old(polls)
    {
      hide Consistent, Accounted, Recorded;
      space := false;
      ghost var n := 0;
      ghost var fits := kernel.cooperative && Uncommitted() < Limit();
      while polls > 0 && !space
        invariant Inv(multiset{}) && polls + n == old(polls)
        invariant Tx().log == old(Tx().log) && Tx().head == old(Tx().head)
        invariant space ==> Tx().Room(ring.size) > 0 && |umem.availableFrames| > 0
        invariant fits ==> n <= 2 && (n == 1 && !space ==> Backlog() > 0) && (n == 2 ==> space)
        decreases polls, !space
      {
        polls, n := polls - 1, n + 1;
        Poll();
        space := HasSpace();
      }
      SpaceBound();
    }

    /** Unpublished descriptors occupy ring slots and frames. */
    lemma SpaceBound()
      requires Inv(multiset{})
      ensures Tx().Room(ring.size) > 0 && |umem.availableFrames| > 0 ==> Uncommitted() < Limit()
      ensures |umem.availableFrames| + Uncommitted() <= |pool|
      ensures 0 <= Uncommitted() <= Limit()
    {
      SharedOrdered(ring.mmap.View(), ring.mmap.fifo);
      FramesCounted();
      SharedOrdered(completion.mmap.View(), completion.mmap.fifo);
    }

    method ReserveFrame() returns (frame: Frame)
      requires Inv(multiset{}) && |umem.availableFrames| > 0
      modifies objects
      ensures Tx() == old(Tx())
      ensures umem.frameSize > 0 && Inv(multiset{FrameOf(frame.offset, umem.frameSize)})
      ensures frame.offset % umem.frameSize == 0
    {
      hide SharedRel, ProducerRel, ConsumerRel;
      var f := umem.Reserve();
      frame := f.value;
    }

    method GiveBack(frame: Frame)
      requires umem.frameSize > 0 && Inv(multiset{FrameOf(frame.offset, umem.frameSize)})
      modifies objects
      ensures Tx() == old(Tx())
      ensures Inv(multiset{})
    {
      hide SharedRel, ProducerRel, ConsumerRel;
      umem.Release(frame.offset);
    }

    /** Queues a descriptor; the ring has room. */
    method Enqueue(frame: Frame)
      requires Consistent() && Tx().Room(ring.size) > 0
      modifies ring.producer, ring.mmap, ring.mmap.desc
      ensures Consistent()
      ensures Tx() == old(Tx()).Push(XdpDesc(frame.offset, frame.len % U32_SPAN, 0))
    {
      hide SharedRel, ProducerRel, ConsumerRel;
      ghost var f := Tx();
      var ok := ring.Write(frame, 0);
      assert ok;
      ConsumerKept(End(kernel.tx.consumer.cachedProducer, kernel.tx.consumer.cachedConsumer), f, Tx());
    }

    method Build(frame: Frame, r: Route, payload: seq<u8>)
      requires Consistent() && frame.offset + PACKET_HEADER_SIZE + |payload| <= umem.buffer.Length
      modifies umem.buffer
      ensures Consistent() && umem.buffer[..] == Splice(old(umem.buffer[..]), frame.offset, PacketBytes(r, payload))
    {
      hide SharedRel, ProducerRel, ConsumerRel, PacketBytes, Splice;
      WritePacket(umem.buffer, frame.offset, r, payload);
    }

    /** Builds a packet in a reserved frame and queues it; the ring has room. */
    method Transmit(frame: Frame, r: Route, payload: seq<u8>)
      requires umem.frameSize > 0 && Inv(multiset{FrameOf(frame.offset, umem.frameSize)})
      requires frame.offset % umem.frameSize == 0 && Tx().Room(ring.size) > 0
      requires PACKET_HEADER_SIZE + |payload| <= umem.frameSize
      modifies this`wire, this`fates, objects
      ensures Inv(multiset{})
      ensures Tx() == old(Tx()).Push(XdpDesc(frame.offset, PACKET_HEADER_SIZE + |payload|, 0))
      ensures fates == old(fates) + [Sent(PacketBytes(r, payload))]
    {
      hide Consistent, TxInv, PacketBytes, Splice, SentPackets;
      ghost var s, before, packet := kernel.State(), umem.buffer[..], PacketBytes(r, payload);
      InvSend(umem.availableFrames, s, pool, wire, before, umem.frameSize, frame.offset, packet);
      Build(frame, r, payload);
      var len := PACKET_HEADER_SIZE + |payload|;
      assert len % U32_SPAN == len;
      Enqueue(frame.(len := len));
      SentPacketsPush(fates, Sent(packet));
      wire := wire + [packet];
      fates := fates + [Sent(packet)];
    }

    method Drop(frame: Frame)
      requires umem.frameSize > 0 && Inv(multiset{FrameOf(frame.offset, umem.frameSize)})
      modifies this`fates, objects
      ensures Tx() == old(Tx())
      ensures Inv(multiset{})
      ensures fates == old(fates) + [Dropped]
    {
      hide Consistent, Accounted, SentPackets;
      GiveBack(frame);
      SentPacketsPush(fates, Dropped);
      fates := fates + [Dropped];
    }

    /** What a wait starting now would be for. */
    ghost function WaitNow(): Wait
      reads ring.mmap, umem
    {
      Wait(Tx().Room(ring.size) <= 0, Tx().head - Tx().seenTail,
           |umem.availableFrames| == 0, |pool| - |umem.availableFrames| - Uncommitted())
    }

    /** Makes sure there is space for one packet, polling if there is none. A wait is for work
        the kernel has been given whenever unpublished work fills neither ring nor pool. */
    method EnsureSpace() returns (space: bool)
      requires Inv(multiset{})
      modifies this`polls, this`waitsJustified, objects
      ensures Inv(multiset{})
      ensures Tx().log == old(Tx().log) && Tx().head == old(Tx().head)
      ensures space ==> Tx().Room(ring.size) > 0 && |umem.availableFrames| > 0
      ensures space ==> old(Uncommitted()) < Limit()
      ensures kernel.cooperative && old(polls) >= 2 && old(Uncommitted()) < Limit() ==> space
      ensures kernel.cooperative && space ==> polls + 2 >= old(polls)
      ensures old(waitsJustified) && old(Uncommitted()) < Limit() ==> waitsJustified
      ensures waitsJustified
           == (old(waitsJustified)
               && (old(Tx().Room(ring.size) > 0 && |umem.availableFrames| > 0) || Justified(old(WaitNow()))))
    {
      hide Consistent, Accounted, Recorded;
      SpaceBound();
      if HasSpace() {
        return true;
      }
      waitsJustified := waitsJustified && Justified(WaitNow());
      space := WaitForSpace();
    }

    /** Commits once a chunk of packets has been written. */
    method CountSent()
      requires Inv(multiset{}) && batchedPackets > 0 && chunkRemaining > 0
      modifies this`batchedPackets, this`chunkRemaining, objects
      ensures Inv(multiset{}) && batchedPackets == old(batchedPackets) - 1
      ensures Tx().log == old(Tx().log)
      ensures if old(chunkRemaining) == 1
              then chunkRemaining == Min(BATCH_SIZE, batchedPackets) && Uncommitted() == 0
              else chunkRemaining == old(chunkRemaining) - 1 && Tx().head == old(Tx().head)
    {
      hide Consistent, Accounted, Recorded;
      batchedPackets := batchedPackets - 1;
      chunkRemaining := chunkRemaining - 1;
      if chunkRemaining == 0 {
        chunkRemaining := Min(BATCH_SIZE, batchedPackets);
        KernelActs(multiset{});
        CommitRing(multiset{});
      }
    }

    /** Resolves the destination of a job with a frame in hand, then queues or drops it. */
    method Dispatch(frame: Frame, addr: SocketAddr, payload: seq<u8>) returns (r: Progress)
      requires umem.frameSize > 0 && Inv(multiset{FrameOf(frame.offset, umem.frameSize)})
      requires frame.offset % umem.frameSize == 0 && Tx().Room(ring.size) > 0
      requires batchedPackets > 0 && chunkRemaining > 0
      modifies this`batchedPackets, this`chunkRemaining, this`fates, this`wire, objects
      ensures Inv(if r.Stopped? then multiset{FrameOf(frame.offset, umem.frameSize)} else multiset{})
      ensures var fate := JobFate(config, Job(addr, payload)); r == if Stops(fate) then Stopped(fate) else Done
      ensures Counters() == Advance(config, old(Counters()), Job(addr, payload))
    {
      hide Consistent, Accounted, Recorded, PacketBytes;
      if addr.V6? {
        return Stopped(Panics);
      }
      var destMac;
      if config.destMac.Some? {
        destMac := config.destMac.value;
      } else {
        var nextHop := config.route(addr.ip);
        if nextHop.None? {
          return Stopped(Panics);
        }
        var skip := false;
        if nextHop.value.ifIndex != config.ifIndex {
          skip := true;
        }
        if nextHop.value.macAddr.None? {
          skip := true;
        }
        if skip {
          batchedPackets := batchedPackets - 1;
          Drop(frame);
          return Done;
        }
        destMac := nextHop.value.macAddr.value;
      }
      if !FitsFrame(config, payload) {
        // There is no such test in the loop; from here on it would write past the frame.
        return Stopped(Overruns);
      }
      Transmit(frame, Route(config.srcMac, destMac, config.srcIp, addr.ip, config.srcPort, addr.port), payload);
      CountSent();
      return Done;
    }

    /** One address of an item: wait for space, resolve, build and queue, or drop. The reserve
        and the ring write cannot fail; the only panics are an IPv6 address and a missing route. */
    method ProcessJob(addr: SocketAddr, payload: seq<u8>) returns (r: Progress, ghost loose: multiset<nat>)
      requires Inv(multiset{}) && batchedPackets > 0 && chunkRemaining > 0
      modifies this`batchedPackets, this`chunkRemaining, this`polls, this`fates, this`wire, this`waitsJustified, objects
      ensures Inv(loose) && (!r.Stopped? ==> loose == multiset{})
      ensures var fate := JobFate(config, Job(addr, payload));
              r == OutOfPolls || r == if Stops(fate) then Stopped(fate) else Done
      ensures Counters() == if r == Done then Advance(config, old(Counters()), Job(addr, payload)) else old(Counters())
      ensures r != OutOfPolls ==> old(Uncommitted()) < Limit()
      ensures kernel.cooperative && old(polls) >= 2 && r == OutOfPolls ==> old(Uncommitted()) >= Limit()
      ensures kernel.cooperative && r == Done ==> polls + 2 >= old(polls)
      ensures old(waitsJustified) && old(Uncommitted()) < Limit() ==> waitsJustified
    {
      hide Consistent, Accounted, Recorded, JobFate;
      loose := multiset{};
      var space := EnsureSpace();
      if !space {
        return OutOfPolls, loose;
      }
      var frame := ReserveFrame();
      r := Dispatch(frame, addr, payload);
      if r.Stopped? {
        loose := multiset{FrameOf(frame.offset, umem.frameSize)};
      }
    }

    /** With a fixed destination MAC, a ring and a pool of at least a batch. */
    ghost predicate NeverStarved() {
      config.destMac.Some? && ring.size >= BATCH_SIZE && |pool| >= BATCH_SIZE
    }

    /** The addresses of one item, in order. `stop` is how many were processed. Each of them
        found unpublished work below the limit, and with a cooperative kernel and two polls per
        address only work at the limit stops the loop. */
    method DrainItem(item: Item) returns (r: Progress, ghost loose: multiset<nat>, ghost stop: nat)
      requires Inv(multiset{}) && 0 <= Uncommitted()
      requires batchedPackets >= |item.addrs| && (batchedPackets > 0 ==> chunkRemaining > 0)
      modifies this`batchedPackets, this`chunkRemaining, this`polls, this`fates, this`wire, this`waitsJustified, objects
      ensures Inv(loose) && (!r.Stopped? ==> loose == multiset{})
      ensures stop <= |item.addrs| && (r == Done <==> stop == |item.addrs|)
      ensures After(config, old(Counters()), ItemJobs(item), stop) == Some(Counters())
      ensures r.Stopped? ==> Stops(r.fate) && r.fate == JobFate(config, ItemJobs(item)[stop])
      ensures BatchPeak(config, old(Counters()), ItemJobs(item)[..stop]) <= Limit()
      ensures kernel.cooperative && old(polls) >= 2 * |item.addrs| && r == OutOfPolls ==> Uncommitted() >= Limit()
      ensures kernel.cooperative && r == Done ==> polls + 2 * |item.addrs| >= old(polls)
      ensures old(waitsJustified) && (r == OutOfPolls ==> Uncommitted() < Limit()) ==> waitsJustified
    {
      hide Consistent, Accounted, Recorded, JobFate, Advance, After, ItemJobs, BatchPeak;
      ghost var jobs, start := ItemJobs(item), Counters();
      r, loose, stop := Done, multiset{}, 0;
      AfterNone(config, start, jobs);
      PeakNone(config, start, jobs);
      for i := 0 to |item.addrs|
        invariant Inv(multiset{})
        invariant r == Done && loose == multiset{} && stop == i
        invariant After(config, start, jobs, i) == Some(Counters())
        invariant BatchPeak(config, start, jobs[..i]) <= Limit()
        invariant kernel.cooperative ==> polls + 2 * i >= old(polls)
        invariant old(waitsJustified) ==> waitsJustified
      {
        ghost var t := Counters();
        AfterCounts(config, start, jobs, i, t);
        AfterNext(config, start, jobs, i, t);
        AfterPeak(config, start, jobs, i, t);
        ItemJobAt(item, i);
        r, loose := ProcessJob(item.addrs[i], item.payload);
        if r != Done {
          return;
        }
        stop := stop + 1;
      }
    }

    /** The whole batch. Counters and fates follow the jobs in order up to `stop`; items
        processed to their end are handed back. */
    method DrainBatch(items: seq<Item>)
      returns (r: Progress, handedBack: seq<Item>, ghost loose: multiset<nat>, ghost stop: nat)
      requires Inv(multiset{}) && 0 <= Uncommitted()
      requires batchedPackets == |Jobs(items)|
      modifies this`batchedPackets, this`chunkRemaining, this`polls, this`fates, this`wire, this`waitsJustified, objects
      ensures Inv(loose) && (!r.Stopped? ==> loose == multiset{})
      ensures stop <= |Jobs(items)| && (r != Done ==> stop < |Jobs(items)|) && (r == Done ==> stop == |Jobs(items)|)
      ensures After(config, BatchStart(old(fates), |Jobs(items)|, old(Uncommitted())), Jobs(items), stop)
           == Some(Counters())
      ensures r.Stopped? ==> Stops(r.fate) && r.fate == JobFate(config, Jobs(items)[stop])
      ensures handedBack <= items && (r == Done ==> handedBack == items)
      ensures BatchPeak(config, BatchStart(old(fates), |Jobs(items)|, old(Uncommitted())), Jobs(items)[..stop])
           <= Limit()
      ensures kernel.cooperative && old(polls) >= 2 * |Jobs(items)| && r == OutOfPolls ==> Uncommitted() >= Limit()
      ensures kernel.cooperative && r == Done ==> polls + 2 * |Jobs(items)| >= old(polls)
      ensures old(waitsJustified) && (r == OutOfPolls ==> Uncommitted() < Limit()) ==> waitsJustified
    {
      hide Consistent, Accounted, Recorded, JobFate, Fates, Jobs, ItemJobs, ItemStart, After, BatchPeak;
      chunkRemaining := Min(BATCH_SIZE, batchedPackets);
      ghost var start, jobs := Counters(), Jobs(items);
      r, handedBack, loose, stop := Done, [], multiset{}, 0;
      BatchEnds(items);
      AfterNone(config, start, jobs);
      PeakNone(config, start, jobs);
      for k := 0 to |items|
        invariant Inv(multiset{})
        invariant r == Done && loose == multiset{} && stop == ItemStart(items, k) <= |jobs|
        invariant After(config, start, jobs, stop) == Some(Counters())
        invariant BatchPeak(config, start, jobs[..stop]) <= Limit()
        invariant kernel.cooperative ==> polls + 2 * stop >= old(polls)
        invariant handedBack == items[..k]
        invariant old(waitsJustified) ==> waitsJustified
      {
        ghost var t := Counters();
        AfterCounts(config, start, jobs, stop, t);
        AfterNone(config, t, ItemJobs(items[k]));
        BatchStep(config, start, items, k, 0, t, t);
        ghost var n;
        r, loose, n := DrainItem(items[k]);
        BatchStep(config, start, items, k, n, t, Counters());
        BatchStepPeak(config, start, items, k, n, t);
        stop := ItemStart(items, k) + n;
        if r != Done {
          return;
        }
        handedBack := handedBack + [items[k]];
      }
    }

    /** Drains what waits, as a step of the run: `done` was processed before, `s` is the outer
        loop's state. */
    method DrainWaiting(items: seq<Item>, ghost done: seq<Item>, ghost all: seq<Item>, ghost s: Outer)
      returns (r: Progress, handedBack: seq<Item>, ghost loose: multiset<nat>)
      requires Inv(multiset{}) && batchedPackets == |Jobs(items)| && done + items <= all
      requires fates == RunFates(config, done) && Settled(fates)
      requires s.pending == items && s.uncommitted == Uncommitted() && s.peak <= Limit()
      modifies this`batchedPackets, this`chunkRemaining, this`polls, this`fates, this`wire, this`waitsJustified, objects
      ensures Inv(loose) && (!r.Stopped? ==> loose == multiset{})
      ensures r == Done ==> handedBack == items && fates == RunFates(config, done + items) && Settled(fates)
      ensures r == Done ==> batchedPackets == 0
      ensures r == Done ==> var s' := DrainPending(config, s); s'.uncommitted == Uncommitted() && s'.peak <= Limit()
      ensures r != Done ==> fates <= RunFates(config, all) && |fates| < |RunFates(config, all)|
      ensures r.Stopped? ==> Stops(r.fate) && r.fate == RunFates(config, all)[|fates|]
      ensures kernel.cooperative && old(polls) >= 2 * |Jobs(items)| && r == OutOfPolls ==>
                DrainPending(config, s).peak > Limit()
      ensures kernel.cooperative && r == Done ==> polls + 2 * |fates| >= old(polls + 2 * |fates|)
      ensures old(waitsJustified) && DrainPending(config, s).peak <= Limit() ==> waitsJustified
      ensures old(waitsJustified) && NeverStarved() && old(Uncommitted()) == 0 ==>
                waitsJustified && (r == Done ==> Uncommitted() == 0)
    {
      hide Consistent, Accounted, Recorded, JobFate, RunFates, Jobs, After, Settled, DrainPending;
      ghost var stop;
      r, handedBack, loose, stop := DrainBatch(items);
      DrainedPeak(config, s, RunFates(config, done), stop, Counters());
      if r != Done {
        BatchCut(config, done, items, all, s.uncommitted, stop, Counters());
      } else {
        BatchExtends(config, done, items, s.uncommitted, Counters());
        BatchDrains(config, s, done, Counters());
      }
    }

    /** The main loop over a channel's events. Every address becomes exactly one queued packet
        or one drop, in order; the loop only stops early at an address it cannot handle or when
        its poll budget is spent, having done a prefix of the work. It gets to its end only if
        the run's peak of unpublished work fits the ring and the pool; then every wait is for
        published work, and with a cooperative kernel two polls per address are enough. */
    method Run(events: seq<Event>)
      returns (r: Progress, handedBack: seq<Item>, unsent: seq<Item>, ghost loose: multiset<nat>)
      requires Inv(multiset{}) && batchedPackets == 0 && fates == [] && Uncommitted() == 0 && waitsJustified
      modifies this`batchedPackets, this`chunkRemaining, this`polls, this`fates, this`wire, this`waitsJustified, objects
      ensures Inv(loose) && (!r.Stopped? ==> loose == multiset{})
      ensures r == Done ==> fates == RunFates(config, Items(events)) && Settled(fates) && batchedPackets == 0
      ensures r == Done ==> handedBack + unsent == Items(events) && Jobs(unsent) == []
      ensures r == Done ==> Uncommitted() == RunLeftover(config, events) && RunPeak(config, events) <= Limit()
      ensures r != Done ==> fates <= RunFates(config, Items(events)) && |fates| < |RunFates(config, Items(events))|
      ensures r.Stopped? ==> Stops(r.fate) && r.fate == RunFates(config, Items(events))[|fates|]
      ensures kernel.cooperative && old(polls) >= 2 * |RunFates(config, Items(events))| && r == OutOfPolls ==>
                RunPeak(config, events) > Limit()
      ensures kernel.cooperative && r == Done ==> polls + 2 * |RunFates(config, Items(events))| >= old(polls)
      ensures RunPeak(config, events) <= Limit() ==> waitsJustified
      ensures NeverStarved() ==> waitsJustified && (r == Done ==> Uncommitted() == 0)
    {
      hide Consistent, Accounted, Recorded, JobFate, RunFates, Jobs, Items, Settled;
      hide OuterRun, DrainPending, NeverStarved;
      var i, timeouts := 0, 0;
      r, handedBack, unsent, loose := Done, [], [], multiset{};
      NothingYet(config, events);
      ghost var s := OuterRun(config, events[..0]);
      OuterStart(config, events);
      while true
        invariant i <= |events| && Inv(multiset{}) && r == Done && loose == multiset{}
        invariant handedBack + unsent == Items(events[..i]) <= Items(events)
        invariant fates == RunFates(config, handedBack) && Settled(fates)
        invariant batchedPackets == |Jobs(unsent)|
        invariant s.pending == unsent && s.timeouts == timeouts && s.uncommitted == Uncommitted() && s.peak <= Limit()
        invariant OnCourse(config, events, i, s)
        invariant kernel.cooperative ==> polls + 2 * |fates| >= old(polls)
        invariant RunPeak(config, events) <= Limit() ==> waitsJustified
        invariant NeverStarved() ==> waitsJustified && Uncommitted() == 0
        decreases |events| - i, batchedPackets
      {
        ghost var arrived := s;
        if i < |events| {
          ItemsNext(events, i);
          ItemsPrefix(events, i + 1);
          arrived := Arrive(s, events[i]);
          CourseNext(config, events, i, s);
          i := i + 1;
          match events[i - 1] {
            case Received(item) =>
              JobsPush(unsent, item);
              batchedPackets := batchedPackets + |item.addrs|;
              unsent := unsent + [item];
              timeouts := 0;
              if batchedPackets < BATCH_SIZE {
                s := arrived;
                continue;
              }
            case Empty =>
              if timeouts < MAX_TIMEOUTS {
                timeouts := timeouts + 1;
              } else {
                timeouts := 0;
                KernelActs(multiset{});
                CommitRing(multiset{});
              }
          }
        } else if batchedPackets == 0 {
          break;
        } else {
          CourseEnds(config, events, s);
        }
        JobsLeft(config, handedBack, unsent, Items(events));
        var handed;
        r, handed, loose := DrainWaiting(unsent, handedBack, Items(events), arrived);
        if r != Done {
          return;
        }
        s := DrainPending(config, arrived);
        handedBack, unsent := handedBack + handed, [];
      }
      CourseDone(config, events, s);
      RunFatesNoJobs(config, handedBack, unsent);
    }

    /** The ring and the pool are back where they started, as the loop sees them. */
    predicate Drained(capacity: nat)
      requires Consistent()
      reads objects
    {
      umem.Available() >= capacity && ring.Available() >= ring.Capacity()
    }

    /** Then every frame is free again, the TX ring is empty on both sides, and the kernel and
        the completion ring hold nothing. */
    lemma DrainedMeansHome()
      requires Inv(multiset{}) && Drained(|pool|)
      ensures multiset(umem.availableFrames) == pool
      ensures Tx().seenTail == Tx().tail == Tx().read == Tx().head == |Tx().log|
      ensures kernel.inflight == [] && completion.mmap.fifo.read == |completion.mmap.fifo.log|
    {
      SharedOrdered(ring.mmap.View(), ring.mmap.fifo);
      var s, free := kernel.State(), multiset(umem.availableFrames);
      HeldCount(s, umem.frameSize);
      assert |pool| == |free| + |TxHeld(s, umem.frameSize)|;
      assert TxHeld(s, umem.frameSize) == multiset{};
    }

    /** One pass of the final drain. With a cooperative kernel and nothing unpublished it takes
        frames home, or brings the completions that the next pass takes. */
    method DrainStep()
      requires Inv(multiset{})
      modifies objects
      ensures Inv(multiset{})
      ensures Tx().log == old(Tx().log) && Tx().head == old(Tx().head)
      ensures |umem.availableFrames| >= |old(umem.availableFrames)| && 0 <= Backlog()
      ensures kernel.cooperative && old(Backlog()) > 0 ==> |umem.availableFrames| > |old(umem.availableFrames)|
      ensures kernel.cooperative ==> Tx().Room(ring.size) == ring.size - Uncommitted()
      ensures kernel.cooperative && Uncommitted() == 0 ==>
                || |umem.availableFrames| > |old(umem.availableFrames)|
                || Backlog() > 0
                || |umem.availableFrames| == |pool|
    {
      hide Consistent, Accounted, Recorded;
      FramesCounted();
      KernelActs(multiset{});
      CommitCompletion(multiset{});
      KernelActs(multiset{});
      SyncCompletion(multiset{});
      ReleaseCompleted();
      KernelActs(multiset{});
      SyncRing(multiset{});
      FramesCounted();
    }

    /** Passes a cooperative kernel needs for the frames still out. */
    ghost function DrainBudget(): int
      reads umem, completion.mmap, ring.mmap
    {
      2 * (|pool| - |umem.availableFrames|) + (if Backlog() > 0 then 0 else 1)
      + (if Tx().Room(ring.size) == ring.size then 0 else 1)
    }

    /** The final drain. It never commits, so it ends only if nothing was left unpublished; and
        then it does end with a cooperative kernel. */
    method DrainRing(capacity: nat) returns (drained: bool)
      requires Inv(multiset{}) && capacity == |pool|
      modifies this`polls, objects
      ensures Inv(multiset{})
      ensures Tx().log == old(Tx().log) && Tx().head == old(Tx().head)
      ensures drained ==> old(Uncommitted()) == 0 && multiset(umem.availableFrames) == pool
      ensures drained ==> Tx().seenTail == Tx().tail == Tx().read == Tx().head == |Tx().log|
      ensures drained ==> kernel.inflight == [] && completion.mmap.fifo.read == |completion.mmap.fifo.log|
      ensures kernel.cooperative && old(Uncommitted()) == 0 && old(polls) >= 2 * |pool| + 2 ==> drained
    {
      hide Consistent, Accounted, Recorded;
      ghost var ends := kernel.cooperative && Uncommitted() == 0 && polls >= 2 * |pool| + 2;
      FramesCounted();
      SpaceBound();
      while !Drained(capacity)
        invariant Inv(multiset{})
        invariant Tx().log == old(Tx().log) && Tx().head == old(Tx().head)
        invariant ends ==> polls >= DrainBudget()
        decreases polls
      {
        SpaceBound();
        BudgetPositive();
        if polls == 0 {
          return false;
        }
        polls := polls - 1;
        DrainStep();
      }
      DrainedMeansHome();
      return true;
    }

    lemma BudgetPositive()
      requires Inv(multiset{})
      ensures DrainBudget() > 0 && |umem.availableFrames| <= |pool|
    {
      hide Consistent, Accounted, Recorded;
      FramesCounted();
    }

    /** The run can be finished: no address panics, unpublished work always fits, and none is
        left at the end. All of it is known from the configuration and the events. */
    ghost predicate CanFinish(events: seq<Event>) {
      && Settled(RunFates(config, Items(events)))
      && RunPeak(config, events) <= Limit() && RunLeftover(config, events) == 0
    }

    /** From the first event to the final drain. Finishing means that every address got its one
        packet or drop, nothing was left unpublished and every frame is home again. It happens
        only if the run can be finished, and with a cooperative kernel and enough polls exactly
        then. */
    method Serve(events: seq<Event>) returns (r: Progress, ghost loose: multiset<nat>)
      requires Inv(multiset{}) && batchedPackets == 0 && fates == [] && Uncommitted() == 0 && waitsJustified
      requires pool == multiset(umem.availableFrames)
      modifies this`batchedPackets, this`chunkRemaining, this`polls, this`fates, this`wire, this`waitsJustified, objects
      ensures Inv(loose) && (!r.Stopped? ==> loose == multiset{})
      ensures fates <= RunFates(config, Items(events))
      ensures r == Done ==> fates == RunFates(config, Items(events)) && CanFinish(events)
      ensures r == Done ==> multiset(umem.availableFrames) == pool && kernel.inflight == [] && Uncommitted() == 0
      ensures kernel.cooperative && old(polls) >= 2 * (|RunFates(config, Items(events))| + |pool| + 1) ==>
                (r == Done <==> CanFinish(events))
      ensures RunPeak(config, events) <= Limit() ==> waitsJustified
      ensures NeverStarved() ==> waitsJustified
    {
      hide Consistent, Accounted, Recorded, RunFates, Items, NeverStarved, RunPeak, RunLeftover;
      var capacity := |umem.availableFrames|;
      var handedBack, unsent;
      r, handedBack, unsent, loose := Run(events);
      if r == Done {
        var drained := DrainRing(capacity);
        if !drained {
          return OutOfPolls, loose;
        }
      }
    }
  }
}

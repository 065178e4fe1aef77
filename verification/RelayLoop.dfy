/** The relay loop: pre-fill, take received packets, forward them in place or recycle their
    frames, refill, with batched commits, interleaved with arbitrary kernel activity. */
module RelayLoop {
  import opened Words
  import opened Rings
  import opened RingObjects
  import opened Frames
  import opened Packet
  import opened Kernel
  import opened RelayModel
  import opened ReceivePath
  import opened RelaySteps

  class RelaySession {
    const config: RelayConfig
    const path: RxPath
    const tx: TxRing
    const completion: TxCompletionRing
    const kernel: TxKernel
    var batchCount: nat
    ghost const pool: multiset<nat>
    ghost const base: nat
    ghost const objects: set<object>
    ghost var lost: multiset<nat>
    ghost var wire: seq<seq<u8>>
    ghost var sources: seq<nat>

    /** A session over a new socket; `lost` frames are counted from nothing. */
    constructor (config: RelayConfig, path: RxPath, tx: TxRing, completion: TxCompletionRing, kernel: TxKernel,
                 ghost pool: multiset<nat>, ghost objects: set<object>)
      requires kernel.tx.mmap == tx.mmap && kernel.done.mmap == completion.mmap
      requires kernel.frameSize == path.umem.frameSize
      requires tx.Valid() && completion.Valid() && kernel.Valid()
      requires objects == {kernel, kernel.tx.consumer, kernel.done.producer, tx.producer, tx.mmap, tx.mmap.desc,
                           completion.consumer, completion.mmap, completion.mmap.desc}
      requires objects !! path.objects && {path.rx.mmap, path.fill.mmap, path.kernel, path.umem} <= path.objects
      requires path.Inv(Nothing, Rest(kernel.State(), multiset{}, pool, Blank(|tx.mmap.fifo.log|)))
      ensures this.config == config && this.path == path && this.tx == tx && this.completion == completion
      ensures this.kernel == kernel && this.pool == pool && this.objects == objects
      ensures lost == multiset{} && batchCount == 0 && sources == []
      ensures Inv(Nothing, path.Rx().read)
    {
      hide RxPath.Consistent, RxPath.Accounted, SharedRel, ProducerRel, ConsumerRel, TxWellFormed, Blank;
      this.config, this.path, this.tx := config, path, tx;
      this.completion, this.kernel, this.pool, this.objects := completion, kernel, pool, objects;
      batchCount, lost, sources := 0, multiset{}, [];
      wire, base := Blank(|tx.mmap.fifo.log|), |tx.mmap.fifo.log|;
    }

    /** The transmit side's objects, disjoint from the receive side's. */
    ghost predicate Wired() {
      && kernel.tx.mmap == tx.mmap && kernel.done.mmap == completion.mmap
      && kernel.frameSize == path.umem.frameSize
      && objects == {kernel, kernel.tx.consumer, kernel.done.producer, tx.producer, tx.mmap, tx.mmap.desc,
                     completion.consumer, completion.mmap, completion.mmap.desc}
    }

    ghost predicate Apart() {
      && this !in objects && this !in path.objects && objects !! path.objects
      && {path.rx.mmap, path.fill.mmap, path.kernel, path.umem} <= path.objects
    }

    ghost predicate Consistent()
      reads objects
    {
      Wired() && tx.Valid() && completion.Valid() && kernel.Valid()
    }

    /** Everything outside the receive path. */
    ghost function Outside(): Rest
      reads this`lost, this`wire, kernel, kernel.tx.mmap, kernel.done.mmap
    {
      Rest(kernel.State(), lost, pool, wire)
    }

    /** Packets written so far come from wanted packets received at positions below `upTo`. */
    ghost predicate Faithful(upTo: nat)
      reads this`wire, this`sources, path.kernel
    {
      Traced(config, wire, base, sources, path.kernel.received, upTo)
    }

    ghost predicate Inv(hand: Hand, upTo: nat)
      reads this`lost, this`wire, this`sources, objects, path.objects
      reads kernel, kernel.tx.mmap, kernel.done.mmap, path.kernel
    {
      Apart() && Consistent() && path.Inv(hand, Outside()) && Faithful(upTo)
    }

    ghost function Tx(): Fifo<XdpDesc>
      reads tx.mmap
    {
      tx.mmap.fifo
    }

    ghost function Completed(): Fifo<nat>
      reads completion.mmap
    {
      completion.mmap.fifo
    }

    /** What only the loop itself writes. */
    ghost function OwnSide(): (o: Own)
      reads tx.mmap, path.fill.mmap, path.rx.mmap, completion.mmap, path.umem
      ensures o.doneTail == Completed().tail && o.rxTail == path.Rx().tail
    {
      Own(Tx().log, Tx().head, Tx().seenTail, path.Fill().log, path.Fill().head, path.Fill().seenTail,
          path.Rx().read, path.Rx().tail, path.Rx().seenHead,
          Completed().read, Completed().tail, Completed().seenHead, path.umem.availableFrames)
    }

    /** What only the kernel writes, of the cursors. */
    ghost function KernelSide(): Other
      reads tx.mmap, path.fill.mmap, path.rx.mmap, completion.mmap
    {
      Other(path.Rx().head, Tx().tail, path.Fill().tail, Completed().head)
    }

    ghost function Limits(): Sizes {
      Sizes(tx.size, path.fill.size, path.umem.frameSize)
    }

    method RxKernelActs(ghost hand: Hand, ghost upTo: nat)
      requires Inv(hand, upTo)
      modifies path.objects
      ensures Inv(hand, upTo) && OwnSide() == old(OwnSide()) && NotBefore(old(KernelSide()), KernelSide())
      ensures old(path.kernel.received) <= path.kernel.received && old(path.Rx().log) <= path.Rx().log
    {
      hide RxPath.Consistent, RxPath.Accounted, SharedRel, ProducerRel, ConsumerRel, Traced, TxWellFormed;
      path.KernelActs(hand, Outside());
      TracedLater(config, wire, base, sources, old(path.kernel.received), upTo, path.kernel.received, upTo);
    }

    method TxKernelActs(ghost hand: Hand, ghost upTo: nat)
      requires Inv(hand, upTo)
      modifies objects
      ensures Inv(hand, upTo) && OwnSide() == old(OwnSide()) && NotBefore(old(KernelSide()), KernelSide())
      ensures path.Rx() == old(path.Rx()) && path.Fill() == old(path.Fill())
    {
      hide RxPath.Consistent, RxPath.Accounted, SharedRel, ProducerRel, ConsumerRel, Traced, TxHeld, TxLive;
      ghost var rest := Outside();
      kernel.Run();
      ghost var s, s' := rest.tx, kernel.State();
      path.TxMoved(hand, rest, s');
      ProducerKept(End(tx.producer.cachedProducer, tx.producer.cachedConsumer), s.tx, s'.tx);
      ConsumerKept(End(completion.consumer.cachedProducer, completion.consumer.cachedConsumer), s.done, s'.done);
    }

    /** Any amount of activity of the kernel, on both sides. */
    method KernelActs(ghost hand: Hand, ghost upTo: nat)
      requires Inv(hand, upTo)
      modifies objects, path.objects
      ensures Inv(hand, upTo) && OwnSide() == old(OwnSide()) && NotBefore(old(KernelSide()), KernelSide())
      ensures old(path.kernel.received) <= path.kernel.received && old(path.Rx().log) <= path.Rx().log
    {
      hide Consistent, RxPath.Inv, Faithful;
      RxKernelActs(hand, upTo);
      TxKernelActs(hand, upTo);
    }

    method SyncTx(ghost hand: Hand, ghost upTo: nat)
      requires Inv(hand, upTo)
      modifies objects
      ensures Inv(hand, upTo) && path.Rx() == old(path.Rx())
      ensures OwnSide() == old(OwnSide()).(txTail := old(Tx().tail)) && KernelSide() == old(KernelSide())
      ensures path.kernel.received == old(path.kernel.received)
    {
      hide RxPath.Consistent, RxPath.Accounted, SharedRel, ProducerRel, ConsumerRel, Traced, TxWellFormed;
      ghost var rest := Outside();
      tx.Sync(false);
      CursorsMoved(hand, rest);
      ConsumerKept(End(kernel.tx.consumer.cachedProducer, kernel.tx.consumer.cachedConsumer), rest.tx.tx, Tx());
    }

    method CommitTx(ghost hand: Hand, ghost upTo: nat)
      requires Inv(hand, upTo)
      modifies objects
      ensures Inv(hand, upTo) && path.Rx() == old(path.Rx())
      ensures OwnSide() == old(OwnSide()).(txHead := |Tx().log|)
    {
      hide RxPath.Consistent, RxPath.Accounted, SharedRel, ProducerRel, ConsumerRel, Traced, TxWellFormed;
      ghost var rest := Outside();
      tx.Commit();
      CursorsMoved(hand, rest);
      ConsumerKept(End(kernel.tx.consumer.cachedProducer, kernel.tx.consumer.cachedConsumer), rest.tx.tx, Tx());
    }

    method SyncCompletion(ghost hand: Hand, ghost upTo: nat)
      requires Inv(hand, upTo)
      modifies objects
      ensures Inv(hand, upTo) && path.Rx() == old(path.Rx())
      ensures OwnSide() == old(OwnSide()).(doneHead := old(Completed().head)) && KernelSide() == old(KernelSide())
      ensures path.kernel.received == old(path.kernel.received)
    {
      hide RxPath.Consistent, RxPath.Accounted, SharedRel, ProducerRel, ConsumerRel, Traced, TxWellFormed;
      ghost var rest := Outside();
      completion.Sync(false);
      CursorsMoved(hand, rest);
      ProducerKept(End(kernel.done.producer.cachedProducer, kernel.done.producer.cachedConsumer), rest.tx.done,
                   Completed());
    }

    lemma CursorsMoved(hand: Hand, rest: Rest)
      requires path.Inv(hand, rest)
      requires Outside() == rest.(tx := kernel.State())
      requires kernel.State().tx.log == rest.tx.tx.log && kernel.State().tx.read == rest.tx.tx.read
      requires kernel.State().done.log == rest.tx.done.log && kernel.State().done.read == rest.tx.done.read
      requires kernel.State().inflight == rest.tx.inflight && kernel.State().positions == rest.tx.positions
      ensures path.Inv(hand, Outside()) && (TxWellFormed(rest.tx) ==> TxWellFormed(kernel.State()))
    {
      hide RxPath.Consistent, RxPath.Accounted;
      path.TxCursorsMoved(hand, rest, kernel.State());
    }

    /** Takes one visible completion back to the free list. */
    method TakeCompletion(ghost upTo: nat) returns (got: bool)
      requires Inv(Nothing, upTo)
      modifies objects, path.objects
      ensures Inv(Nothing, upTo) && path.Rx() == old(path.Rx())
      ensures var f := old(Completed());
              if f.read < f.seenHead then got && Completed() == f.Take() else !got && Completed() == f
      ensures OwnSide() == old(OwnSide()).(doneRead := Completed().read, free := path.umem.availableFrames)
      ensures path.kernel.received == old(path.kernel.received)
    {
      hide RxPath.Consistent, RxPath.Accounted, SharedRel, ProducerRel, ConsumerRel, Traced;
      ghost var rest := Outside();
      SharedOrdered(completion.mmap.View(), Completed());
      var offset := completion.Read();
      if offset.None? {
        return false;
      }
      path.Credit(Nothing, rest, offset.value);
      ProducerKept(End(kernel.done.producer.cachedProducer, kernel.done.producer.cachedConsumer), rest.tx.done,
                   Completed());
      return true;
    }

    /** Returns every completion the consumer can see. */
    method ReleaseCompleted(ghost upTo: nat)
      requires Inv(Nothing, upTo)
      modifies objects, path.objects
      ensures Inv(Nothing, upTo) && path.Rx() == old(path.Rx())
      ensures OwnSide() == old(OwnSide()).(doneRead := Completed().read, free := path.umem.availableFrames)
      ensures Completed().read >= Completed().seenHead
      ensures path.kernel.received == old(path.kernel.received)
    {
      hide Consistent, RxPath.Inv, Faithful;
      var more := true;
      while more
        invariant Inv(Nothing, upTo) && path.Rx() == old(path.Rx())
        invariant path.kernel.received == old(path.kernel.received)
        invariant OwnSide() == old(OwnSide()).(doneRead := Completed().read, free := path.umem.availableFrames)
        invariant !more ==> Completed().read >= Completed().seenHead
        decreases more, Completed().seenHead - Completed().read
      {
        more := TakeCompletion(upTo);
      }
    }

    /** Queues the rewritten packet in hand; it stays in hand when the TX ring is full. */
    method Queue(d: XdpDesc, ghost original: seq<u8>, ghost upTo: nat) returns (ok: bool)
      requires config.forward.Some? && Wanted(original)
      requires upTo < |path.kernel.received| && path.kernel.received[upTo] == original
      requires Inv(Holding(d, Rewritten(config.forward.value, original)), upTo)
      modifies objects, this`wire, this`sources
      ensures path.Rx() == old(path.Rx()) && path.kernel.received == old(path.kernel.received)
      ensures ok == TxRoom(old(OwnSide()), Limits())
      ensures ok ==> Inv(Nothing, upTo + 1) && sources == old(sources) + [upTo]
      ensures !ok ==> Inv(Holding(d, Rewritten(config.forward.value, original)), upTo) && sources == old(sources)
      ensures var o := old(OwnSide());
              OwnSide() == if ok then o.(txLog := o.txLog + [XdpDesc(d.addr, d.len, 0)]) else o
    {
      hide RxPath.Consistent, RxPath.Accounted, SharedRel, ProducerRel, ConsumerRel, Traced, Rewritten;
      ghost var rest := Outside();
      ok := tx.Write(Frame(d.addr, d.len), 0);
      if ok {
        assert d.len % U32_SPAN == d.len;
        ghost var packet := Rewritten(config.forward.value, original);
        path.Queued(d, packet, rest, XdpDesc(d.addr, d.len, 0));
        ConsumerKept(End(kernel.tx.consumer.cachedProducer, kernel.tx.consumer.cachedConsumer), rest.tx.tx, Tx());
        TracedForward(config, wire, base, sources, path.kernel.received, upTo, packet);
        wire, sources := wire + [packet], sources + [upTo];
      }
    }

    /** Gives the frame in hand back without forwarding its packet. */
    method Recycle(ghost hand: Hand, ghost upTo: nat, offset: nat)
      requires path.umem.frameSize > 0 && Inv(hand, upTo)
      requires HandFrames(hand, path.umem.frameSize) == multiset{FrameOf(offset, path.umem.frameSize)}
      modifies path.objects
      ensures Inv(Nothing, upTo + 1)
      ensures path.Rx() == old(path.Rx()) && path.kernel.received == old(path.kernel.received)
      ensures OwnSide() == Recycled(old(OwnSide()), Limits(), offset)
    {
      hide RxPath.Consistent, RxPath.Accounted, SharedRel, ProducerRel, ConsumerRel, Traced, TxWellFormed;
      path.Recycle(hand, Outside(), offset);
      TracedLater(config, wire, base, sources, path.kernel.received, upTo, path.kernel.received, upTo + 1);
    }

    method Rewrite(d: XdpDesc, ghost packet: seq<u8>, ghost upTo: nat, route: Route)
      requires Inv(Holding(d, packet), upTo) && d.len >= PACKET_HEADER_SIZE && |packet| == d.len
      modifies path.objects
      ensures Inv(Holding(d, Rewritten(route, packet)), upTo) && OwnSide() == old(OwnSide())
      ensures path.Rx() == old(path.Rx()) && path.kernel.received == old(path.kernel.received)
    {
      hide RxPath.Consistent, RxPath.Accounted, SharedRel, ProducerRel, ConsumerRel, Traced, TxWellFormed;
      path.Rewrite(d, packet, Outside(), route);
    }

    /** Takes the next received packet in hand. */
    method Receive(ghost upTo: nat) returns (desc: Option<XdpDesc>)
      requires Inv(Nothing, upTo)
      modifies path.objects
      ensures path.kernel.received == old(path.kernel.received)
      ensures desc.Some? <==> old(path.Rx().read < path.Rx().seenHead)
      ensures desc.None? ==> Inv(Nothing, upTo) && path.Rx() == old(path.Rx()) && OwnSide() == old(OwnSide())
      ensures desc.Some? ==>
                && path.Rx() == old(path.Rx()).Take() && old(path.Rx().read) < |path.kernel.received|
                && old(path.Rx().read) < |path.Rx().log| && desc.value == path.Rx().log[old(path.Rx().read)]
                && OwnSide() == old(OwnSide()).(rxRead := old(path.Rx().read) + 1) && path.umem.frameSize > 0
                && Inv(Holding(desc.value, path.kernel.received[old(path.Rx().read)]), upTo)
    {
      hide RxPath.Consistent, RxPath.Accounted, SharedRel, ProducerRel, ConsumerRel, Traced, TxWellFormed;
      desc := path.Receive(Outside());
    }

    /** Decides on one received packet, read at position `at`: forwarded, rewritten in place, in
        the same frame, or its frame given back. Only packets that pass the filters count
        towards a batch. */
    method HandlePacket(d: XdpDesc, ghost packet: seq<u8>, ghost at: nat) returns (counted: bool)
      requires Inv(Holding(d, packet), at)
      requires at < |path.kernel.received| && path.kernel.received[at] == packet
      modifies objects, path.objects, this`wire, this`sources
      ensures Inv(Nothing, at + 1)
      ensures path.Rx() == old(path.Rx()) && path.kernel.received == old(path.kernel.received)
      ensures counted == Wanted(packet) && path.umem.frameSize > 0
      ensures OwnSide() == Handled(config, old(OwnSide()), Limits(), d, packet)
      ensures sources == old(sources) + if Forwards(config, old(OwnSide()), Limits(), packet) then [at] else []
    {
      hide Consistent, RxPath.Consistent, RxPath.Accounted, Faithful;
      path.PacketInHand(d, packet, Outside());
      ghost var hand := Holding(d, packet);
      if d.len < PACKET_HEADER_SIZE + VOTE_SIZE_THRESHOLD {
        Recycle(hand, at, d.addr);
        return false;
      }
      assert path.umem.buffer[..][d.addr..d.addr + d.len][ETH_HEADER_SIZE + 9]
          == path.umem.buffer[d.addr + ETH_HEADER_SIZE + 9];
      if path.umem.buffer[d.addr + ETH_HEADER_SIZE + 9] != IPPROTO_UDP {
        Recycle(hand, at, d.addr);
        return false;
      }
      if config.forward.Some? {
        Rewrite(d, packet, at, config.forward.value);
        hand := Holding(d, Rewritten(config.forward.value, packet));
        var ok := Queue(d, packet, at);
        if !ok {
          Recycle(hand, at, d.addr);
        }
      } else {
        Recycle(hand, at, d.addr);
      }
      return true;
    }

    method CommitRx(ghost upTo: nat)
      requires Inv(Nothing, upTo)
      modifies path.objects
      ensures Inv(Nothing, upTo)
      ensures OwnSide() == old(OwnSide()).(rxTail := path.Rx().read) && path.Rx().log == old(path.Rx().log)
      ensures path.kernel.received == old(path.kernel.received)
    {
      hide RxPath.Consistent, RxPath.Accounted, SharedRel, ProducerRel, ConsumerRel, Traced, TxWellFormed;
      path.CommitRx(Nothing, Outside());
    }

    method CommitFill(ghost upTo: nat)
      requires Inv(Nothing, upTo)
      modifies path.objects
      ensures Inv(Nothing, upTo) && path.Rx() == old(path.Rx())
      ensures OwnSide() == old(OwnSide()).(fillHead := |path.Fill().log|)
      ensures path.kernel.received == old(path.kernel.received)
    {
      hide RxPath.Consistent, RxPath.Accounted, SharedRel, ProducerRel, ConsumerRel, Traced, TxWellFormed;
      path.CommitFill(Nothing, Outside());
    }

    method SyncRx(ghost upTo: nat)
      requires Inv(Nothing, upTo)
      modifies path.objects
      ensures Inv(Nothing, upTo) && path.Rx() == old(path.Rx()).SeeHead()
      ensures OwnSide() == old(OwnSide()).(rxHead := old(path.Rx().head)) && KernelSide() == old(KernelSide())
      ensures path.kernel.received == old(path.kernel.received)
    {
      hide RxPath.Consistent, RxPath.Accounted, SharedRel, ProducerRel, ConsumerRel, Traced, TxWellFormed;
      path.SyncRx(Nothing, Outside());
    }

    method Refill(ghost upTo: nat)
      requires Inv(Nothing, upTo)
      modifies path.objects
      ensures Inv(Nothing, upTo) && path.Rx() == old(path.Rx())
      ensures path.Fill().Room(path.fill.size) <= 0 || path.umem.availableFrames == []
      ensures OwnSide() == old(OwnSide()).(fillLog := path.Fill().log, free := path.umem.availableFrames)
      ensures path.kernel.received == old(path.kernel.received)
    {
      hide RxPath.Consistent, RxPath.Accounted, SharedRel, ProducerRel, ConsumerRel, Traced, TxWellFormed;
      path.Refill(Outside());
    }

    /** Publishes everything read and written. */
    method CommitAll(ghost upTo: nat)
      requires Inv(Nothing, upTo)
      modifies objects, path.objects
      ensures Inv(Nothing, upTo) && OwnSide() == Committed(old(OwnSide()))
      ensures old(path.kernel.received) <= path.kernel.received && old(path.Rx().log) <= path.Rx().log
    {
      hide Consistent, RxPath.Inv, Faithful;
      KernelActs(Nothing, upTo);
      CommitRx(upTo);
      KernelActs(Nothing, upTo);
      CommitTx(Nothing, upTo);
      KernelActs(Nothing, upTo);
      CommitFill(upTo);
    }

    lemma Shape(upTo: nat)
      requires Inv(Nothing, upTo)
      ensures path.umem.frameSize > 0
      ensures path.Rx().read <= path.Rx().seenHead <= |path.Rx().log| == |path.kernel.received|
    {
      path.Ordered();
    }

    /** Reads and handles the next packet the RX ring shows. */
    method TakeNext() returns (more: bool, counted: bool)
      requires Inv(Nothing, path.Rx().read) && path.umem.frameSize > 0
      modifies objects, path.objects, this`wire, this`sources
      ensures Inv(Nothing, path.Rx().read)
      ensures old(path.kernel.received) <= path.kernel.received && old(path.Rx().log) <= path.Rx().log
      ensures more <==> old(path.Rx().read < path.Rx().seenHead)
      ensures path.Rx().read == old(path.Rx().read) + (if more then 1 else 0)
      ensures path.Rx().seenHead == old(path.Rx().seenHead)
      ensures !more ==> OwnSide() == old(OwnSide()) && !counted && sources == old(sources)
      ensures var at, o := old(path.Rx().read), old(OwnSide());
              more ==> && at < |path.Rx().log| && at < |path.kernel.received|
                       && counted == Wanted(path.kernel.received[at])
                       && OwnSide() == Handled(config, o.(rxRead := at + 1), Limits(), path.Rx().log[at],
                                               path.kernel.received[at])
                       && sources == old(sources)
                          + if Forwards(config, o, Limits(), path.kernel.received[at]) then [at] else []
    {
      hide Consistent, RxPath.Inv, Faithful, Wanted, Handled, Forwards;
      ghost var at := path.Rx().read;
      var desc := Receive(at);
      if desc.None? {
        return false, false;
      }
      KernelActs(Holding(desc.value, path.kernel.received[at]), at);
      ForwardsIgnoresRead(config, old(OwnSide()), Limits(), path.kernel.received[at], at + 1);
      counted := HandlePacket(desc.value, path.kernel.received[at], at);
      return true, counted;
    }

    /** Takes the next packet, committing every RELAY_BATCH wanted packets. */
    method HandleNext() returns (more: bool)
      requires Inv(Nothing, path.Rx().read) && path.umem.frameSize > 0
      modifies objects, path.objects, this`wire, this`sources, this`batchCount
      ensures Inv(Nothing, path.Rx().read)
      ensures old(path.kernel.received) <= path.kernel.received && old(path.Rx().log) <= path.Rx().log
      ensures more <==> old(path.Rx().read < path.Rx().seenHead)
      ensures path.Rx().read == old(path.Rx().read) + (if more then 1 else 0)
      ensures path.Rx().seenHead == old(path.Rx().seenHead)
      ensures !more ==> OwnSide() == old(OwnSide()) && batchCount == old(batchCount) && sources == old(sources)
      ensures var at := old(path.Rx().read);
              more ==> && at < |path.Rx().log| && at < |path.kernel.received|
                       && Progress(OwnSide(), batchCount)
                          == HandleOne(config, old(Progress(OwnSide(), batchCount)), Limits(), path.Rx().log[at],
                                       path.kernel.received[at])
                       && sources == old(sources)
                          + if Forwards(config, old(OwnSide()), Limits(), path.kernel.received[at]) then [at] else []
    {
      hide Consistent, RxPath.Inv, Faithful, Wanted, Handled, Forwards;
      var counted;
      more, counted := TakeNext();
      if counted {
        batchCount := batchCount + 1;
        if batchCount >= RELAY_BATCH {
          CommitAll(path.Rx().read);
          batchCount := 0;
        }
      }
    }

    /** Handles every packet the RX ring shows, in order. */
    method ProcessReceived()
      requires Inv(Nothing, path.Rx().read)
      modifies objects, path.objects, this`wire, this`sources, this`batchCount
      ensures Inv(Nothing, path.Rx().read) && path.umem.frameSize > 0
      ensures path.Rx().read == old(path.Rx().seenHead)
      ensures var lo, hi, p := old(path.Rx().read), old(path.Rx().seenHead), old(Progress(OwnSide(), batchCount));
              && lo <= hi <= |path.Rx().log| && hi <= |path.kernel.received|
              && Progress(OwnSide(), batchCount)
                 == HandleAll(config, p, Limits(), path.Rx().log, path.kernel.received, lo, hi)
              && sources
                 == old(sources) + ForwardedAt(config, p, Limits(), path.Rx().log, path.kernel.received, lo, hi)
      ensures old(path.kernel.received) <= path.kernel.received
    {
      hide Consistent, RxPath.Inv, Faithful, HandleOne, HandleAll, OwnSide, ForwardedAt, Forwards;
      Shape(path.Rx().read);
      ghost var lo, hi, start := path.Rx().read, path.Rx().seenHead, Progress(OwnSide(), batchCount);
      var more := true;
      ghost var n := lo;
      HandleNone(config, start, Limits(), path.Rx().log, path.kernel.received, lo);
      ForwardedNone(config, start, Limits(), path.Rx().log, path.kernel.received, lo);
      while more
        invariant Inv(Nothing, path.Rx().read) && path.umem.frameSize > 0
        invariant lo <= n == path.Rx().read <= hi == path.Rx().seenHead
        invariant hi <= |path.Rx().log| && hi <= |path.kernel.received|
        invariant Progress(OwnSide(), batchCount)
               == HandleAll(config, start, Limits(), path.Rx().log, path.kernel.received, lo, n)
        invariant sources
               == old(sources) + ForwardedAt(config, start, Limits(), path.Rx().log, path.kernel.received, lo, n)
        invariant old(path.kernel.received) <= path.kernel.received
        invariant !more ==> n == hi
        decreases more, hi - n
      {
        ghost var log, received := path.Rx().log, path.kernel.received;
        more := HandleNext();
        HandleAllLater(config, start, Limits(), log, received, path.Rx().log, path.kernel.received, lo, n);
        ForwardedLater(config, start, Limits(), log, received, path.Rx().log, path.kernel.received, lo, n);
        if more {
          HandleAllNext(config, start, Limits(), path.Rx().log, path.kernel.received, lo, n);
          ForwardedNext(config, start, Limits(), path.Rx().log, path.kernel.received, lo, n);
          n := n + 1;
        }
      }
    }

    /** Refreshes the loop's view of all four rings: it sees at least what the kernel had done before. */
    method SyncAll(ghost upTo: nat)
      requires Inv(Nothing, upTo)
      modifies objects, path.objects
      ensures Inv(Nothing, upTo)
      ensures var o := OwnSide();
              && o == old(OwnSide()).(txTail := o.txTail, fillTail := o.fillTail, rxHead := o.rxHead,
                                      doneHead := o.doneHead)
              && NotBefore(old(KernelSide()), Seen(o))
      ensures old(path.kernel.received) <= path.kernel.received
    {
      hide Consistent, RxPath.Inv, Faithful;
      KernelActs(Nothing, upTo);
      SyncRx(upTo);
      KernelActs(Nothing, upTo);
      SyncTx(Nothing, upTo);
      KernelActs(Nothing, upTo);
      SyncCompletion(Nothing, upTo);
      KernelActs(Nothing, upTo);
      SyncFill(upTo);
    }

    /** Tops up the fill ring and, exactly if a batch has been started, publishes everything. */
    method FinishRound(ghost upTo: nat)
      requires Inv(Nothing, upTo)
      modifies objects, path.objects, this`batchCount
      ensures Inv(Nothing, upTo) && batchCount == 0
      ensures path.Fill().Room(path.fill.size) <= 0 || path.umem.availableFrames == []
      ensures var o := old(OwnSide()).(fillLog := path.Fill().log, free := path.umem.availableFrames);
              OwnSide() == if old(batchCount) > 0 then Committed(o) else o
      ensures old(path.kernel.received) <= path.kernel.received
    {
      hide Consistent, RxPath.Inv, Faithful;
      Refill(upTo);
      if batchCount > 0 {
        CommitAll(upTo);
        batchCount := 0;
      }
    }

    /** One pass of the endless loop. It handles every packet and takes back every completion that was published
        before it, and forwards every wanted packet while the TX ring has room. Started with an empty batch, it
        publishes all it queued for transmission; and its fill entries and RX slots as well, unless the number of
        wanted packets is a multiple of 32: then slots are released up to the last wanted packet only. */
    method Round()
      requires Inv(Nothing, path.Rx().read)
      modifies objects, path.objects, this`wire, this`sources, this`batchCount
      ensures Inv(Nothing, path.Rx().read) && batchCount == 0
      ensures NotBefore(old(KernelSide()), Seen(OwnSide()))
      ensures path.Rx().read >= old(path.Rx().head) && Completed().read >= old(Completed().head)
      ensures path.Fill().Room(path.fill.size) <= 0 || path.umem.availableFrames == []
      ensures Completed().tail == old(Completed().tail)
      ensures old(path.kernel.received) <= path.kernel.received
      ensures old(path.Rx().read) <= path.Rx().read <= |path.kernel.received|
      ensures var at := WantedAt(path.kernel.received, old(path.Rx().read), path.Rx().read);
              && sources == old(sources) + ToForward(config, at, old(OwnSide()).(txTail := Tx().seenTail), Limits())
              && (old(batchCount) == 0 ==> PassPublished(old(OwnSide()), OwnSide(), at))
    {
      hide Consistent, RxPath.Inv, Faithful, HandleAll, ForwardedAt, WantedAt, ToForward, PassPublished;
      SyncAll(path.Rx().read);
      ReleaseCompleted(path.Rx().read);
      Shape(path.Rx().read);
      ghost var lo, p := path.Rx().read, Progress(OwnSide(), batchCount);
      ProcessReceived();
      ghost var hi, log, received := path.Rx().read, path.Rx().log, path.kernel.received;
      PassForwards(config, old(OwnSide()), p, Limits(), log, received, lo, hi);
      FinishRound(hi);
      if p.batch == 0 {
        PassPublishes(config, old(OwnSide()), p, Limits(), log, received, lo, hi, OwnSide());
      }
      WantedAtLater(received, path.kernel.received, lo, hi);
    }

    /** Reserves a frame and offers it to the kernel; a frame the fill ring refuses is dropped. */
    method PrefillOne(ghost upTo: nat) returns (ok: bool)
      requires Inv(Nothing, upTo) && path.umem.availableFrames != []
      modifies path.objects, this`lost
      ensures Inv(Nothing, upTo) && path.Rx() == old(path.Rx())
      ensures ok == (old(path.Fill()).Room(path.fill.size) > 0)
      ensures |path.umem.availableFrames| + 1 == |old(path.umem.availableFrames)|
      ensures ok ==> lost == old(lost) && path.Fill().Room(path.fill.size) == old(path.Fill()).Room(path.fill.size) - 1
      ensures !ok ==> |lost| == |old(lost)| + 1
      ensures OwnSide() == old(OwnSide()).(fillLog := path.Fill().log, free := path.umem.availableFrames)
      ensures |path.Fill().log| == |old(path.Fill().log)| + (if ok then 1 else 0)
      ensures path.kernel.received == old(path.kernel.received)
    {
      hide RxPath.Consistent, RxPath.Accounted, SharedRel, ProducerRel, ConsumerRel, Traced, TxWellFormed;
      var frame := path.Reserve(Outside());
      ghost var f := FrameOf(frame.value.offset, path.umem.frameSize);
      ok := path.Offer(Bare(f), Outside(), frame.value.offset);
      if !ok {
        path.Lose(f, Outside());
        lost := lost + multiset{f};
      }
    }

    lemma RoomNotNegative(upTo: nat)
      requires Inv(Nothing, upTo)
      ensures path.Fill().Room(path.fill.size) >= 0
    {
      path.Ordered();
    }

    /** The pre-fill before the loop. A frame is lost, and then exactly one, just when the fill
        ring has fewer free slots than the number of frames to add. */
    method Prefill(rxSize: nat)
      requires Inv(Nothing, path.Rx().read) && lost == multiset{} && rxSize == path.fill.size
      modifies objects, path.objects, this`lost
      ensures Inv(Nothing, path.Rx().read) && path.Rx().read == old(path.Rx().read)
      ensures |lost| <= 1
      ensures lost == multiset{} <==>
                Min(rxSize, |old(path.umem.availableFrames)|) <= old(path.Fill()).SeeTail().Room(path.fill.size)
      ensures var o := OwnSide();
              && o == old(OwnSide()).(fillLog := o.fillLog, fillHead := |o.fillLog|, fillTail := o.fillTail,
                                      free := o.free)
              && |o.fillLog| == |old(path.Fill().log)| + Min(Min(rxSize, |old(path.umem.availableFrames)|),
                                                             old(path.Fill()).SeeTail().Room(path.fill.size))
      ensures old(path.kernel.received) <= path.kernel.received
    {
      hide Consistent, RxPath.Inv, Faithful;
      ghost var at := path.Rx().read;
      SyncFill(at);
      RoomNotNegative(at);
      var wanted := Min(rxSize, path.umem.Available());
      ghost var room, free := path.Fill().Room(path.fill.size), |path.umem.availableFrames|;
      for added := 0 to wanted
        invariant Inv(Nothing, at) && path.Rx() == old(path.Rx()) && lost == multiset{}
        invariant path.kernel.received == old(path.kernel.received)
        invariant var o := OwnSide();
                  o == old(OwnSide()).(fillLog := o.fillLog, fillTail := o.fillTail, free := o.free)
        invariant |path.Fill().log| == |old(path.Fill().log)| + added
        invariant path.Fill().Room(path.fill.size) == room - added
        invariant |path.umem.availableFrames| == free - added
        invariant added == 0 || added <= room
      {
        var ok := PrefillOne(at);
        if !ok {
          break;
        }
      }
      KernelActs(Nothing, at);
      CommitFill(at);
    }

    method SyncFill(ghost upTo: nat)
      requires Inv(Nothing, upTo)
      modifies path.objects
      ensures Inv(Nothing, upTo) && path.Rx() == old(path.Rx())
      ensures path.Fill() == old(path.Fill()).SeeTail()
      ensures OwnSide() == old(OwnSide()).(fillTail := old(path.Fill().tail)) && KernelSide() == old(KernelSide())
      ensures path.kernel.received == old(path.kernel.received)
    {
      hide RxPath.Consistent, RxPath.Accounted, SharedRel, ProducerRel, ConsumerRel, Traced, TxWellFormed;
      path.SyncFill(Nothing, Outside());
    }

    lemma RingsBounded(upTo: nat)
      requires Inv(Nothing, upTo)
      ensures Completed().read <= |Completed().log| <= Completed().tail + completion.size
      ensures |path.Rx().log| <= path.Rx().tail + path.rx.size
    {
      SharedOrdered(completion.mmap.View(), Completed());
      path.Ordered();
    }

    lemma TxBounded(upTo: nat)
      requires Inv(Nothing, upTo)
      ensures |Tx().log| == base + |sources| && Tx().seenTail <= Tx().tail
    {
      SharedOrdered(tx.mmap.View(), tx.mmap.fifo);
    }

    /** Pre-fill and any number of passes: every pool frame stays in exactly one place, except
        that at most one is lost, by the pre-fill; and what is transmitted are rewritten wanted
        packets, in the order received, all of them while they are no more than the TX ring's slots. */
    method Run(rxSize: nat, rounds: nat)
      requires Inv(Nothing, path.Rx().read) && lost == multiset{} && rxSize == path.fill.size
      modifies objects, path.objects, this`lost, this`wire, this`sources, this`batchCount
      ensures Inv(Nothing, path.Rx().read) && |lost| <= 1
      ensures lost == multiset{} <==>
                Min(rxSize, |old(path.umem.availableFrames)|) <= old(path.Fill()).SeeTail().Room(path.fill.size)
      ensures Completed().tail == old(Completed().tail)
      ensures Completed().read <= |Completed().log|
      ensures |Completed().log| <= old(Completed().tail) + completion.size
      ensures NoneWanted(path.kernel.received, old(path.Rx().read)) ==>
                path.Rx().tail == old(path.Rx().tail) && |path.Rx().log| <= old(path.Rx().tail) + path.rx.size
      ensures old(path.Rx().read) <= path.Rx().read <= |path.kernel.received|
      ensures var at := WantedAt(path.kernel.received, old(path.Rx().read), path.Rx().read);
              && (config.forward.None? ==> sources == old(sources))
              && (config.forward.Some? && |at| <= TxSlots(old(OwnSide()), Limits()) ==> sources == old(sources) + at)
    {
      hide Consistent, RxPath.Inv, Faithful, NoneWanted, WantedAt, ToForward;
      Shape(path.Rx().read);
      TxBounded(path.Rx().read);
      ghost var o := OwnSide();
      Prefill(rxSize);
      batchCount := 0;
      ghost var dropped, start, was := lost, path.Rx().read, sources;
      Shape(start);
      NothingWanted(path.kernel.received, start);
      for round := 0 to rounds
        invariant Inv(Nothing, path.Rx().read) && lost == dropped && batchCount == 0
        invariant start <= path.Rx().read <= |path.kernel.received| && old(path.kernel.received) <= path.kernel.received
        invariant NoneWanted(path.kernel.received, start) ==> path.Rx().tail == old(path.Rx().tail)
        invariant Completed().tail == old(Completed().tail) && o.txTail <= Tx().seenTail
        invariant AllForwarded(config, o, Limits(), was, sources, WantedAt(path.kernel.received, start, path.Rx().read))
      {
        ghost var received, read, before, from := path.kernel.received, path.Rx().read, OwnSide(), sources;
        TxBounded(read);
        Round();
        ghost var all := path.kernel.received;
        WantedAtLater(received, all, start, read);
        WantedAtSplit(all, start, read, path.Rx().read);
        ForwardedMore(config, o, before.(txTail := Tx().seenTail), Limits(), was, from, sources,
                      WantedAt(all, start, read), WantedAt(all, read, path.Rx().read));
        if NoneWanted(all, start) {
          NoneWantedPart(received, all, start, start);
          NoneWantedPart(all, all, read, start);
          NoneWantedAt(all, read, path.Rx().read);
        }
      }
      RingsBounded(path.Rx().read);
    }
  }
}

/** Opening sockets: rings as the kernel maps them, the fill ring filled before the bind for
    zero-copy drivers, and the three loops started from there. */
module Socket {
  import opened Words
  import opened Rings
  import opened RingObjects
  import opened Frames
  import opened Umem
  import opened Kernel
  import opened TxModel
  import opened TxLoop
  import opened RelayModel
  import opened ReceivePath
  import opened RxLoop
  import RelaySteps
  import opened RelayLoop

  /** Moves one frame per slot of an empty fill ring out of the free list. It succeeds exactly when
      there are that many frames; the ring's write cannot fail. Frames already moved stay in the
      ring, unpublished, when it fails. */
  method Prepopulate(umem: SliceUmem, fill: RxFillRing) returns (ok: bool)
    requires umem.Valid() && fill.Valid() && fill.mmap.fifo.Room(fill.size) == fill.size
    modifies umem, fill.producer, fill.mmap, fill.mmap.desc
    ensures umem.Valid() && fill.Valid()
    ensures ok <==> |old(umem.availableFrames)| >= fill.size
    ensures old(fill.mmap.fifo.log) <= fill.mmap.fifo.log
    ensures var added := fill.mmap.fifo.log[|old(fill.mmap.fifo.log)|..];
            && |added| == Min(fill.size, |old(umem.availableFrames)|)
            && multiset(old(umem.availableFrames)) == multiset(umem.availableFrames) + AddrPlace(added, umem.frameSize)
    ensures |umem.availableFrames| == |old(umem.availableFrames)| - Min(fill.size, |old(umem.availableFrames)|)
    ensures var f, log := old(fill.mmap.fifo), fill.mmap.fifo.log;
            fill.mmap.fifo == f.(log := log, head := if ok then |log| else f.head)
  {
    hide AddrPlace, FrameOf, SharedRel, ProducerRel;
    ghost var f, free := fill.mmap.fifo, umem.availableFrames;
    AddrPlaceNone(f.log[|f.log|..], umem.frameSize);
    for n := 0 to fill.size
      invariant umem.Valid() && fill.Valid() && n <= |free|
      invariant fill.mmap.fifo == f.(log := fill.mmap.fifo.log) && f.log <= fill.mmap.fifo.log
      invariant |fill.mmap.fifo.log| == |f.log| + n && |umem.availableFrames| == |free| - n
      invariant multiset(free)
             == multiset(umem.availableFrames) + AddrPlace(fill.mmap.fifo.log[|f.log|..], umem.frameSize)
    {
      var frame := umem.Reserve();
      if frame.None? {
        return false;
      }
      AddrPlacePush(fill.mmap.fifo.log, |f.log|, frame.value.offset, umem.frameSize);
      var written := fill.Write(frame.value);
      assert written;
    }
    fill.Commit();
    return true;
  }

  lemma AddrPlaceNone(addrs: seq<nat>, frameSize: nat)
    requires frameSize > 0 && addrs == []
    ensures AddrPlace(addrs, frameSize) == multiset{}
  {
  }

  /** The pool of a buffer. */
  ghost function Pool(buffer: array<u8>, frameSize: nat): multiset<nat>
    requires frameSize > 0
  {
    multiset(AllFrames(buffer.Length / frameSize))
  }

  lemma PoolIsDistinct(buffer: array<u8>, frameSize: nat)
    requires frameSize > 0
    ensures Distinct(Pool(buffer, frameSize))
    ensures forall f: nat :: f in Pool(buffer, frameSize) ==> f < buffer.Length / frameSize
  {
    var n := buffer.Length / frameSize;
    forall f: nat
      ensures multiset(AllFrames(n))[f] <= 1 && (f in multiset(AllFrames(n)) ==> f < n)
    {
      AllFramesOnce(n, f);
    }
  }

  /** A ring as the kernel maps it, from any cursor on. */
  method OpenFill(size: u32, cursor: u32) returns (fill: RxFillRing)
    requires PowerOfTwo(size)
    ensures fresh(fill) && fresh(fill.mmap) && fresh(fill.mmap.desc) && fresh(fill.producer)
    ensures fill.Valid() && fill.size == size
    ensures var f := fill.mmap.fifo; f.head == f.tail == |f.log| == f.read == f.seenHead == f.seenTail
  {
    var mmap := new RingMmap(size, cursor, 0);
    fill := new RxFillRing(mmap, size);
  }

  method OpenRx(size: u32, cursor: u32) returns (rx: RxRing)
    requires PowerOfTwo(size)
    ensures fresh(rx) && fresh(rx.mmap) && fresh(rx.mmap.desc) && fresh(rx.consumer)
    ensures rx.Valid() && rx.size == size
    ensures var f := rx.mmap.fifo; f.head == f.tail == |f.log| == f.read == f.seenHead == f.seenTail == cursor
  {
    var mmap := new RingMmap(size, cursor, XdpDesc(0, 0, 0));
    rx := new RxRing(mmap, size);
  }

  /** The kernel's ends of the receive rings. */
  method AttachRx(umem: SliceUmem, fill: RxFillRing, rx: RxRing) returns (kernel: RxKernel)
    requires umem.Valid() && fill.Valid() && rx.Valid()
    requires fill.mmap.fifo.read == fill.mmap.fifo.tail
    requires rx.mmap.fifo.read == rx.mmap.fifo.head == |rx.mmap.fifo.log|
    modifies fill.mmap`fifo, rx.mmap`fifo
    ensures fresh(kernel) && fresh(kernel.fill.consumer) && fresh(kernel.rx.producer)
    ensures kernel.Valid() && fill.Valid() && rx.Valid() && kernel.inflight == []
    ensures kernel.frameSize == umem.frameSize && kernel.buffer == umem.buffer
    ensures kernel.fill.mmap == fill.mmap && kernel.rx.mmap == rx.mmap
    ensures fill.mmap.fifo == old(fill.mmap.fifo).SeeHead() && rx.mmap.fifo == old(rx.mmap.fifo).SeeTail()
  {
    hide SharedRel, ProducerRel, ConsumerRel;
    ghost var f, g := fill.mmap.fifo, rx.mmap.fifo;
    FifoSeen(fill.mmap.View(), f);
    FifoSeen(rx.mmap.View(), g);
    ProducerKept(End(fill.producer.cachedProducer, fill.producer.cachedConsumer), f, f.SeeHead());
    ConsumerKept(End(rx.consumer.cachedProducer, rx.consumer.cachedConsumer), g, g.SeeTail());
    var kfill := new TxCompletionRing(fill.mmap, fill.mmap.desc.Length);
    var krx := new TxRing(rx.mmap, rx.mmap.desc.Length);
    kernel := new RxKernel(kfill, krx, umem.buffer, umem.frameSize);
  }

  method OpenTx(size: u32, cursor: u32) returns (tx: TxRing)
    requires PowerOfTwo(size)
    ensures fresh(tx) && fresh(tx.mmap) && fresh(tx.mmap.desc) && fresh(tx.producer)
    ensures tx.Valid() && tx.size == size
    ensures var f := tx.mmap.fifo; f.head == f.tail == |f.log| == f.read == f.seenHead == f.seenTail
  {
    var mmap := new RingMmap(size, cursor, XdpDesc(0, 0, 0));
    tx := new TxRing(mmap, size);
  }

  method OpenCompletion(size: u32, cursor: u32) returns (completion: TxCompletionRing)
    requires PowerOfTwo(size)
    ensures fresh(completion) && fresh(completion.mmap) && fresh(completion.mmap.desc) && fresh(completion.consumer)
    ensures completion.Valid() && completion.size == size
    ensures var f := completion.mmap.fifo; f.head == f.tail == |f.log| == f.read == f.seenHead == f.seenTail
  {
    var mmap := new RingMmap(size, cursor, 0);
    completion := new TxCompletionRing(mmap, size);
  }

  /** The kernel's ends of the transmit rings. */
  method AttachTx(tx: TxRing, completion: TxCompletionRing, frameSize: nat, cooperative: bool)
    returns (kernel: TxKernel)
    requires tx.Valid() && completion.Valid() && frameSize > 0
    requires tx.mmap.fifo.read == tx.mmap.fifo.tail && completion.mmap.fifo.head == |completion.mmap.fifo.log|
    modifies tx.mmap`fifo, completion.mmap`fifo
    ensures fresh(kernel) && fresh(kernel.tx.consumer) && fresh(kernel.done.producer)
    ensures kernel.Valid() && tx.Valid() && completion.Valid() && kernel.inflight == []
    ensures kernel.frameSize == frameSize && kernel.cooperative == cooperative
    ensures kernel.tx.mmap == tx.mmap && kernel.done.mmap == completion.mmap
    ensures tx.mmap.fifo == old(tx.mmap.fifo).SeeHead() && completion.mmap.fifo == old(completion.mmap.fifo).SeeTail()
  {
    hide SharedRel, ProducerRel, ConsumerRel;
    ghost var f, g := tx.mmap.fifo, completion.mmap.fifo;
    FifoSeen(tx.mmap.View(), f);
    FifoSeen(completion.mmap.View(), g);
    ProducerKept(End(tx.producer.cachedProducer, tx.producer.cachedConsumer), f, f.SeeHead());
    ConsumerKept(End(completion.consumer.cachedProducer, completion.consumer.cachedConsumer), g, g.SeeTail());
    var ktx := new RxRing(tx.mmap, tx.mmap.desc.Length);
    var kdone := new RxFillRing(completion.mmap, completion.mmap.desc.Length);
    kernel := new TxKernel(ktx, kdone, frameSize, cooperative);
  }

  /** The transmit rings of a new socket with the kernel at their other ends. */
  method OpenTxSide(completionSize: u32, txSize: u32, cursor: u32, frameSize: nat, cooperative: bool)
    returns (tx: TxRing, completion: TxCompletionRing, kernel: TxKernel)
    requires PowerOfTwo(completionSize) && PowerOfTwo(txSize) && frameSize > 0
    ensures fresh(tx) && fresh(tx.mmap) && fresh(tx.mmap.desc) && fresh(tx.producer)
    ensures fresh(completion) && fresh(completion.mmap) && fresh(completion.mmap.desc) && fresh(completion.consumer)
    ensures fresh(kernel) && fresh(kernel.tx.consumer) && fresh(kernel.done.producer)
    ensures tx.Valid() && completion.Valid() && kernel.Valid()
    ensures kernel.frameSize == frameSize && kernel.cooperative == cooperative && kernel.inflight == []
    ensures kernel.tx.mmap == tx.mmap && kernel.done.mmap == completion.mmap && tx.size == txSize
    ensures tx.mmap.fifo.head == tx.mmap.fifo.read == tx.mmap.fifo.seenTail == |tx.mmap.fifo.log|
    ensures completion.mmap.fifo.read == |completion.mmap.fifo.log|
  {
    hide SharedRel, ProducerRel, ConsumerRel, PowerOfTwo, TxWellFormed;
    tx := OpenTx(txSize, cursor);
    completion := OpenCompletion(completionSize, cursor);
    kernel := AttachTx(tx, completion, frameSize, cooperative);
  }

  /** The RX ring of a new socket with the kernel at the other ends of fill and RX ring. */
  method OpenRxSide(umem: SliceUmem, fill: RxFillRing, rxSize: u32, cursor: u32) returns (rx: RxRing, kernel: RxKernel)
    requires umem.Valid() && fill.Valid() && fill.mmap.fifo.read == fill.mmap.fifo.tail && PowerOfTwo(rxSize)
    modifies fill.mmap`fifo
    ensures fresh(rx) && fresh(rx.mmap) && fresh(rx.mmap.desc) && fresh(rx.consumer)
    ensures fresh(kernel) && fresh(kernel.fill.consumer) && fresh(kernel.rx.producer)
    ensures kernel.Valid() && fill.Valid() && rx.Valid() && kernel.inflight == []
    ensures kernel.frameSize == umem.frameSize && kernel.buffer == umem.buffer
    ensures kernel.fill.mmap == fill.mmap && kernel.rx.mmap == rx.mmap
    ensures fill.mmap.fifo == old(fill.mmap.fifo).SeeHead() && rx.mmap.fifo.read == |rx.mmap.fifo.log| == cursor
  {
    hide SharedRel, ProducerRel, ConsumerRel, PowerOfTwo, RxIntact, RxWellFormed;
    rx := OpenRx(rxSize, cursor);
    kernel := AttachRx(umem, fill, rx);
  }

  lemma FifoSeen<T>(m: Shared<T>, f: Fifo<T>)
    requires SharedRel(m, f)
    ensures SharedRel(m, f.SeeHead()) && SharedRel(m, f.SeeTail()) && |m.desc| < U32_SPAN
  {
    SizeBound(|m.desc|);
  }

  /** Allocator and fill ring of a new socket, prepopulated for zero-copy. */
  method OpenFrames(buffer: array<u8>, frameSize: u32, fillSize: u32, cursor: u32, zeroCopy: bool)
    returns (ok: bool, umem: SliceUmem, fill: RxFillRing)
    requires frameSize > 0 && PowerOfTwo(fillSize)
    ensures fresh(umem) && fresh(fill) && fresh(fill.mmap) && fresh(fill.mmap.desc) && fresh(fill.producer)
    ensures umem.Valid() && umem.buffer == buffer && umem.frameSize == frameSize
    ensures fill.Valid() && fill.size == fillSize
    ensures ok <==> !zeroCopy || buffer.Length / frameSize >= fillSize
    ensures var f := fill.mmap.fifo; f.tail == f.read == f.seenTail && f.read <= |f.log|
    ensures Pool(buffer, frameSize)
         == multiset(umem.availableFrames) + AddrPlace(fill.mmap.fifo.log[fill.mmap.fifo.read..], frameSize)
    ensures ok ==> fill.mmap.fifo.head == |fill.mmap.fifo.log|
    ensures ok ==> var taken := if zeroCopy then fillSize else 0;
                   && |umem.availableFrames| == buffer.Length / frameSize - taken
                   && fill.mmap.fifo.Room(fillSize) == fillSize - taken
  {
    hide AddrPlace, SharedRel, ProducerRel;
    umem := new SliceUmem(buffer, frameSize);
    fill := OpenFill(fillSize, cursor);
    AddrPlaceNone(fill.mmap.fifo.log[fill.mmap.fifo.read..], frameSize);
    ok := true;
    if zeroCopy {
      ok := Prepopulate(umem, fill);
    }
  }

  /** The receive side of a new socket: every frame is free or in the fill ring. */
  method OpenPath(buffer: array<u8>, frameSize: u32, fillSize: u32, rxSize: u32, cursor: u32, zeroCopy: bool)
    returns (path: RxPath?)
    requires frameSize > 0 && PowerOfTwo(fillSize) && PowerOfTwo(rxSize)
    ensures path != null <==> !zeroCopy || buffer.Length / frameSize >= fillSize
    ensures path != null ==>
              && fresh(path) && fresh(path.objects - {buffer}) && path.umem.buffer == buffer
              && path.umem.frameSize == frameSize && path.fill.size == fillSize
              && path.Ready(Pool(buffer, frameSize)) && path.Rx().read == cursor
    ensures path != null ==>
              var taken := if zeroCopy then fillSize else 0;
              && |path.umem.availableFrames| == buffer.Length / frameSize - taken
              && path.Fill().seenTail == path.Fill().tail
              && path.Fill().Room(fillSize) == fillSize - taken
  {
    hide AddrPlace, SharedRel, ProducerRel, ConsumerRel, PowerOfTwo, Distinct, Pool, RxIntact;
    var ok, umem, fill := OpenFrames(buffer, frameSize, fillSize, cursor, zeroCopy);
    if !ok {
      return null;
    }
    var rx, kernel := OpenRxSide(umem, fill, rxSize, cursor);
    PoolIsDistinct(buffer, frameSize);
    path := new RxPath(umem, fill, rx, kernel);
  }

  /** The receive loop over a new socket, prepopulated or not: any number of rounds keeps every
      frame of the buffer in exactly one place, and counts everything published before the last one. */
  method Receive(buffer: array<u8>, frameSize: u32, rxSize: u32, cursor: u32, zeroCopy: bool, rounds: nat)
    returns (path: RxPath?, packets: nat, bytes: nat, ghost published: nat)
    requires frameSize > 0 && PowerOfTwo(rxSize)
    modifies buffer
    ensures path != null <==> !zeroCopy || buffer.Length / frameSize >= rxSize
    ensures path != null ==> path.Inv(Nothing, ReceiveOnly(Pool(buffer, frameSize)))
    ensures path != null ==>
              && cursor <= path.Rx().read <= |path.Rx().log| && packets == path.Rx().read - cursor
              && bytes == TotalLen(path.Rx().log[cursor..path.Rx().read])
              && cursor <= published <= path.Rx().head && FillToppedUp(path)
              && (rounds > 0 ==> published <= path.Rx().read == path.Rx().tail)
  {
    hide RxPath.Inv, RxPath.Ready, Pool, TotalLen;
    packets, bytes, published := 0, 0, cursor;
    path := OpenPath(buffer, frameSize, rxSize, rxSize, cursor, zeroCopy);
    if path != null {
      path.ReadyIsAccounted(ReceiveOnly(Pool(buffer, frameSize)));
      packets, bytes, published := ReceiveLoop(path, rounds, Pool(buffer, frameSize));
    }
  }

  /** A relay session over a new socket, with every frame accounted for. */
  method OpenRelay(config: RelayConfig, path: RxPath, completionSize: u32, txSize: u32, cursor: u32,
                   ghost pool: multiset<nat>)
    returns (session: RelaySession)
    requires PowerOfTwo(completionSize) && PowerOfTwo(txSize) && path.Ready(pool)
    ensures fresh(session) && fresh(session.objects) && session.path == path && session.config == config
    ensures session.pool == pool && session.lost == multiset{} && session.batchCount == 0 && session.sources == []
    ensures session.Inv(Nothing, path.Rx().read) && RelaySteps.TxSlots(session.OwnSide(), session.Limits()) == txSize
  {
    hide SharedRel, ProducerRel, ConsumerRel, PowerOfTwo, AddrPlace, Distinct, RelayInv, RxIntact;
    var tx, completion, kernel := OpenTxSide(completionSize, txSize, cursor, path.umem.frameSize, false);
    path.ReadyIsAccounted(Rest(kernel.State(), multiset{}, pool, Blank(|tx.mmap.fifo.log|)));
    ghost var objects: set<object> :=
      {kernel, kernel.tx.consumer, kernel.done.producer, tx.producer, tx.mmap, tx.mmap.desc,
       completion.consumer, completion.mmap, completion.mmap.desc};
    session := new RelaySession(config, path, tx, completion, kernel, pool, objects);
  }

  /** Kernel activity between the bind and the pre-fill. `released` fill slots are given back. */
  method Settle(session: RelaySession) returns (ghost released: nat)
    requires session.Inv(Nothing, session.path.Rx().read)
    modifies session.objects, session.path.objects
    ensures session.Inv(Nothing, session.path.Rx().read) && session.OwnSide() == old(session.OwnSide())
    ensures session.path.Fill().tail == old(session.path.Fill().tail) + released
  {
    hide RxPath.Inv, RelaySession.Consistent, RelaySession.Faithful;
    ghost var tail := session.path.Fill().tail;
    session.KernelActs(Nothing, session.path.Rx().read);
    released := session.path.Fill().tail - tail;
  }

  /** The relay over a new socket, which the kernel uses from the bind on. At most one frame is
      lost. One is exactly when the fill ring was prepopulated and the kernel had released fewer of
      its slots at the pre-fill's synchronisation than there are frames to add. Up to a TX ring of
      wanted packets, each is forwarded. */
  method Relay(config: RelayConfig, buffer: array<u8>, frameSize: u32, rxSize: u32, completionSize: u32, txSize: u32,
               cursor: u32, zeroCopy: bool, rounds: nat) returns (session: RelaySession?, ghost released: nat)
    requires frameSize > 0 && PowerOfTwo(rxSize) && PowerOfTwo(completionSize) && PowerOfTwo(txSize)
    modifies buffer
    ensures session != null <==> !zeroCopy || buffer.Length / frameSize >= rxSize
    ensures session != null ==>
              && session.Inv(Nothing, session.path.Rx().read) && session.pool == Pool(buffer, frameSize)
              && |session.lost| <= 1
              && (session.lost != multiset{} <==>
                    zeroCopy && released < Min(rxSize, buffer.Length / frameSize - rxSize))
    ensures session != null ==>
              && cursor <= session.path.Rx().read <= |session.path.kernel.received|
              && (config.forward.None? ==> session.sources == [])
              && var at := RelaySteps.WantedAt(session.path.kernel.received, cursor, session.path.Rx().read);
                 config.forward.Some? && |at| <= txSize ==> session.sources == at
  {
    hide RxPath.Inv, RxPath.Ready, Pool, RelaySession.Consistent, RelaySession.Faithful, RelaySteps.WantedAt;
    released := 0;
    var path := OpenPath(buffer, frameSize, rxSize, rxSize, cursor, zeroCopy);
    if path == null {
      return null, released;
    }
    session := OpenRelay(config, path, completionSize, txSize, cursor, Pool(buffer, frameSize));
    released := Settle(session);
    session.Run(rxSize, rounds);
  }

  /** A transmit session over the frames a new socket leaves free. */
  method OpenSession(config: Config, umem: SliceUmem, buffer: array<u8>, completionSize: u32, txSize: u32, cursor: u32,
                     cooperative: bool, polls: nat) returns (session: TxSession)
    requires umem.Valid() && umem.buffer == buffer && umem.frameSize == config.frameSize
    requires PowerOfTwo(completionSize) && PowerOfTwo(txSize)
    requires multiset(umem.availableFrames) <= Pool(buffer, umem.frameSize)
    ensures fresh(session) && fresh(session.objects - {umem, buffer})
    ensures session.config == config && session.umem == umem && session.ring.size == txSize
    ensures session.kernel.cooperative == cooperative && session.polls == polls
    ensures session.batchedPackets == 0 && session.fates == [] && session.waitsJustified && session.Uncommitted() == 0
    ensures session.pool == multiset(umem.availableFrames) && session.Inv(multiset{})
  {
    hide SharedRel, ProducerRel, ConsumerRel, PowerOfTwo, Distinct, Pool, TxInv;
    var tx, completion, kernel := OpenTxSide(completionSize, txSize, cursor, umem.frameSize, cooperative);
    FreeIsDistinct(buffer, umem.frameSize, umem.availableFrames);
    session := new TxSession(config, umem, tx, completion, kernel, polls);
  }

  /** The transmit loop over a new socket, from the first event to the final drain. With a
      cooperative kernel and enough polls it finishes exactly when the run can be finished. */
  method Transmit(config: Config, buffer: array<u8>, frameSize: u32, fillSize: u32, completionSize: u32, txSize: u32,
                  cursor: u32, zeroCopy: bool, cooperative: bool, events: seq<Event>, polls: nat)
    returns (session: TxSession?, r: Progress, ghost loose: multiset<nat>)
    requires 0 < config.frameSize == frameSize
    requires PowerOfTwo(fillSize) && PowerOfTwo(completionSize) && PowerOfTwo(txSize)
    modifies buffer
    ensures session != null <==> !zeroCopy || buffer.Length / frameSize >= fillSize
    ensures session != null ==>
              && session.config == config && session.Inv(loose) && session.ring.size == txSize
              && session.pool <= Pool(buffer, frameSize)
              && |session.pool| == buffer.Length / frameSize - (if zeroCopy then fillSize else 0)
              && (r == Done ==> session.CanFinish(events) && multiset(session.umem.availableFrames) == session.pool)
              && (cooperative && polls >= 2 * (|RunFates(config, Items(events))| + |session.pool| + 1) ==>
                    (r == Done <==> session.CanFinish(events)))
  {
    hide AddrPlace, Pool, RunFates, Items, PowerOfTwo;
    hide TxSession.Consistent, TxSession.Accounted, TxSession.Recorded, TxSession.CanFinish;
    loose := multiset{};
    var ok, umem, fill := OpenFrames(buffer, frameSize, fillSize, cursor, zeroCopy);
    if !ok {
      return null, OutOfPolls, loose;
    }
    session := OpenSession(config, umem, buffer, completionSize, txSize, cursor, cooperative, polls);
    r, loose := session.Serve(events);
  }

  lemma FreeIsDistinct(buffer: array<u8>, frameSize: nat, free: seq<nat>)
    requires frameSize > 0 && multiset(free) <= Pool(buffer, frameSize)
    ensures Distinct(multiset(free)) && forall f: nat :: f in free ==> f < buffer.Length / frameSize
  {
    hide Pool;
    PoolIsDistinct(buffer, frameSize);
    forall f: nat | f in free
      ensures f < buffer.Length / frameSize
    {
      assert f in multiset(free);
    }
  }
}

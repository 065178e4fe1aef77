/** Values behind the receive and relay loops: where every frame is across both directions,
    which packets are forwarded, and what each transmitted packet was made of. */
module RelayModel {
  import opened Words
  import opened Rings
  import opened RingObjects
  import opened Frames
  import opened Packet
  import opened Kernel

  const RELAY_BATCH: nat := 32
  const VOTE_SIZE_THRESHOLD: nat := 400
  const IPPROTO_UDP: u8 := 17

  /** The relay's parameters: the route to forward along, or None when it only receives. */
  datatype RelayConfig = RelayConfig(forward: Option<Route>)

  /** Packets the relay looks at: long enough and UDP. */
  predicate Wanted(packet: seq<u8>) {
    |packet| >= PACKET_HEADER_SIZE + VOTE_SIZE_THRESHOLD && packet[ETH_HEADER_SIZE + 9] == IPPROTO_UDP
  }

  /** Of the UDP packets both loops build, those with at least 400 bytes of payload; of any others, those of at
      least 442 bytes with 17 in the protocol field. */
  lemma WantedIff(r: Route, payload: seq<u8>, packet: seq<u8>)
    ensures Wanted(PacketBytes(r, payload)) <==> |payload| >= 400
    ensures Wanted(packet) <==> |packet| >= 442 && packet[23] == 17
  {
    hide PacketBytes, Fold, ByteSum;
    PacketDescribed(r, payload);
    var p := PacketBytes(r, payload);
    assert p[22..24][1] == p[23];
  }

  /** What the loop has in its hand between two ring operations. */
  datatype Hand = Nothing | Bare(frame: nat) | Holding(desc: XdpDesc, packet: seq<u8>)

  function HandFrames(hand: Hand, frameSize: nat): multiset<nat>
    requires frameSize > 0
  {
    match hand
    case Nothing => multiset{}
    case Bare(frame) => multiset{frame}
    case Holding(desc, _) => multiset{FrameOf(desc.addr, frameSize)}
  }

  /** Every frame is in exactly one place or lost; descriptors the kernel may read for
      transmission, and the packet in hand, are intact. */
  ghost predicate RelayInv(free: seq<nat>, hand: Hand, rx: RxState, tx: TxState, lost: multiset<nat>,
                           pool: multiset<nat>, wire: seq<seq<u8>>, buffer: seq<u8>, frameSize: nat)
  {
    && frameSize > 0
    && RxWellFormed(rx) && TxWellFormed(tx)
    && Distinct(pool)
    && (forall f: nat :: f in pool ==> f < |buffer| / frameSize)
    && multiset(free) + HandFrames(hand, frameSize) + RxHeld(rx, frameSize) + TxHeld(tx, frameSize) + lost == pool
    && |wire| == |tx.tx.log|
    && (forall p: nat :: TxLive(tx, p) ==> Carries(buffer, tx.tx.log[p], frameSize, wire[p]))
    && (hand.Holding? ==> Carries(buffer, hand.desc, frameSize, hand.packet))
  }

  /** A new socket: frames are free or were put in the fill ring, and nothing else has happened. */
  lemma InvInitial(free: seq<nat>, rx: RxState, tx: TxState, pool: multiset<nat>, wire: seq<seq<u8>>,
                   buffer: seq<u8>, frameSize: nat)
    requires frameSize > 0 && RxWellFormed(rx) && TxWellFormed(tx) && |wire| == |tx.tx.log|
    requires rx.inflight == [] && rx.rx.read == |rx.rx.log|
    requires tx.tx.read == |tx.tx.log| && tx.inflight == [] && tx.done.read == |tx.done.log|
    requires Distinct(pool) && forall f: nat :: f in pool ==> f < |buffer| / frameSize
    requires pool == multiset(free) + AddrPlace(rx.fill.Pending(), frameSize)
    ensures RelayInv(free, Nothing, rx, tx, multiset{}, pool, wire, buffer, frameSize)
  {
    assert DescFrames(tx.tx.Pending(), frameSize) == [] && AddrFrames(tx.done.Pending(), frameSize) == [];
    assert DescFrames(tx.inflight, frameSize) == [];
    assert TxHeld(tx, frameSize) == multiset{};
    assert DescFrames(rx.rx.Pending(), frameSize) == [] && AddrFrames(rx.inflight, frameSize) == [];
    assert RxHeld(rx, frameSize) == AddrPlace(rx.fill.Pending(), frameSize);
  }

  lemma InvRxKernel(free: seq<nat>, hand: Hand, a: RxState, b: RxState, tx: TxState, lost: multiset<nat>,
                    pool: multiset<nat>, wire: seq<seq<u8>>, before: seq<u8>, after: seq<u8>, frameSize: nat)
    requires RelayInv(free, hand, a, tx, lost, pool, wire, before, frameSize)
    requires RxWellFormed(b) && RxEvolves(a, b, frameSize)
    requires ChangedOnlyIn(before, after, Fillable(a, frameSize), frameSize)
    ensures RelayInv(free, hand, b, tx, lost, pool, wire, after, frameSize)
  {
    hide FrameOf, AddrPlace, DescPlace, Carries;
    forall p: nat | TxLive(tx, p)
      ensures Carries(after, tx.tx.log[p], frameSize, wire[p])
    {
      LiveIsHeld(tx, frameSize, p);
      NotFillable(free, hand, a, tx, lost, pool, wire, before, frameSize, tx.tx.log[p]);
      CarriesKept(before, after, tx.tx.log[p], frameSize, wire[p]);
    }
    if hand.Holding? {
      NotFillable(free, hand, a, tx, lost, pool, wire, before, frameSize, hand.desc);
      CarriesKept(before, after, hand.desc, frameSize, hand.packet);
    }
  }

  /** A frame outside the receive side is not one the kernel may fill. */
  lemma NotFillable(free: seq<nat>, hand: Hand, rx: RxState, tx: TxState, lost: multiset<nat>,
                    pool: multiset<nat>, wire: seq<seq<u8>>, buffer: seq<u8>, frameSize: nat, d: XdpDesc)
    requires RelayInv(free, hand, rx, tx, lost, pool, wire, buffer, frameSize)
    requires || FrameOf(d.addr, frameSize) in TxHeld(tx, frameSize)
             || FrameOf(d.addr, frameSize) in HandFrames(hand, frameSize)
    ensures FrameOf(d.addr, frameSize) !in Fillable(rx, frameSize)
  {
    hide FrameOf, AddrPlace, DescPlace, Carries, TxLive, TxHeld, HandFrames;
    assert pool[FrameOf(d.addr, frameSize)] <= 1;
  }

  lemma InvTxKernel(free: seq<nat>, hand: Hand, rx: RxState, a: TxState, b: TxState, lost: multiset<nat>,
                    pool: multiset<nat>, wire: seq<seq<u8>>, buffer: seq<u8>, frameSize: nat)
    requires RelayInv(free, hand, rx, a, lost, pool, wire, buffer, frameSize)
    requires TxWellFormed(b) && TxEvolves(a, b, frameSize)
    ensures RelayInv(free, hand, rx, b, lost, pool, wire, buffer, frameSize)
  {
    hide FrameOf, AddrPlace, DescPlace, Carries, RxHeld, HandFrames;
  }

  /** Committing and refreshing cursors moves no frame. */
  lemma InvRxCursors(free: seq<nat>, hand: Hand, a: RxState, b: RxState, tx: TxState, lost: multiset<nat>,
                     pool: multiset<nat>, wire: seq<seq<u8>>, buffer: seq<u8>, frameSize: nat)
    requires RelayInv(free, hand, a, tx, lost, pool, wire, buffer, frameSize)
    requires b.fill.log == a.fill.log && b.fill.read == a.fill.read && b.inflight == a.inflight
    requires b.rx.log == a.rx.log && b.rx.read == a.rx.read && b.received == a.received
    ensures RelayInv(free, hand, b, tx, lost, pool, wire, buffer, frameSize)
  {
    hide FrameOf, AddrPlace, DescPlace, Carries, TxHeld, HandFrames;
    assert RxHeld(b, frameSize) == RxHeld(a, frameSize);
  }

  lemma InvTxCursors(free: seq<nat>, hand: Hand, rx: RxState, a: TxState, b: TxState, lost: multiset<nat>,
                     pool: multiset<nat>, wire: seq<seq<u8>>, buffer: seq<u8>, frameSize: nat)
    requires RelayInv(free, hand, rx, a, lost, pool, wire, buffer, frameSize)
    requires b.tx.log == a.tx.log && b.tx.read == a.tx.read
    requires b.done.log == a.done.log && b.done.read == a.done.read
    requires b.inflight == a.inflight && b.positions == a.positions
    ensures RelayInv(free, hand, rx, b, lost, pool, wire, buffer, frameSize)
  {
    hide FrameOf, AddrPlace, DescPlace, Carries, RxHeld, HandFrames;
    assert TxHeld(b, frameSize) == TxHeld(a, frameSize);
    assert forall p: nat :: TxLive(b, p) ==> TxLive(a, p);
  }

  lemma InvCompletion(free: seq<nat>, hand: Hand, rx: RxState, tx: TxState, lost: multiset<nat>,
                      pool: multiset<nat>, wire: seq<seq<u8>>, buffer: seq<u8>, frameSize: nat)
    requires RelayInv(free, hand, rx, tx, lost, pool, wire, buffer, frameSize) && tx.done.read < |tx.done.log|
    ensures RelayInv(free + [FrameOf(tx.done.log[tx.done.read], frameSize)], hand, rx, tx.(done := tx.done.Take()),
                     lost, pool, wire, buffer, frameSize)
  {
    hide FrameOf, Carries, RxHeld, AddrPlace, DescPlace;
    var tx' := tx.(done := tx.done.Take());
    var moved := multiset{FrameOf(tx.done.log[tx.done.read], frameSize)};
    assert TxHeld(tx, frameSize) == TxHeld(tx', frameSize) + moved by {
      AddrPlaceTake(tx.done.log, tx.done.read, frameSize);
    }
    Regroup(multiset(free), HandFrames(hand, frameSize), moved, RxHeld(rx, frameSize), TxHeld(tx', frameSize), lost);
    assert forall p: nat :: TxLive(tx', p) ==> TxLive(tx, p);
  }

  /** Taking the next received packet in hand. */
  lemma InvReceive(free: seq<nat>, rx: RxState, tx: TxState, lost: multiset<nat>,
                   pool: multiset<nat>, wire: seq<seq<u8>>, buffer: seq<u8>, frameSize: nat)
    requires RelayInv(free, Nothing, rx, tx, lost, pool, wire, buffer, frameSize)
    requires rx.rx.read < |rx.rx.log| && RxIntact(rx, buffer, frameSize)
    ensures RelayInv(free, Holding(rx.rx.log[rx.rx.read], rx.received[rx.rx.read]), rx.(rx := rx.rx.Take()), tx,
                     lost, pool, wire, buffer, frameSize)
  {
    hide FrameOf, Carries, TxHeld, TxLive, AddrPlace, DescPlace;
    var rx' := rx.(rx := rx.rx.Take());
    var d := rx.rx.log[rx.rx.read];
    assert RxHeld(rx, frameSize) == RxHeld(rx', frameSize) + multiset{FrameOf(d.addr, frameSize)} by {
      DescPlaceTake(rx.rx.log, rx.rx.read, frameSize);
    }
    Regroup(multiset(free), multiset{}, multiset{FrameOf(d.addr, frameSize)}, RxHeld(rx', frameSize),
            TxHeld(tx, frameSize), lost);
  }

  /** A frame leaving one place for another keeps the sum. */
  lemma Regroup(a: multiset<nat>, b: multiset<nat>, moved: multiset<nat>, c: multiset<nat>, d: multiset<nat>,
                e: multiset<nat>)
    ensures a + b + (c + moved) + d + e == a + (b + moved) + c + d + e
    ensures a + b + c + (d + moved) + e == (a + moved) + b + c + d + e
    ensures b + moved == moved + b
    ensures multiset{} + moved == moved
  {
  }

  lemma InvReserve(free: seq<nat>, free': seq<nat>, frame: nat, rx: RxState, tx: TxState, lost: multiset<nat>,
                   pool: multiset<nat>, wire: seq<seq<u8>>, buffer: seq<u8>, frameSize: nat)
    requires RelayInv(free, Nothing, rx, tx, lost, pool, wire, buffer, frameSize)
    requires multiset(free) == multiset(free') + multiset{frame}
    ensures RelayInv(free', Bare(frame), rx, tx, lost, pool, wire, buffer, frameSize)
  {
    hide FrameOf, Carries, RxHeld, TxHeld, TxLive;
  }

  lemma InvRelease(free: seq<nat>, hand: Hand, rx: RxState, tx: TxState, lost: multiset<nat>,
                   pool: multiset<nat>, wire: seq<seq<u8>>, buffer: seq<u8>, frameSize: nat, offset: nat)
    requires RelayInv(free, hand, rx, tx, lost, pool, wire, buffer, frameSize)
    requires HandFrames(hand, frameSize) == multiset{FrameOf(offset, frameSize)}
    ensures RelayInv(free + [FrameOf(offset, frameSize)], Nothing, rx, tx, lost, pool, wire, buffer, frameSize)
  {
    hide FrameOf, Carries, RxHeld, TxHeld, TxLive;
  }

  lemma InvLose(free: seq<nat>, frame: nat, rx: RxState, tx: TxState, lost: multiset<nat>,
                pool: multiset<nat>, wire: seq<seq<u8>>, buffer: seq<u8>, frameSize: nat)
    requires RelayInv(free, Bare(frame), rx, tx, lost, pool, wire, buffer, frameSize)
    ensures RelayInv(free, Nothing, rx, tx, lost + multiset{frame}, pool, wire, buffer, frameSize)
  {
    hide FrameOf, Carries, RxHeld, TxHeld, TxLive;
  }

  lemma InvFill(free: seq<nat>, hand: Hand, rx: RxState, tx: TxState, lost: multiset<nat>,
                pool: multiset<nat>, wire: seq<seq<u8>>, buffer: seq<u8>, frameSize: nat, offset: nat)
    requires RelayInv(free, hand, rx, tx, lost, pool, wire, buffer, frameSize)
    requires HandFrames(hand, frameSize) == multiset{FrameOf(offset, frameSize)}
    ensures RelayInv(free, Nothing, rx.(fill := rx.fill.Push(offset)), tx, lost, pool, wire, buffer, frameSize)
  {
    hide FrameOf, Carries, TxHeld, TxLive, AddrPlace, DescPlace;
    AddrPlacePush(rx.fill.log, rx.fill.read, offset, frameSize);
  }

  /** Rewriting the packet in hand touches no other packet, received or queued. */
  lemma InvRewrite(free: seq<nat>, d: XdpDesc, packet: seq<u8>, packet': seq<u8>, rx: RxState, tx: TxState,
                   lost: multiset<nat>, pool: multiset<nat>, wire: seq<seq<u8>>, before: seq<u8>, after: seq<u8>,
                   frameSize: nat)
    requires RelayInv(free, Holding(d, packet), rx, tx, lost, pool, wire, before, frameSize)
    requires RxIntact(rx, before, frameSize)
    requires ChangedOnlyIn(before, after, multiset{FrameOf(d.addr, frameSize)}, frameSize)
    requires Carries(after, d, frameSize, packet')
    ensures RelayInv(free, Holding(d, packet'), rx, tx, lost, pool, wire, after, frameSize)
    ensures RxIntact(rx, after, frameSize)
  {
    hide FrameOf, AddrPlace, DescPlace, Carries;
    forall p: nat | TxLive(tx, p)
      ensures Carries(after, tx.tx.log[p], frameSize, wire[p])
    {
      LiveIsHeld(tx, frameSize, p);
      NotInHand(free, d, packet, rx, tx, lost, pool, wire, before, frameSize, tx.tx.log[p]);
      CarriesKept(before, after, tx.tx.log[p], frameSize, wire[p]);
    }
    forall p: nat | rx.rx.read <= p < |rx.rx.log|
      ensures Carries(after, rx.rx.log[p], frameSize, rx.received[p])
    {
      DescPlaceMember(rx.rx.Pending(), p - rx.rx.read, frameSize);
      NotInHand(free, d, packet, rx, tx, lost, pool, wire, before, frameSize, rx.rx.log[p]);
      CarriesKept(before, after, rx.rx.log[p], frameSize, rx.received[p]);
    }
  }

  /** A frame on either side is not the one in hand. */
  lemma NotInHand(free: seq<nat>, d: XdpDesc, packet: seq<u8>, rx: RxState, tx: TxState, lost: multiset<nat>,
                  pool: multiset<nat>, wire: seq<seq<u8>>, buffer: seq<u8>, frameSize: nat, e: XdpDesc)
    requires RelayInv(free, Holding(d, packet), rx, tx, lost, pool, wire, buffer, frameSize)
    requires FrameOf(e.addr, frameSize) in TxHeld(tx, frameSize)
             || FrameOf(e.addr, frameSize) in DescPlace(rx.rx.Pending(), frameSize)
    ensures FrameOf(e.addr, frameSize) != FrameOf(d.addr, frameSize)
  {
    hide FrameOf, AddrPlace, DescPlace, Carries, TxLive, TxHeld;
    assert pool[FrameOf(e.addr, frameSize)] <= 1;
  }

  /** Queueing the packet in hand for transmission. */
  lemma InvForward(free: seq<nat>, d: XdpDesc, packet: seq<u8>, rx: RxState, tx: TxState, lost: multiset<nat>,
                   pool: multiset<nat>, wire: seq<seq<u8>>, buffer: seq<u8>, frameSize: nat, queued: XdpDesc)
    requires RelayInv(free, Holding(d, packet), rx, tx, lost, pool, wire, buffer, frameSize)
    requires queued.addr == d.addr && queued.len == d.len
    ensures RelayInv(free, Nothing, rx, tx.(tx := tx.tx.Push(queued)), lost, pool, wire + [packet], buffer, frameSize)
  {
    hide FrameOf, AddrPlace, DescPlace, RxHeld;
    DescPlacePush(tx.tx.log, tx.tx.read, queued, frameSize);
    var tx' := tx.(tx := tx.tx.Push(queued));
    forall p: nat | TxLive(tx', p)
      ensures Carries(buffer, tx'.tx.log[p], frameSize, (wire + [packet])[p])
    {
      assert p < |tx.tx.log| ==> TxLive(tx, p);
    }
  }

  /** Splitting the conservation law: the kernel's receive side is duplicate-free. */
  lemma ReceiveSideDistinct(free: seq<nat>, hand: Hand, rx: RxState, tx: TxState, lost: multiset<nat>,
                            pool: multiset<nat>, wire: seq<seq<u8>>, buffer: seq<u8>, frameSize: nat)
    requires RelayInv(free, hand, rx, tx, lost, pool, wire, buffer, frameSize)
    ensures Distinct(RxHeld(rx, frameSize))
  {
    forall f: nat
      ensures RxHeld(rx, frameSize)[f] <= 1
    {
      assert pool[f] <= 1;
    }
  }

  // ---------------------------------------------------------------- what is forwarded

  /** Placeholders for TX positions used before a session starts. */
  function Blank(n: nat): (wire: seq<seq<u8>>)
    ensures |wire| == n
  {
    seq(n, _ => [])
  }

  /** Each packet written since `base` is the rewritten form of a wanted received packet, and
      the received positions they come from are strictly increasing and already read. */
  ghost predicate Traced(c: RelayConfig, wire: seq<seq<u8>>, base: nat, sources: seq<nat>,
                         received: seq<seq<u8>>, read: nat)
  {
    && |wire| == base + |sources|
    && (sources != [] ==> c.forward.Some?)
    && (forall j: nat :: j < |sources| ==> sources[j] < read && sources[j] < |received|)
    && (forall j: nat, k: nat :: j < k < |sources| ==> sources[j] < sources[k])
    && forall j: nat :: j < |sources| ==>
         Wanted(received[sources[j]]) && wire[base + j] == Rewritten(c.forward.value, received[sources[j]])
  }

  lemma TracedLater(c: RelayConfig, wire: seq<seq<u8>>, base: nat, sources: seq<nat>,
                    received: seq<seq<u8>>, read: nat, received': seq<seq<u8>>, read': nat)
    requires Traced(c, wire, base, sources, received, read)
    requires received <= received' && read <= read'
    ensures Traced(c, wire, base, sources, received', read')
  {
  }

  lemma TracedForward(c: RelayConfig, wire: seq<seq<u8>>, base: nat, sources: seq<nat>,
                      received: seq<seq<u8>>, read: nat, packet: seq<u8>)
    requires Traced(c, wire, base, sources, received, read) && read < |received| && c.forward.Some?
    requires Wanted(received[read]) && packet == Rewritten(c.forward.value, received[read])
    ensures Traced(c, wire + [packet], base, sources + [read], received, read + 1)
  {
  }
}

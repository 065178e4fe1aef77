/** The receive loop: pre-fill, drain the RX ring into the free list, refill. */
module RxLoop {
  import opened Words
  import opened Rings
  import opened RingObjects
  import opened Frames
  import opened Kernel
  import opened RelayModel
  import opened ReceivePath

  /** A transmit side nothing ever enters. */
  const IDLE_TX: TxState := TxState(Fifo([], 0, 0, 0, 0, 0), [], [], Fifo([], 0, 0, 0, 0, 0))

  /** Without a transmit side, frames are free or on the receive side. */
  ghost function ReceiveOnly(pool: multiset<nat>): Rest {
    Rest(IDLE_TX, multiset{}, pool, [])
  }

  /** Total length of descriptors. */
  function TotalLen(descs: seq<XdpDesc>): nat {
    if descs == [] then 0 else TotalLen(descs[..|descs| - 1]) + descs[|descs| - 1].len
  }

  /** In a receive-only run every pool frame is free, filled, with the kernel or received, once. */
  lemma ReceiveConserves(path: RxPath, pool: multiset<nat>)
    requires path.Inv(Nothing, ReceiveOnly(pool))
    ensures path.umem.frameSize > 0 && RxWellFormed(path.kernel.State())
    ensures multiset(path.umem.availableFrames) + RxHeld(path.kernel.State(), path.umem.frameSize) == pool
  {
    var n := path.umem.frameSize;
    assert DescFrames(IDLE_TX.tx.Pending(), n) == [] && DescFrames(IDLE_TX.inflight, n) == [];
    assert AddrFrames(IDLE_TX.done.Pending(), n) == [];
    assert TxHeld(IDLE_TX, n) == multiset{};
  }

  lemma TotalLenNext(log: seq<XdpDesc>, lo: nat, hi: nat)
    requires lo <= hi < |log|
    ensures TotalLen(log[lo..hi + 1]) == TotalLen(log[lo..hi]) + log[hi].len
  {
    assert log[lo..hi + 1][..hi - lo] == log[lo..hi];
  }

  lemma {:induction false} TotalLenSplit(log: seq<XdpDesc>, lo: nat, mid: nat, hi: nat)
    requires lo <= mid <= hi <= |log|
    ensures TotalLen(log[lo..hi]) == TotalLen(log[lo..mid]) + TotalLen(log[mid..hi])
    decreases hi
  {
    if mid == hi {
      assert log[mid..hi] == [];
    } else {
      TotalLenSplit(log, lo, mid, hi - 1);
      TotalLenNext(log, lo, hi - 1);
      TotalLenNext(log, mid, hi - 1);
    }
  }

  /** Releases every packet the RX ring shows, counting packets and bytes. */
  method DrainReceived(path: RxPath, ghost pool: multiset<nat>) returns (packets: nat, bytes: nat)
    requires path.Inv(Nothing, ReceiveOnly(pool))
    modifies path.objects
    ensures path.Inv(Nothing, ReceiveOnly(pool)) && path.kernel.received == old(path.kernel.received)
    ensures path.Rx() == old(path.Rx()).(read := old(path.Rx().seenHead)) && path.Fill() == old(path.Fill())
    ensures old(path.Rx().read) <= path.Rx().read <= |path.Rx().log|
    ensures packets == path.Rx().read - old(path.Rx().read)
    ensures bytes == TotalLen(path.Rx().log[old(path.Rx().read)..path.Rx().read])
  {
    hide RxPath.Consistent, RxPath.Accounted, TotalLen;
    packets, bytes := 0, 0;
    path.Ordered();
    TotalLenNone(path.Rx().log, path.Rx().read);
    ghost var f := path.Rx();
    while true
      invariant path.Inv(Nothing, ReceiveOnly(pool)) && path.kernel.received == old(path.kernel.received)
      invariant path.Rx() == f.(read := f.read + packets) && f.read + packets <= f.seenHead
      invariant path.Fill() == old(path.Fill())
      invariant bytes == TotalLen(f.log[f.read..f.read + packets])
      decreases f.seenHead - packets
    {
      var desc := path.Receive(ReceiveOnly(pool));
      if desc.None? {
        break;
      }
      TotalLenNext(f.log, f.read, f.read + packets);
      packets := packets + 1;
      bytes := bytes + desc.value.len;
      ghost var hand := Holding(desc.value, path.kernel.received[f.read + packets - 1]);
      path.Release(hand, ReceiveOnly(pool), desc.value.addr);
    }
  }

  /** Everything offered is published, and the fill ring is full or no frame is free. */
  ghost predicate FillToppedUp(path: RxPath)
    reads path.fill.mmap, path.umem
  {
    && path.Fill().head == |path.Fill().log|
    && (path.Fill().Room(path.fill.size) <= 0 || path.umem.availableFrames == [])
  }

  lemma TotalLenNone(log: seq<XdpDesc>, i: nat)
    requires i <= |log|
    ensures TotalLen(log[i..i]) == 0
  {
  }

  lemma TotalLenGrow(log: seq<XdpDesc>, log': seq<XdpDesc>, lo: nat, mid: nat, hi: nat)
    requires log <= log' && lo <= mid <= |log| && mid <= hi <= |log'|
    ensures TotalLen(log'[lo..hi]) == TotalLen(log[lo..mid]) + TotalLen(log'[mid..hi])
  {
    TotalLenSplit(log', lo, mid, hi);
    assert log'[lo..mid] == log[lo..mid];
  }

  /** One round: take everything that had been received before it, release its slots, and top up the fill ring
      with what the kernel had released before, as far as there are frames. */
  method ReceiveRound(path: RxPath, ghost pool: multiset<nat>) returns (packets: nat, bytes: nat)
    requires path.Inv(Nothing, ReceiveOnly(pool))
    modifies path.objects
    ensures path.Inv(Nothing, ReceiveOnly(pool)) && old(path.Rx().log) <= path.Rx().log
    ensures old(path.Rx().read) <= path.Rx().read <= |path.Rx().log|
    ensures packets == path.Rx().read - old(path.Rx().read)
    ensures bytes == TotalLen(path.Rx().log[old(path.Rx().read)..path.Rx().read])
    ensures old(path.Rx().head) <= path.Rx().read == path.Rx().tail && old(path.Rx().head) <= path.Rx().head
    ensures FillToppedUp(path) && old(path.Fill().tail) <= path.Fill().seenTail
  {
    hide RxPath.Consistent, RxPath.Accounted, TotalLen;
    ghost var rest := ReceiveOnly(pool);
    path.KernelActs(Nothing, rest);
    path.SyncRx(Nothing, rest);
    packets, bytes := DrainReceived(path, pool);
    ghost var f := path.Rx();
    path.KernelActs(Nothing, rest);
    path.CommitRx(Nothing, rest);
    path.KernelActs(Nothing, rest);
    path.SyncFill(Nothing, rest);
    path.Refill(rest);
    path.KernelActs(Nothing, rest);
    path.CommitFill(Nothing, rest);
    assert path.Rx().log[old(path.Rx().read)..f.read] == f.log[old(path.Rx().read)..f.read];
  }

  /** Any number of rounds of the receive loop. Frames are conserved throughout, and the
      statistics are exactly the packets taken from the RX ring; those are at least the packets
      `published` when the last round began. */
  method ReceiveLoop(path: RxPath, rounds: nat, ghost pool: multiset<nat>)
    returns (packets: nat, bytes: nat, ghost published: nat)
    requires path.Inv(Nothing, ReceiveOnly(pool))
    modifies path.objects
    ensures path.Inv(Nothing, ReceiveOnly(pool))
    ensures old(path.Rx().read) <= path.Rx().read <= |path.Rx().log|
    ensures packets == path.Rx().read - old(path.Rx().read)
    ensures bytes == TotalLen(path.Rx().log[old(path.Rx().read)..path.Rx().read])
    ensures old(path.Rx().read) <= old(path.Rx().head) <= published <= path.Rx().head && FillToppedUp(path)
    ensures rounds > 0 ==> published <= path.Rx().read == path.Rx().tail
  {
    hide RxPath.Consistent, RxPath.Accounted, TotalLen;
    path.Ordered();
    ghost var rest, start := ReceiveOnly(pool), path.Rx().read;
    path.Refill(rest);
    path.KernelActs(Nothing, rest);
    path.CommitFill(Nothing, rest);
    packets, bytes, published := 0, 0, path.Rx().head;
    TotalLenNone(path.Rx().log, start);
    for round := 0 to rounds
      invariant path.Inv(Nothing, rest)
      invariant path.Rx().read == start + packets <= |path.Rx().log|
      invariant bytes == TotalLen(path.Rx().log[start..start + packets])
      invariant old(path.Rx().head) <= published <= path.Rx().head && FillToppedUp(path)
      invariant round > 0 ==> published <= path.Rx().read == path.Rx().tail
    {
      published := path.Rx().head;
      ghost var f := path.Rx();
      var p, b := ReceiveRound(path, pool);
      TotalLenGrow(f.log, path.Rx().log, start, f.read, path.Rx().read);
      packets, bytes := packets + p, bytes + b;
    }
  }
}

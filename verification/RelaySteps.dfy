/** What handling received packets does to the part of the state that only the relay itself
    writes, packet by packet, with no rings or kernel involved. */
module RelaySteps {
  import opened Words
  import opened RingObjects
  import opened Frames
  import opened RelayModel

  datatype Sizes = Sizes(tx: nat, fill: nat, frame: nat)

  /** Values written to the TX and fill rings with their published and visible ends, the RX
      positions and the completions read, released and visible, and the free list. */
  datatype Own = Own(txLog: seq<XdpDesc>, txHead: nat, txTail: nat,
                     fillLog: seq<nat>, fillHead: nat, fillTail: nat,
                     rxRead: nat, rxTail: nat, rxHead: nat,
                     doneRead: nat, doneTail: nat, doneHead: nat, free: seq<nat>)

  /** What the kernel has published and released. */
  datatype Other = Other(rxHead: nat, txTail: nat, fillTail: nat, doneHead: nat)

  predicate NotBefore(a: Other, b: Other) {
    a.rxHead <= b.rxHead && a.txTail <= b.txTail && a.fillTail <= b.fillTail && a.doneHead <= b.doneHead
  }

  /** How far the relay sees the kernel. */
  function Seen(o: Own): Other {
    Other(o.rxHead, o.txTail, o.fillTail, o.doneHead)
  }

  /** The same view of the kernel's cursors, and the same completions. */
  predicate SameView(o: Own, o': Own) {
    && o'.txTail == o.txTail && o'.fillTail == o.fillTail && o'.rxHead == o.rxHead
    && o'.doneRead == o.doneRead && o'.doneTail == o.doneTail && o'.doneHead == o.doneHead
  }

  predicate TxRoom(o: Own, z: Sizes) {
    o.txTail + z.tx > |o.txLog|
  }

  predicate FillRoom(o: Own, z: Sizes) {
    o.fillTail + z.fill > |o.fillLog|
  }

  /** A frame goes back to the kernel, or to the free list when the fill ring is full. */
  function Recycled(o: Own, z: Sizes, addr: nat): Own
    requires z.frame > 0
  {
    if FillRoom(o, z) then o.(fillLog := o.fillLog + [addr]) else o.(free := o.free + [FrameOf(addr, z.frame)])
  }

  predicate Forwards(c: RelayConfig, o: Own, z: Sizes, packet: seq<u8>) {
    Wanted(packet) && c.forward.Some? && TxRoom(o, z)
  }

  /** A packet is queued for transmission in its own frame, or the frame is recycled. */
  function Handled(c: RelayConfig, o: Own, z: Sizes, d: XdpDesc, packet: seq<u8>): Own
    requires z.frame > 0
  {
    if Forwards(c, o, z, packet) then o.(txLog := o.txLog + [XdpDesc(d.addr, d.len, 0)]) else Recycled(o, z, d.addr)
  }

  /** Everything read and written is published. */
  function Committed(o: Own): Own {
    o.(txHead := |o.txLog|, fillHead := |o.fillLog|, rxTail := o.rxRead)
  }

  datatype Progress = Progress(own: Own, batch: nat)

  /** Reading and handling one packet; only wanted packets count towards a batch. */
  function HandleOne(c: RelayConfig, p: Progress, z: Sizes, d: XdpDesc, packet: seq<u8>): (r: Progress)
    requires z.frame > 0
    ensures SameView(p.own, r.own)
  {
    var o := Handled(c, p.own.(rxRead := p.own.rxRead + 1), z, d, packet);
    if !Wanted(packet) then Progress(o, p.batch)
    else if p.batch + 1 >= RELAY_BATCH then Progress(Committed(o), 0)
    else Progress(o, p.batch + 1)
  }

  /** Handling packets lo..hi-1 of the RX log, in order. */
  function HandleAll(c: RelayConfig, p: Progress, z: Sizes, log: seq<XdpDesc>, received: seq<seq<u8>>, lo: nat, hi: nat)
    : (r: Progress)
    requires z.frame > 0 && lo <= hi <= |log| && hi <= |received|
    ensures SameView(p.own, r.own)
  {
    if lo == hi then p
    else HandleOne(c, HandleAll(c, p, z, log, received, lo, hi - 1), z, log[hi - 1], received[hi - 1])
  }

  /** Positions of the wanted packets among lo..hi-1, in order. */
  function WantedAt(received: seq<seq<u8>>, lo: nat, hi: nat): (at: seq<nat>)
    requires lo <= hi <= |received|
    ensures forall k: nat :: k < |at| ==> lo <= at[k] < hi
  {
    if lo == hi then [] else WantedAt(received, lo, hi - 1) + if Wanted(received[hi - 1]) then [hi - 1] else []
  }

  /** They are exactly those, each once. */
  lemma {:induction false} WantedAtExact(received: seq<seq<u8>>, lo: nat, hi: nat)
    requires lo <= hi <= |received|
    ensures var at := WantedAt(received, lo, hi);
            && (forall k: nat, l: nat :: k < l < |at| ==> at[k] < at[l])
            && forall i: nat :: i in at <==> lo <= i < hi && Wanted(received[i])
    decreases hi
  {
    hide Wanted;
    if lo < hi { WantedAtExact(received, lo, hi - 1); }
  }

  /** The batch counter counts wanted packets modulo the batch size. */
  lemma {:induction false} BatchCounts(c: RelayConfig, p: Progress, z: Sizes, log: seq<XdpDesc>,
                                       received: seq<seq<u8>>, lo: nat, hi: nat)
    requires z.frame > 0 && lo <= hi <= |log| && hi <= |received| && p.batch < 32
    ensures HandleAll(c, p, z, log, received, lo, hi).batch == (p.batch + |WantedAt(received, lo, hi)|) % 32
    decreases hi
  {
    hide Handled, Wanted, Committed;
    if lo < hi {
      BatchCounts(c, p, z, log, received, lo, hi - 1);
    }
  }

  /** One packet: queued exactly if forwarded, and a commit exactly when the counter comes back to zero. */
  lemma HandledOne(c: RelayConfig, p: Progress, z: Sizes, d: XdpDesc, packet: seq<u8>)
    requires z.frame > 0
    ensures var r, o := HandleOne(c, p, z, d, packet), p.own;
            && r.own.rxRead == o.rxRead + 1 && r.own.txTail == o.txTail
            && r.own.txLog == o.txLog + (if Forwards(c, o, z, packet) then [XdpDesc(d.addr, d.len, 0)] else [])
            && (!Wanted(packet) || r.batch != 0 ==>
                  r.own.rxTail == o.rxTail && r.own.txHead == o.txHead && r.own.fillHead == o.fillHead)
            && (!Wanted(packet) ==> r.batch == p.batch && r.own.txLog == o.txLog)
            && (Wanted(packet) && r.batch == 0 ==>
                  r.own.rxTail == r.own.rxRead && r.own.txHead == |r.own.txLog| && r.own.fillHead == |r.own.fillLog|)
  {
    hide Wanted, FrameOf, FillRoom;
  }

  /** What the commits of a run leave behind, from an empty batch on. When the counter is back at zero, everything
      up to the last wanted packet is published and nothing after it is released; without wanted packets nothing
      changes. */
  lemma {:induction false} LastCommit(c: RelayConfig, p: Progress, z: Sizes, log: seq<XdpDesc>,
                                      received: seq<seq<u8>>, lo: nat, hi: nat)
    requires z.frame > 0 && lo <= hi <= |log| && hi <= |received| && p.batch == 0
    ensures var p', at := HandleAll(c, p, z, log, received, lo, hi), WantedAt(received, lo, hi);
            && p'.own.rxRead == p.own.rxRead + hi - lo
            && (at == [] ==>
                  && p'.batch == 0 && p'.own.rxTail == p.own.rxTail && p'.own.fillHead == p.own.fillHead
                  && p'.own.txHead == p.own.txHead && p'.own.txLog == p.own.txLog)
            && (at != [] && p'.batch == 0 ==>
                  && p'.own.rxTail == p.own.rxRead + at[|at| - 1] + 1 - lo
                  && p'.own.txHead == |p'.own.txLog|)
    decreases hi
  {
    hide Wanted, HandleOne, Forwards;
    if lo < hi {
      LastCommit(c, p, z, log, received, lo, hi - 1);
      HandledOne(c, HandleAll(c, p, z, log, received, lo, hi - 1), z, log[hi - 1], received[hi - 1]);
    }
  }

  lemma {:induction false} AllWantedAt(received: seq<seq<u8>>, lo: nat, hi: nat)
    requires lo <= hi <= |received| && forall i: nat :: lo <= i < hi ==> Wanted(received[i])
    ensures var at := WantedAt(received, lo, hi); |at| == hi - lo && (lo < hi ==> at[|at| - 1] == hi - 1)
    decreases hi
  {
    hide Wanted;
    if lo < hi { AllWantedAt(received, lo, hi - 1); }
  }

  /** A full batch followed by an unwanted packet: the counter is back at zero, so the pass ends without a commit
      and that packet's slot stays unreleased. */
  lemma FullBatchHoldsBack(c: RelayConfig, p: Progress, z: Sizes, log: seq<XdpDesc>, received: seq<seq<u8>>, lo: nat)
    requires z.frame > 0 && lo + 33 <= |log| && lo + 33 <= |received| && p.batch == 0 && p.own.rxRead == lo
    requires (forall i: nat :: lo <= i < lo + 32 ==> Wanted(received[i])) && !Wanted(received[lo + 32])
    ensures var p' := HandleAll(c, p, z, log, received, lo, lo + 33);
            p'.batch == 0 && p'.own.rxRead == lo + 33 && p'.own.rxTail == lo + 32
  {
    hide Wanted, HandleAll;
    AllWantedAt(received, lo, lo + 32);
    assert WantedAt(received, lo, lo + 33) == WantedAt(received, lo, lo + 32) + [];
    BatchCounts(c, p, z, log, received, lo, lo + 33);
    LastCommit(c, p, z, log, received, lo, lo + 33);
  }

  // ---------------------------------------------------------------- what is forwarded

  /** Positions of the packets forwarded while handling lo..hi-1. */
  function ForwardedAt(c: RelayConfig, p: Progress, z: Sizes, log: seq<XdpDesc>, received: seq<seq<u8>>,
                       lo: nat, hi: nat): (at: seq<nat>)
    requires z.frame > 0 && lo <= hi <= |log| && hi <= |received|
    ensures forall k: nat :: k < |at| ==> lo <= at[k] < hi
  {
    if lo == hi then []
    else
      var before := HandleAll(c, p, z, log, received, lo, hi - 1);
      ForwardedAt(c, p, z, log, received, lo, hi - 1)
      + if Forwards(c, before.own, z, received[hi - 1]) then [hi - 1] else []
  }

  /** Slots of the TX ring that are free as the relay sees it. */
  function TxSlots(o: Own, z: Sizes): nat {
    if TxRoom(o, z) then o.txTail + z.tx - |o.txLog| else 0
  }

  function First(at: seq<nat>, n: nat): seq<nat> {
    at[..Min(n, |at|)]
  }

  /** The descriptors received there, as they are queued. */
  function QueuedDescs(log: seq<XdpDesc>, at: seq<nat>): seq<XdpDesc>
    requires forall k: nat :: k < |at| ==> at[k] < |log|
  {
    seq(|at|, k requires 0 <= k < |at| => XdpDesc(log[at[k]].addr, log[at[k]].len, 0))
  }

  lemma FirstPush(at: seq<nat>, x: nat, n: nat)
    ensures First(at + [x], n) == First(at, n) + if |at| < n then [x] else []
  {
  }

  /** Packets forwarded so far against packets wanted so far. */
  ghost predicate Matches(c: RelayConfig, p: Progress, z: Sizes, txLog: seq<XdpDesc>, forwarded: seq<nat>,
                          wanted: seq<nat>) {
    && |txLog| == |p.own.txLog| + |forwarded|
    && forwarded == if c.forward.Some? then First(wanted, TxSlots(p.own, z)) else []
  }

  lemma MatchesNext(c: RelayConfig, p: Progress, z: Sizes, o: Own, forwarded: seq<nat>, wanted: seq<nat>,
                    x: nat, packet: seq<u8>)
    requires Matches(c, p, z, o.txLog, forwarded, wanted) && o.txTail == p.own.txTail
    ensures Matches(c, p, z, o.txLog + if Forwards(c, o, z, packet) then [XdpDesc(0, 0, 0)] else [],
                    forwarded + if Forwards(c, o, z, packet) then [x] else [],
                    wanted + if Wanted(packet) then [x] else [])
  {
    hide Wanted;
    FirstPush(wanted, x, TxSlots(p.own, z));
  }

  lemma {:induction false} ForwardsMatch(c: RelayConfig, p: Progress, z: Sizes, log: seq<XdpDesc>,
                                         received: seq<seq<u8>>, lo: nat, hi: nat)
    requires z.frame > 0 && lo <= hi <= |log| && hi <= |received|
    ensures var o := HandleAll(c, p, z, log, received, lo, hi).own;
            && o.txTail == p.own.txTail
            && o.txLog == p.own.txLog + QueuedDescs(log, ForwardedAt(c, p, z, log, received, lo, hi))
    decreases hi
  {
    hide Wanted, HandleOne, HandleAll, Forwards, ForwardedAt, QueuedDescs;
    if lo == hi {
      HandleNone(c, p, z, log, received, lo);
      ForwardedNone(c, p, z, log, received, lo);
      QueuedNone(log);
    } else {
      var x := hi - 1;
      ForwardsMatch(c, p, z, log, received, lo, x);
      HandleAllNext(c, p, z, log, received, lo, x);
      ForwardedNext(c, p, z, log, received, lo, x);
      var at, h := ForwardedAt(c, p, z, log, received, lo, x), HandleAll(c, p, z, log, received, lo, x);
      QueuedPush(log, at, x);
      HandledOne(c, h, z, log[x], received[x]);
      LogsAssociate(p.own.txLog, QueuedDescs(log, at), [XdpDesc(log[x].addr, log[x].len, 0)]);
      assert at + [] == at && h.own.txLog + [] == h.own.txLog;
    }
  }

  lemma LogsAssociate(a: seq<XdpDesc>, b: seq<XdpDesc>, c: seq<XdpDesc>)
    ensures a + b + c == a + (b + c)
  {
  }

  lemma QueuedNone(log: seq<XdpDesc>)
    ensures QueuedDescs(log, []) == []
  {
  }

  lemma QueuedPush(log: seq<XdpDesc>, at: seq<nat>, x: nat)
    requires x < |log| && forall k: nat :: k < |at| ==> at[k] < |log|
    ensures QueuedDescs(log, at + [x]) == QueuedDescs(log, at) + [XdpDesc(log[x].addr, log[x].len, 0)]
  {
  }

  lemma {:induction false} ForwardsFirst(c: RelayConfig, p: Progress, z: Sizes, log: seq<XdpDesc>,
                                         received: seq<seq<u8>>, lo: nat, hi: nat)
    requires z.frame > 0 && lo <= hi <= |log| && hi <= |received|
    ensures ForwardedAt(c, p, z, log, received, lo, hi)
         == if c.forward.Some? then First(WantedAt(received, lo, hi), TxSlots(p.own, z)) else []
    decreases hi
  {
    hide Wanted, HandleAll, Forwards, ForwardedAt, WantedAt, QueuedDescs;
    if lo == hi {
      ForwardedNone(c, p, z, log, received, lo);
      NothingWanted(received, lo);
    } else {
      var x := hi - 1;
      ForwardsFirst(c, p, z, log, received, lo, x);
      ForwardsCount(c, p, z, log, received, lo, x);
      MatchesNext(c, p, z, HandleAll(c, p, z, log, received, lo, x).own, ForwardedAt(c, p, z, log, received, lo, x),
                  WantedAt(received, lo, x), x, received[x]);
      ForwardedNext(c, p, z, log, received, lo, x);
      WantedNext(received, lo, x);
    }
  }

  lemma ForwardsCount(c: RelayConfig, p: Progress, z: Sizes, log: seq<XdpDesc>, received: seq<seq<u8>>,
                      lo: nat, hi: nat)
    requires z.frame > 0 && lo <= hi <= |log| && hi <= |received|
    ensures |HandleAll(c, p, z, log, received, lo, hi).own.txLog|
         == |p.own.txLog| + |ForwardedAt(c, p, z, log, received, lo, hi)|
  {
    hide HandleAll, ForwardedAt;
    ForwardsMatch(c, p, z, log, received, lo, hi);
  }

  /** Every wanted packet is forwarded, in order and in its own frame, as long as the TX ring has room; and
      nothing else is. */
  lemma ForwardsWhileRoom(c: RelayConfig, p: Progress, z: Sizes, log: seq<XdpDesc>, received: seq<seq<u8>>,
                          lo: nat, hi: nat)
    requires z.frame > 0 && lo <= hi <= |log| && hi <= |received|
    ensures var o, at := HandleAll(c, p, z, log, received, lo, hi).own, ForwardedAt(c, p, z, log, received, lo, hi);
            && o.txTail == p.own.txTail
            && o.txLog == p.own.txLog + QueuedDescs(log, at)
            && at == if c.forward.Some? then First(WantedAt(received, lo, hi), TxSlots(p.own, z)) else []
  {
    hide HandleAll, ForwardedAt, WantedAt, First, TxSlots;
    ForwardsMatch(c, p, z, log, received, lo, hi);
    ForwardsFirst(c, p, z, log, received, lo, hi);
  }

  lemma ForwardedNone(c: RelayConfig, p: Progress, z: Sizes, log: seq<XdpDesc>, received: seq<seq<u8>>, lo: nat)
    requires z.frame > 0 && lo <= |log| && lo <= |received|
    ensures ForwardedAt(c, p, z, log, received, lo, lo) == []
  {
  }

  lemma ForwardedNext(c: RelayConfig, p: Progress, z: Sizes, log: seq<XdpDesc>, received: seq<seq<u8>>, lo: nat, n: nat)
    requires z.frame > 0 && lo <= n < |log| && n < |received|
    ensures ForwardedAt(c, p, z, log, received, lo, n + 1)
         == ForwardedAt(c, p, z, log, received, lo, n)
            + if Forwards(c, HandleAll(c, p, z, log, received, lo, n).own, z, received[n]) then [n] else []
  {
    hide HandleAll, Forwards;
  }

  lemma ForwardsIgnoresRead(c: RelayConfig, o: Own, z: Sizes, packet: seq<u8>, read: nat)
    ensures Forwards(c, o.(rxRead := read), z, packet) == Forwards(c, o, z, packet)
  {
    hide Wanted;
  }

  lemma {:induction false} WantedAtLater(received: seq<seq<u8>>, received': seq<seq<u8>>, lo: nat, hi: nat)
    requires lo <= hi <= |received| && received <= received'
    ensures WantedAt(received', lo, hi) == WantedAt(received, lo, hi)
    decreases hi
  {
    hide Wanted;
    if lo < hi { WantedAtLater(received, received', lo, hi - 1); }
  }

  lemma {:induction false} WantedAtSplit(received: seq<seq<u8>>, lo: nat, mid: nat, hi: nat)
    requires lo <= mid <= hi <= |received|
    ensures WantedAt(received, lo, hi) == WantedAt(received, lo, mid) + WantedAt(received, mid, hi)
    decreases hi
  {
    hide Wanted;
    if mid < hi { WantedAtSplit(received, lo, mid, hi - 1); }
  }

  lemma {:induction false} ForwardedLater(c: RelayConfig, p: Progress, z: Sizes,
                                          log: seq<XdpDesc>, received: seq<seq<u8>>,
                                          log': seq<XdpDesc>, received': seq<seq<u8>>, lo: nat, hi: nat)
    requires z.frame > 0 && lo <= hi <= |log| && hi <= |received| && log <= log' && received <= received'
    ensures ForwardedAt(c, p, z, log', received', lo, hi) == ForwardedAt(c, p, z, log, received, lo, hi)
    decreases hi
  {
    hide HandleAll, Forwards;
    if lo < hi {
      HandleAllLater(c, p, z, log, received, log', received', lo, hi - 1);
      ForwardedLater(c, p, z, log, received, log', received', lo, hi - 1);
    }
  }

  // ---------------------------------------------------------------- a pass

  /** The wanted packets a pass forwards: as many as the TX ring has room for. */
  function ToForward(c: RelayConfig, at: seq<nat>, o: Own, z: Sizes): seq<nat> {
    if c.forward.Some? then First(at, TxSlots(o, z)) else []
  }

  /** What a pass from o to o' with wanted packets at the given positions has published and released. */
  predicate PassPublished(o: Own, o': Own, at: seq<nat>) {
    && (at == [] ==>
          o'.txLog == o.txLog && o'.txHead == o.txHead && o'.fillHead == o.fillHead && o'.rxTail == o.rxTail)
    && (at != [] ==> o'.txHead == |o'.txLog|)
    && (|at| % 32 != 0 ==> o'.fillHead == |o'.fillLog| && o'.rxTail == o'.rxRead)
    && (at != [] && |at| % 32 == 0 ==> o'.rxTail == at[|at| - 1] + 1)
  }

  lemma PassForwards(c: RelayConfig, o: Own, p: Progress, z: Sizes, log: seq<XdpDesc>, received: seq<seq<u8>>,
                     lo: nat, hi: nat)
    requires z.frame > 0 && lo <= hi <= |log| && hi <= |received| && p.own.txLog == o.txLog
    ensures ForwardedAt(c, p, z, log, received, lo, hi)
         == ToForward(c, WantedAt(received, lo, hi), o.(txTail := p.own.txTail), z)
  {
    hide ForwardedAt, WantedAt, First;
    ForwardsFirst(c, p, z, log, received, lo, hi);
  }

  /** A pass is the handling of its packets, a refill and, if a batch has been started, a commit. */
  lemma PassPublishes(c: RelayConfig, o: Own, p: Progress, z: Sizes, log: seq<XdpDesc>, received: seq<seq<u8>>,
                      lo: nat, hi: nat, o': Own)
    requires z.frame > 0 && lo <= hi <= |log| && hi <= |received| && p.batch == 0 && p.own.rxRead == lo
    requires p.own.txLog == o.txLog && p.own.txHead == o.txHead && p.own.fillHead == o.fillHead
    requires p.own.rxTail == o.rxTail
    requires var h := HandleAll(c, p, z, log, received, lo, hi);
             var refilled := h.own.(fillLog := o'.fillLog, free := o'.free);
             o' == if h.batch > 0 then Committed(refilled) else refilled
    ensures PassPublished(o, o', WantedAt(received, lo, hi))
  {
    hide HandleAll, WantedAt;
    BatchCounts(c, p, z, log, received, lo, hi);
    LastCommit(c, p, z, log, received, lo, hi);
  }

  lemma {:induction false} NoneWantedAt(received: seq<seq<u8>>, lo: nat, hi: nat)
    requires lo <= hi <= |received| && NoneWanted(received, lo)
    ensures WantedAt(received, lo, hi) == []
    decreases hi
  {
    hide Wanted;
    if lo < hi { NoneWantedAt(received, lo, hi - 1); }
  }

  lemma WantedNext(received: seq<seq<u8>>, lo: nat, n: nat)
    requires lo <= n < |received|
    ensures WantedAt(received, lo, n + 1) == WantedAt(received, lo, n) + if Wanted(received[n]) then [n] else []
  {
    hide Wanted;
  }

  lemma NothingWanted(received: seq<seq<u8>>, lo: nat)
    requires lo <= |received|
    ensures WantedAt(received, lo, lo) == []
  {
  }

  /** Since the state o, with `was` forwarded before, all wanted packets were forwarded if o had room for them. */
  predicate AllForwarded(c: RelayConfig, o: Own, z: Sizes, was: seq<nat>, sources: seq<nat>, wanted: seq<nat>) {
    && (c.forward.None? ==> sources == was)
    && (c.forward.Some? && |wanted| <= TxSlots(o, z) ==> sources == was + wanted)
  }

  lemma ForwardedMore(c: RelayConfig, o: Own, o1: Own, z: Sizes, was: seq<nat>, before: seq<nat>, after: seq<nat>,
                      wanted: seq<nat>, more: seq<nat>)
    requires AllForwarded(c, o, z, was, before, wanted) && after == before + ToForward(c, more, o1, z)
    requires o.txTail <= o1.txTail && |o1.txLog| - |before| == |o.txLog| - |was|
    ensures AllForwarded(c, o, z, was, after, wanted + more)
  {
  }

  // ---------------------------------------------------------------- where frames go

  /** Frames ever queued for transmission, offered to the kernel or put on the free list. */
  ghost function Placed(txLog: seq<XdpDesc>, fillLog: seq<nat>, free: seq<nat>, frameSize: nat): multiset<nat>
    requires frameSize > 0
  {
    DescPlace(txLog, frameSize) + AddrPlace(fillLog, frameSize) + multiset(free)
  }

  /** n packets were read, their frames placed, and nothing already placed moved. */
  ghost predicate Grew(o: Own, o': Own, z: Sizes, frames: multiset<nat>, n: nat)
    requires z.frame > 0
  {
    && o.txLog <= o'.txLog && o.fillLog <= o'.fillLog && o.free <= o'.free
    && Placed(o'.txLog, o'.fillLog, o'.free, z.frame) == Placed(o.txLog, o.fillLog, o.free, z.frame) + frames
    && o'.rxRead == o.rxRead + n
  }

  /** One more frame in any of the three places. */
  lemma PlacedOne(txLog: seq<XdpDesc>, fillLog: seq<nat>, free: seq<nat>, frameSize: nat, d: XdpDesc)
    requires frameSize > 0
    ensures var before, frame := Placed(txLog, fillLog, free, frameSize), multiset{FrameOf(d.addr, frameSize)};
            && Placed(txLog + [XdpDesc(d.addr, d.len, 0)], fillLog, free, frameSize) == before + frame
            && Placed(txLog, fillLog + [d.addr], free, frameSize) == before + frame
            && Placed(txLog, fillLog, free + [FrameOf(d.addr, frameSize)], frameSize) == before + frame
  {
    hide DescPlace, AddrPlace, FrameOf;
    var queued := XdpDesc(d.addr, d.len, 0);
    DescPlaceAppend(txLog, [queued], frameSize);
    DescPlaceOne(queued, frameSize);
    AddrPlaceAppend(fillLog, [d.addr], frameSize);
    AddrPlaceOne(d.addr, frameSize);
  }

  lemma PacketPlaced(c: RelayConfig, p: Progress, z: Sizes, d: XdpDesc, packet: seq<u8>)
    requires z.frame > 0
    ensures Grew(p.own, HandleOne(c, p, z, d, packet).own, z, multiset{FrameOf(d.addr, z.frame)}, 1)
  {
    hide Wanted, Forwards, Placed, FrameOf, FillRoom;
    PlacedOne(p.own.txLog, p.own.fillLog, p.own.free, z.frame, d);
  }

  lemma GrewThen(o: Own, o1: Own, o2: Own, z: Sizes, a: multiset<nat>, b: multiset<nat>, n: nat, m: nat)
    requires z.frame > 0 && Grew(o, o1, z, a, n) && Grew(o1, o2, z, b, m)
    ensures Grew(o, o2, z, a + b, n + m)
  {
    hide Placed;
  }

  /** The frames of the packets handled, and no others, are placed, each once. */
  lemma {:induction false} PacketsPlaced(c: RelayConfig, p: Progress, z: Sizes, log: seq<XdpDesc>,
                                         received: seq<seq<u8>>, lo: nat, hi: nat)
    requires z.frame > 0 && lo <= hi <= |log| && hi <= |received|
    ensures Grew(p.own, HandleAll(c, p, z, log, received, lo, hi).own, z, DescPlace(log[lo..hi], z.frame), hi - lo)
    decreases hi
  {
    hide HandleOne, DescPlace, FrameOf, Placed;
    if lo == hi {
      DescPlaceNone(log[lo..hi], z.frame);
    } else {
      hide Grew;
      PacketsPlaced(c, p, z, log, received, lo, hi - 1);
      var before, d := HandleAll(c, p, z, log, received, lo, hi - 1), log[hi - 1];
      PacketPlaced(c, before, z, d, received[hi - 1]);
      GrewThen(p.own, before.own, HandleOne(c, before, z, d, received[hi - 1]).own, z,
               DescPlace(log[lo..hi - 1], z.frame), multiset{FrameOf(d.addr, z.frame)}, hi - 1 - lo, 1);
      assert log[lo..hi] == log[lo..hi - 1] + [d];
      DescPlaceAppend(log[lo..hi - 1], [d], z.frame);
      DescPlaceOne(d, z.frame);
    }
  }

  lemma DescPlaceNone(descs: seq<XdpDesc>, frameSize: nat)
    requires frameSize > 0 && descs == []
    ensures DescPlace(descs, frameSize) == multiset{}
  {
  }

  /** A longer RX log shows the same packets. */
  lemma {:induction false} HandleAllLater(c: RelayConfig, p: Progress, z: Sizes,
                                          log: seq<XdpDesc>, received: seq<seq<u8>>,
                                          log': seq<XdpDesc>, received': seq<seq<u8>>, lo: nat, hi: nat)
    requires z.frame > 0 && lo <= hi <= |log| && hi <= |received| && log <= log' && received <= received'
    ensures HandleAll(c, p, z, log', received', lo, hi) == HandleAll(c, p, z, log, received, lo, hi)
    decreases hi
  {
    hide HandleOne;
    if lo < hi {
      HandleAllLater(c, p, z, log, received, log', received', lo, hi - 1);
    }
  }

  lemma HandleNone(c: RelayConfig, p: Progress, z: Sizes, log: seq<XdpDesc>, received: seq<seq<u8>>, lo: nat)
    requires z.frame > 0 && lo <= |log| && lo <= |received|
    ensures HandleAll(c, p, z, log, received, lo, lo) == p
  {
  }

  lemma HandleAllNext(c: RelayConfig, p: Progress, z: Sizes, log: seq<XdpDesc>, received: seq<seq<u8>>, lo: nat, n: nat)
    requires z.frame > 0 && lo <= n < |log| && n < |received|
    ensures HandleAll(c, p, z, log, received, lo, n + 1)
         == HandleOne(c, HandleAll(c, p, z, log, received, lo, n), z, log[n], received[n])
  {
  }

  ghost predicate NoneWanted(received: seq<seq<u8>>, lo: nat) {
    forall i: nat :: lo <= i < |received| ==> !Wanted(received[i])
  }

  lemma NoneWantedPart(received: seq<seq<u8>>, all: seq<seq<u8>>, lo: nat, from: nat)
    requires received <= all && from <= lo && NoneWanted(all, from)
    ensures NoneWanted(received, lo)
  {
    hide Wanted;
  }

  /** Packets nobody wants are never released to the kernel. */
  lemma {:induction false} UnwantedNotReleased(c: RelayConfig, p: Progress, z: Sizes, log: seq<XdpDesc>,
                                               received: seq<seq<u8>>, lo: nat, hi: nat, from: nat)
    requires z.frame > 0 && from <= lo <= hi <= |log| && hi <= |received| && NoneWanted(received, from)
    ensures var p' := HandleAll(c, p, z, log, received, lo, hi); p'.batch == p.batch && p'.own.rxTail == p.own.rxTail
    decreases hi
  {
    hide Wanted;
    if lo < hi { UnwantedNotReleased(c, p, z, log, received, lo, hi - 1, from); }
  }
}

/** Values behind the transmit loop: what each address should turn into, where every frame
    is, and how many descriptors a batch leaves uncommitted. */
module TxModel {
  import opened Words
  import opened Rings
  import opened RingObjects
  import opened Frames
  import opened Packet
  import opened Kernel

  const BATCH_SIZE: nat := 64
  const MAX_TIMEOUTS: nat := 500

  datatype SocketAddr = V4(ip: Ipv4, port: u16) | V6

  datatype NextHop = NextHop(macAddr: Option<Mac>, ifIndex: nat)

  /** Fixed parameters of a loop. `route` is the routing table's answer, None for no route. */
  datatype Config = Config(srcMac: Mac, srcIp: Ipv4, srcPort: u16, destMac: Option<Mac>, ifIndex: nat,
                           route: Ipv4 -> Option<NextHop>, frameSize: nat)

  datatype Item = Item(addrs: seq<SocketAddr>, payload: seq<u8>)

  /** One packet to send. */
  datatype Job = Job(addr: SocketAddr, payload: seq<u8>)

  /** What becomes of a job. One whose packet is longer than a frame overruns it: the loop writes
      into memory that is not its own. */
  datatype Fate = Sent(packet: seq<u8>) | Dropped | Panics | Overruns

  /** Fates after which nothing is known of the loop. */
  predicate Stops(fate: Fate) {
    fate.Panics? || fate.Overruns?
  }

  predicate FitsFrame(c: Config, payload: seq<u8>) {
    PACKET_HEADER_SIZE + |payload| <= c.frameSize
  }

  /** The fate of a job once its destination MAC is known. */
  function BuildFate(c: Config, mac: Mac, ip: Ipv4, port: u16, payload: seq<u8>): Fate {
    if FitsFrame(c, payload) then Sent(PacketBytes(Route(c.srcMac, mac, c.srcIp, ip, c.srcPort, port), payload))
    else Overruns
  }

  function JobFate(c: Config, job: Job): Fate {
    match job.addr
    case V6 => Panics
    case V4(ip, port) =>
      match c.destMac
      case Some(mac) => BuildFate(c, mac, ip, port, job.payload)
      case None =>
        match c.route(ip)
        case None => Panics
        case Some(hop) =>
          if hop.ifIndex == c.ifIndex && hop.macAddr.Some? then BuildFate(c, hop.macAddr.value, ip, port, job.payload)
          else Dropped
  }

  /** A sent packet, byte by byte: from the loop's own addresses and port to the job's, by way of the fixed MAC
      or of a next hop on the loop's interface, around the job's payload, with a valid IPv4 checksum. */
  lemma SentPacket(c: Config, job: Job)
    requires JobFate(c, job).Sent?
    ensures var p := JobFate(c, job).packet;
            && job.addr.V4? && |p| == 42 + |job.payload| <= c.frameSize
            && (if c.destMac.Some? then p[0..6] == c.destMac.value
                else var hop := c.route(job.addr.ip);
                     hop.Some? && hop.value.ifIndex == c.ifIndex && hop.value.macAddr == Some(p[0..6]))
            && p[6..12] == c.srcMac && p[12..14] == [8, 0] && p[23] == 17
            && p[26..30] == c.srcIp && p[30..34] == job.addr.ip
            && 0x100 * (p[34] as int) + p[35] == c.srcPort && 0x100 * (p[36] as int) + p[37] == job.addr.port
            && p[42..] == job.payload
            && Fold(ByteSum(p[14..34])) == 0xFFFF
  {
    hide PacketBytes, Fold, ByteSum;
    var ip, port := job.addr.ip, job.addr.port;
    var mac := if c.destMac.Some? then c.destMac.value else c.route(ip).value.macAddr.value;
    PacketDescribed(Route(c.srcMac, mac, c.srcIp, ip, c.srcPort, port), job.payload);
    var p := JobFate(c, job).packet;
    assert p[22..24][1] == p[23];
  }

  /** Which jobs get which fate. */
  lemma FateIff(c: Config, job: Job)
    ensures var routed := job.addr.V4? && c.destMac.None? && c.route(job.addr.ip).Some?;
            var hop := if routed then c.route(job.addr.ip).value else NextHop(None, 0);
            var own := routed && hop.ifIndex == c.ifIndex && hop.macAddr != None;
            var known := job.addr.V4? && (c.destMac.Some? || own);
            && (JobFate(c, job).Sent? <==> known && 42 + |job.payload| <= c.frameSize)
            && (JobFate(c, job).Overruns? <==> known && 42 + |job.payload| > c.frameSize)
            && (JobFate(c, job).Dropped? <==> routed && (hop.ifIndex != c.ifIndex || hop.macAddr == None))
            && (JobFate(c, job).Panics? <==> job.addr.V6? || (c.destMac.None? && c.route(job.addr.ip).None?))
  {
    hide PacketBytes;
  }

  function Jobs(items: seq<Item>): seq<Job> {
    if items == [] then [] else ItemJobs(items[0]) + Jobs(items[1..])
  }

  function ItemJobs(item: Item): (jobs: seq<Job>)
    ensures |jobs| == |item.addrs|
  {
    seq(|item.addrs|, i requires 0 <= i < |item.addrs| => Job(item.addrs[i], item.payload))
  }

  lemma ItemJobAt(item: Item, i: nat)
    requires i < |item.addrs|
    ensures ItemJobs(item)[i] == Job(item.addrs[i], item.payload)
  {
  }

  function Fates(c: Config, jobs: seq<Job>): (fates: seq<Fate>)
    ensures |fates| == |jobs|
  {
    seq(|jobs|, i requires 0 <= i < |jobs| => JobFate(c, jobs[i]))
  }

  /** The packets of the sent jobs, in order. */
  function SentPackets(fates: seq<Fate>): seq<seq<u8>> {
    if fates == [] then []
    else SentPackets(fates[..|fates| - 1]) + if fates[|fates| - 1].Sent? then [fates[|fates| - 1].packet] else []
  }

  lemma SentPacketsPush(fates: seq<Fate>, fate: Fate)
    ensures SentPackets(fates + [fate]) == SentPackets(fates) + if fate.Sent? then [fate.packet] else []
  {
    assert (fates + [fate])[..|fates|] == fates;
  }

  lemma {:induction false} JobsAppend(a: seq<Item>, b: seq<Item>)
    ensures Jobs(a + b) == Jobs(a) + Jobs(b)
  {
    hide ItemJobs;
    if a == [] {
      assert a + b == b;
    } else {
      JobsAppend(a[1..], b);
      assert (a + b)[1..] == a[1..] + b;
      JobsAssociate(ItemJobs(a[0]), Jobs(a[1..]), Jobs(b));
    }
  }

  lemma JobsAssociate(a: seq<Job>, b: seq<Job>, c: seq<Job>)
    ensures a + b + c == a + (b + c)
  {
  }

  lemma JobsPush(a: seq<Item>, item: Item)
    ensures Jobs(a + [item]) == Jobs(a) + ItemJobs(item)
  {
    JobsAppend(a, [item]);
    assert Jobs([item]) == ItemJobs(item) + Jobs([item][1..]);
    assert Jobs([item]) == ItemJobs(item);
  }

  /** The jobs of a batch, split at the first `stop` jobs of its item k. */
  lemma JobsSplit(items: seq<Item>, k: nat, stop: nat)
    requires k < |items| && stop <= |items[k].addrs|
    ensures Jobs(items[..k + 1]) == Jobs(items[..k]) + ItemJobs(items[k])
    ensures |Jobs(items[..k])| + |items[k].addrs| <= |Jobs(items)|
    ensures Jobs(items)[..|Jobs(items[..k])| + stop] == Jobs(items[..k]) + ItemJobs(items[k])[..stop]
    ensures stop < |items[k].addrs| ==> Jobs(items)[|Jobs(items[..k])| + stop] == ItemJobs(items[k])[stop]
  {
    var a, item, rest := items[..k], items[k], items[k + 1..];
    assert items[..k + 1] == a + [item];
    JobsPush(a, item);
    assert items == (a + [item]) + rest;
    JobsAppend(a + [item], rest);
    hide Jobs, ItemJobs;
    TakeMiddle(Jobs(a), ItemJobs(item), Jobs(rest), stop);
  }

  lemma TakeMiddle(a: seq<Job>, b: seq<Job>, c: seq<Job>, stop: nat)
    requires stop <= |b|
    ensures (a + b + c)[..|a| + stop] == a + b[..stop]
    ensures stop < |b| ==> (a + b + c)[|a| + stop] == b[stop]
  {
  }

  // ---------------------------------------------------------------- ownership and integrity

  /** Frames are free, held by the loop, or on the transmit side, each exactly once; and every
      descriptor the kernel can still look at points at the packet written for it. */
  ghost predicate TxInv(free: seq<nat>, loose: multiset<nat>, s: TxState, pool: multiset<nat>,
                        wire: seq<seq<u8>>, buffer: seq<u8>, frameSize: nat)
  {
    && frameSize > 0
    && TxWellFormed(s)
    && Distinct(pool)
    && (forall f: nat :: f in pool ==> f < |buffer| / frameSize)
    && multiset(free) + loose + TxHeld(s, frameSize) == pool
    && |wire| == |s.tx.log|
    && forall p: nat :: TxLive(s, p) ==> Carries(buffer, s.tx.log[p], frameSize, wire[p])
  }

  lemma InvInitial(free: seq<nat>, s: TxState, wire: seq<seq<u8>>, buffer: seq<u8>, frameSize: nat)
    requires frameSize > 0 && TxWellFormed(s) && |wire| == |s.tx.log|
    requires s.tx.read == |s.tx.log| && s.inflight == [] && s.done.read == |s.done.log|
    requires Distinct(multiset(free)) && forall f: nat :: f in free ==> f < |buffer| / frameSize
    ensures TxInv(free, multiset{}, s, multiset(free), wire, buffer, frameSize)
  {
    assert DescFrames(s.tx.Pending(), frameSize) == [] && AddrFrames(s.done.Pending(), frameSize) == [];
    assert DescFrames(s.inflight, frameSize) == [];
    assert TxHeld(s, frameSize) == multiset{};
    forall f: nat | f in multiset(free)
      ensures f < |buffer| / frameSize
    {
      assert f in free;
    }
  }

  lemma InvKernel(free: seq<nat>, loose: multiset<nat>, a: TxState, b: TxState, pool: multiset<nat>,
                  wire: seq<seq<u8>>, buffer: seq<u8>, frameSize: nat)
    requires TxInv(free, loose, a, pool, wire, buffer, frameSize)
    requires TxWellFormed(b) && TxEvolves(a, b, frameSize)
    ensures TxInv(free, loose, b, pool, wire, buffer, frameSize)
  {
    hide FrameOf, AddrPlace, DescPlace, Carries;
  }

  /** Committing and refreshing cursors moves no frame. */
  lemma InvCursors(free: seq<nat>, loose: multiset<nat>, a: TxState, b: TxState, pool: multiset<nat>,
                   wire: seq<seq<u8>>, buffer: seq<u8>, frameSize: nat)
    requires TxInv(free, loose, a, pool, wire, buffer, frameSize)
    requires b.tx.log == a.tx.log && b.tx.read == a.tx.read
    requires b.done.log == a.done.log && b.done.read == a.done.read
    requires b.inflight == a.inflight && b.positions == a.positions
    ensures TxInv(free, loose, b, pool, wire, buffer, frameSize) && TxWellFormed(b)
  {
    hide FrameOf, AddrPlace, DescPlace, Carries;
    assert TxHeld(b, frameSize) == TxHeld(a, frameSize);
    assert forall p: nat :: TxLive(b, p) ==> TxLive(a, p);
  }

  lemma InvRelease(free: seq<nat>, loose: multiset<nat>, s: TxState, pool: multiset<nat>,
                   wire: seq<seq<u8>>, buffer: seq<u8>, frameSize: nat)
    requires TxInv(free, loose, s, pool, wire, buffer, frameSize) && s.done.read < |s.done.log|
    ensures TxInv(free + [FrameOf(s.done.log[s.done.read], frameSize)], loose, s.(done := s.done.Take()),
                  pool, wire, buffer, frameSize)
  {
    hide FrameOf, AddrPlace, DescPlace, Carries;
    AddrPlaceTake(s.done.log, s.done.read, frameSize);
    var s' := s.(done := s.done.Take());
    assert forall p: nat :: TxLive(s', p) ==> TxLive(s, p);
  }

  /** Writing a packet into a frame the loop holds and pushing its descriptor. */
  lemma InvSend(free: seq<nat>, s: TxState, pool: multiset<nat>, wire: seq<seq<u8>>, before: seq<u8>,
                frameSize: nat, offset: nat, packet: seq<u8>)
    requires frameSize > 0
    requires TxInv(free, multiset{FrameOf(offset, frameSize)}, s, pool, wire, before, frameSize)
    requires offset % frameSize == 0 && |packet| <= frameSize && |packet| < U32_SPAN
    ensures offset + |packet| <= |before|
    ensures TxInv(free, multiset{}, s.(tx := s.tx.Push(XdpDesc(offset, |packet|, 0))), pool, wire + [packet],
                  Splice(before, offset, packet), frameSize)
  {
    hide FrameOf, AddrPlace, DescPlace, Splice, Carries;
    var g := FrameOf(offset, frameSize);
    assert g in pool;
    var d := XdpDesc(offset, |packet|, 0);
    RangeInFrame(offset, |packet|, frameSize, |before|);
    var after := Splice(before, offset, packet);
    SpliceInFrame(before, offset, packet, multiset{g}, frameSize);
    DescPlacePush(s.tx.log, s.tx.read, d, frameSize);
    var s' := s.(tx := s.tx.Push(d));
    forall p: nat | TxLive(s', p)
      ensures Carries(after, s'.tx.log[p], frameSize, (wire + [packet])[p])
    {
      if p < |s.tx.log| {
        LiveIsHeld(s, frameSize, p);
        assert pool[g] <= 1;
        CarriesKept(before, after, s.tx.log[p], frameSize, wire[p]);
      }
    }
  }

  /** The transmit side's frames, counted. */
  lemma HeldCount(s: TxState, frameSize: nat)
    requires frameSize > 0 && TxWellFormed(s)
    ensures |TxHeld(s, frameSize)| == |s.tx.log| - s.tx.read + |s.inflight| + |s.done.log| - s.done.read
  {
  }

  /** Each frame of the pool is in exactly one place: the free list, the loop, the TX ring
      (uncommitted or committed), the kernel, or the completion ring. */
  lemma ExactlyOnePlace(free: seq<nat>, loose: multiset<nat>, s: TxState, pool: multiset<nat>,
                        wire: seq<seq<u8>>, buffer: seq<u8>, frameSize: nat, f: nat)
    requires TxInv(free, loose, s, pool, wire, buffer, frameSize) && f in pool
    requires s.tx.read <= s.tx.head <= |s.tx.log|
    ensures multiset(free)[f] + loose[f]
            + DescPlace(s.tx.log[s.tx.head..], frameSize)[f]
            + DescPlace(s.tx.log[s.tx.read..s.tx.head], frameSize)[f]
            + DescPlace(s.inflight, frameSize)[f]
            + AddrPlace(s.done.log[s.done.read..], frameSize)[f] == 1
    ensures f < |buffer| / frameSize
  {
    hide FrameOf, AddrPlace, DescPlace, Carries, TxLive;
    var log := s.tx.log;
    assert DescPlace(log[s.tx.read..], frameSize)
        == DescPlace(log[s.tx.read..s.tx.head], frameSize) + DescPlace(log[s.tx.head..], frameSize) by {
      assert log[s.tx.read..] == log[s.tx.read..s.tx.head] + log[s.tx.head..];
      DescPlaceAppend(log[s.tx.read..s.tx.head], log[s.tx.head..], frameSize);
    }
    assert pool[f] == 1;
  }

  // ---------------------------------------------------------------- chunked commits

  /** Descriptors left uncommitted after a batch, given which jobs are sent: a commit happens
      when `chunk` sends have been made, and the next chunk is at most what is left. */
  function Leftover(sent: seq<bool>, chunk: nat, uncommitted: nat): nat
    decreases |sent|
  {
    if sent == [] then uncommitted
    else if !sent[0] then Leftover(sent[1..], chunk, uncommitted)
    else if chunk <= 1 then Leftover(sent[1..], Min(BATCH_SIZE, |sent| - 1), 0)
    else Leftover(sent[1..], chunk - 1, uncommitted + 1)
  }

  function Sends(sent: seq<bool>): (n: nat)
    ensures n <= |sent|
  {
    if sent == [] then 0 else (if sent[0] then 1 else 0) + Sends(sent[1..])
  }

  /** What is left after the n-th send. */
  function AfterSends(sent: seq<bool>, n: nat): (rest: seq<bool>)
    requires n <= Sends(sent)
    ensures |rest| + n <= |sent|
    ensures Sends(rest) == Sends(sent) - n
  {
    if n == 0 then sent
    else if sent[0] then AfterSends(sent[1..], n - 1)
    else AfterSends(sent[1..], n)
  }

  /** What is left after the last full group of BATCH_SIZE sends. */
  function LastGroup(sent: seq<bool>): (rest: seq<bool>)
    decreases |sent|
  {
    if Sends(sent) < BATCH_SIZE then sent else LastGroup(AfterSends(sent, BATCH_SIZE))
  }

  lemma LeftoverStep(sent: seq<bool>, chunk: nat, uncommitted: nat)
    requires sent != []
    ensures Leftover(sent, chunk, uncommitted) ==
            if !sent[0] then Leftover(sent[1..], chunk, uncommitted)
            else if chunk <= 1 then Leftover(sent[1..], Min(BATCH_SIZE, |sent| - 1), 0)
            else Leftover(sent[1..], chunk - 1, uncommitted + 1)
  {
  }

  lemma {:induction false} ChunkCompletes(sent: seq<bool>, chunk: nat, uncommitted: nat)
    requires 1 <= chunk
    ensures chunk <= Sends(sent) ==>
              var rest := AfterSends(sent, chunk);
              Leftover(sent, chunk, uncommitted) == Leftover(rest, Min(BATCH_SIZE, |rest|), 0)
    ensures Sends(sent) < chunk ==> Leftover(sent, chunk, uncommitted) == uncommitted + Sends(sent)
    decreases |sent|
  {
    if sent != [] {
      if !sent[0] {
        ChunkCompletes(sent[1..], chunk, uncommitted);
      } else if chunk > 1 {
        ChunkCompletes(sent[1..], chunk - 1, uncommitted + 1);
      } else {
        assert AfterSends(sent, 1) == AfterSends(sent[1..], 0) == sent[1..];
      }
    }
  }

  /** Exactly how many descriptors a batch leaves uncommitted. None, from a clean start, just
      when the number of sends is a multiple of 64 or nothing is dropped after the last full
      group of 64 sends. */
  lemma LeftoverExact(sent: seq<bool>, uncommitted: nat)
    ensures Leftover(sent, Min(BATCH_SIZE, |sent|), uncommitted) ==
            var n, rest := Sends(sent), LastGroup(sent);
            if n == 0 then uncommitted
            else if n % 64 == 0 || Sends(rest) == |rest| then 0
            else n % 64 + if n < 64 then uncommitted else 0
  {
    hide Leftover, Sends, LastGroup;
    LeftoverGroups(sent, uncommitted);
  }

  /** Sends beyond the last full group. */
  function Remainder(n: nat): nat {
    n % BATCH_SIZE
  }

  lemma {:induction false} LeftoverGroups(sent: seq<bool>, uncommitted: nat)
    ensures Leftover(sent, Min(BATCH_SIZE, |sent|), uncommitted) ==
            var n, rest := Sends(sent), LastGroup(sent);
            if n == 0 then uncommitted
            else if Remainder(n) == 0 || Sends(rest) == |rest| then 0
            else Remainder(n) + if n < BATCH_SIZE then uncommitted else 0
    decreases |sent|
  {
    var n := Sends(sent);
    if sent != [] {
      hide Leftover, Sends, AfterSends, Remainder;
      ChunkCompletes(sent, Min(BATCH_SIZE, |sent|), uncommitted);
      RemainderDown(n);
      if BATCH_SIZE <= n {
        LeftoverGroups(AfterSends(sent, BATCH_SIZE), 0);
      } else {
        assert LastGroup(sent) == sent;
        if |sent| == n {
          AllSent(sent);
          LeftoverNone(0, 0);
        }
      }
    }
  }

  lemma RemainderDown(n: nat)
    ensures Remainder(n) == if n < BATCH_SIZE then n else Remainder(n - BATCH_SIZE)
    ensures Remainder(0) == 0
  {
  }

  lemma LeftoverNone(chunk: nat, uncommitted: nat)
    ensures Leftover([], chunk, uncommitted) == uncommitted
  {
  }

  lemma {:induction false} AllSent(sent: seq<bool>)
    requires Sends(sent) == |sent|
    ensures AfterSends(sent, |sent|) == []
  {
    if sent != [] { AllSent(sent[1..]); }
  }

  /** Which jobs are sent. */
  function SentFlags(c: Config, jobs: seq<Job>): (flags: seq<bool>)
    ensures |flags| == |jobs|
  {
    seq(|jobs|, i requires 0 <= i < |jobs| => JobFate(c, jobs[i]).Sent?)
  }

  /** With a fixed destination MAC nothing is dropped, so a batch leaves nothing uncommitted. */
  lemma {:induction false} NoDropsNoLeftover(sent: seq<bool>, uncommitted: nat)
    requires forall i: nat :: i < |sent| ==> sent[i]
    requires sent != []
    ensures Leftover(sent, Min(BATCH_SIZE, |sent|), uncommitted) == 0
  {
    LeftoverExact(sent, uncommitted);
    AllTrue(sent);
    LastGroupAllTrue(sent);
  }

  lemma {:induction false} AllTrue(sent: seq<bool>)
    requires forall i: nat :: i < |sent| ==> sent[i]
    ensures Sends(sent) == |sent|
  {
    if sent != [] { AllTrue(sent[1..]); }
  }

  lemma {:induction false} AfterSendsAllTrue(sent: seq<bool>, n: nat)
    requires Sends(sent) == |sent| && n <= |sent|
    ensures AfterSends(sent, n) == sent[n..]
  {
    if n > 0 { AfterSendsAllTrue(sent[1..], n - 1); }
  }

  lemma {:induction false} LastGroupAllTrue(sent: seq<bool>)
    requires Sends(sent) == |sent|
    ensures Sends(LastGroup(sent)) == |LastGroup(sent)|
    decreases |sent|
  {
    if BATCH_SIZE <= Sends(sent) {
      AfterSendsAllTrue(sent, BATCH_SIZE);
      LastGroupAllTrue(AfterSends(sent, BATCH_SIZE));
    }
  }

  // ---------------------------------------------------------------- bookkeeping of a batch

  /** The loop's counters: fates so far, packets still to process, packets to the next commit,
      and descriptors written but not committed. */
  datatype Tally = Tally(fates: seq<Fate>, batched: nat, chunk: nat, uncommitted: int)

  /** What one job does to the counters. */
  function Advance(c: Config, t: Tally, job: Job): Tally {
    var left := if t.batched == 0 then 0 else t.batched - 1;
    match JobFate(c, job)
    case Panics => t
    case Overruns => t
    case Dropped => t.(fates := t.fates + [Dropped], batched := left)
    case Sent(packet) =>
      if t.chunk <= 1 then Tally(t.fates + [Sent(packet)], left, Min(BATCH_SIZE, left), 0)
      else Tally(t.fates + [Sent(packet)], left, t.chunk - 1, t.uncommitted + 1)
  }

  function AdvanceAll(c: Config, t: Tally, jobs: seq<Job>): Tally {
    if jobs == [] then t else Advance(c, AdvanceAll(c, t, jobs[..|jobs| - 1]), jobs[|jobs| - 1])
  }

  /** Counters at the start of a batch. */
  function BatchStart(fates: seq<Fate>, jobs: nat, uncommitted: nat): Tally {
    Tally(fates, jobs, Min(BATCH_SIZE, jobs), uncommitted)
  }

  ghost predicate NoStop(c: Config, jobs: seq<Job>) {
    Settled(Fates(c, jobs))
  }

  ghost predicate Settled(fates: seq<Fate>) {
    Panics !in fates && Overruns !in fates
  }

  lemma NoStopPush(c: Config, jobs: seq<Job>, i: nat)
    requires i < |jobs|
    ensures NoStop(c, jobs[..i + 1]) <==> NoStop(c, jobs[..i]) && !Stops(JobFate(c, jobs[i]))
  {
    hide JobFate;
    assert Fates(c, jobs[..i + 1]) == Fates(c, jobs[..i]) + [JobFate(c, jobs[i])];
  }

  lemma NoStopAppend(c: Config, a: seq<Job>, b: seq<Job>)
    ensures NoStop(c, a + b) <==> NoStop(c, a) && NoStop(c, b)
  {
    hide JobFate;
    assert Fates(c, a + b) == Fates(c, a) + Fates(c, b);
  }

  lemma AdvanceAllNone(c: Config, t: Tally, jobs: seq<Job>)
    ensures AdvanceAll(c, t, jobs[..0]) == t && NoStop(c, jobs[..0])
  {
  }

  lemma AdvanceAllPush(c: Config, t: Tally, jobs: seq<Job>, i: nat)
    requires i < |jobs|
    ensures AdvanceAll(c, t, jobs[..i + 1]) == Advance(c, AdvanceAll(c, t, jobs[..i]), jobs[i])
  {
    assert jobs[..i + 1][..i] == jobs[..i];
  }

  lemma {:induction false} AdvanceAllAppend(c: Config, t: Tally, a: seq<Job>, b: seq<Job>)
    ensures AdvanceAll(c, t, a + b) == AdvanceAll(c, AdvanceAll(c, t, a), b)
  {
    if b == [] {
      assert a + b == a;
    } else {
      var n := |b| - 1;
      AdvanceAllAppend(c, t, a, b[..n]);
      assert (a + b)[..|a + b| - 1] == a + b[..n];
    }
  }

  /** Processing jobs records their fates in order, counts them off, and never lets the next
      chunk be empty while there is work. */
  lemma {:induction false} AdvanceAllCounts(c: Config, t: Tally, jobs: seq<Job>)
    requires NoStop(c, jobs) && |jobs| <= t.batched && 0 <= t.uncommitted
    requires t.batched > 0 ==> t.chunk > 0
    ensures var t' := AdvanceAll(c, t, jobs);
            && t'.fates == t.fates + Fates(c, jobs)
            && t'.batched == t.batched - |jobs|
            && 0 <= t'.uncommitted
            && (t'.batched > 0 ==> t'.chunk > 0)
  {
    hide JobFate;
    if jobs != [] {
      var n := |jobs| - 1;
      assert jobs[..n + 1] == jobs;
      NoStopPush(c, jobs, n);
      AdvanceAllCounts(c, t, jobs[..n]);
      assert Fates(c, jobs) == Fates(c, jobs[..n]) + [JobFate(c, jobs[n])];
    }
  }

  lemma {:induction false} AdvanceAllLeftover(c: Config, t: Tally, jobs: seq<Job>, rest: seq<bool>)
    requires NoStop(c, jobs) && t.batched == |jobs| + |rest| && 0 <= t.uncommitted
    requires t.batched > 0 ==> t.chunk > 0
    ensures var t' := AdvanceAll(c, t, jobs);
            && 0 <= t'.uncommitted
            && Leftover(rest, t'.chunk, t'.uncommitted) == Leftover(SentFlags(c, jobs) + rest, t.chunk, t.uncommitted)
  {
    hide JobFate;
    if jobs == [] {
      assert SentFlags(c, jobs) + rest == rest;
    } else {
      var n := |jobs| - 1;
      var next := [JobFate(c, jobs[n]).Sent?] + rest;
      assert jobs[..n + 1] == jobs;
      NoStopPush(c, jobs, n);
      AdvanceAllCounts(c, t, jobs[..n]);
      AdvanceAllLeftover(c, t, jobs[..n], next);
      var m := AdvanceAll(c, t, jobs[..n]);
      LeftoverStep(next, m.chunk, m.uncommitted);
      assert next[1..] == rest;
      assert SentFlags(c, jobs) + rest == SentFlags(c, jobs[..n]) + next;
    }
  }

  /** With a fixed destination MAC fewer than a batch of descriptors is ever uncommitted while
      there is work. */
  lemma AdvanceKeepsWindow(c: Config, t: Tally, job: Job)
    requires c.destMac.Some? && t.uncommitted + t.chunk <= BATCH_SIZE
    ensures var t' := Advance(c, t, job); t'.uncommitted + t'.chunk <= BATCH_SIZE
  {
  }

  /** Where in the batch's jobs item k starts. */
  function ItemStart(items: seq<Item>, k: nat): nat
    requires k <= |items|
  {
    |Jobs(items[..k])|
  }

  /** The counters after the first m jobs, if none of them panics. */
  ghost function After(c: Config, t: Tally, jobs: seq<Job>, m: nat): Option<Tally>
    requires m <= |jobs|
  {
    if NoStop(c, jobs[..m]) then Some(AdvanceAll(c, t, jobs[..m])) else None
  }

  lemma AfterNone(c: Config, t: Tally, jobs: seq<Job>)
    ensures After(c, t, jobs, 0) == Some(t)
  {
    AdvanceAllNone(c, t, jobs);
  }

  lemma AfterNext(c: Config, t: Tally, jobs: seq<Job>, i: nat, t1: Tally)
    requires i < |jobs| && After(c, t, jobs, i) == Some(t1)
    ensures !Stops(JobFate(c, jobs[i])) ==> After(c, t, jobs, i + 1) == Some(Advance(c, t1, jobs[i]))
  {
    AdvanceAllPush(c, t, jobs, i);
    NoStopPush(c, jobs, i);
  }

  lemma AfterCounts(c: Config, t: Tally, jobs: seq<Job>, m: nat, t1: Tally)
    requires m <= |jobs| <= t.batched && 0 <= t.uncommitted && (t.batched > 0 ==> t.chunk > 0)
    requires After(c, t, jobs, m) == Some(t1)
    ensures t1.batched == t.batched - m && 0 <= t1.uncommitted && (t1.batched > 0 ==> t1.chunk > 0)
  {
    hide JobFate;
    AdvanceAllCounts(c, t, jobs[..m]);
  }

  lemma AfterFates(c: Config, t: Tally, jobs: seq<Job>, m: nat, t1: Tally)
    requires m <= |jobs| <= t.batched && 0 <= t.uncommitted && (t.batched > 0 ==> t.chunk > 0)
    requires After(c, t, jobs, m) == Some(t1)
    ensures t1.fates == t.fates + Fates(c, jobs)[..m]
  {
    hide JobFate;
    AdvanceAllCounts(c, t, jobs[..m]);
    assert Fates(c, jobs[..m]) == Fates(c, jobs)[..m];
  }

  /** Processing the first n jobs of item k continues the batch where item k starts. */
  lemma BatchStep(c: Config, t: Tally, items: seq<Item>, k: nat, n: nat, t1: Tally, t2: Tally)
    requires k < |items| && n <= |items[k].addrs|
    requires ItemStart(items, k) <= |Jobs(items)|
    requires After(c, t, Jobs(items), ItemStart(items, k)) == Some(t1)
    requires After(c, t1, ItemJobs(items[k]), n) == Some(t2)
    ensures ItemStart(items, k + 1) == ItemStart(items, k) + |items[k].addrs| <= |Jobs(items)|
    ensures After(c, t, Jobs(items), ItemStart(items, k) + n) == Some(t2)
    ensures n < |items[k].addrs| ==> Jobs(items)[ItemStart(items, k) + n] == ItemJobs(items[k])[n]
  {
    hide JobFate, Jobs, Fates, Advance;
    var jobs, at, mine := Jobs(items), ItemStart(items, k), ItemJobs(items[k]);
    JobsSplit(items, k, 0);
    JobsSplit(items, k, n);
    assert mine[..0] == [];
    assert jobs[..at] == Jobs(items[..k]);
    AdvanceAllAppend(c, t, jobs[..at], mine[..n]);
    NoStopAppend(c, jobs[..at], mine[..n]);
  }

  lemma BatchEnds(items: seq<Item>)
    ensures ItemStart(items, 0) == 0 && ItemStart(items, |items|) == |Jobs(items)|
  {
    assert items[..|items|] == items && items[..0] == [];
  }

  /** A whole batch: its fates in order, nothing left to process, and the exact leftover. */
  lemma BatchOutcome(c: Config, fates: seq<Fate>, jobs: seq<Job>, uncommitted: nat, t: Tally)
    requires After(c, BatchStart(fates, |jobs|, uncommitted), jobs, |jobs|) == Some(t)
    ensures t.fates == fates + Fates(c, jobs) && Settled(Fates(c, jobs))
    ensures t.batched == 0
    ensures t.uncommitted == Leftover(SentFlags(c, jobs), Min(BATCH_SIZE, |jobs|), uncommitted)
  {
    hide JobFate;
    assert jobs[..|jobs|] == jobs;
    var start := BatchStart(fates, |jobs|, uncommitted);
    AdvanceAllCounts(c, start, jobs);
    AdvanceAllLeftover(c, start, jobs, []);
    assert SentFlags(c, jobs) + [] == SentFlags(c, jobs);
  }

  // ---------------------------------------------------------------- runs of the channel

  /** What the channel yields at one poll; after the last event it is disconnected. */
  datatype Event = Received(item: Item) | Empty

  function Items(events: seq<Event>): seq<Item> {
    if events == [] then []
    else
      var n := |events| - 1;
      Items(events[..n]) + if events[n].Received? then [events[n].item] else []
  }

  lemma ItemsNext(events: seq<Event>, i: nat)
    requires i < |events|
    ensures Items(events[..i + 1]) == Items(events[..i]) + if events[i].Received? then [events[i].item] else []
  {
    assert events[..i + 1][..i] == events[..i];
  }

  lemma {:induction false} ItemsPrefix(events: seq<Event>, i: nat)
    requires i <= |events|
    ensures Items(events[..i]) <= Items(events)
    decreases |events| - i
  {
    if i == |events| {
      assert events[..i] == events;
    } else {
      ItemsNext(events, i);
      ItemsPrefix(events, i + 1);
    }
  }

  /** Fates of everything a run is given. */
  function RunFates(c: Config, items: seq<Item>): seq<Fate> {
    Fates(c, Jobs(items))
  }

  lemma RunFatesAppend(c: Config, a: seq<Item>, b: seq<Item>)
    ensures RunFates(c, a + b) == RunFates(c, a) + RunFates(c, b)
  {
    hide JobFate;
    JobsAppend(a, b);
  }

  lemma RunFatesNoJobs(c: Config, a: seq<Item>, b: seq<Item>)
    requires Jobs(b) == []
    ensures RunFates(c, a + b) == RunFates(c, a)
  {
    RunFatesAppend(c, a, b);
  }

  lemma RunFatesPrefix(c: Config, a: seq<Item>, all: seq<Item>)
    requires a <= all
    ensures RunFates(c, a) <= RunFates(c, all)
  {
    assert all == a + all[|a|..];
    RunFatesAppend(c, a, all[|a|..]);
  }

  /** A finished batch extends the run's fates by its own. */
  lemma BatchExtends(c: Config, done: seq<Item>, items: seq<Item>, uncommitted: nat, t: Tally)
    requires Settled(RunFates(c, done))
    requires After(c, BatchStart(RunFates(c, done), |Jobs(items)|, uncommitted), Jobs(items), |Jobs(items)|) == Some(t)
    ensures t.fates == RunFates(c, done + items) && Settled(t.fates) && t.batched == 0 && 0 <= t.uncommitted
    ensures c.destMac.Some? && uncommitted == 0 ==> t.uncommitted == 0
  {
    hide JobFate;
    BatchOutcome(c, RunFates(c, done), Jobs(items), uncommitted, t);
    RunFatesAppend(c, done, items);
    if c.destMac.Some? && uncommitted == 0 && Jobs(items) != [] {
      AllSentWithFixedMac(c, Jobs(items));
      NoDropsNoLeftover(SentFlags(c, Jobs(items)), uncommitted);
    }
  }

  lemma AllSentWithFixedMac(c: Config, jobs: seq<Job>)
    requires c.destMac.Some? && Settled(Fates(c, jobs))
    ensures forall i: nat :: i < |jobs| ==> SentFlags(c, jobs)[i]
  {
    forall i: nat | i < |jobs|
      ensures SentFlags(c, jobs)[i]
    {
      assert Fates(c, jobs)[i] == JobFate(c, jobs[i]);
      assert !Stops(JobFate(c, jobs[i]));
    }
  }

  /** An interrupted batch leaves the run's fates a prefix of what was asked. */
  lemma BatchCut(c: Config, done: seq<Item>, items: seq<Item>, all: seq<Item>, uncommitted: nat, stop: nat, t: Tally)
    requires done + items <= all && stop < |Jobs(items)|
    requires After(c, BatchStart(RunFates(c, done), |Jobs(items)|, uncommitted), Jobs(items), stop) == Some(t)
    ensures t.fates <= RunFates(c, all) && |t.fates| < |RunFates(c, all)|
    ensures RunFates(c, all)[|t.fates|] == JobFate(c, Jobs(items)[stop])
  {
    hide JobFate;
    AfterFates(c, BatchStart(RunFates(c, done), |Jobs(items)|, uncommitted), Jobs(items), stop, t);
    RunFatesAppend(c, done, items);
    RunFatesPrefix(c, done + items, all);
  }

  lemma NothingYet(c: Config, events: seq<Event>)
    ensures Jobs([]) == [] && RunFates(c, []) == [] && Settled([])
    ensures Items(events[..0]) == []
  {
  }
}

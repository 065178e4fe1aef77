/** When the transmit loop can finish: how many descriptors are unpublished at each moment of a
    run, computed from the configuration and the channel's events alone. */
module TxProgress {
  import opened Words
  import opened Packet
  import opened TxModel

  function Max(a: int, b: int): int {
    if a < b then b else a
  }

  // ---------------------------------------------------------------- one batch

  /** Slots and frames a batch needs: for some job, the unpublished descriptors before it and
      its own. */
  function BatchPeak(c: Config, t: Tally, jobs: seq<Job>): int {
    if jobs == [] then 0
    else
      var n := |jobs| - 1;
      Max(BatchPeak(c, t, jobs[..n]), AdvanceAll(c, t, jobs[..n]).uncommitted + 1)
  }

  lemma PeakNone(c: Config, t: Tally, jobs: seq<Job>)
    ensures BatchPeak(c, t, jobs[..0]) == 0
  {
  }

  lemma PeakNext(c: Config, t: Tally, jobs: seq<Job>, i: nat)
    requires i < |jobs|
    ensures BatchPeak(c, t, jobs[..i + 1])
         == Max(BatchPeak(c, t, jobs[..i]), AdvanceAll(c, t, jobs[..i]).uncommitted + 1)
  {
    hide AdvanceAll;
    assert jobs[..i + 1][..i] == jobs[..i];
  }

  lemma {:induction false} PeakGrows(c: Config, t: Tally, jobs: seq<Job>, i: nat)
    requires i <= |jobs|
    ensures BatchPeak(c, t, jobs[..i]) <= BatchPeak(c, t, jobs)
    decreases |jobs| - i
  {
    hide BatchPeak, AdvanceAll;
    if i == |jobs| {
      assert jobs[..i] == jobs;
    } else {
      PeakNext(c, t, jobs, i);
      PeakGrows(c, t, jobs, i + 1);
    }
  }

  lemma {:induction false} PeakAppend(c: Config, t: Tally, a: seq<Job>, b: seq<Job>)
    ensures BatchPeak(c, t, a + b) == Max(BatchPeak(c, t, a), BatchPeak(c, AdvanceAll(c, t, a), b))
    ensures 0 <= BatchPeak(c, t, a)
    decreases |a| + |b|
  {
    hide Advance;
    if b == [] {
      assert a + b == a;
      if a != [] { PeakAppend(c, t, a[..|a| - 1], []); }
    } else {
      var n := |b| - 1;
      PeakAppend(c, t, a, b[..n]);
      AdvanceAllAppend(c, t, a, b[..n]);
      assert (a + b)[..|a + b| - 1] == a + b[..n];
    }
  }

  /** The counters other than the fates do not depend on the fates. */
  lemma {:induction false} PeakIgnoresFates(c: Config, t: Tally, f: seq<Fate>, jobs: seq<Job>)
    ensures AdvanceAll(c, t.(fates := f), jobs).(fates := []) == AdvanceAll(c, t, jobs).(fates := [])
    ensures BatchPeak(c, t.(fates := f), jobs) == BatchPeak(c, t, jobs)
  {
    hide JobFate;
    if jobs != [] {
      PeakIgnoresFates(c, t, f, jobs[..|jobs| - 1]);
    }
  }

  /** With a fixed destination MAC a batch started clean needs at most BATCH_SIZE. */
  lemma {:induction false} FixedMacPeak(c: Config, t: Tally, jobs: seq<Job>)
    requires c.destMac.Some? && t.uncommitted + t.chunk <= BATCH_SIZE && |jobs| <= t.batched
    requires t.batched > 0 ==> t.chunk > 0
    ensures BatchPeak(c, t, jobs) <= BATCH_SIZE
    ensures var t' := AdvanceAll(c, t, jobs);
            && t'.uncommitted + t'.chunk <= BATCH_SIZE && t'.batched >= t.batched - |jobs|
            && (t'.batched > 0 ==> t'.chunk > 0)
  {
    hide JobFate;
    if jobs != [] {
      var n := |jobs| - 1;
      FixedMacPeak(c, t, jobs[..n]);
      AdvanceKeepsWindow(c, AdvanceAll(c, t, jobs[..n]), jobs[n]);
    }
  }

  // ---------------------------------------------------------------- the outer loop

  /** Between two channel events: items waiting, empty polls in a row, descriptors unpublished,
      and the most slots and frames any job has needed. */
  datatype Outer = Outer(pending: seq<Item>, timeouts: nat, uncommitted: nat, peak: int)

  function PendingPeak(c: Config, s: Outer): int {
    BatchPeak(c, BatchStart([], |Jobs(s.pending)|, s.uncommitted), Jobs(s.pending))
  }

  /** Processing everything that waits. */
  function DrainPending(c: Config, s: Outer): (r: Outer)
    ensures r.pending == [] && r.timeouts == s.timeouts
  {
    var jobs := Jobs(s.pending);
    var left := Leftover(SentFlags(c, jobs), Min(BATCH_SIZE, |jobs|), s.uncommitted);
    Outer([], s.timeouts, left, Max(s.peak, PendingPeak(c, s)))
  }

  /** An event as it enters the loop, before anything is processed. */
  function Arrive(s: Outer, e: Event): Outer {
    match e
    case Received(item) => s.(pending := s.pending + [item], timeouts := 0)
    case Empty =>
      if s.timeouts < MAX_TIMEOUTS then s.(timeouts := s.timeouts + 1) else s.(timeouts := 0, uncommitted := 0)
  }

  predicate Waits(s: Outer, e: Event) {
    e.Received? && |Jobs(s.pending)| < BATCH_SIZE
  }

  function OnEvent(c: Config, s: Outer, e: Event): Outer {
    var s' := Arrive(s, e);
    if Waits(s', e) then s' else DrainPending(c, s')
  }

  function OuterRun(c: Config, events: seq<Event>): Outer {
    if events == [] then Outer([], 0, 0, 0)
    else OnEvent(c, OuterRun(c, events[..|events| - 1]), events[|events| - 1])
  }

  /** Descriptors written and never published when the channel is gone and all is processed. */
  function RunLeftover(c: Config, events: seq<Event>): nat {
    DrainPending(c, OuterRun(c, events)).uncommitted
  }

  /** Slots and frames a run needs to get past every job. */
  function RunPeak(c: Config, events: seq<Event>): int {
    DrainPending(c, OuterRun(c, events)).peak
  }

  lemma OuterNext(c: Config, events: seq<Event>, i: nat)
    requires i < |events|
    ensures OuterRun(c, events[..i + 1]) == OnEvent(c, OuterRun(c, events[..i]), events[i])
  {
    assert events[..i + 1][..i] == events[..i];
  }

  lemma {:induction false} OuterPeak(c: Config, events: seq<Event>)
    ensures OuterRun(c, events).peak >= 0
  {
    hide Jobs, BatchPeak, Leftover;
    if events != [] { OuterPeak(c, events[..|events| - 1]); }
  }

  lemma {:induction false} OuterGrows(c: Config, events: seq<Event>, i: nat)
    requires i <= |events|
    ensures OuterRun(c, events[..i]).peak <= OuterRun(c, events).peak <= RunPeak(c, events)
    decreases |events| - i
  {
    hide Jobs, BatchPeak, Leftover;
    if i == |events| {
      assert events[..i] == events;
    } else {
      OuterNext(c, events, i);
      OuterGrows(c, events, i + 1);
    }
  }

  /** Nothing waiting: processing changes nothing. */
  lemma DrainNothing(c: Config, s: Outer)
    requires Jobs(s.pending) == [] && s.peak >= 0
    ensures DrainPending(c, s) == s.(pending := [])
  {
  }

  // ---------------------------------------------------------------- following the loop

  /** The next job adds its own need to the peak. */
  lemma AfterPeak(c: Config, t: Tally, jobs: seq<Job>, i: nat, t1: Tally)
    requires i < |jobs| && After(c, t, jobs, i) == Some(t1)
    ensures BatchPeak(c, t, jobs[..i + 1]) == Max(BatchPeak(c, t, jobs[..i]), t1.uncommitted + 1)
  {
    hide BatchPeak, AdvanceAll, NoStop;
    PeakNext(c, t, jobs, i);
  }

  lemma BatchStepPeak(c: Config, t: Tally, items: seq<Item>, k: nat, n: nat, t1: Tally)
    requires k < |items| && n <= |items[k].addrs|
    requires ItemStart(items, k) + n <= |Jobs(items)|
    requires After(c, t, Jobs(items), ItemStart(items, k)) == Some(t1)
    ensures var at := ItemStart(items, k);
            BatchPeak(c, t, Jobs(items)[..at + n])
            == Max(BatchPeak(c, t, Jobs(items)[..at]), BatchPeak(c, t1, ItemJobs(items[k])[..n]))
  {
    hide JobFate, Jobs, Advance, BatchPeak;
    var jobs, at, mine := Jobs(items), ItemStart(items, k), ItemJobs(items[k]);
    JobsSplit(items, k, 0);
    JobsSplit(items, k, n);
    assert mine[..0] == [];
    assert jobs[..at] == Jobs(items[..k]);
    PeakAppend(c, t, jobs[..at], mine[..n]);
  }

  /** A batch cut or finished at `stop`, seen from the outer loop. */
  lemma DrainedPeak(c: Config, s: Outer, fates: seq<Fate>, stop: nat, t: Tally)
    requires stop <= |Jobs(s.pending)|
    requires After(c, BatchStart(fates, |Jobs(s.pending)|, s.uncommitted), Jobs(s.pending), stop) == Some(t)
    ensures stop < |Jobs(s.pending)| ==> t.uncommitted < DrainPending(c, s).peak
    ensures BatchPeak(c, BatchStart(fates, |Jobs(s.pending)|, s.uncommitted), Jobs(s.pending)[..stop])
         <= DrainPending(c, s).peak
    ensures stop == |Jobs(s.pending)| ==>
              DrainPending(c, s).peak
              == Max(s.peak, BatchPeak(c, BatchStart(fates, |Jobs(s.pending)|, s.uncommitted), Jobs(s.pending)[..stop]))
    ensures c.destMac.Some? && s.uncommitted == 0 && stop < |Jobs(s.pending)| ==> t.uncommitted < BATCH_SIZE
  {
    hide JobFate, Jobs, BatchPeak, AdvanceAll, Leftover;
    var jobs := Jobs(s.pending);
    var start := BatchStart(fates, |jobs|, s.uncommitted);
    PeakIgnoresFates(c, BatchStart([], |jobs|, s.uncommitted), fates, jobs);
    PeakGrows(c, start, jobs, stop);
    assert jobs[..|jobs|] == jobs;
    if stop < |jobs| {
      PeakGrows(c, start, jobs, stop + 1);
      AfterPeak(c, start, jobs, stop, t);
      if c.destMac.Some? && s.uncommitted == 0 { FixedMacPeak(c, start, jobs); }
    }
  }

  /** A finished batch is a drain of the outer loop. */
  lemma BatchDrains(c: Config, s: Outer, done: seq<Item>, t: Tally)
    requires var jobs := Jobs(s.pending);
             After(c, BatchStart(RunFates(c, done), |jobs|, s.uncommitted), jobs, |jobs|) == Some(t)
    ensures DrainPending(c, s).uncommitted == t.uncommitted
    ensures |RunFates(c, done + s.pending)| == |RunFates(c, done)| + |Jobs(s.pending)|
  {
    hide JobFate, Jobs, BatchPeak, AdvanceAll, Leftover, After;
    BatchOutcome(c, RunFates(c, done), Jobs(s.pending), s.uncommitted, t);
    RunFatesAppend(c, done, s.pending);
  }

  /** The loop's state after i events, or after the drain that follows the last one. */
  ghost predicate OnCourse(c: Config, events: seq<Event>, i: nat, s: Outer)
    requires i <= |events|
  {
    s.peak >= 0 && (s == OuterRun(c, events[..i]) || (i == |events| && s == DrainPending(c, OuterRun(c, events))))
  }

  lemma OuterStart(c: Config, events: seq<Event>)
    ensures OuterRun(c, events[..0]) == Outer([], 0, 0, 0)
  {
  }

  /** An event either waits or is drained, and either way the loop stays on course. */
  lemma CourseNext(c: Config, events: seq<Event>, i: nat, s: Outer)
    requires i < |events| && OnCourse(c, events, i, s)
    ensures var s' := Arrive(s, events[i]);
            && (Waits(s', events[i]) ==> OnCourse(c, events, i + 1, s'))
            && (!Waits(s', events[i]) ==> OnCourse(c, events, i + 1, DrainPending(c, s')))
            && (!Waits(s', events[i]) ==> DrainPending(c, s').peak <= RunPeak(c, events))
  {
    hide Jobs, PendingPeak, Leftover, OuterRun;
    OuterNext(c, events, i);
    OuterGrows(c, events, i + 1);
  }

  lemma CourseEnds(c: Config, events: seq<Event>, s: Outer)
    requires OnCourse(c, events, |events|, s)
    requires Jobs(s.pending) != []
    ensures OnCourse(c, events, |events|, DrainPending(c, s)) && DrainPending(c, s).peak == RunPeak(c, events)
  {
    hide PendingPeak, Leftover, OuterRun;
    assert events[..|events|] == events;
  }

  lemma CourseDone(c: Config, events: seq<Event>, s: Outer)
    requires OnCourse(c, events, |events|, s) && Jobs(s.pending) == []
    ensures RunLeftover(c, events) == s.uncommitted && RunPeak(c, events) == s.peak
    ensures events[..|events|] == events
  {
    hide Jobs, BatchPeak, OuterRun;
    assert events[..|events|] == events;
    DrainNothing(c, s);
  }

  lemma JobsLeft(c: Config, done: seq<Item>, items: seq<Item>, all: seq<Item>)
    requires done + items <= all
    ensures |RunFates(c, done)| + |Jobs(items)| <= |RunFates(c, all)|
  {
    hide Jobs;
    RunFatesAppend(c, done, items);
    RunFatesPrefix(c, done + items, all);
  }

  // ---------------------------------------------------------------- runs that stall

  /** An item with one address that is sent and one that is dropped. */
  ghost predicate HalfDropped(c: Config, item: Item) {
    |item.addrs| == 2 && JobFate(c, Job(item.addrs[0], item.payload)).Sent?
    && JobFate(c, Job(item.addrs[1], item.payload)) == Dropped
  }

  /** Draining it leaves one more descriptor unpublished and needs two more slots and frames. */
  lemma HalfDroppedDrain(c: Config, item: Item, s: Outer)
    requires HalfDropped(c, item) && s.pending == [item]
    ensures |Jobs(s.pending)| == 2
    ensures DrainPending(c, s) == Outer([], s.timeouts, s.uncommitted + 1, Max(s.peak, s.uncommitted + 2))
  {
    hide JobFate;
    JobsPush([], item);
    assert [] + [item] == [item] && Jobs([]) + ItemJobs(item) == ItemJobs(item);
    var jobs, u := Jobs([item]), s.uncommitted;
    ItemJobAt(item, 0);
    ItemJobAt(item, 1);
    var flags := SentFlags(c, jobs);
    assert flags == [true, false] && flags[1..] == [false];
    LeftoverStep(flags, 2, u);
    LeftoverStep([false], 1, u + 1);
    assert [false][1..] == [];
    var t := BatchStart([], 2, u);
    assert jobs[..1][..0] == [] && jobs[..1][0] == jobs[0];
    assert AdvanceAll(c, t, jobs[..1]) == Advance(c, AdvanceAll(c, t, jobs[..1][..0]), jobs[0]);
    assert BatchPeak(c, t, jobs[..1]) == u + 1;
    assert jobs[..|jobs| - 1] == jobs[..1];
  }

  /** n times such an item and an empty poll. */
  function Repeated(item: Item, n: nat): seq<Event> {
    if n == 0 then [] else Repeated(item, n - 1) + [Received(item), Empty]
  }

  /** n such batches leave n descriptors unpublished and need n + 1 slots and frames, so a run
      with at least as many of them as the ring has slots cannot get past them. */
  lemma {:induction false} DropsAccumulate(c: Config, item: Item, n: nat)
    requires HalfDropped(c, item)
    ensures RunLeftover(c, Repeated(item, n)) == n
    ensures RunPeak(c, Repeated(item, n)) == if n == 0 then 0 else n + 1
    ensures OuterRun(c, Repeated(item, n)) == if n == 0 then Outer([], 0, 0, 0) else Outer([], 1, n, n + 1)
  {
    hide HalfDropped, Leftover, BatchPeak, PendingPeak, Jobs;
    assert Jobs([]) == [] by { NothingYet(c, []); }
    if n > 0 {
      DropsAccumulate(c, item, n - 1);
      var before, events := Repeated(item, n - 1), Repeated(item, n);
      var s := OuterRun(c, before);
      assert events[..|events| - 1][..|before|] == before;
      var s1 := s.(pending := [item], timeouts := 0);
      HalfDroppedDrain(c, item, s1);
      HalfDroppedDrain(c, item, s1.(timeouts := 1));
      assert s.pending + [item] == [item];
      assert OuterRun(c, events[..|events| - 1]) == s1;
      assert OuterRun(c, events) == OnEvent(c, s1, Empty);
    }
    DrainNothing(c, OuterRun(c, Repeated(item, n)));
  }

  /** A host with one neighbour whose MAC is known; every other address is dropped. */
  function OneNeighbour(): Config {
    Config([0, 0, 0, 0, 0, 1], [10, 0, 0, 1], 8000, None, 1,
           ip => Some(NextHop(if ip == [10, 0, 0, 2] then Some([0, 0, 0, 0, 0, 2]) else None, 1)), 4096)
  }

  /** One item to the neighbour and to another address: it leaves one descriptor unpublished, so
      such a run can be finished on no ring, with no kernel and no number of polls. */
  lemma StallingRun(payload: seq<u8>)
    requires FitsFrame(OneNeighbour(), payload)
    ensures var item := Item([V4([10, 0, 0, 2], 8001), V4([10, 0, 0, 3], 8001)], payload);
            HalfDropped(OneNeighbour(), item) && RunLeftover(OneNeighbour(), [Received(item)]) == 1
  {
    hide PacketBytes;
    var c, item := OneNeighbour(), Item([V4([10, 0, 0, 2], 8001), V4([10, 0, 0, 3], 8001)], payload);
    assert HalfDropped(c, item);
    var events := [Received(item)];
    assert events[..0] == [];
    var s := Outer([item], 0, 0, 0);
    HalfDroppedDrain(c, item, s);
    assert [] + [item] == [item];
    assert OuterRun(c, events) == OnEvent(c, Outer([], 0, 0, 0), Received(item)) == s;
  }

  // ---------------------------------------------------------------- quiet channels

  function Quiet(n: nat): (events: seq<Event>)
    ensures |events| == n
  {
    seq(n, _ => Empty)
  }

  lemma QuietNext(c: Config, events: seq<Event>, n: nat)
    ensures OuterRun(c, events + Quiet(n + 1)) == OnEvent(c, OuterRun(c, events + Quiet(n)), Empty)
    ensures events + Quiet(0) == events
  {
    assert (events + Quiet(n + 1))[..|events| + n] == events + Quiet(n);
  }

  /** Fewer than 64 jobs ever wait, and only while no poll has come up empty. */
  lemma {:induction false} PendingWaits(c: Config, events: seq<Event>)
    ensures var s := OuterRun(c, events);
            && |Jobs(s.pending)| < 64 && s.timeouts <= 500 && s.peak >= 0
            && (s.pending != [] ==> s.timeouts == 0)
  {
    hide Jobs, BatchPeak, Leftover;
    OuterPeak(c, events);
    assert Jobs([]) == [] by { NothingYet(c, []); }
    if events != [] { PendingWaits(c, events[..|events| - 1]); }
  }

  /** Empty polls with nothing waiting: the one that finds 500 before it publishes everything. */
  lemma {:induction false} QuietRun(c: Config, events: seq<Event>, n: nat)
    requires OuterRun(c, events).pending == []
    ensures var s, q := OuterRun(c, events), OuterRun(c, events + Quiet(n));
            && q.pending == []
            && (if s.timeouts + n <= 500 then q.uncommitted == s.uncommitted && q.timeouts == s.timeouts + n
                else q.uncommitted == 0)
  {
    hide Jobs, BatchPeak, Leftover, OuterRun, PendingPeak;
    assert Jobs([]) == [] by { NothingYet(c, []); }
    PendingWaits(c, events);
    if n == 0 {
      QuietNext(c, events, 0);
    } else {
      QuietRun(c, events, n - 1);
      QuietNext(c, events, n - 1);
      PendingWaits(c, events + Quiet(n - 1));
      DrainNothing(c, Arrive(OuterRun(c, events + Quiet(n - 1)), Empty));
    }
  }

  /** After any events, 501 empty polls in a row leave nothing unpublished. */
  lemma QuietPublishes(c: Config, events: seq<Event>)
    ensures RunLeftover(c, events + Quiet(501)) == 0
  {
    hide Jobs, BatchPeak, Leftover, OuterRun, PendingPeak;
    assert Jobs([]) == [] by { NothingYet(c, []); }
    PendingWaits(c, events);
    QuietNext(c, events, 0);
    if OuterRun(c, events).pending == [] {
      QuietRun(c, events, 501);
    } else {
      var once := events + Quiet(1);
      assert OuterRun(c, once).pending == [] && OuterRun(c, once).timeouts == 1;
      QuietRun(c, once, 500);
      assert once + Quiet(500) == events + Quiet(501);
    }
    PendingWaits(c, events + Quiet(501));
    DrainNothing(c, OuterRun(c, events + Quiet(501)));
  }

  /** And no fewer will do: the half-dropped item stays unpublished exactly until the 501st. */
  lemma QuietNeeded(c: Config, item: Item, n: nat)
    requires HalfDropped(c, item)
    ensures RunLeftover(c, [Received(item)] + Quiet(n)) == if n <= 500 then 1 else 0
  {
    hide HalfDropped, Jobs, BatchPeak, Leftover, PendingPeak;
    assert Jobs([]) == [] by { NothingYet(c, []); }
    var events, s := [Received(item)], Outer([item], 0, 0, 0);
    HalfDroppedDrain(c, item, s);
    HalfDroppedDrain(c, item, s.(timeouts := 1));
    assert OuterRun(c, events) == s by {
      assert events[..0] == [] && [] + [item] == [item];
    }
    hide OuterRun;
    QuietNext(c, events, 0);
    if n > 0 {
      var once := events + Quiet(1);
      QuietRun(c, once, n - 1);
      assert once + Quiet(n - 1) == events + Quiet(n);
      PendingWaits(c, events + Quiet(n));
      DrainNothing(c, OuterRun(c, events + Quiet(n)));
    }
  }

  // ---------------------------------------------------------------- runs that finish

  /** Only IPv4 addresses, and payloads that fit a frame. */
  ghost predicate AllSendable(c: Config, items: seq<Item>) {
    forall k: nat, j: nat :: k < |items| && j < |items[k].addrs| ==>
      items[k].addrs[j].V4? && FitsFrame(c, items[k].payload)
  }

  lemma {:induction false} SendableSent(c: Config, items: seq<Item>)
    requires c.destMac.Some? && AllSendable(c, items)
    ensures forall i: nat :: i < |Jobs(items)| ==> JobFate(c, Jobs(items)[i]).Sent?
  {
    hide PacketBytes, FitsFrame;
    if items != [] {
      SendableSent(c, items[1..]);
      forall i: nat | i < |items[0].addrs|
        ensures JobFate(c, ItemJobs(items[0])[i]).Sent?
      {
        ItemJobAt(items[0], i);
      }
    }
  }

  /** Draining such a batch with a fixed destination MAC leaves nothing unpublished. */
  lemma FixedMacDrain(c: Config, s: Outer)
    requires c.destMac.Some? && AllSendable(c, s.pending) && s.uncommitted == 0 && 0 <= s.peak <= BATCH_SIZE
    ensures var s' := DrainPending(c, s); s'.uncommitted == 0 && 0 <= s'.peak <= BATCH_SIZE
  {
    hide JobFate, Jobs, BatchPeak, AdvanceAll;
    var jobs := Jobs(s.pending);
    SendableSent(c, s.pending);
    FixedMacPeak(c, BatchStart([], |jobs|, 0), jobs);
    if jobs != [] { NoDropsNoLeftover(SentFlags(c, jobs), 0); }
  }

  lemma AllSendablePush(c: Config, items: seq<Item>, item: Item)
    requires AllSendable(c, items) && AllSendable(c, [item])
    ensures AllSendable(c, items + [item])
  {
    assert [item][0] == item;
  }

  lemma AllSendableParts(c: Config, events: seq<Event>)
    requires events != [] && AllSendable(c, Items(events))
    ensures var n := |events| - 1;
            AllSendable(c, Items(events[..n])) && (events[n].Received? ==> AllSendable(c, [events[n].item]))
  {
    var n, all := |events| - 1, Items(events);
    var before := Items(events[..n]);
    assert forall k: nat :: k < |before| ==> all[k] == before[k];
    if events[n].Received? { assert all[|before|] == events[n].item; }
  }

  lemma {:induction false} FixedMacOuter(c: Config, events: seq<Event>)
    requires c.destMac.Some? && AllSendable(c, Items(events))
    ensures var s := OuterRun(c, events); s.uncommitted == 0 && 0 <= s.peak <= BATCH_SIZE && AllSendable(c, s.pending)
  {
    hide Jobs, DrainPending, Items, AllSendable;
    if events == [] {
      assert AllSendable(c, []) by { NoItems(c); }
    } else {
      var n := |events| - 1;
      AllSendableParts(c, events);
      FixedMacOuter(c, events[..n]);
      var s, e := OuterRun(c, events[..n]), events[n];
      if e.Received? { AllSendablePush(c, s.pending, e.item); }
      FixedMacDrain(c, Arrive(s, e));
      NoItems(c);
    }
  }

  lemma NoItems(c: Config)
    ensures AllSendable(c, [])
  {
  }

  /** With a fixed destination MAC every run over IPv4 addresses and fitting payloads needs at most BATCH_SIZE slots
      and frames, leaves nothing unpublished and stops nowhere. */
  lemma FixedMacRun(c: Config, events: seq<Event>)
    requires c.destMac.Some? && AllSendable(c, Items(events))
    ensures RunPeak(c, events) <= 64 && RunLeftover(c, events) == 0
    ensures Settled(RunFates(c, Items(events)))
  {
    hide JobFate, Jobs, DrainPending, OuterRun, AllSendable, Items;
    FixedMacOuter(c, events);
    FixedMacDrain(c, OuterRun(c, events));
    SendableSent(c, Items(events));
  }
}

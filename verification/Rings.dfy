/** The single-producer single-consumer descriptor ring as a machine over wrapping
    32-bit cursors, and its refinement of a FIFO with unbounded positions. */
module Rings {
  import opened Bits
  import opened Words

  // ---------------------------------------------------------------- slot index

  ghost predicate PowerOfTwo(size: nat) {
    exists k: nat :: k < 32 && size == Pow2(k)
  }

  /** The masked slot index used by every typed ring. */
  function SlotOf(index: u32, size: u32): u32 {
    AndBound(index, SaturatingSub(size, 1));
    And(index, SaturatingSub(size, 1))
  }

  /** Masking a wrapped cursor gives the unbounded position modulo the ring size. */
  lemma SlotOfPosition(position: nat, size: u32)
    requires PowerOfTwo(size)
    ensures size > 0
    ensures SlotOf(position % U32_SPAN, size) == position % size
  {
    var k: nat :| k < 32 && size == Pow2(k);
    AndLowMask(position % U32_SPAN, k);
    Pow2Values();
    Pow2Add(k, 32 - k);
    ModOfMod(position, Pow2(k), Pow2(32 - k));
  }

  lemma SizeBound(size: nat)
    requires PowerOfTwo(size)
    ensures 0 < size < U32_SPAN
  {
    var k: nat :| k < 32 && size == Pow2(k);
    Pow2Monotone(k, 31);
    Pow2Values();
    assert Pow2(32) == 2 * Pow2(31);
  }

  lemma SlotsDiffer(i: nat, j: nat, size: nat)
    requires i < j < i + size
    ensures i % size != j % size
  {
    if i % size == j % size {
      var a, b := i / size, j / size;
      assert i == size * a + i % size && j == size * b + j % size;
      assert j - i == size * (b - a);
      MultipleBig(size, b - a);
      assert false;
    }
  }

  /** Wrapping subtraction measures the distance of two positions less than 2^32 apart. */
  lemma WrapDistance(a: nat, b: nat)
    requires b <= a < b + U32_SPAN
    ensures WrappingSub(a % U32_SPAN, b % U32_SPAN) == a - b
    ensures a % U32_SPAN == b % U32_SPAN <==> a == b
  {
  }

  /** Stepping a wrapped cursor steps the position it stands for. */
  lemma WrapStep(position: nat)
    ensures WrappingAdd(position % U32_SPAN, 1) == (position + 1) % U32_SPAN
  {
  }

  // ---------------------------------------------------------------- specification

  /** A FIFO with unbounded positions. `log` holds every value ever written; positions
      below `head` are published, below `tail` released. `seenTail` is the producer's last
      view of `tail`, `seenHead` the consumer's last view of `head`, `read` the consumer's
      private position. */
  datatype Fifo<T> = Fifo(log: seq<T>, head: nat, tail: nat, seenTail: nat, seenHead: nat, read: nat) {

    ghost predicate Ordered(size: nat) {
      seenTail <= tail <= read <= seenHead <= head <= |log| <= seenTail + size
    }

    /** Free slots in the producer's view. */
    function Room(size: nat): int {
      seenTail + size - |log|
    }

    /** Values written and not yet taken by the consumer. */
    function Pending(): seq<T>
      requires read <= |log|
    {
      log[read..]
    }

    function Push(v: T): Fifo<T> { this.(log := log + [v]) }
    function Publish(): Fifo<T> { this.(head := |log|) }
    function SeeTail(): Fifo<T> { this.(seenTail := tail) }
    function Take(): Fifo<T> { this.(read := read + 1) }
    function Release(): Fifo<T> { this.(tail := read) }
    function SeeHead(): Fifo<T> { this.(seenHead := head) }

    function SyncProducer(commit: bool): Fifo<T> {
      (if commit then Publish() else this).SeeTail()
    }

    function SyncConsumer(commit: bool): Fifo<T> {
      (if commit then Release() else this).SeeHead()
    }
  }

  // ---------------------------------------------------------------- machine

  /** The memory shared by both ends: two wrapping cursors and the descriptor slots. */
  datatype Shared<T> = Shared(producer: u32, consumer: u32, desc: seq<T>)

  /** One end's private copies of the two cursors. */
  datatype End = End(cachedProducer: u32, cachedConsumer: u32)

  function Room(size: u32, e: End): u32 {
    SaturatingSub(size, WrappingSub(e.cachedProducer, e.cachedConsumer))
  }

  function WriteStep<T>(m: Shared<T>, e: End, v: T): (res: (Shared<T>, End, bool))
    requires 0 < |m.desc| < U32_SPAN
    ensures |res.0.desc| == |m.desc|
  {
    if Room(|m.desc|, e) == 0 then (m, e, false)
    else
      SlotInRange(e.cachedProducer, |m.desc|);
      (m.(desc := m.desc[SlotOf(e.cachedProducer, |m.desc|) := v]),
       e.(cachedProducer := WrappingAdd(e.cachedProducer, 1)),
       true)
  }

  function ReadStep<T>(m: Shared<T>, e: End): (End, Option<T>)
    requires 0 < |m.desc| < U32_SPAN
  {
    if e.cachedConsumer == e.cachedProducer then (e, None)
    else
      SlotInRange(e.cachedConsumer, |m.desc|);
      (e.(cachedConsumer := WrappingAdd(e.cachedConsumer, 1)),
       Some(m.desc[SlotOf(e.cachedConsumer, |m.desc|)]))
  }

  function CommitWrites<T>(m: Shared<T>, e: End): Shared<T> {
    m.(producer := e.cachedProducer)
  }

  function CommitReads<T>(m: Shared<T>, e: End): Shared<T> {
    m.(consumer := e.cachedConsumer)
  }

  lemma SlotInRange(index: u32, size: u32)
    requires size > 0
    ensures SlotOf(index, size) < size
  {
    AndBoundRight(index, size - 1);
  }

  // ---------------------------------------------------------------- refinement

  ghost predicate SharedRel<T>(m: Shared<T>, f: Fifo<T>) {
    && PowerOfTwo(|m.desc|)
    && f.Ordered(|m.desc|)
    && m.producer == f.head % U32_SPAN
    && m.consumer == f.tail % U32_SPAN
    && forall i: nat :: f.tail <= i < |f.log| ==> m.desc[i % |m.desc|] == f.log[i]
  }

  ghost predicate ProducerRel<T>(e: End, f: Fifo<T>) {
    && e.cachedProducer == |f.log| % U32_SPAN
    && e.cachedConsumer == f.seenTail % U32_SPAN
  }

  ghost predicate ConsumerRel<T>(e: End, f: Fifo<T>) {
    && e.cachedProducer == f.seenHead % U32_SPAN
    && e.cachedConsumer == f.read % U32_SPAN
  }

  /** The producer's wrapped view of free space is the true one. */
  lemma RoomRefines<T>(m: Shared<T>, e: End, f: Fifo<T>)
    requires SharedRel(m, f) && ProducerRel(e, f)
    ensures 0 < |m.desc| < U32_SPAN
    ensures Room(|m.desc|, e) == f.Room(|m.desc|)
  {
    SizeBound(|m.desc|);
    WrapDistance(|f.log|, f.seenTail);
  }

  /** Storing at the next position's slot leaves every unreleased value in place. */
  lemma PushKeepsShared<T>(m: Shared<T>, f: Fifo<T>, v: T)
    requires SharedRel(m, f) && f.Room(|m.desc|) > 0
    ensures |m.desc| > 0
    ensures SharedRel(m.(desc := m.desc[|f.log| % |m.desc| := v]), f.Push(v))
  {
    var size, p := |m.desc|, |f.log|;
    SizeBound(size);
    var desc := m.desc[p % size := v];
    forall i: nat | f.tail <= i < p
      ensures desc[i % size] == f.log[i]
    {
      SlotsDiffer(i, p, size);
    }
  }

  lemma WriteRefines<T>(m: Shared<T>, e: End, f: Fifo<T>, v: T)
    requires SharedRel(m, f) && ProducerRel(e, f)
    ensures 0 < |m.desc| < U32_SPAN
    ensures var (m', e', ok) := WriteStep(m, e, v);
            && ok == (f.Room(|m.desc|) > 0)
            && var f' := if ok then f.Push(v) else f;
               SharedRel(m', f') && ProducerRel(e', f')
  {
    RoomRefines(m, e, f);
    if f.Room(|m.desc|) > 0 {
      SlotOfPosition(|f.log|, |m.desc|);
      WrapStep(|f.log|);
      PushKeepsShared(m, f, v);
    }
  }

  lemma ReadRefines<T>(m: Shared<T>, e: End, f: Fifo<T>)
    requires SharedRel(m, f) && ConsumerRel(e, f)
    ensures 0 < |m.desc| < U32_SPAN
    ensures var (e', got) := ReadStep(m, e);
            && got == (if f.read < f.seenHead then Some(f.log[f.read]) else None)
            && var f' := if got.Some? then f.Take() else f;
               SharedRel(m, f') && ConsumerRel(e', f')
  {
    SizeBound(|m.desc|);
    WrapDistance(f.seenHead, f.read);
    WrapStep(f.read);
    SlotOfPosition(f.read, |m.desc|);
    assert f.read < |f.log| ==> m.desc[f.read % |m.desc|] == f.log[f.read];
  }

  lemma SharedOrdered<T>(m: Shared<T>, f: Fifo<T>)
    requires SharedRel(m, f)
    ensures f.Ordered(|m.desc|)
  {
  }

  /** Moves of the other end keep this end's cached cursors right. */
  lemma ProducerKept<T>(e: End, f: Fifo<T>, f': Fifo<T>)
    requires ProducerRel(e, f) && |f'.log| == |f.log| && f'.seenTail == f.seenTail
    ensures ProducerRel(e, f')
  {
  }

  lemma ConsumerKept<T>(e: End, f: Fifo<T>, f': Fifo<T>)
    requires ConsumerRel(e, f) && f'.seenHead == f.seenHead && f'.read == f.read
    ensures ConsumerRel(e, f')
  {
  }

  // ---------------------------------------------------------------- interleaved runs

  /** A ring with both of its ends. */
  datatype Ring<T> = Ring(mem: Shared<T>, producer: End, consumer: End)

  datatype Op<T> =
    | Write(value: T)
    | Commit
    | Sync(commit: bool)
    | Read
    | CommitRead
    | SyncRead(commit: bool)

  datatype Out<T> = Wrote(ok: bool) | Got(value: Option<T>) | Quiet

  function RingStep<T>(r: Ring<T>, op: Op<T>): (res: (Ring<T>, Out<T>))
    requires 0 < |r.mem.desc| < U32_SPAN
    ensures |res.0.mem.desc| == |r.mem.desc|
  {
    match op
    case Write(v) =>
      var (m, e, ok) := WriteStep(r.mem, r.producer, v);
      (Ring(m, e, r.consumer), Wrote(ok))
    case Commit =>
      (r.(mem := CommitWrites(r.mem, r.producer)), Quiet)
    case Sync(commit) =>
      var m := if commit then CommitWrites(r.mem, r.producer) else r.mem;
      (Ring(m, r.producer.(cachedConsumer := m.consumer), r.consumer), Quiet)
    case Read =>
      var (e, got) := ReadStep(r.mem, r.consumer);
      (r.(consumer := e), Got(got))
    case CommitRead =>
      (r.(mem := CommitReads(r.mem, r.consumer)), Quiet)
    case SyncRead(commit) =>
      var m := if commit then CommitReads(r.mem, r.consumer) else r.mem;
      (Ring(m, r.producer, r.consumer.(cachedProducer := m.producer)), Quiet)
  }

  function FifoStep<T>(f: Fifo<T>, size: nat, op: Op<T>): (Fifo<T>, Out<T>) {
    match op
    case Write(v) => if f.Room(size) > 0 then (f.Push(v), Wrote(true)) else (f, Wrote(false))
    case Commit => (f.Publish(), Quiet)
    case Sync(commit) => (f.SyncProducer(commit), Quiet)
    case Read => if f.read < f.seenHead && f.read < |f.log| then (f.Take(), Got(Some(f.log[f.read])))
                 else (f, Got(None))
    case CommitRead => (f.Release(), Quiet)
    case SyncRead(commit) => (f.SyncConsumer(commit), Quiet)
  }

  function RingRun<T>(r: Ring<T>, ops: seq<Op<T>>): (res: (Ring<T>, seq<Out<T>>))
    requires 0 < |r.mem.desc| < U32_SPAN
    ensures |res.0.mem.desc| == |r.mem.desc| && |res.1| == |ops|
  {
    if ops == [] then (r, [])
    else
      var (r1, outs) := RingRun(r, ops[..|ops| - 1]);
      var (r2, out) := RingStep(r1, ops[|ops| - 1]);
      (r2, outs + [out])
  }

  function FifoRun<T>(f: Fifo<T>, size: nat, ops: seq<Op<T>>): (res: (Fifo<T>, seq<Out<T>>))
    ensures |res.1| == |ops|
  {
    if ops == [] then (f, [])
    else
      var (f1, outs) := FifoRun(f, size, ops[..|ops| - 1]);
      var (f2, out) := FifoStep(f1, size, ops[|ops| - 1]);
      (f2, outs + [out])
  }

  ghost predicate Refines<T>(r: Ring<T>, f: Fifo<T>) {
    && SharedRel(r.mem, f)
    && ProducerRel(r.producer, f)
    && ConsumerRel(r.consumer, f)
  }

  lemma StepRefines<T>(r: Ring<T>, f: Fifo<T>, op: Op<T>)
    requires Refines(r, f)
    ensures 0 < |r.mem.desc| < U32_SPAN
    ensures Refines(RingStep(r, op).0, FifoStep(f, |r.mem.desc|, op).0)
    ensures RingStep(r, op).1 == FifoStep(f, |r.mem.desc|, op).1
  {
    SizeBound(|r.mem.desc|);
    match op
    case Write(v) => WriteRefines(r.mem, r.producer, f, v);
    case Read => ReadRefines(r.mem, r.consumer, f);
    case _ =>
  }

  /** Every interleaving of both ends' operations on the wrapping ring returns what the
      unbounded FIFO returns, across any number of cursor wrap-arounds. */
  lemma {:induction false} RunRefines<T>(r: Ring<T>, f: Fifo<T>, ops: seq<Op<T>>)
    requires Refines(r, f)
    ensures 0 < |r.mem.desc| < U32_SPAN
    ensures Refines(RingRun(r, ops).0, FifoRun(f, |r.mem.desc|, ops).0)
    ensures RingRun(r, ops).1 == FifoRun(f, |r.mem.desc|, ops).1
  {
    SizeBound(|r.mem.desc|);
    if ops != [] {
      var init := ops[..|ops| - 1];
      RunRefines(r, f, init);
      StepRefines(RingRun(r, init).0, FifoRun(f, |r.mem.desc|, init).0, ops[|ops| - 1]);
    }
  }

  /** Values accepted by the producer, in order. */
  function Writes<T>(ops: seq<Op<T>>, outs: seq<Out<T>>): seq<T>
    requires |ops| == |outs|
  {
    if ops == [] then []
    else
      var n := |ops| - 1;
      Writes(ops[..n], outs[..n]) + if ops[n].Write? && outs[n] == Wrote(true) then [ops[n].value] else []
  }

  /** Values accepted before the last producer commit. */
  function Published<T>(ops: seq<Op<T>>, outs: seq<Out<T>>): seq<T>
    requires |ops| == |outs|
  {
    if ops == [] then []
    else
      var n := |ops| - 1;
      if ops[n].Commit? || ops[n] == Sync(true) then Writes(ops[..n], outs[..n])
      else Published(ops[..n], outs[..n])
  }

  /** Values returned to the consumer, in order. */
  function Reads<T>(outs: seq<Out<T>>): seq<T> {
    if outs == [] then []
    else
      var n := |outs| - 1;
      Reads(outs[..n]) + if outs[n].Got? && outs[n].value.Some? then [outs[n].value.value] else []
  }

  /** Values returned before the last consumer commit. */
  function Released<T>(ops: seq<Op<T>>, outs: seq<Out<T>>): seq<T>
    requires |ops| == |outs|
  {
    if ops == [] then []
    else
      var n := |ops| - 1;
      if ops[n].CommitRead? || ops[n] == SyncRead(true) then Reads(outs[..n])
      else Released(ops[..n], outs[..n])
  }

  /** A FIFO that went from f to f' by writing w, publishing p of it and reading d. */
  ghost predicate Went<T>(f: Fifo<T>, f': Fifo<T>, size: nat, w: seq<T>, p: seq<T>, d: seq<T>) {
    && f'.Ordered(size)
    && f'.log == f.log + w
    && f'.head == f.head + |p| && p <= w
    && f'.read == f.read + |d| && f'.log[f.read..f'.read] == d
  }

  /** What a FIFO state records of the operations that led to it. */
  ghost predicate Records<T>(f: Fifo<T>, f': Fifo<T>, size: nat, ops: seq<Op<T>>, outs: seq<Out<T>>)
    requires |ops| == |outs|
  {
    Went(f, f', size, Writes(ops, outs), Published(ops, outs), Reads(outs))
  }

  lemma WentWrite<T>(f: Fifo<T>, g: Fifo<T>, size: nat, w: seq<T>, p: seq<T>, d: seq<T>, v: T)
    requires f.Ordered(size) && Went(f, g, size, w, p, d) && g.Room(size) > 0
    ensures Went(f, g.Push(v), size, w + [v], p, d)
  {
    assert g.log + [v] == f.log + (w + [v]);
    assert (g.log + [v])[f.read..g.read] == g.log[f.read..g.read];
  }

  lemma WentRead<T>(f: Fifo<T>, g: Fifo<T>, size: nat, w: seq<T>, p: seq<T>, d: seq<T>)
    requires f.Ordered(size) && Went(f, g, size, w, p, d) && g.read < g.seenHead
    ensures g.read < |g.log| && Went(f, g.Take(), size, w, p, d + [g.log[g.read]])
  {
    assert g.log[f.read..g.read + 1] == g.log[f.read..g.read] + [g.log[g.read]];
  }

  /** Moves of the shared and cached cursors write and read nothing. */
  lemma WentCursors<T>(f: Fifo<T>, g: Fifo<T>, size: nat, w: seq<T>, p: seq<T>, d: seq<T>, commit: bool)
    requires f.Ordered(size) && f.head == |f.log| && Went(f, g, size, w, p, d)
    ensures Went(f, g.SyncProducer(commit), size, w, if commit then w else p, d)
    ensures Went(f, g.SyncConsumer(commit), size, w, p, d)
    ensures Went(f, g.Publish(), size, w, w, d) && Went(f, g.Release(), size, w, p, d)
  {
  }

  lemma RecordsStep<T>(f: Fifo<T>, f1: Fifo<T>, size: nat, ops: seq<Op<T>>, outs: seq<Out<T>>, op: Op<T>)
    requires |ops| == |outs| && f.Ordered(size) && f.head == f.read == |f.log|
    requires Records(f, f1, size, ops, outs)
    ensures var (f2, out) := FifoStep(f1, size, op);
            Records(f, f2, size, ops + [op], outs + [out])
  {
    var out := FifoStep(f1, size, op).1;
    var w, p, d := Writes(ops, outs), Published(ops, outs), Reads(outs);
    HistoryPush(ops, outs, op, out);
    hide Writes, Published, Reads, Went;
    assert w + [] == w && d + [] == d;
    match op
    case Write(v) => if f1.Room(size) > 0 { WentWrite(f, f1, size, w, p, d, v); }
    case Read => if f1.read < f1.seenHead { WentRead(f, f1, size, w, p, d); }
    case Commit => WentCursors(f, f1, size, w, p, d, true);
    case CommitRead => WentCursors(f, f1, size, w, p, d, true);
    case Sync(commit) => WentCursors(f, f1, size, w, p, d, commit);
    case SyncRead(commit) => WentCursors(f, f1, size, w, p, d, commit);
  }

  lemma HistoryPush<T>(ops: seq<Op<T>>, outs: seq<Out<T>>, op: Op<T>, out: Out<T>)
    requires |ops| == |outs|
    ensures Writes(ops + [op], outs + [out])
         == Writes(ops, outs) + if op.Write? && out == Wrote(true) then [op.value] else []
    ensures Published(ops + [op], outs + [out])
         == if op.Commit? || op == Sync(true) then Writes(ops, outs) else Published(ops, outs)
    ensures Reads(outs + [out]) == Reads(outs) + if out.Got? && out.value.Some? then [out.value.value] else []
  {
    assert (ops + [op])[..|ops|] == ops && (outs + [out])[..|ops|] == outs;
  }

  /** The released part is what was read before the consumer's last commit. */
  ghost predicate RecordsTail<T>(f: Fifo<T>, f': Fifo<T>, ops: seq<Op<T>>, outs: seq<Out<T>>)
    requires |ops| == |outs|
  {
    && f'.read == f.read + |Reads(outs)|
    && f'.tail == f.read + |Released(ops, outs)|
    && Released(ops, outs) <= Reads(outs)
  }

  lemma RecordsTailStep<T>(f: Fifo<T>, f1: Fifo<T>, size: nat, ops: seq<Op<T>>, outs: seq<Out<T>>, op: Op<T>)
    requires |ops| == |outs| && RecordsTail(f, f1, ops, outs)
    ensures var (f2, out) := FifoStep(f1, size, op);
            RecordsTail(f, f2, ops + [op], outs + [out])
  {
    var out := FifoStep(f1, size, op).1;
    assert (ops + [op])[..|ops|] == ops && (outs + [out])[..|ops|] == outs;
  }

  lemma {:induction false} FifoHistory<T>(f: Fifo<T>, size: nat, ops: seq<Op<T>>)
    requires f.Ordered(size) && f.tail == f.read == |f.log|
    ensures var (f', outs) := FifoRun(f, size, ops);
            Records(f, f', size, ops, outs) && RecordsTail(f, f', ops, outs)
  {
    if ops != [] {
      hide Records, RecordsTail, FifoStep;
      var n := |ops| - 1;
      FifoHistory(f, size, ops[..n]);
      var (f1, outs1) := FifoRun(f, size, ops[..n]);
      RecordsStep(f, f1, size, ops[..n], outs1, ops[n]);
      RecordsTailStep(f, f1, size, ops[..n], outs1, ops[n]);
      assert ops[..n] + [ops[n]] == ops;
    }
  }

  /** An idle ring: both cursors and both ends agree. */
  function IdleRing<T>(cursor: u32, desc: seq<T>): Ring<T> {
    Ring(Shared(cursor, cursor, desc), End(cursor, cursor), End(cursor, cursor))
  }

  /** From any starting cursor and under every interleaving: what the consumer released is a
      prefix of what it read, that of what was committed, and that of what was accepted; and at
      every moment at most `size` accepted values are not yet released. */
  lemma IdleRingIsFifo<T>(cursor: u32, desc: seq<T>, ops: seq<Op<T>>)
    requires PowerOfTwo(|desc|)
    ensures 0 < |desc| < U32_SPAN
    ensures var (_, outs) := RingRun(IdleRing(cursor, desc), ops);
            && Released(ops, outs) <= Reads(outs) <= Published(ops, outs) <= Writes(ops, outs)
            && |Writes(ops, outs)| <= |Released(ops, outs)| + |desc|
  {
    SizeBound(|desc|);
    var f := Fifo(seq(cursor, _ => desc[0]), cursor, cursor, cursor, cursor, cursor);
    var r := IdleRing(cursor, desc);
    assert Refines(r, f);
    hide RingRun, FifoRun, Refines, Records, RecordsTail, Reads, Writes, Published, Released;
    RunRefines(r, f, ops);
    FifoHistory(f, |desc|, ops);
    var (f', outs) := FifoRun(f, |desc|, ops);
    HistoryPrefixes(f, f', |desc|, ops, outs);
  }

  /** What the records say about the values themselves. */
  lemma HistoryPrefixes<T>(f: Fifo<T>, f': Fifo<T>, size: nat, ops: seq<Op<T>>, outs: seq<Out<T>>)
    requires |ops| == |outs| && f.read == f.head == |f.log|
    requires Records(f, f', size, ops, outs) && RecordsTail(f, f', ops, outs)
    ensures Released(ops, outs) <= Reads(outs) <= Published(ops, outs) <= Writes(ops, outs)
    ensures |Writes(ops, outs)| <= |Released(ops, outs)| + size
  {
    hide Reads, Writes, Published, Released;
    var w, p, d := Writes(ops, outs), Published(ops, outs), Reads(outs);
    assert d == (f.log + w)[f.read..f.read + |d|] == w[..|d|];
    assert p == w[..|p|];
  }
}

/** Reassembling segments of a slot from shreds that arrive in any order: the boundary-list
    tracker and the status-array tracker as values, over whole runs. Decoding a segment's
    payloads is a parameter. */
module DeshredModel {
  import opened Words

  const MAX_COMPACT: nat := 512
  const MAX_SIMPLE: nat := 32768

  datatype Shred = Shred(index: nat, isData: bool, dataComplete: bool, lastInSlot: bool, payload: seq<u8>)

  /** A data shred that ends a segment. */
  predicate IsEnd(s: Shred) {
    s.isData && (s.dataComplete || s.lastInSlot)
  }

  /** What one call returns: nothing, the output of segment [start..=end], or a slice panic. */
  datatype Outcome<+O> = Nothing | Emitted(start: nat, end: nat, out: O) | Panic

  type Decoder<!O> = seq<seq<u8>> -> Option<O>

  /** Payloads of shreds lo..hi-1, in index order. */
  function Payloads(shreds: map<nat, Shred>, lo: nat, hi: nat): seq<seq<u8>>
    requires forall i: nat :: lo <= i < hi ==> i in shreds
  {
    if hi <= lo then [] else Payloads(shreds, lo, hi - 1) + [shreds[hi - 1].payload]
  }

  // ---------------------------------------------------------------- boundary-list form

  /** `first` is the first shred received at each index, `ends` the indices of end markers in
      arrival order, `last` the index after the last emitted segment. */
  datatype Compact = Compact(first: map<nat, Shred>, ends: seq<nat>, last: nat)

  const FRESH_COMPACT: Compact := Compact(map[], [], 0)

  function CompactAdd(c: Compact, s: Shred): (Compact, bool) {
    if s.index >= MAX_COMPACT || s.index in c.first then (c, false)
    else (c.(first := c.first[s.index := s], ends := if IsEnd(s) then c.ends + [s.index] else c.ends), true)
  }

  ghost function CompactTry<O>(c: Compact, decode: Decoder<O>): (Compact, Outcome<O>) {
    if c.ends == [] then (c, Nothing)
    else
      var start, end := c.last, c.ends[0];
      if exists i: nat :: start <= i <= end && i !in c.first then (c, Nothing)
      else if start > end + 1 then (c, Panic)
      else
        match decode(Payloads(c.first, start, end + 1))
        case None => (c, Nothing)
        case Some(out) => (c.(ends := c.ends[1..], last := end + 1), Emitted(start, end, out))
  }

  /** One arriving shred: add it and, if new, try to emit. */
  ghost function CompactStep<O>(c: Compact, s: Shred, decode: Decoder<O>): (Compact, Outcome<O>) {
    var (c1, added) := CompactAdd(c, s);
    if added then CompactTry(c1, decode) else (c1, Nothing)
  }

  ghost function CompactRun<O>(shreds: seq<Shred>, decode: Decoder<O>): (res: (Compact, seq<Outcome<O>>))
    ensures |res.1| == |shreds|
  {
    if shreds == [] then (FRESH_COMPACT, [])
    else
      var n := |shreds| - 1;
      var (c, outs) := CompactRun(shreds[..n], decode);
      var (c', out) := CompactStep(c, shreds[n], decode);
      (c', outs + [out])
  }

  /** Every tracked end is an end marker, every unemitted end marker is tracked, emitted
      indices were all received, and an end below `last` is not the one just emitted. */
  ghost predicate CompactInv(c: Compact) {
    && (forall i: nat :: i in c.first ==> i < MAX_COMPACT && c.first[i].index == i)
    && (forall i: nat :: i < c.last ==> i in c.first)
    && (forall e: nat :: e in c.ends ==> e in c.first && IsEnd(c.first[e]) && e + 1 != c.last)
    && (forall i: nat :: i in c.first && IsEnd(c.first[i]) && c.last <= i ==> i in c.ends)
    && (forall a: nat, b: nat :: a < b < |c.ends| ==> c.ends[a] != c.ends[b])
    && (c.last > 0 ==> IsEnd(c.first[c.last - 1]))
  }

  lemma AddKeepsInv(c: Compact, s: Shred)
    requires CompactInv(c)
    ensures CompactInv(CompactAdd(c, s).0)
  {
  }

  lemma TryKeepsInv<O>(c: Compact, decode: Decoder<O>)
    requires CompactInv(c)
    ensures CompactInv(CompactTry(c, decode).0)
    ensures var out := CompactTry(c, decode).1;
            out.Emitted? ==> out.start == c.last <= out.end && CompactTry(c, decode).0.last == out.end + 1
    ensures !CompactTry(c, decode).1.Emitted? ==> CompactTry(c, decode).0 == c
  {
    hide Payloads;
    var (c', out) := CompactTry(c, decode);
    if out.Emitted? {
      var end := c.ends[0];
      assert end in c.ends;
      forall i: nat | i < c'.last
        ensures i in c'.first
      {
      }
      forall e: nat | e in c'.ends
        ensures e in c.ends && e != end
      {
        var k: nat :| k < |c'.ends| && c'.ends[k] == e;
        assert c.ends[k + 1] == e;
      }
    }
  }

  lemma StepKeepsInv<O>(c: Compact, s: Shred, decode: Decoder<O>)
    requires CompactInv(c)
    ensures var (c', out) := CompactStep(c, s, decode);
            && CompactInv(c')
            && (out.Emitted? ==> out.start == c.last <= out.end && c'.last == out.end + 1)
            && (!out.Emitted? ==> c'.last == c.last)
  {
    hide CompactInv, CompactTry;
    AddKeepsInv(c, s);
    TryKeepsInv(CompactAdd(c, s).0, decode);
  }

  // ---------------------------------------------------------------- segments of a run

  /** The segments emitted, in order. */
  function Segments<O>(outs: seq<Outcome<O>>): seq<(nat, nat)> {
    if outs == [] then []
    else
      var n := |outs| - 1;
      Segments(outs[..n]) + if outs[n].Emitted? then [(outs[n].start, outs[n].end)] else []
  }

  /** Segments tile the indices from zero: each starts where the last ended. */
  ghost predicate Tiles(segs: seq<(nat, nat)>, last: nat) {
    && (forall k: nat :: k < |segs| ==> segs[k].0 <= segs[k].1 && segs[k].0 == if k == 0 then 0 else segs[k - 1].1 + 1)
    && last == if segs == [] then 0 else segs[|segs| - 1].1 + 1
  }

  lemma SegmentsPush<O>(outs: seq<Outcome<O>>, out: Outcome<O>)
    ensures Segments(outs + [out]) == Segments(outs) + if out.Emitted? then [(out.start, out.end)] else []
  {
    assert (outs + [out])[..|outs|] == outs;
  }

  /** On every run, in any order, with gaps, duplicates, code shreds and decode failures: the
      emitted segments tile a prefix of the indices, so no index is emitted twice. */
  lemma {:induction false} SegmentsTile<O>(shreds: seq<Shred>, decode: Decoder<O>)
    ensures var (c, outs) := CompactRun(shreds, decode);
            CompactInv(c) && Tiles(Segments(outs), c.last)
  {
    hide CompactInv, CompactStep;
    if shreds != [] {
      var n := |shreds| - 1;
      SegmentsTile(shreds[..n], decode);
      var (c, outs) := CompactRun(shreds[..n], decode);
      StepKeepsInv(c, shreds[n], decode);
      var out := CompactStep(c, shreds[n], decode).1;
      assert CompactRun(shreds, decode).1 == outs + [out];
      SegmentsPush(outs, out);
      if out.Emitted? {
        TilesPush(Segments(outs), c.last, out);
      } else {
        assert Segments(outs + [out]) == Segments(outs) + [] == Segments(outs);
      }
    } else {
      FreshIsOrdered();
    }
  }

  lemma TilesPush<O>(segs: seq<(nat, nat)>, last: nat, out: Outcome<O>)
    requires Tiles(segs, last) && out.Emitted? && out.start == last <= out.end
    ensures Tiles(segs + [(out.start, out.end)], out.end + 1)
  {
  }

  /** The segment about to be tried has its only end marker at its last index. */
  ghost predicate NextIsWellFormed(c: Compact)
    requires c.ends != []
  {
    && c.last <= c.ends[0]
    && forall i: nat :: c.last <= i < c.ends[0] && i in c.first ==> !IsEnd(c.first[i])
  }

  /** Exactly when that is so: no tracked end is below the one that arrived first. */
  lemma WellFormedIffFrontIsLeast(c: Compact)
    requires CompactInv(c) && c.ends != []
    ensures NextIsWellFormed(c) <==>
              c.last <= c.ends[0] && forall e: nat :: e in c.ends && c.last <= e ==> c.ends[0] <= e
  {
  }

  /** A complete segment is tried without a slice panic exactly when its end is not behind. */
  lemma PanicIffBehind<O>(c: Compact, decode: Decoder<O>)
    requires CompactInv(c) && c.ends != []
    ensures CompactTry(c, decode).1 == Panic <==> c.ends[0] < c.last
  {
    hide Payloads;
    assert c.ends[0] in c.ends;
  }

  // ---------------------------------------------------------------- ends in order

  /** The first arrival of its index. */
  ghost predicate FirstArrival(shreds: seq<Shred>, a: nat) {
    a < |shreds| && forall b: nat :: b < a ==> shreds[b].index != shreds[a].index
  }

  /** New end markers arrive in increasing index order; everything else is arbitrary. */
  ghost predicate EndsInOrder(shreds: seq<Shred>) {
    forall a: nat, b: nat ::
      (a < b < |shreds| && FirstArrival(shreds, a) && FirstArrival(shreds, b) && IsEnd(shreds[a]) && IsEnd(shreds[b]))
      ==> shreds[a].index < shreds[b].index
  }

  /** `first` is made of the first arrivals. */
  ghost predicate Sourced(first: map<nat, Shred>, shreds: seq<Shred>) {
    && (forall i: nat :: i in first ==> exists a: nat :: FirstArrival(shreds, a) && shreds[a] == first[i])
    && (forall a: nat :: a < |shreds| && shreds[a].index < MAX_COMPACT ==> shreds[a].index in first)
  }

  /** Tracked ends are increasing and not behind. */
  ghost predicate EndsSorted(ends: seq<nat>, last: nat) {
    && (forall a: nat, b: nat :: a < b < |ends| ==> ends[a] < ends[b])
    && (forall e: nat :: e in ends ==> last <= e)
  }

  ghost predicate OrderedState(c: Compact, shreds: seq<Shred>) {
    Sourced(c.first, shreds) && EndsSorted(c.ends, c.last)
  }

  lemma FirstArrivalPrefix(shreds: seq<Shred>, n: nat, a: nat)
    requires a < n <= |shreds|
    ensures FirstArrival(shreds[..n], a) <==> FirstArrival(shreds, a)
  {
    forall b: nat | b < a
      ensures shreds[..n][b] == shreds[b]
    {
    }
  }

  lemma EndsInOrderPrefix(shreds: seq<Shred>, n: nat)
    requires n <= |shreds| && EndsInOrder(shreds)
    ensures EndsInOrder(shreds[..n])
  {
    forall a: nat, b: nat | a < b < n && FirstArrival(shreds[..n], a) && FirstArrival(shreds[..n], b)
      && IsEnd(shreds[..n][a]) && IsEnd(shreds[..n][b])
      ensures shreds[..n][a].index < shreds[..n][b].index
    {
      FirstArrivalPrefix(shreds, n, a);
      FirstArrivalPrefix(shreds, n, b);
    }
  }

  /** Adding the newest shred keeps the tracked ends increasing. */
  lemma OrderedAdd(c: Compact, shreds: seq<Shred>)
    requires shreds != [] && EndsInOrder(shreds)
    requires CompactInv(c) && OrderedState(c, shreds[..|shreds| - 1])
    ensures OrderedState(CompactAdd(c, shreds[|shreds| - 1]).0, shreds)
  {
    hide CompactInv, Sourced, EndsSorted, EndsInOrder, FirstArrival;
    SourcedAdd(c, shreds);
    var s := shreds[|shreds| - 1];
    if CompactAdd(c, s).1 && IsEnd(s) {
      NewEndIsLargest(c, shreds);
      SortedPush(c, s.index);
    }
  }

  lemma SourcedAdd(c: Compact, shreds: seq<Shred>)
    requires shreds != [] && Sourced(c.first, shreds[..|shreds| - 1])
    ensures Sourced(CompactAdd(c, shreds[|shreds| - 1]).0.first, shreds)
  {
    var n := |shreds| - 1;
    var (c', added) := CompactAdd(c, shreds[n]);
    if added { NewestIsFirst(c, shreds); }
    forall i: nat | i in c'.first
      ensures exists a: nat :: FirstArrival(shreds, a) && shreds[a] == c'.first[i]
    {
      if i in c.first {
        var a := ArrivalOf(c, shreds, i);
      } else {
        assert FirstArrival(shreds, n) && shreds[n] == c'.first[i];
      }
    }
    forall a: nat | a < |shreds| && shreds[a].index < MAX_COMPACT
      ensures shreds[a].index in c'.first
    {
      if a < n { assert shreds[..n][a] == shreds[a]; }
    }
  }

  /** A newly arrived end marker is above every earlier one. */
  lemma NewEndIsLargest(c: Compact, shreds: seq<Shred>)
    requires shreds != [] && EndsInOrder(shreds) && CompactInv(c) && Sourced(c.first, shreds[..|shreds| - 1])
    requires CompactAdd(c, shreds[|shreds| - 1]).1 && IsEnd(shreds[|shreds| - 1])
    ensures c.last <= shreds[|shreds| - 1].index
    ensures forall e: nat :: e in c.ends ==> e < shreds[|shreds| - 1].index
  {
    var s := shreds[|shreds| - 1];
    NewestIsFirst(c, shreds);
    forall e: nat | e in c.first && IsEnd(c.first[e])
      ensures e < s.index
    {
      var a := ArrivalOf(c, shreds, e);
    }
    if c.last > 0 { assert c.last - 1 in c.first; }
  }

  lemma SortedPush(c: Compact, e: nat)
    requires EndsSorted(c.ends, c.last) && c.last <= e && forall d: nat :: d in c.ends ==> d < e
    ensures EndsSorted(c.ends + [e], c.last)
  {
    forall a: nat | a < |c.ends|
      ensures c.ends[a] < e
    {
      assert c.ends[a] in c.ends;
    }
    forall d: nat | d in c.ends + [e]
      ensures c.last <= d
    {
      assert d in c.ends || d == e;
    }
  }

  /** Where the shred held at index i came from. */
  lemma ArrivalOf(c: Compact, shreds: seq<Shred>, i: nat) returns (a: nat)
    requires shreds != [] && Sourced(c.first, shreds[..|shreds| - 1]) && i in c.first
    ensures a < |shreds| - 1 && FirstArrival(shreds, a) && shreds[a] == c.first[i]
  {
    var n := |shreds| - 1;
    a :| FirstArrival(shreds[..n], a) && shreds[..n][a] == c.first[i];
    FirstArrivalPrefix(shreds, n, a);
  }

  lemma NewestIsFirst(c: Compact, shreds: seq<Shred>)
    requires shreds != [] && Sourced(c.first, shreds[..|shreds| - 1])
    requires CompactAdd(c, shreds[|shreds| - 1]).1
    ensures FirstArrival(shreds, |shreds| - 1)
  {
    var n := |shreds| - 1;
    forall b: nat | b < n
      ensures shreds[b].index != shreds[n].index
    {
      assert shreds[..n][b] == shreds[b];
    }
  }

  /** One step of an ordered run never panics, and a segment it emits has exactly one end
      marker, at its last index. `first` are the shreds received up to that step. */
  ghost predicate GoodStep<O>(first: map<nat, Shred>, out: Outcome<O>) {
    && out != Panic
    && (out.Emitted? ==>
          && out.end in first && IsEnd(first[out.end])
          && forall i: nat :: out.start <= i < out.end ==> i in first && !IsEnd(first[i]))
  }

  lemma OrderedTry<O>(c: Compact, shreds: seq<Shred>, decode: Decoder<O>)
    requires CompactInv(c) && OrderedState(c, shreds)
    ensures var (c', out) := CompactTry(c, decode);
            && OrderedState(c', shreds)
            && out != Panic
            && GoodStep(c.first, out)
  {
    hide Payloads;
    var (c', out) := CompactTry(c, decode);
    if c.ends != [] {
      assert c.ends[0] in c.ends;
      PanicIffBehind(c, decode);
      WellFormedIffFrontIsLeast(c);
      forall e: nat | e in c.ends
        ensures c.ends[0] <= e
      {
      }
      if out.Emitted? {
        forall e: nat | e in c'.ends
          ensures c'.last <= e
        {
          var k: nat :| k < |c'.ends| && c'.ends[k] == e;
          assert c.ends[k + 1] == e;
        }
      }
    }
  }

  /** With end markers arriving in order, every emitted segment of every run is well formed. */
  lemma {:induction false} OrderedRun<O>(shreds: seq<Shred>, decode: Decoder<O>)
    requires EndsInOrder(shreds)
    ensures var (c, outs) := CompactRun(shreds, decode);
            && CompactInv(c) && OrderedState(c, shreds)
            && (shreds != [] ==> GoodStep(c.first, outs[|outs| - 1]))
  {
    hide CompactInv, CompactTry, CompactAdd, OrderedState, EndsInOrder, GoodStep;
    if shreds == [] {
      FreshIsOrdered();
    } else {
      var n := |shreds| - 1;
      EndsInOrderPrefix(shreds, n);
      OrderedRun(shreds[..n], decode);
      OrderedStep(CompactRun(shreds[..n], decode).0, shreds, decode);
    }
  }

  lemma FreshIsOrdered()
    ensures CompactInv(FRESH_COMPACT) && OrderedState(FRESH_COMPACT, [])
  {
  }

  lemma OrderedStep<O>(c: Compact, shreds: seq<Shred>, decode: Decoder<O>)
    requires shreds != [] && EndsInOrder(shreds)
    requires CompactInv(c) && OrderedState(c, shreds[..|shreds| - 1])
    ensures var (c', out) := CompactStep(c, shreds[|shreds| - 1], decode);
            CompactInv(c') && OrderedState(c', shreds) && GoodStep(c'.first, out)
  {
    hide CompactInv, OrderedState, EndsInOrder;
    var s := shreds[|shreds| - 1];
    AddKeepsInv(c, s);
    OrderedAdd(c, shreds);
    var c1 := CompactAdd(c, s).0;
    TryKeepsInv(c1, decode);
    OrderedTry(c1, shreds, decode);
  }

  /** A run's outcomes so far do not depend on what arrives later. */
  lemma {:induction false} CompactRunPrefix<O>(shreds: seq<Shred>, n: nat, decode: Decoder<O>)
    requires n <= |shreds|
    ensures CompactRun(shreds, decode).1[..n] == CompactRun(shreds[..n], decode).1
    decreases |shreds|
  {
    hide CompactStep;
    if n == |shreds| {
      assert shreds[..n] == shreds;
    } else {
      var m := |shreds| - 1;
      CompactRunPrefix(shreds[..m], n, decode);
      assert shreds[..m][..n] == shreds[..n];
    }
  }

  /** With end markers arriving in order, no step of any run panics and every emitted segment
      has exactly one end marker, at its last index. */
  lemma OrderedRunIsGood<O>(shreds: seq<Shred>, decode: Decoder<O>, k: nat)
    requires EndsInOrder(shreds) && k < |shreds|
    ensures GoodStep(CompactRun(shreds[..k + 1], decode).0.first, CompactRun(shreds, decode).1[k])
  {
    hide CompactStep, GoodStep, EndsInOrder, CompactInv, OrderedState;
    EndsInOrderPrefix(shreds, k + 1);
    OrderedRun(shreds[..k + 1], decode);
    CompactRunPrefix(shreds, k + 1, decode);
  }

  // ---------------------------------------------------------------- what is emitted

  /** The payloads held at start..end, one per index, in index order. */
  ghost predicate InIndexOrder(first: map<nat, Shred>, start: nat, end: nat, payloads: seq<seq<u8>>) {
    && |payloads| == end + 1 - start
    && forall i: nat :: start <= i <= end ==> i in first && payloads[i - start] == first[i].payload
  }

  lemma {:induction false} PayloadsInOrder(first: map<nat, Shred>, lo: nat, hi: nat)
    requires lo <= hi && forall i: nat :: lo <= i < hi ==> i in first
    ensures |Payloads(first, lo, hi)| == hi - lo
    ensures forall i: nat :: lo <= i < hi ==> Payloads(first, lo, hi)[i - lo] == first[i].payload
    decreases hi
  {
    if lo < hi { PayloadsInOrder(first, lo, hi - 1); }
  }

  lemma TryOutput<O>(c: Compact, decode: Decoder<O>) returns (payloads: seq<seq<u8>>)
    requires CompactInv(c) && CompactTry(c, decode).1.Emitted?
    ensures var out := CompactTry(c, decode).1;
            InIndexOrder(c.first, out.start, out.end, payloads) && decode(payloads) == Some(out.out)
  {
    TryKeepsInv(c, decode);
    var out := CompactTry(c, decode).1;
    PayloadsInOrder(c.first, out.start, out.end + 1);
    payloads := Payloads(c.first, out.start, out.end + 1);
    hide Payloads, CompactInv;
  }

  /** Every output of every run is decoded from the payloads first received at the indices of its segment, in index
      order, whatever order they came in. */
  lemma EmittedOutput<O>(shreds: seq<Shred>, decode: Decoder<O>, k: nat) returns (payloads: seq<seq<u8>>)
    requires k < |shreds| && CompactRun(shreds, decode).1[k].Emitted?
    ensures var out := CompactRun(shreds, decode).1[k];
            && InIndexOrder(CompactRun(shreds[..k + 1], decode).0.first, out.start, out.end, payloads)
            && decode(payloads) == Some(out.out)
  {
    hide CompactInv, CompactTry, CompactAdd, InIndexOrder;
    CompactRunPrefix(shreds, k + 1, decode);
    var run := shreds[..k + 1];
    assert run[..k] == shreds[..k];
    SegmentsTile(run[..k], decode);
    var c := CompactRun(run[..k], decode).0;
    AddKeepsInv(c, run[k]);
    var added := CompactAdd(c, run[k]).0;
    payloads := TryOutput(added, decode);
    TryKeepsFirst(added, decode);
  }

  lemma TryKeepsFirst<O>(c: Compact, decode: Decoder<O>)
    ensures CompactTry(c, decode).0.first == c.first
  {
    hide Payloads;
  }

  /** A decoder that accepts anything and returns the number of payloads. */
  function Counting(payloads: seq<seq<u8>>): Option<nat> {
    Some(|payloads|)
  }

  lemma CompactRunPush<O>(shreds: seq<Shred>, s: Shred, decode: Decoder<O>)
    ensures var (c, outs) := CompactRun(shreds, decode);
            var (c', out) := CompactStep(c, s, decode);
            CompactRun(shreds + [s], decode) == (c', outs + [out])
  {
    assert (shreds + [s])[..|shreds|] == shreds;
  }

  function EndAt(index: nat): Shred { Shred(index, true, true, false, []) }
  function MiddleAt(index: nat): Shred { Shred(index, true, false, false, []) }

  /** Out of order the tracker goes wrong: an end marker inside a segment, then a panic. */
  lemma OutOfOrderGoesWrong()
    ensures CompactRun([EndAt(1), EndAt(0), MiddleAt(2)], Counting).1 == [Nothing, Emitted(0, 1, 2), Panic]
  {
    hide CompactStep, CompactRun, FRESH_COMPACT;
    var c1 := OutOfOrderFirst();
    var c2 := OutOfOrderSecond(c1);
    OutOfOrderThird(c2);
    ThreeSteps(EndAt(1), EndAt(0), MiddleAt(2), Counting, c1, Nothing, c2, Emitted(0, 1, 2), Panic);
  }

  lemma ThreeSteps<O>(a: Shred, b: Shred, d: Shred, decode: Decoder<O>,
                      c1: Compact, o1: Outcome<O>, c2: Compact, o2: Outcome<O>, o3: Outcome<O>)
    requires CompactStep(FRESH_COMPACT, a, decode) == (c1, o1) && CompactStep(c1, b, decode) == (c2, o2)
    requires CompactStep(c2, d, decode).1 == o3
    ensures CompactRun([a, b, d], decode).1 == [o1, o2, o3]
  {
    assert CompactRun([], decode) == (FRESH_COMPACT, []);
    hide CompactStep, CompactRun, FRESH_COMPACT;
    CompactRunPush([], a, decode);
    assert [] + [a] == [a] && [] + [o1] == [o1];
    CompactRunPush([a], b, decode);
    assert [a] + [b] == [a, b] && [o1] + [o2] == [o1, o2];
    CompactRunPush([a, b], d, decode);
    assert [a, b] + [d] == [a, b, d] && [o1, o2] + [o3] == [o1, o2, o3];
  }

  lemma OutOfOrderFirst() returns (c: Compact)
    ensures CompactStep(FRESH_COMPACT, EndAt(1), Counting) == (c, Nothing)
    ensures c.ends == [1] && c.last == 0 && 0 !in c.first && 1 in c.first && 2 !in c.first
  {
    c := CompactAdd(FRESH_COMPACT, EndAt(1)).0;
    assert c.ends == [1] && 0 !in c.first;
  }

  lemma OutOfOrderSecond(c: Compact) returns (c': Compact)
    requires c.ends == [1] && c.last == 0 && 0 !in c.first && 1 in c.first && 2 !in c.first
    ensures CompactStep(c, EndAt(0), Counting) == (c', Emitted(0, 1, 2))
    ensures c'.ends == [0] && c'.last == 2 && 2 !in c'.first
  {
    var m := CompactAdd(c, EndAt(0)).0;
    assert m.ends == [1, 0];
    assert |Payloads(m.first, 0, 2)| == |Payloads(m.first, 0, 1)| + 1;
    assert |Payloads(m.first, 0, 1)| == |Payloads(m.first, 0, 0)| + 1;
    c' := m.(ends := m.ends[1..], last := 2);
  }

  lemma OutOfOrderThird(c: Compact)
    requires c.ends == [0] && c.last == 2 && 2 !in c.first
    ensures CompactStep(c, MiddleAt(2), Counting).1 == Panic
  {
  }
}

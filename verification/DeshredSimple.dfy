/** The status-array tracker as values, when its segments are found, and its agreement with
    the boundary-list tracker up to a slot's first emission. */
module DeshredSimple {
  import opened Words
  import opened DeshredModel

  datatype Status = Unknown | NotDataComplete | DataComplete

  /** Status and shred of every data index, and the code shreds. */
  datatype Simple = Simple(status: seq<Status>, stored: seq<Option<Shred>>, codes: seq<Shred>)

  ghost predicate Sized(s: Simple) {
    |s.status| == MAX_SIMPLE && |s.stored| == MAX_SIMPLE
  }

  ghost function FreshSimple(): (s: Simple)
    ensures Sized(s)
  {
    Simple(seq(MAX_SIMPLE, _ => Unknown), seq(MAX_SIMPLE, _ => None), [])
  }

  function StatusOf(shred: Shred): Status {
    if shred.dataComplete || shred.lastInSlot then DataComplete else NotDataComplete
  }

  ghost predicate HasCode(codes: seq<Shred>, index: nat) {
    exists k: nat :: k < |codes| && codes[k].index == index
  }

  ghost function SimpleAdd(s: Simple, shred: Shred): (res: (Simple, bool))
    requires Sized(s)
    ensures Sized(res.0)
  {
    if shred.isData then
      if shred.index >= MAX_SIMPLE || s.stored[shred.index].Some? then (s, false)
      else (s.(status := s.status[shred.index := StatusOf(shred)],
               stored := s.stored[shred.index := Some(shred)]), true)
    else if HasCode(s.codes, shred.index) then (s, false)
    else (s.(codes := s.codes + [shred]), true)
  }

  /** Index of the first DataComplete at or after `from`. */
  function FirstComplete(status: seq<Status>, from: nat): (r: Option<nat>)
    requires from <= |status|
    ensures r.Some? ==> r.value < |status|
    decreases |status| - from
  {
    if from == |status| then None
    else if status[from] == DataComplete then Some(from)
    else FirstComplete(status, from + 1)
  }

  /** Scanning back from an end to the start of its segment. */
  function ScanBack(status: seq<Status>, s: nat): (r: Option<nat>)
    requires s <= |status|
    ensures r.Some? ==> r.value <= s
  {
    if s == 0 then Some(0)
    else match status[s - 1]
      case DataComplete => Some(s)
      case Unknown => None
      case NotDataComplete => ScanBack(status, s - 1)
  }

  function FindSegment(status: seq<Status>): (r: Option<(nat, nat)>)
    ensures r.Some? ==> r.value.0 <= r.value.1 < |status|
  {
    match FirstComplete(status, 0)
    case None => None
    case Some(end) =>
      match ScanBack(status, end)
      case None => None
      case Some(start) => Some((start, end))
  }

  ghost predicate AllStored(stored: seq<Option<Shred>>, lo: nat, hi: nat) {
    hi <= |stored| && forall i: nat :: lo <= i < hi ==> stored[i].Some?
  }

  ghost function StoredPayloads(stored: seq<Option<Shred>>, lo: nat, hi: nat): seq<seq<u8>>
    requires AllStored(stored, lo, hi)
  {
    if hi <= lo then [] else StoredPayloads(stored, lo, hi - 1) + [stored[hi - 1].value.payload]
  }

  /** s with v at every index lo..hi-1. */
  function Overwrite<T>(s: seq<T>, lo: nat, hi: nat, v: T): (r: seq<T>)
    requires lo <= hi <= |s|
    ensures |r| == |s| && forall i: nat :: i < |s| ==> r[i] == if lo <= i < hi then v else s[i]
  {
    s[..lo] + seq(hi - lo, _ => v) + s[hi..]
  }

  ghost function SimpleTry<O>(s: Simple, decode: Decoder<O>): (res: (Simple, Outcome<O>))
    requires Sized(s)
    ensures Sized(res.0)
  {
    var found := FindSegment(s.status);
    if found.None? then (s, Nothing)
    else
      var (start, end) := found.value;
      if !AllStored(s.stored, start, end + 1) then (s, Nothing)
      else
        match decode(StoredPayloads(s.stored, start, end + 1))
        case None => (s, Nothing)
        case Some(out) =>
          (s.(status := Overwrite(s.status, start, end + 1, Unknown),
              stored := Overwrite(s.stored, start, end + 1, None)),
           Emitted(start, end, out))
  }

  ghost function SimpleStep<O>(s: Simple, shred: Shred, decode: Decoder<O>): (res: (Simple, Outcome<O>))
    requires Sized(s)
    ensures Sized(res.0)
  {
    var added := SimpleAdd(s, shred);
    if added.1 then SimpleTry(added.0, decode) else (added.0, Nothing)
  }

  ghost function SimpleRun<O>(shreds: seq<Shred>, decode: Decoder<O>): (res: (Simple, seq<Outcome<O>>))
    ensures Sized(res.0) && |res.1| == |shreds|
  {
    if shreds == [] then (FreshSimple(), [])
    else
      var n := |shreds| - 1;
      var before := SimpleRun(shreds[..n], decode);
      var after := SimpleStep(before.0, shreds[n], decode);
      (after.0, before.1 + [after.1])
  }

  // ---------------------------------------------------------------- finding a segment

  lemma {:induction false} FirstCompleteAt(status: seq<Status>, from: nat)
    requires from <= |status|
    ensures match FirstComplete(status, from)
            case None => forall i: nat :: from <= i < |status| ==> status[i] != DataComplete
            case Some(e) => from <= e < |status| && status[e] == DataComplete
                            && forall i: nat :: from <= i < e ==> status[i] != DataComplete
    decreases |status| - from
  {
    if from < |status| && status[from] != DataComplete {
      FirstCompleteAt(status, from + 1);
    }
  }

  lemma {:induction false} ScanBackAt(status: seq<Status>, s: nat)
    requires s <= |status| && forall i: nat :: i < s ==> status[i] != DataComplete
    ensures ScanBack(status, s) == if exists i: nat :: i < s && status[i] == Unknown then None else Some(0)
  {
    if s > 0 && status[s - 1] == NotDataComplete {
      ScanBackAt(status, s - 1);
    }
  }

  /** A segment is found exactly when there is an end marker and everything below the first one
      is known; it always starts at zero. */
  lemma FoundIff(status: seq<Status>, start: nat, end: nat)
    ensures FindSegment(status) == Some((start, end)) <==>
              && start == 0 && end < |status| && status[end] == DataComplete
              && forall i: nat :: i < end ==> status[i] == NotDataComplete
  {
    FirstCompleteAt(status, 0);
    match FirstComplete(status, 0)
    case None =>
    case Some(e) =>
      ScanBackAt(status, e);
      if status[e] == DataComplete && end < |status| && status[end] == DataComplete
         && forall i: nat :: i < end ==> status[i] == NotDataComplete {
        assert end == e;
      }
  }

  // ---------------------------------------------------------------- status and shreds agree

  /** Status is Unknown exactly where no shred is stored, and otherwise says what it is. */
  ghost predicate Matched(s: Simple) {
    && Sized(s)
    && forall i: nat :: i < MAX_SIMPLE ==>
         match s.stored[i]
         case None => s.status[i] == Unknown
         case Some(shred) => s.status[i] == StatusOf(shred) && shred.isData && shred.index == i
  }

  lemma AddKeepsMatched(s: Simple, shred: Shred)
    requires Matched(s)
    ensures Matched(SimpleAdd(s, shred).0)
  {
  }

  lemma TryKeepsMatched<O>(s: Simple, decode: Decoder<O>)
    requires Matched(s)
    ensures Matched(SimpleTry(s, decode).0)
  {
    hide StoredPayloads, FindSegment;
  }

  /** So the check for missing shreds never fires. */
  lemma NothingMissing(s: Simple)
    requires Matched(s)
    ensures var found := FindSegment(s.status);
            found.Some? ==> AllStored(s.stored, found.value.0, found.value.1 + 1)
  {
    var found := FindSegment(s.status);
    if found.Some? { FoundIff(s.status, found.value.0, found.value.1); }
  }

  /** An attempt by cases, without the check that never fires. */
  lemma TryByCases<O>(s: Simple, decode: Decoder<O>)
    requires Matched(s)
    ensures match FindSegment(s.status)
            case None => SimpleTry(s, decode) == (s, Nothing)
            case Some((start, end)) =>
              && AllStored(s.stored, start, end + 1) && end < MAX_SIMPLE
              && match decode(StoredPayloads(s.stored, start, end + 1))
                 case None => SimpleTry(s, decode) == (s, Nothing)
                 case Some(out) =>
                   SimpleTry(s, decode)
                   == (s.(status := Overwrite(s.status, start, end + 1, Unknown),
                          stored := Overwrite(s.stored, start, end + 1, None)),
                       Emitted(start, end, out))
  {
    NothingMissing(s);
    hide FindSegment, StoredPayloads, AllStored, Overwrite;
  }

  // ---------------------------------------------------------------- agreement up to the first emission

  /** Both trackers hold the same shreds and nothing has been emitted. */
  ghost predicate SameContents(c: Compact, s: Simple) {
    && c.last == 0 && Matched(s)
    && forall i: nat :: i < MAX_SIMPLE ==> s.stored[i] == if i in c.first then Some(c.first[i]) else None
  }

  lemma AddAgrees(c: Compact, s: Simple, shred: Shred)
    requires CompactInv(c) && SameContents(c, s) && shred.isData && shred.index < MAX_COMPACT
    ensures CompactAdd(c, shred).1 == SimpleAdd(s, shred).1
    ensures SameContents(CompactAdd(c, shred).0, SimpleAdd(s, shred).0)
  {
    hide CompactInv;
    AddKeepsMatched(s, shred);
  }

  lemma {:induction false} PayloadsAgree(first: map<nat, Shred>, stored: seq<Option<Shred>>, hi: nat)
    requires hi <= |stored| && forall i: nat :: i < hi ==> i in first && stored[i] == Some(first[i])
    ensures AllStored(stored, 0, hi) && StoredPayloads(stored, 0, hi) == Payloads(first, 0, hi)
  {
    if hi > 0 { PayloadsAgree(first, stored, hi - 1); }
  }

  /** With sorted ends the first tracked end is the first DataComplete. */
  lemma SegmentsAgree(c: Compact, s: Simple)
    requires CompactInv(c) && EndsSorted(c.ends, c.last) && SameContents(c, s)
    ensures c.ends == [] ==> FindSegment(s.status) == None
    ensures c.ends != [] ==>
              FindSegment(s.status)
              == if forall i: nat :: i <= c.ends[0] ==> i in c.first then Some((0, c.ends[0])) else None
  {
    hide FindSegment;
    var found := FindSegment(s.status);
    if found.Some? {
      var end := found.value.1;
      FoundIff(s.status, found.value.0, end);
      assert end in c.first && IsEnd(c.first[end]);
      assert end in c.ends;
      FrontIsEnd(c, s, end);
    }
    if c.ends != [] && forall i: nat :: i <= c.ends[0] ==> i in c.first {
      var e := c.ends[0];
      assert e in c.ends;
      WellFormedIffFrontIsLeast(c);
      SortedFront(c.ends, c.last);
      FoundIff(s.status, 0, e);
    }
  }

  lemma SortedFront(ends: seq<nat>, last: nat)
    requires EndsSorted(ends, last) && ends != []
    ensures ends[0] in ends && forall e: nat :: e in ends ==> ends[0] <= e
  {
  }

  lemma FrontIsEnd(c: Compact, s: Simple, end: nat)
    requires CompactInv(c) && EndsSorted(c.ends, c.last) && SameContents(c, s) && end in c.ends
    requires forall i: nat :: i < end ==> s.status[i] == NotDataComplete
    ensures c.ends[0] == end
  {
    SortedFront(c.ends, c.last);
    var e := c.ends[0];
    assert e in c.first && IsEnd(c.first[e]);
    assert s.stored[e] == Some(c.first[e]);
  }

  lemma TryAgrees<O>(c: Compact, s: Simple, decode: Decoder<O>)
    requires CompactInv(c) && EndsSorted(c.ends, c.last) && SameContents(c, s)
    ensures CompactTry(c, decode).1 == SimpleTry(s, decode).1
    ensures CompactTry(c, decode).1 == Nothing ==> CompactTry(c, decode).0 == c && SimpleTry(s, decode).0 == s
  {
    hide FindSegment, Payloads, StoredPayloads, Matched, EndsSorted;
    SegmentsAgree(c, s);
    NothingMissing(s);
    if c.ends != [] && forall i: nat :: i <= c.ends[0] ==> i in c.first {
      assert c.ends[0] in c.ends;
      PayloadsAgree(c.first, s.stored, c.ends[0] + 1);
    }
  }

  ghost predicate NoEmission<O>(outs: seq<Outcome<O>>) {
    forall k: nat :: k < |outs| ==> !outs[k].Emitted?
  }

  ghost predicate DataOnly(shreds: seq<Shred>) {
    forall k: nat :: k < |shreds| ==> shreds[k].isData && shreds[k].index < 512
  }

  lemma StepAgrees<O>(c: Compact, s: Simple, shreds: seq<Shred>, decode: Decoder<O>)
    requires shreds != [] && EndsInOrder(shreds) && DataOnly(shreds)
    requires CompactInv(c) && OrderedState(c, shreds[..|shreds| - 1]) && SameContents(c, s)
    ensures var (c', out) := CompactStep(c, shreds[|shreds| - 1], decode);
            && out == SimpleStep(s, shreds[|shreds| - 1], decode).1
            && (!out.Emitted? ==> SameContents(c', SimpleStep(s, shreds[|shreds| - 1], decode).0))
  {
    assert Sized(s);
    hide CompactInv, SameContents, EndsSorted, Sourced, EndsInOrder, CompactTry, SimpleTry;
    var shred := shreds[|shreds| - 1];
    AddAgrees(c, s, shred);
    AddKeepsInv(c, shred);
    OrderedAdd(c, shreds);
    var c1, s1 := CompactAdd(c, shred).0, SimpleAdd(s, shred).0;
    TryAgrees(c1, s1, decode);
    OrderedTry(c1, shreds, decode);
  }

  /** For data shreds below 512 whose end markers arrive in order, both trackers return the same
      on every arrival up to and including the slot's first emission. */
  lemma {:induction false} TrackersAgree<O>(shreds: seq<Shred>, decode: Decoder<O>)
    requires EndsInOrder(shreds) && DataOnly(shreds)
    ensures var co := CompactRun(shreds, decode).1;
            && (shreds == [] || NoEmission(co[..|co| - 1]) ==> co == SimpleRun(shreds, decode).1)
            && (NoEmission(co) ==> SameContents(CompactRun(shreds, decode).0, SimpleRun(shreds, decode).0))
  {
    hide CompactInv, SameContents, OrderedState, EndsInOrder, CompactStep, SimpleStep, Sized;
    if shreds == [] {
      FreshSame();
    } else {
      var n := |shreds| - 1;
      EndsInOrderPrefix(shreds, n);
      TrackersAgree(shreds[..n], decode);
      OrderedRun(shreds[..n], decode);
      var (c, co) := CompactRun(shreds[..n], decode);
      var before := SimpleRun(shreds[..n], decode);
      var out := CompactStep(c, shreds[n], decode).1;
      assert (co + [out])[..n] == co;
      if NoEmission(co) {
        if n > 0 { assert NoEmission(co[..n - 1]); }
        assert co == before.1;
        StepAgrees(c, before.0, shreds, decode);
        if !out.Emitted? { assert CompactRun(shreds, decode).0 == CompactStep(c, shreds[n], decode).0; }
        if NoEmission(co + [out]) { assert !(co + [out])[n].Emitted?; }
      } else {
        var k: nat :| k < n && co[k].Emitted?;
        assert (co + [out])[k].Emitted?;
      }
    }
  }

  lemma FreshSame()
    ensures SameContents(FRESH_COMPACT, FreshSimple())
  {
  }

  // ---------------------------------------------------------------- after the first emission

  function Emissions<O>(outs: seq<Outcome<O>>): nat {
    if outs == [] then 0 else Emissions(outs[..|outs| - 1]) + if outs[|outs| - 1].Emitted? then 1 else 0
  }

  /** Arrivals of data index zero. */
  function ZeroArrivals(shreds: seq<Shred>): nat {
    if shreds == [] then 0
    else
      var s := shreds[|shreds| - 1];
      ZeroArrivals(shreds[..|shreds| - 1]) + if s.isData && s.index == 0 then 1 else 0
  }

  lemma {:induction false} NoneEmittedIff<O>(outs: seq<Outcome<O>>)
    ensures NoEmission(outs) <==> Emissions(outs) == 0
  {
    if outs != [] {
      var n := |outs| - 1;
      NoneEmittedIff(outs[..n]);
      if NoEmission(outs[..n]) && !outs[n].Emitted? {
        assert forall k: nat :: k < n ==> outs[..n][k] == outs[k];
      }
      if NoEmission(outs) {
        assert forall k: nat :: k < n ==> outs[..n][k] == outs[k];
      }
    }
  }

  /** An emission consumes index zero. */
  lemma EmissionTakesZero<O>(s: Simple, decode: Decoder<O>)
    requires Matched(s)
    ensures SimpleTry(s, decode).1.Emitted? ==>
              s.stored[0].Some? && SimpleTry(s, decode).1.start == 0 && SimpleTry(s, decode).0.stored[0].None?
    ensures !SimpleTry(s, decode).1.Emitted? ==> SimpleTry(s, decode).0 == s
  {
    hide FindSegment, StoredPayloads;
    var found := FindSegment(s.status);
    if found.Some? { FoundIff(s.status, found.value.0, found.value.1); }
  }

  /** An arrival of index zero is either still stored or was emitted. */
  lemma ZeroStep<O>(s: Simple, shred: Shred, decode: Decoder<O>)
    requires Matched(s)
    ensures var step := SimpleStep(s, shred, decode);
            && Matched(step.0) && step.1 != Panic
            && (if step.1.Emitted? then 1 else 0) + (if step.0.stored[0].Some? then 1 else 0)
               <= (if s.stored[0].Some? then 1 else 0) + (if shred.isData && shred.index == 0 then 1 else 0)
            && (step.1.Emitted? ==> step.1.start == 0)
  {
    AddKeepsMatched(s, shred);
    var s1 := SimpleAdd(s, shred).0;
    assert s1.stored[0].Some? ==> s.stored[0].Some? || (shred.isData && shred.index == 0);
    hide Matched;
    EmissionTakesZero(s1, decode);
    TryKeepsMatched(s1, decode);
  }

  /** Cleared statuses read as gaps: on every run, with repeats, gaps, code shreds and decode
      failures, the status-array tracker emits at most as often as data index zero arrives. */
  lemma {:induction false} SimpleEmissionsBounded<O>(shreds: seq<Shred>, decode: Decoder<O>)
    ensures var run := SimpleRun(shreds, decode);
            Matched(run.0) && Emissions(run.1) + (if run.0.stored[0].Some? then 1 else 0) <= ZeroArrivals(shreds)
  {
    hide SimpleStep, Matched;
    if shreds == [] {
      FreshMatched();
    } else {
      var n := |shreds| - 1;
      SimpleEmissionsBounded(shreds[..n], decode);
      var before := SimpleRun(shreds[..n], decode);
      ZeroStep(before.0, shreds[n], decode);
      var out := SimpleStep(before.0, shreds[n], decode).1;
      assert (before.1 + [out])[..n] == before.1;
    }
  }

  lemma FreshMatched()
    ensures Matched(FreshSimple()) && FreshSimple().stored[0].None?
  {
  }

  /** An emission of the boundary-list tracker after another one starts past index zero. */
  lemma LaterStart<O>(shreds: seq<Shred>, shred: Shred, decode: Decoder<O>)
    requires Emissions(CompactRun(shreds, decode).1) > 0
    ensures var out := CompactStep(CompactRun(shreds, decode).0, shred, decode).1; out.Emitted? ==> out.start > 0
  {
    hide CompactInv, CompactStep, CompactRun;
    SegmentsTile(shreds, decode);
    SegmentsCount(CompactRun(shreds, decode).1);
    StepKeepsInv(CompactRun(shreds, decode).0, shred, decode);
  }

  lemma {:induction false} SegmentsCount<O>(outs: seq<Outcome<O>>)
    ensures |Segments(outs)| == Emissions(outs)
  {
    if outs != [] { SegmentsCount(outs[..|outs| - 1]); }
  }

  /** With in-order ends the trackers return the same on the whole run if and only if neither emits
      more than once. */
  lemma {:induction false} TrackersAgreeIff<O>(shreds: seq<Shred>, decode: Decoder<O>)
    requires EndsInOrder(shreds) && DataOnly(shreds)
    ensures CompactRun(shreds, decode).1 == SimpleRun(shreds, decode).1
       <==> Emissions(CompactRun(shreds, decode).1) <= 1 && Emissions(SimpleRun(shreds, decode).1) <= 1
  {
    hide CompactStep, SimpleStep, EndsInOrder, Matched;
    if shreds != [] {
      var n := |shreds| - 1;
      EndsInOrderPrefix(shreds, n);
      TrackersAgreeIff(shreds[..n], decode);
      var before, was := CompactRun(shreds[..n], decode), SimpleRun(shreds[..n], decode);
      var o, q := CompactStep(before.0, shreds[n], decode).1, SimpleStep(was.0, shreds[n], decode).1;
      assert CompactRun(shreds, decode).1 == before.1 + [o] && SimpleRun(shreds, decode).1 == was.1 + [q];
      hide CompactRun, SimpleRun, Emissions;
      SimpleEmissionsBounded(shreds[..n], decode);
      ZeroStep(was.0, shreds[n], decode);
      NoneEmittedIff(before.1);
      if Emissions(before.1) == 0 {
        TrackersAgree(shreds, decode);
        EmissionsPush(before.1, o);
      } else {
        OrderedRunIsGood(shreds, decode, n);
        LaterStart(shreds[..n], shreds[n], decode);
        AgreeStep(before.1, was.1, o, q);
      }
    }
  }

  lemma EmissionsPush<O>(outs: seq<Outcome<O>>, out: Outcome<O>)
    ensures Emissions(outs + [out]) == Emissions(outs) + if out.Emitted? then 1 else 0
  {
    assert (outs + [out])[..|outs|] == outs;
  }

  /** After an emission, equal outcomes are only those without another one. */
  lemma AgreeStep<O>(cs: seq<Outcome<O>>, ss: seq<Outcome<O>>, o: Outcome<O>, q: Outcome<O>)
    requires |cs| == |ss| && (cs == ss <==> Emissions(cs) <= 1 && Emissions(ss) <= 1) && Emissions(cs) > 0
    requires o != Panic && q != Panic && (o.Emitted? ==> o.start > 0) && (q.Emitted? ==> q.start == 0)
    ensures cs + [o] == ss + [q] <==> Emissions(cs + [o]) <= 1 && Emissions(ss + [q]) <= 1
  {
    hide Emissions;
    EmissionsPush(cs, o);
    EmissionsPush(ss, q);
    assert (cs + [o])[..|cs|] == cs && (ss + [q])[..|ss|] == ss;
    assert (cs + [o])[|cs|] == o && (ss + [q])[|ss|] == q;
  }

  /** A data shred whose index is stored, or is 32768 or more, changes nothing and returns nothing. */
  lemma RepeatIgnored<O>(s: Simple, shred: Shred, decode: Decoder<O>)
    requires Sized(s) && shred.isData && (shred.index >= 32768 || s.stored[shred.index].Some?)
    ensures SimpleStep(s, shred, decode) == (s, Nothing)
  {
    hide SimpleTry;
  }

  lemma {:induction false} StoredInOrder(stored: seq<Option<Shred>>, lo: nat, hi: nat)
    requires lo <= hi && AllStored(stored, lo, hi)
    ensures |StoredPayloads(stored, lo, hi)| == hi - lo
    ensures forall i: nat :: lo <= i < hi ==> StoredPayloads(stored, lo, hi)[i - lo] == stored[i].value.payload
    decreases hi
  {
    if lo < hi { StoredInOrder(stored, lo, hi - 1); }
  }

  /** An output is decoded from the payloads stored at its indices, in index order. */
  lemma SimpleOutput<O>(s: Simple, decode: Decoder<O>) returns (payloads: seq<seq<u8>>)
    requires Matched(s) && SimpleTry(s, decode).1.Emitted?
    ensures var out := SimpleTry(s, decode).1;
            && |payloads| == out.end + 1 <= MAX_SIMPLE && decode(payloads) == Some(out.out)
            && forall i: nat :: i <= out.end ==> s.stored[i].Some? && payloads[i] == s.stored[i].value.payload
  {
    NothingMissing(s);
    var end := SimpleTry(s, decode).1.end;
    FoundIff(s.status, FindSegment(s.status).value.0, end);
    StoredInOrder(s.stored, 0, end + 1);
    payloads := StoredPayloads(s.stored, 0, end + 1);
    hide FindSegment, StoredPayloads;
  }

  /** Nothing is stored. */
  ghost predicate Bare(s: Simple) {
    Matched(s) && forall i: nat :: i < MAX_SIMPLE ==> s.stored[i] == None
  }

  lemma BareEmitsZero(s: Simple)
    requires Bare(s)
    ensures var step := SimpleStep(s, EndAt(0), Counting); step.1 == Emitted(0, 0, 1) && Bare(step.0)
  {
    AddKeepsMatched(s, EndAt(0));
    var s1 := SimpleAdd(s, EndAt(0)).0;
    FoundIff(s1.status, 0, 0);
    assert |StoredPayloads(s1.stored, 0, 1)| == |StoredPayloads(s1.stored, 0, 0)| + 1;
    TryKeepsMatched(s1, Counting);
  }

  lemma BareHidesOne(s: Simple)
    requires Bare(s)
    ensures SimpleStep(s, EndAt(1), Counting).1 == Nothing
  {
    var s1 := SimpleAdd(s, EndAt(1)).0;
    var found := FindSegment(s1.status);
    if found.Some? { FoundIff(s1.status, found.value.0, found.value.1); }
  }

  lemma SimpleRunPush<O>(shreds: seq<Shred>, shred: Shred, decode: Decoder<O>)
    ensures var run := SimpleRun(shreds, decode);
            var step := SimpleStep(run.0, shred, decode);
            SimpleRun(shreds + [shred], decode) == (step.0, run.1 + [step.1])
  {
    assert (shreds + [shred])[..|shreds|] == shreds;
  }

  lemma InOrderFirst() returns (c: Compact)
    ensures CompactStep(FRESH_COMPACT, EndAt(0), Counting) == (c, Emitted(0, 0, 1))
    ensures c.ends == [] && c.last == 1 && 1 !in c.first
  {
    var m := CompactAdd(FRESH_COMPACT, EndAt(0)).0;
    assert m.ends == [0];
    assert |Payloads(m.first, 0, 1)| == |Payloads(m.first, 0, 0)| + 1;
    c := m.(ends := m.ends[1..], last := 1);
  }

  lemma InOrderSecond(c: Compact)
    requires c.ends == [] && c.last == 1 && 1 !in c.first
    ensures CompactStep(c, EndAt(1), Counting).1 == Emitted(1, 1, 1)
  {
    var m := CompactAdd(c, EndAt(1)).0;
    assert m.ends == [1];
    assert |Payloads(m.first, 1, 2)| == |Payloads(m.first, 1, 1)| + 1;
  }

  /** Two one-shred segments in order: the boundary-list tracker emits both, the status-array
      tracker only the first. */
  lemma SecondSegmentLost()
    ensures CompactRun([EndAt(0), EndAt(1)], Counting).1 == [Emitted(0, 0, 1), Emitted(1, 1, 1)]
    ensures SimpleRun([EndAt(0), EndAt(1)], Counting).1 == [Emitted(0, 0, 1), Nothing]
  {
    hide CompactStep, SimpleStep, Bare;
    var a, b := EndAt(0), EndAt(1);
    assert [] + [a] == [a] && [a] + [b] == [a, b];
    var c := InOrderFirst();
    InOrderSecond(c);
    CompactRunPush([], a, Counting);
    CompactRunPush([a], b, Counting);
    BareAtFirst();
    BareEmitsZero(FreshSimple());
    SimpleRunPush([], a, Counting);
    BareHidesOne(SimpleRun([a], Counting).0);
    SimpleRunPush([a], b, Counting);
  }

  lemma BareAtFirst()
    ensures Bare(FreshSimple())
  {
  }

  /** The first shred to arrive is emitted by both trackers exactly if it is a data shred at index zero that ends a
      segment or the slot, and decodes alone. */
  lemma FirstShred<O>(s: Shred, decode: Decoder<O>)
    ensures var alone := s.isData && s.index == 0 && (s.dataComplete || s.lastInSlot) && decode([s.payload]).Some?;
            var out := if alone then Emitted(0, 0, decode([s.payload]).value) else Nothing;
            CompactRun([s], decode).1 == [out] && SimpleRun([s], decode).1 == [out]
  {
    CompactRunPush([], s, decode);
    SimpleRunPush([], s, decode);
    assert [] + [s] == [s];
    FirstCompact(s, decode);
    FirstSimple(s, decode);
  }

  lemma FirstCompact<O>(s: Shred, decode: Decoder<O>)
    ensures CompactStep(FRESH_COMPACT, s, decode).1
         == if s.isData && s.index == 0 && (s.dataComplete || s.lastInSlot) && decode([s.payload]).Some?
            then Emitted(0, 0, decode([s.payload]).value) else Nothing
  {
    var c := CompactAdd(FRESH_COMPACT, s).0;
    if s.index == 0 {
      assert Payloads(c.first, 0, 0) == [] && Payloads(c.first, 0, 1) == [] + [s.payload] == [s.payload];
    } else {
      assert 0 !in c.first;
    }
  }

  lemma FirstSimple<O>(s: Shred, decode: Decoder<O>)
    ensures SimpleStep(FreshSimple(), s, decode).1
         == if s.isData && s.index == 0 && (s.dataComplete || s.lastInSlot) && decode([s.payload]).Some?
            then Emitted(0, 0, decode([s.payload]).value) else Nothing
  {
    FreshMatched();
    AddKeepsMatched(FreshSimple(), s);
    var s1 := SimpleAdd(FreshSimple(), s).0;
    var found := FindSegment(s1.status);
    if found.Some? { FoundIff(s1.status, found.value.0, found.value.1); }
    if s.isData && s.index == 0 {
      FoundIff(s1.status, 0, 0);
      assert StoredPayloads(s1.stored, 0, 0) == [];
      assert StoredPayloads(s1.stored, 0, 1) == [] + [s.payload] == [s.payload];
    }
    hide FindSegment, Matched;
  }

  /** The same shred twice is emitted twice. */
  lemma RepeatEmittedAgain()
    ensures SimpleRun([EndAt(0), EndAt(0)], Counting).1 == [Emitted(0, 0, 1), Emitted(0, 0, 1)]
  {
    hide SimpleStep, Bare;
    var a := EndAt(0);
    assert [] + [a] == [a] && [a] + [a] == [a, a];
    BareAtFirst();
    BareEmitsZero(FreshSimple());
    SimpleRunPush([], a, Counting);
    BareEmitsZero(SimpleRun([a], Counting).0);
    SimpleRunPush([a], a, Counting);
  }
}

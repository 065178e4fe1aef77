/** How far in-order end markers are needed: what out-of-order ones leave behind in the tracker,
    and what shows once everything has been received. */
module DeshredOrder {
  import opened Words
  import opened DeshredModel

  ghost predicate Trackable(shreds: seq<Shred>) {
    forall k: nat :: k < |shreds| ==> shreds[k].index < 512
  }

  lemma {:induction false} RunSourced<O>(shreds: seq<Shred>, decode: Decoder<O>)
    ensures var c := CompactRun(shreds, decode).0; CompactInv(c) && Sourced(c.first, shreds)
  {
    hide CompactInv, Sourced, CompactTry, CompactAdd;
    if shreds == [] {
      FreshIsOrdered();
    } else {
      var n := |shreds| - 1;
      RunSourced(shreds[..n], decode);
      var c := CompactRun(shreds[..n], decode).0;
      SourcedAdd(c, shreds);
      AddKeepsInv(c, shreds[n]);
      TryKeepsInv(CompactAdd(c, shreds[n]).0, decode);
      TryKeepsFirst(CompactAdd(c, shreds[n]).0, decode);
    }
  }

  /** On any run, a shred whose index has arrived before, or is 512 or more, changes nothing and returns nothing,
      even with a complete segment waiting. */
  lemma RepeatChangesNothing<O>(shreds: seq<Shred>, s: Shred, decode: Decoder<O>)
    requires s.index >= 512 || exists a: nat :: a < |shreds| && shreds[a].index == s.index
    ensures var (c, outs) := CompactRun(shreds, decode); CompactRun(shreds + [s], decode) == (c, outs + [Nothing])
  {
    hide CompactTry, CompactInv, CompactRun;
    RunSourced(shreds, decode);
    CompactRunPush(shreds, s, decode);
  }

  /** Sorted ends after an attempt were sorted before it. */
  lemma SortedBeforeTry<O>(c: Compact, decode: Decoder<O>)
    requires CompactInv(c) && var c' := CompactTry(c, decode).0; EndsSorted(c'.ends, c'.last)
    ensures EndsSorted(c.ends, c.last)
  {
    hide Payloads, CompactTry;
    TryKeepsInv(c, decode);
    TryTakesFront(c, decode);
    var (c', out) := CompactTry(c, decode);
    if out.Emitted? {
      forall a: nat, b: nat | a < b < |c.ends|
        ensures c.ends[a] < c.ends[b]
      {
        assert c'.ends[b - 1] == c.ends[b] && c.ends[b] in c'.ends;
        if a > 0 { assert c'.ends[a - 1] == c.ends[a]; }
      }
      forall e: nat | e in c.ends
        ensures c.last <= e
      {
        var k: nat :| k < |c.ends| && c.ends[k] == e;
        if k > 0 { assert c'.ends[k - 1] == e; }
      }
    }
  }

  lemma TryTakesFront<O>(c: Compact, decode: Decoder<O>)
    requires CompactInv(c)
    ensures var (c', out) := CompactTry(c, decode);
            out.Emitted? ==> c.ends != [] && out.end == c.ends[0] && c'.ends == c.ends[1..] && c'.last == c.ends[0] + 1
  {
    hide Payloads;
  }

  /** Sorted ends after an add were sorted before it, and a new one is above every earlier one. */
  lemma SortedBeforeAdd(c: Compact, s: Shred)
    requires CompactInv(c) && var c' := CompactAdd(c, s).0; EndsSorted(c'.ends, c'.last)
    ensures EndsSorted(c.ends, c.last)
    ensures CompactAdd(c, s).1 && IsEnd(s) ==> forall i: nat :: i in c.first && IsEnd(c.first[i]) ==> i < s.index
  {
    var (c', added) := CompactAdd(c, s);
    forall e: nat | e in c.ends
      ensures e in c'.ends
    {
    }
    assert forall k: nat :: k < |c.ends| ==> c'.ends[k] == c.ends[k];
    if added && IsEnd(s) {
      assert c'.ends[|c.ends|] == s.index && s.index in c'.ends;
      forall i: nat | i in c.first && IsEnd(c.first[i])
        ensures i < s.index
      {
        if c.last <= i {
          var k: nat :| k < |c.ends| && c.ends[k] == i;
          assert c'.ends[k] < c'.ends[|c.ends|];
        }
      }
    }
  }

  /** In-order so far, and a newest end above every earlier one. */
  lemma InOrderPush(c: Compact, shreds: seq<Shred>)
    requires shreds != [] && EndsInOrder(shreds[..|shreds| - 1]) && Sourced(c.first, shreds[..|shreds| - 1])
    requires CompactInv(c) && Trackable(shreds)
    requires var s := shreds[|shreds| - 1];
             CompactAdd(c, s).1 && IsEnd(s) ==> forall i: nat :: i in c.first && IsEnd(c.first[i]) ==> i < s.index
    ensures EndsInOrder(shreds)
  {
    hide CompactInv, Sourced, FirstArrival, CompactAdd;
    var n := |shreds| - 1;
    forall a: nat, b: nat | a < b < |shreds| && FirstArrival(shreds, a) && FirstArrival(shreds, b)
      && IsEnd(shreds[a]) && IsEnd(shreds[b])
      ensures shreds[a].index < shreds[b].index
    {
      FirstArrivalPrefix(shreds, n, a);
      if b < n {
        FirstArrivalPrefix(shreds, n, b);
        assert shreds[..n][a] == shreds[a] && shreds[..n][b] == shreds[b];
      } else {
        NewestIsAdded(c, shreds);
        EarlierIsHeld(c, shreds, a);
      }
    }
  }

  lemma NewestIsAdded(c: Compact, shreds: seq<Shred>)
    requires shreds != [] && Sourced(c.first, shreds[..|shreds| - 1]) && CompactInv(c)
    requires FirstArrival(shreds, |shreds| - 1) && shreds[|shreds| - 1].index < MAX_COMPACT
    ensures CompactAdd(c, shreds[|shreds| - 1]).1
  {
    var s := shreds[|shreds| - 1];
    if s.index in c.first {
      var a := ArrivalOf(c, shreds, s.index);
      assert false;
    }
  }

  /** A first arrival below the newest shred is what the tracker holds at its index. */
  lemma EarlierIsHeld(c: Compact, shreds: seq<Shred>, a: nat)
    requires shreds != [] && Sourced(c.first, shreds[..|shreds| - 1]) && CompactInv(c)
    requires a < |shreds| - 1 && FirstArrival(shreds, a)
    ensures shreds[a].index < MAX_COMPACT ==> shreds[a].index in c.first && c.first[shreds[a].index] == shreds[a]
  {
    var n, i := |shreds| - 1, shreds[a].index;
    assert shreds[..n][a] == shreds[a];
    if i < MAX_COMPACT {
      var b := ArrivalOf(c, shreds, i);
      assert shreds[b].index == i;
    }
  }

  /** New end markers arrived in order if and only if the tracked ends are increasing and none is
      behind what was emitted. */
  lemma {:induction false} InOrderIffSorted<O>(shreds: seq<Shred>, decode: Decoder<O>)
    requires Trackable(shreds)
    ensures var c := CompactRun(shreds, decode).0; EndsInOrder(shreds) <==> EndsSorted(c.ends, c.last)
  {
    hide CompactInv, CompactTry, CompactAdd, Sourced, EndsInOrder, EndsSorted;
    if EndsInOrder(shreds) { OrderedRun(shreds, decode); }
    var c := CompactRun(shreds, decode).0;
    if EndsSorted(c.ends, c.last) && shreds != [] {
      var n := |shreds| - 1;
      var before := CompactRun(shreds[..n], decode).0;
      RunSourced(shreds[..n], decode);
      AddKeepsInv(before, shreds[n]);
      if CompactAdd(before, shreds[n]).1 { SortedBeforeTry(CompactAdd(before, shreds[n]).0, decode); }
      SortedBeforeAdd(before, shreds[n]);
      InOrderIffSorted(shreds[..n], decode);
      InOrderPush(before, shreds);
    } else if shreds == [] {
      assert EndsInOrder([]) by { NothingInOrder(); }
    }
  }

  lemma NothingInOrder()
    ensures EndsInOrder([])
  {
  }

  // ---------------------------------------------------------------- trying on to the end

  /** Trying again after the last shred, every attempt is good. */
  ghost predicate DrainsWell<O>(c: Compact, decode: Decoder<O>)
    requires CompactInv(c)
    decreases |c.ends|
  {
    var (c', out) := CompactTry(c, decode);
    GoodStep(c.first, out) && (out.Emitted? ==>
      (TryKeepsInv(c, decode); TryTakesFront(c, decode); DrainsWell(c', decode)))
  }

  ghost predicate Total<O>(decode: Decoder<O>) {
    forall payloads: seq<seq<u8>> :: decode(payloads).Some?
  }

  /** Every index up to the tracked ends has been received. */
  ghost predicate Complete(c: Compact) {
    forall e: nat, i: nat :: e in c.ends && i <= e ==> i in c.first
  }

  lemma CompleteTry<O>(c: Compact, decode: Decoder<O>)
    requires CompactInv(c) && Complete(c) && Total(decode) && c.ends != [] && c.last <= c.ends[0]
    ensures CompactTry(c, decode).1.Emitted? && Complete(CompactTry(c, decode).0)
  {
    hide Payloads;
    var c' := CompactTry(c, decode).0;
    assert c.ends[0] in c.ends;
    forall e: nat | e in c'.ends
      ensures e in c.ends
    {
      var k: nat :| k < |c'.ends| && c'.ends[k] == e;
      assert c.ends[k + 1] == e;
    }
  }

  /** With everything received and decodable, all goes well to the end if and only if the tracked
      ends are increasing and none is behind. */
  lemma {:induction false} DrainsWellIffSorted<O>(c: Compact, shreds: seq<Shred>, decode: Decoder<O>)
    requires CompactInv(c) && Complete(c) && Total(decode) && Sourced(c.first, shreds)
    ensures DrainsWell(c, decode) <==> EndsSorted(c.ends, c.last)
    decreases |c.ends|
  {
    hide CompactInv, CompactTry, Complete, Total, Sourced, GoodStep;
    if c.ends == [] {
      NothingToDrain(c, decode);
    } else {
      var (c', out) := CompactTry(c, decode);
      TryKeepsInv(c, decode);
      TryKeepsFirst(c, decode);
      TryTakesFront(c, decode);
      if EndsSorted(c.ends, c.last) {
        OrderedTry(c, shreds, decode);
        assert c.ends[0] in c.ends;
        CompleteTry(c, decode);
        DrainsWellIffSorted(c', shreds, decode);
      }
      if DrainsWell(c, decode) {
        NotBehind(c, decode);
        CompleteTry(c, decode);
        DrainsWellIffSorted(c', shreds, decode);
        SortedBeforeTry(c, decode);
      }
    }
  }

  lemma NothingToDrain<O>(c: Compact, decode: Decoder<O>)
    requires CompactInv(c) && c.ends == []
    ensures DrainsWell(c, decode) && EndsSorted(c.ends, c.last)
  {
  }

  lemma NotBehind<O>(c: Compact, decode: Decoder<O>)
    requires CompactInv(c) && c.ends != [] && GoodStep(c.first, CompactTry(c, decode).1)
    ensures c.last <= c.ends[0]
  {
    PanicIffBehind(c, decode);
  }

  /** For a decoder that accepts everything and a run that received every index up to its tracked
      ends: every step is good, and so is every further attempt, if and only if new end markers
      arrived in order. */
  lemma GoodIffInOrder<O>(shreds: seq<Shred>, decode: Decoder<O>)
    requires Trackable(shreds) && Total(decode) && Complete(CompactRun(shreds, decode).0)
    ensures CompactInv(CompactRun(shreds, decode).0)
    ensures EndsInOrder(shreds) <==>
              && DrainsWell(CompactRun(shreds, decode).0, decode)
              && forall k: nat :: k < |shreds| ==>
                GoodStep(CompactRun(shreds[..k + 1], decode).0.first, CompactRun(shreds, decode).1[k])
  {
    hide CompactInv, CompactRun, Complete, Total, Sourced, GoodStep, DrainsWell, EndsInOrder, EndsSorted, Trackable;
    RunSourced(shreds, decode);
    InOrderIffSorted(shreds, decode);
    DrainsWellIffSorted(CompactRun(shreds, decode).0, shreds, decode);
    if EndsInOrder(shreds) {
      forall k: nat | k < |shreds|
        ensures GoodStep(CompactRun(shreds[..k + 1], decode).0.first, CompactRun(shreds, decode).1[k])
      {
        OrderedRunIsGood(shreds, decode, k);
      }
    }
  }

  // ---------------------------------------------------------------- nothing is left behind

  /** The tracker after trying on until nothing more comes out. */
  ghost function Drained<O>(c: Compact, decode: Decoder<O>): Compact
    requires CompactInv(c)
    decreases |c.ends|
  {
    var (c', out) := CompactTry(c, decode);
    if out.Emitted? then
      TryKeepsInv(c, decode);
      TryTakesFront(c, decode);
      Drained(c', decode)
    else c
  }

  lemma {:induction false} DrainsEnds<O>(c: Compact, shreds: seq<Shred>, decode: Decoder<O>)
    requires CompactInv(c) && Complete(c) && Total(decode) && OrderedState(c, shreds)
    ensures var d := Drained(c, decode); CompactInv(d) && d.ends == [] && d.first == c.first
    decreases |c.ends|
  {
    hide CompactInv, CompactTry, Complete, Total, Sourced, GoodStep;
    TryKeepsInv(c, decode);
    TryKeepsFirst(c, decode);
    TryTakesFront(c, decode);
    if c.ends != [] {
      assert c.ends[0] in c.ends;
      CompleteTry(c, decode);
      OrderedTry(c, shreds, decode);
      DrainsEnds(CompactTry(c, decode).0, shreds, decode);
    } else {
      NothingTried(c, decode);
    }
  }

  lemma NothingTried<O>(c: Compact, decode: Decoder<O>)
    requires c.ends == []
    ensures !CompactTry(c, decode).1.Emitted?
  {
  }

  /** In order, with everything up to the tracked ends received and decodable, every end marker that arrived is
      emitted in the end, and the emitted indices end with one. */
  lemma InOrderEmitsAll<O>(shreds: seq<Shred>, decode: Decoder<O>, k: nat)
    requires Trackable(shreds) && Total(decode) && Complete(CompactRun(shreds, decode).0) && EndsInOrder(shreds)
    requires FirstArrival(shreds, k) && IsEnd(shreds[k])
    ensures CompactInv(CompactRun(shreds, decode).0)
    ensures var d := Drained(CompactRun(shreds, decode).0, decode);
            shreds[k].index < d.last && d.last - 1 in d.first && IsEnd(d.first[d.last - 1])
  {
    hide Complete, Total, Sourced, EndsInOrder, EndsSorted, Trackable, CompactRun, Drained, FirstArrival;
    var c := CompactRun(shreds, decode).0;
    OrderedRun(shreds, decode);
    DrainsEnds(c, shreds, decode);
    HeldAt(c, shreds, k);
  }

  lemma HeldAt(c: Compact, shreds: seq<Shred>, k: nat)
    requires CompactInv(c) && Sourced(c.first, shreds) && Trackable(shreds) && FirstArrival(shreds, k)
    ensures shreds[k].index in c.first && c.first[shreds[k].index] == shreds[k]
  {
    var i := shreds[k].index;
    var a: nat :| FirstArrival(shreds, a) && shreds[a] == c.first[i];
    assert shreds[a].index == i;
  }

  // ---------------------------------------------------------------- the run alone does not show it

  /** While index zero is missing, an end marker is only tracked. */
  lemma HeldBack(shreds: seq<Shred>, c: Compact, outs: seq<Outcome<nat>>, s: Shred)
    requires CompactRun(shreds, Counting) == (c, outs)
    requires 0 !in c.first && s.index !in c.first && 0 < s.index < MAX_COMPACT && c.last == 0 && IsEnd(s)
    ensures CompactRun(shreds + [s], Counting)
         == (c.(first := c.first[s.index := s], ends := c.ends + [s.index]), outs + [Nothing])
  {
    hide Payloads;
    CompactRunPush(shreds, s, Counting);
    var m := CompactAdd(c, s).0;
    assert 0 !in m.first && m.ends != [];
  }

  /** End markers 1, 3 and 2, with index zero missing. */
  lemma Backlog() returns (c: Compact)
    ensures CompactRun([EndAt(1), EndAt(3), EndAt(2)], Counting) == (c, [Nothing, Nothing, Nothing])
    ensures c.ends == [1, 3, 2] && c.last == 0 && 0 !in c.first
    ensures 1 in c.first && c.first[1] == EndAt(1)
  {
    var a, b, d := EndAt(1), EndAt(3), EndAt(2);
    var none: Outcome<nat> := Nothing;
    assert CompactRun([], Counting) == (FRESH_COMPACT, []);
    hide CompactRun;
    HeldBack([], FRESH_COMPACT, [], a);
    assert [] + [a] == [a] && [] + [none] == [none];
    var c1 := CompactRun([a], Counting).0;
    assert c1.ends == [1];
    HeldBack([a], c1, [none], b);
    assert [a] + [b] == [a, b] && [none] + [none] == [none, none];
    var c2 := CompactRun([a, b], Counting).0;
    assert c2.ends == [1, 3];
    HeldBack([a, b], c2, [none, none], d);
    assert [a, b] + [d] == [a, b, d] && [none, none] + [none] == [none, none, none];
    c := CompactRun([a, b, d], Counting).0;
  }

  lemma ZeroArrives(c: Compact)
    requires c.ends == [1, 3, 2] && c.last == 0 && 0 !in c.first && 1 in c.first && c.first[1] == EndAt(1)
    ensures CompactStep(c, MiddleAt(0), Counting).1 == Emitted(0, 1, 2)
    ensures GoodStep(CompactStep(c, MiddleAt(0), Counting).0.first, Emitted(0, 1, 2))
  {
    var m := CompactAdd(c, MiddleAt(0)).0;
    assert m.ends == [1, 3, 2] && 0 in m.first && 1 in m.first;
    assert |Payloads(m.first, 0, 2)| == |Payloads(m.first, 0, 1)| + 1;
    assert |Payloads(m.first, 0, 1)| == |Payloads(m.first, 0, 0)| + 1;
    TryKeepsFirst(m, Counting);
  }

  /** Then index 0: out of order, yet each arrival's outcome is good, since an arrival tries one
      segment only. The disorder shows at the next attempt. */
  lemma BacklogHidesDisorder()
    ensures var shreds := [EndAt(1), EndAt(3), EndAt(2), MiddleAt(0)];
            && CompactRun(shreds, Counting).1 == [Nothing, Nothing, Nothing, Emitted(0, 1, 2)]
            && GoodStep(CompactRun(shreds, Counting).0.first, Emitted(0, 1, 2))
            && !EndsInOrder(shreds)
  {
    hide CompactStep, GoodStep, CompactRun;
    var before, z := [EndAt(1), EndAt(3), EndAt(2)], MiddleAt(0);
    var c := Backlog();
    ZeroArrives(c);
    CompactRunPush(before, z, Counting);
    var shreds := [EndAt(1), EndAt(3), EndAt(2), z];
    assert before + [z] == shreds;
    assert FirstArrival(shreds, 1) && FirstArrival(shreds, 2) && IsEnd(shreds[1]) && IsEnd(shreds[2]);
  }
}

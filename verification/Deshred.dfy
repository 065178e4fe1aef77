/** The two slot trackers as the objects they are, each call proved to be a step of its model. */
module Deshred {
  import opened Words
  import opened Bits
  import opened DeshredModel
  import opened DeshredSimple

  const MASK_BITS: nat := 64
  const MASK_WORDS: nat := 8

  // ---------------------------------------------------------------- bitset and shred vector

  predicate Received(words: seq<nat>, i: nat)
    requires |words| == MASK_WORDS && i < MAX_COMPACT
  {
    Bit(words[i / MASK_BITS], i % MASK_BITS)
  }

  /** The bitset marks exactly the received indices. */
  ghost predicate Marked(words: seq<nat>, first: map<nat, Shred>) {
    && |words| == MASK_WORDS
    && (forall w: nat :: w < MASK_WORDS ==> words[w] < Pow2(MASK_BITS))
    && forall i: nat :: i < MAX_COMPACT ==> (Received(words, i) <==> i in first)
  }

  /** The vector keeps exactly the received shreds that are not yet processed. */
  ghost predicate Kept(shreds: seq<Option<Shred>>, c: Compact) {
    && (forall i: nat :: i in c.first ==> i < |shreds|)
    && forall i: nat :: i < |shreds| ==>
         shreds[i] == if i in c.first && c.last <= i then Some(c.first[i]) else None
  }

  lemma MarkedAt(words: seq<nat>, first: map<nat, Shred>, i: nat)
    requires Marked(words, first) && i < MAX_COMPACT
    ensures |words| == MASK_WORDS && (Bit(words[i / MASK_BITS], i % MASK_BITS) <==> i in first)
  {
    hide Pow2, Bit;
    assert Received(words, i) <==> i in first;
  }

  lemma NothingMarked()
    ensures Marked(seq(MASK_WORDS, _ => 0), map[])
  {
    hide Pow2;
    var words: seq<nat> := seq(MASK_WORDS, _ => 0);
    forall i: nat | i < MAX_COMPACT
      ensures !Received(words, i)
    {
      BitZero(i % MASK_BITS);
    }
  }

  lemma MarkNew(words: seq<nat>, first: map<nat, Shred>, index: nat, shred: Shred)
    requires Marked(words, first) && index < MAX_COMPACT
    ensures Marked(words[index / MASK_BITS := SetBit(words[index / MASK_BITS], index % MASK_BITS)],
                   first[index := shred])
  {
    hide Pow2, Bit, SetBit;
    var word, bit := index / MASK_BITS, index % MASK_BITS;
    var marked := words[word := SetBit(words[word], bit)];
    BitSet(MASK_BITS, words[word], bit, bit);
    forall i: nat | i < MAX_COMPACT
      ensures Received(marked, i) <==> i in first[index := shred]
    {
      BitSet(MASK_BITS, words[word], bit, i % MASK_BITS);
      assert Received(words, i) <==> i in first;
    }
  }

  /** `resize` of the shred vector. */
  function Resized(shreds: seq<Option<Shred>>, index: nat): (r: seq<Option<Shred>>)
    ensures |r| > index && |r| >= |shreds|
    ensures forall i: nat :: i < |r| ==> r[i] == if i < |shreds| then shreds[i] else None
  {
    if index < |shreds| then shreds else shreds + seq(index + 1 - |shreds|, _ => None)
  }

  lemma KeepNew(shreds: seq<Option<Shred>>, c: Compact, shred: Shred)
    requires Kept(shreds, c) && CompactInv(c) && shred.index < MAX_COMPACT && shred.index !in c.first
    ensures Kept(Resized(shreds, shred.index)[shred.index := Some(shred)], CompactAdd(c, shred).0)
  {
    assert c.last <= shred.index;
  }

  lemma KeepRest(shreds: seq<Option<Shred>>, c: Compact, end: nat, after: seq<Option<Shred>>, c': Compact)
    requires Kept(shreds, c) && end in c.first && c.last <= end
    requires c'.first == c.first && c'.last == end + 1
    requires |after| == |shreds|
    requires forall i: nat :: i < |shreds| ==> after[i] == if c.last <= i <= end then None else shreds[i]
    ensures Kept(after, c')
  {
  }

  /** The tracker of one slot in boundary-list form. `model` is the run state it stands for. */
  class SlotShredsCompact<!O> {
    const decode: Decoder<O>
    const receivedMask: array<nat>
    var shreds: seq<Option<Shred>>
    var segmentEnds: seq<nat>
    var lastProcessed: nat
    ghost var model: Compact

    ghost predicate Valid()
      reads this, receivedMask
    {
      && Marked(receivedMask[..], model.first) && Kept(shreds, model) && CompactInv(model)
      && segmentEnds == model.ends && lastProcessed == model.last
    }

    constructor (decode: Decoder<O>)
      ensures Valid() && fresh(receivedMask) && this.decode == decode && model == FRESH_COMPACT
    {
      this.decode := decode;
      receivedMask := new nat[MASK_WORDS](_ => 0);
      shreds, segmentEnds, lastProcessed, model := [], [], 0, FRESH_COMPACT;
      new;
      hide Marked;
      NothingMarked();
      assert receivedMask[..] == seq(MASK_WORDS, _ => 0);
    }

    /** Marks and keeps a shred at a new index. */
    method Store(shred: Shred)
      requires Valid() && shred.index < MAX_COMPACT && shred.index !in model.first
      modifies this, receivedMask
      ensures Valid() && model == CompactAdd(old(model), shred).0
    {
      var index := shred.index;
      var word, bit := index / MASK_BITS, index % MASK_BITS;
      MarkedAt(receivedMask[..], model.first, index);
      hide Marked, Received, Pow2, Bit, SetBit, CompactInv, Kept, Resized;
      AddKeepsInv(model, shred);
      KeepNew(shreds, model, shred);
      MarkNew(receivedMask[..], model.first, index, shred);
      Mark(word, bit);
      if shred.isData && (shred.dataComplete || shred.lastInSlot) {
        segmentEnds := segmentEnds + [index];
      }
      shreds := Resized(shreds, index)[index := Some(shred)];
      model := CompactAdd(model, shred).0;
    }

    /** Sets one bit of the bitset. */
    method Mark(word: nat, bit: nat)
      requires word < receivedMask.Length
      modifies receivedMask
      ensures receivedMask[..] == old(receivedMask[..])[word := SetBit(old(receivedMask[word]), bit)]
    {
      hide SetBit;
      receivedMask[word] := SetBit(receivedMask[word], bit);
    }

    method AddShred(shred: Shred) returns (added: bool)
      requires Valid()
      modifies this, receivedMask
      ensures Valid() && (model, added) == CompactAdd(old(model), shred)
    {
      hide Marked, Bit, CompactInv, Kept;
      var index := shred.index;
      if index >= MAX_COMPACT {
        return false;
      }
      MarkedAt(receivedMask[..], model.first, index);
      if Bit(receivedMask[index / MASK_BITS], index % MASK_BITS) {
        return false;
      }
      Store(shred);
      return true;
    }

    /** Whether every shred of a range has been received, by its bit. */
    method AllReceived(start: nat, end: nat) returns (all: bool)
      requires Valid() && end < MAX_COMPACT
      ensures all <==> forall i: nat :: start <= i <= end ==> i in model.first
    {
      hide Pow2, Bit, CompactInv, Kept;
      var idx := start;
      while idx <= end
        invariant start <= idx && forall i: nat :: start <= i < idx && i <= end ==> i in model.first
      {
        assert Received(receivedMask[..], idx) <==> idx in model.first;
        if !Bit(receivedMask[idx / MASK_BITS], idx % MASK_BITS) {
          return false;
        }
        idx := idx + 1;
      }
      return true;
    }

    /** Payloads of a fully received, unprocessed range. */
    method CollectPayloads(start: nat, end: nat) returns (payloads: seq<seq<u8>>)
      requires Valid() && lastProcessed == start <= end
      requires forall i: nat :: start <= i <= end ==> i in model.first
      ensures payloads == Payloads(model.first, start, end + 1)
    {
      hide Marked, CompactInv;
      payloads := [];
      var idx := start;
      while idx <= end
        invariant start <= idx <= end + 1
        invariant payloads == Payloads(model.first, start, idx)
      {
        assert shreds[idx] == Some(model.first[idx]);
        payloads := payloads + [shreds[idx].value.payload];
        idx := idx + 1;
      }
    }

    /** Drops the shreds of an emitted segment. */
    method ClearProcessed(start: nat, end: nat)
      requires start <= end < |shreds|
      modifies `shreds
      ensures |shreds| == |old(shreds)|
      ensures forall i: nat :: i < |shreds| ==> shreds[i] == if start <= i <= end then None else old(shreds)[i]
    {
      var idx := start;
      while idx <= end
        invariant start <= idx <= end + 1 && |shreds| == |old(shreds)|
        invariant forall i: nat :: i < |shreds| ==> shreds[i] == if start <= i < idx then None else old(shreds)[i]
      {
        shreds := shreds[idx := None];
        idx := idx + 1;
      }
    }

    /** Emits the segment up to the first tracked end, if complete and decodable. A tracked end
        that lies behind makes the slice of shreds panic. */
    method TryDeshredFast() returns (out: Outcome<O>)
      requires Valid()
      modifies this
      ensures Valid() && (model, out) == CompactTry(old(model), decode)
    {
      hide Marked, Kept, Payloads;
      TryKeepsInv(model, decode);
      if |segmentEnds| == 0 {
        return Nothing;
      }
      var end, start := segmentEnds[0], lastProcessed;
      EndInRange(model, shreds);
      hide CompactInv;
      var all := AllReceived(start, end);
      if !all {
        return Nothing;
      }
      if start > end + 1 {
        return Panic;
      }
      var payloads := CollectPayloads(start, end);
      var decoded := decode(payloads);
      if decoded.None? {
        return Nothing;
      }
      segmentEnds := segmentEnds[1..];
      lastProcessed := end + 1;
      ClearProcessed(start, end);
      model := CompactTry(model, decode).0;
      KeepRest(old(shreds), old(model), end, shreds, model);
      return Emitted(start, end, decoded.value);
    }

    /** One arriving shred. */
    method Step(shred: Shred) returns (out: Outcome<O>)
      requires Valid()
      modifies this, receivedMask
      ensures Valid() && (model, out) == CompactStep(old(model), shred, decode)
    {
      hide Marked, Kept, CompactInv, CompactTry, CompactAdd;
      var added := AddShred(shred);
      if !added {
        return Nothing;
      }
      out := TryDeshredFast();
    }
  }

  /** The first tracked end is stored, and is not the end just processed. */
  lemma EndInRange(c: Compact, shreds: seq<Option<Shred>>)
    requires CompactInv(c) && Kept(shreds, c) && c.ends != []
    ensures var end := c.ends[0]; end < MAX_COMPACT && end < |shreds| && end in c.first && end + 1 != c.last
  {
    assert c.ends[0] in c.ends;
  }

  /** Every sequence of shreds, in order. */
  method CompactRunner<O>(shreds: seq<Shred>, decode: Decoder<O>) returns (outs: seq<Outcome<O>>)
    ensures outs == CompactRun(shreds, decode).1
  {
    hide Marked, Kept, CompactInv, CompactStep;
    var tracker := new SlotShredsCompact(decode);
    outs := [];
    for k := 0 to |shreds|
      invariant tracker.Valid() && tracker.decode == decode && fresh(tracker) && fresh(tracker.receivedMask)
      invariant (tracker.model, outs) == CompactRun(shreds[..k], decode)
    {
      var out := tracker.Step(shreds[k]);
      assert shreds[..k + 1][..k] == shreds[..k];
      outs := outs + [out];
    }
    assert shreds[..|shreds|] == shreds;
  }

  // ---------------------------------------------------------------- status-array form

  /** The tracker of one slot in status-array form. */
  class SlotShreds<!O> {
    const decode: Decoder<O>
    const dataStatus: array<Status>
    const dataShreds: array<Option<Shred>>
    var codeShreds: seq<Shred>

    ghost function View(): Simple
      reads this, dataStatus, dataShreds
    {
      Simple(dataStatus[..], dataShreds[..], codeShreds)
    }

    ghost predicate Valid()
      reads this, dataStatus, dataShreds
    {
      Sized(View()) && Matched(View())
    }

    constructor (decode: Decoder<O>)
      ensures Valid() && fresh(dataStatus) && fresh(dataShreds) && this.decode == decode && View() == FreshSimple()
    {
      this.decode := decode;
      dataStatus := new Status[MAX_SIMPLE](_ => Unknown);
      dataShreds := new Option<Shred>[MAX_SIMPLE](_ => None);
      codeShreds := [];
      new;
      assert dataStatus[..] == FreshSimple().status;
      assert dataShreds[..] == FreshSimple().stored;
    }

    /** Whether a code shred with this index is kept. */
    method FindCode(index: nat) returns (found: bool)
      ensures found <==> HasCode(codeShreds, index)
    {
      var k := 0;
      while k < |codeShreds|
        invariant k <= |codeShreds| && forall j: nat :: j < k ==> codeShreds[j].index != index
      {
        if codeShreds[k].index == index {
          return true;
        }
        k := k + 1;
      }
      return false;
    }

    method AddShred(shred: Shred) returns (added: bool)
      requires Valid()
      modifies this, dataStatus, dataShreds
      ensures Valid() && (View(), added) == SimpleAdd(old(View()), shred)
    {
      AddKeepsMatched(View(), shred);
      hide Matched, HasCode;
      var index := shred.index;
      if shred.isData {
        if index >= MAX_SIMPLE {
          return false;
        }
        if dataShreds[index].Some? {
          return false;
        }
        dataStatus[index] := if shred.dataComplete || shred.lastInSlot then DataComplete else NotDataComplete;
        dataShreds[index] := Some(shred);
        return true;
      }
      var known := FindCode(index);
      if known {
        return false;
      }
      codeShreds := codeShreds + [shred];
      return true;
    }

    /** The first DataComplete and, scanning backward from it, the start of its segment. */
    method FindCompleteSegment() returns (found: Option<(nat, nat)>)
      ensures found == FindSegment(dataStatus[..])
    {
      ghost var status := dataStatus[..];
      var end := 0;
      while end < dataStatus.Length && dataStatus[end] != DataComplete
        invariant end <= |status| && FirstComplete(status, 0) == FirstComplete(status, end)
      {
        end := end + 1;
      }
      if end == dataStatus.Length {
        return None;
      }
      var s := end;
      while s > 0
        invariant s <= end && ScanBack(status, end) == ScanBack(status, s)
      {
        s := s - 1;
        match dataStatus[s] {
          case DataComplete => return Some((s + 1, end));
          case Unknown => return None;
          case NotDataComplete =>
        }
      }
      return Some((0, end));
    }

    /** Payloads of a segment. No shred of it is missing. */
    method CollectPayloads(start: nat, end: nat) returns (payloads: seq<seq<u8>>)
      requires start <= end && AllStored(dataShreds[..], start, end + 1)
      ensures payloads == StoredPayloads(dataShreds[..], start, end + 1)
    {
      ghost var stored := dataShreds[..];
      payloads := [];
      var i := start;
      while i <= end
        invariant start <= i <= end + 1
        invariant payloads == StoredPayloads(stored, start, i)
      {
        payloads := payloads + [dataShreds[i].value.payload];
        i := i + 1;
      }
    }

    /** Forgets an emitted segment. */
    method ClearSegment(start: nat, end: nat)
      requires start <= end < dataStatus.Length == dataShreds.Length
      modifies dataStatus, dataShreds
      ensures dataStatus[..] == Overwrite(old(dataStatus[..]), start, end + 1, Unknown)
      ensures dataShreds[..] == Overwrite(old(dataShreds[..]), start, end + 1, None)
    {
      var i := start;
      while i <= end
        invariant start <= i <= end + 1
        invariant forall j: nat :: j < dataStatus.Length ==>
                    dataStatus[j] == if start <= j < i then Unknown else old(dataStatus[j])
        invariant forall j: nat :: j < dataShreds.Length ==>
                    dataShreds[j] == if start <= j < i then None else old(dataShreds[j])
      {
        dataShreds[i] := None;
        dataStatus[i] := Unknown;
        i := i + 1;
      }
    }

    /** Emits the first complete segment, if decodable. The check for missing shreds never fires. */
    method TryDeshred() returns (out: Outcome<O>)
      requires Valid()
      modifies dataStatus, dataShreds
      ensures Valid() && (View(), out) == SimpleTry(old(View()), decode)
    {
      TryKeepsMatched(View(), decode);
      TryByCases(View(), decode);
      hide Matched, FindSegment, AllStored, StoredPayloads, Overwrite, SimpleTry;
      var found := FindCompleteSegment();
      if found.None? {
        return Nothing;
      }
      var (start, end) := found.value;
      var payloads := CollectPayloads(start, end);
      var decoded := decode(payloads);
      if decoded.None? {
        return Nothing;
      }
      ClearSegment(start, end);
      return Emitted(start, end, decoded.value);
    }

    /** One arriving shred. */
    method Step(shred: Shred) returns (out: Outcome<O>)
      requires Valid()
      modifies this, dataStatus, dataShreds
      ensures Valid() && (View(), out) == SimpleStep(old(View()), shred, decode)
    {
      hide Matched, SimpleTry, SimpleAdd;
      var added := AddShred(shred);
      if !added {
        return Nothing;
      }
      out := TryDeshred();
    }
  }

  /** Every sequence of shreds, in order. */
  method SimpleRunner<O>(shreds: seq<Shred>, decode: Decoder<O>) returns (outs: seq<Outcome<O>>)
    ensures outs == SimpleRun(shreds, decode).1
  {
    var tracker := new SlotShreds(decode);
    outs := [];
    for k := 0 to |shreds|
      invariant tracker.Valid() && tracker.decode == decode
      invariant fresh(tracker) && fresh(tracker.dataStatus) && fresh(tracker.dataShreds)
      invariant (tracker.View(), outs) == SimpleRun(shreds[..k], decode)
    {
      hide Matched, SimpleStep;
      var out := tracker.Step(shreds[k]);
      assert shreds[..k + 1][..k] == shreds[..k];
      outs := outs + [out];
    }
    assert shreds[..|shreds|] == shreds;
  }
}

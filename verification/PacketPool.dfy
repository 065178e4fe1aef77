/** The lock-free packet pool: a bitmap of free packets claimed with compare-exchange. First as
    a machine over interleaved atomic steps of any number of threads, then as the object a
    single thread sees. */
module PacketPool {
  import opened Words
  import opened Bits

  const WORD_BITS: nat := 64

  // ---------------------------------------------------------------- machine

  /** Where a thread is inside `acquire`: outside, about to load a word, holding a loaded word
      that may be stale by now, or past its successful exchange. */
  datatype Pc =
    | Idle
    | Scanning(start: nat, offset: nat)
    | Loaded(start: nat, offset: nat, current: nat)
    | Claimed(word: nat)

  /** A thread and the packet references it owns. */
  datatype Thread = Thread(pc: Pc, held: seq<nat>)

  datatype Pool = Pool(words: seq<nat>, nextSearch: nat, threads: seq<Thread>)

  /** One atomic step. An exchange may fail spuriously; a reference may move to another thread. */
  datatype Step =
    | Begin(t: nat)
    | Load(t: nat)
    | Exchange(t: nat, spurious: bool)
    | StoreNext(t: nat)
    | Release(t: nat, k: nat)
    | Move(t: nat, u: nat, k: nat)

  function WordAt(start: nat, offset: nat, n: nat): (w: nat)
    requires n > 0
    ensures w < n
  {
    (start + offset) % n
  }

  /** A packet is free when its bit is set. */
  predicate Free(words: seq<nat>, i: nat)
    requires i / WORD_BITS < |words|
  {
    Bit(words[i / WORD_BITS], i % WORD_BITS)
  }

  function SetThread(p: Pool, t: nat, th: Thread): Pool
    requires t < |p.threads|
  {
    p.(threads := p.threads[t := th])
  }

  function Next(p: Pool, s: Step): Pool
    requires Shape(p)
  {
    var n := |p.words|;
    if s.t >= |p.threads| then p
    else
      var th := p.threads[s.t];
      match s
      case Begin(t) =>
        if th.pc.Idle? then SetThread(p, t, th.(pc := Scanning(p.nextSearch % n, 0))) else p
      case Load(t) =>
        if !th.pc.Scanning? then p
        else if th.pc.offset >= n then SetThread(p, t, th.(pc := Idle))
        else
          var current := p.words[WordAt(th.pc.start, th.pc.offset, n)];
          if current == 0 then SetThread(p, t, th.(pc := Scanning(th.pc.start, th.pc.offset + 1)))
          else SetThread(p, t, th.(pc := Loaded(th.pc.start, th.pc.offset, current)))
      case Exchange(t, spurious) =>
        if !th.pc.Loaded? then p
        else
          var word := WordAt(th.pc.start, th.pc.offset, n);
          LowestBit(WORD_BITS, th.pc.current);
          var bit := TrailingZeros(th.pc.current);
          if spurious || p.words[word] != th.pc.current
          then SetThread(p, t, th.(pc := Scanning(th.pc.start, th.pc.offset)))
          else SetThread(p.(words := p.words[word := ClearBit(WORD_BITS, th.pc.current, bit)]), t,
                         Thread(Claimed(word), th.held + [word * WORD_BITS + bit]))
      case StoreNext(t) =>
        if th.pc.Claimed? then SetThread(p.(nextSearch := (th.pc.word + 1) % n), t, th.(pc := Idle)) else p
      case Release(t, k) =>
        if k >= |th.held| then p
        else
          var i := th.held[k];
          var word := i / WORD_BITS;
          SetThread(p.(words := p.words[word := SetBit(p.words[word], i % WORD_BITS)]), t,
                    th.(held := th.held[..k] + th.held[k + 1..]))
      case Move(t, u, k) =>
        if k >= |th.held| || u >= |p.threads| || u == t then p
        else
          var q := SetThread(p, t, th.(held := th.held[..k] + th.held[k + 1..]));
          SetThread(q, u, p.threads[u].(held := p.threads[u].held + [th.held[k]]))
  }

  /** Words fit their width, loaded values are nonzero, held indices are in range. */
  ghost predicate Shape(p: Pool) {
    && |p.words| > 0
    && (forall w: nat :: w < |p.words| ==> p.words[w] < Pow2(WORD_BITS))
    && forall t: nat :: t < |p.threads| ==> ThreadShape(p.threads[t], |p.words|)
  }

  ghost predicate ThreadShape(th: Thread, n: nat) {
    && (th.pc.Loaded? ==> 0 < th.pc.current < Pow2(WORD_BITS))
    && forall k: nat :: k < |th.held| ==> th.held[k] / WORD_BITS < n
  }

  /** Every packet reference in existence. */
  ghost function HeldBy(threads: seq<Thread>): multiset<nat> {
    if threads == [] then multiset{}
    else HeldBy(threads[..|threads| - 1]) + multiset(threads[|threads| - 1].held)
  }

  /** A packet is either free, with no reference, or taken, with exactly one. */
  ghost predicate Owned(p: Pool)
    requires |p.words| > 0
  {
    && (forall i: nat :: i / WORD_BITS < |p.words| ==> HeldBy(p.threads)[i] == if Free(p.words, i) then 0 else 1)
    && forall i: nat :: i in HeldBy(p.threads) ==> i / WORD_BITS < |p.words|
  }

  ghost predicate PoolInv(p: Pool) {
    Shape(p) && Owned(p)
  }

  /** Replacing one thread changes every packet's reference count by that thread's change. */
  lemma {:induction false} HeldByUpdate(threads: seq<Thread>, t: nat, th: Thread, i: nat)
    requires t < |threads|
    ensures HeldBy(threads[t := th])[i] + multiset(threads[t].held)[i] == HeldBy(threads)[i] + multiset(th.held)[i]
  {
    var n := |threads| - 1;
    if t < n {
      HeldByUpdate(threads[..n], t, th, i);
      assert threads[t := th][..n] == threads[..n][t := th];
    } else {
      assert threads[t := th][..n] == threads[..n];
    }
  }

  lemma {:induction false} HeldIsCounted(threads: seq<Thread>, t: nat, k: nat)
    requires t < |threads| && k < |threads[t].held|
    ensures threads[t].held[k] in HeldBy(threads)
  {
    var n := |threads| - 1;
    if t < n {
      HeldIsCounted(threads[..n], t, k);
    }
  }

  /** Reference counts and free bits of one packet after a step. */
  ghost predicate OwnedAt(words: seq<nat>, threads: seq<Thread>, i: nat) {
    if i / WORD_BITS < |words| then HeldBy(threads)[i] == if Free(words, i) then 0 else 1
    else HeldBy(threads)[i] == 0
  }

  lemma OwnedEverywhere(p: Pool)
    requires |p.words| > 0
    ensures Owned(p) <==> forall i: nat :: OwnedAt(p.words, p.threads, i)
  {
    hide Free, HeldBy;
    if Owned(p) {
      forall i: nat
        ensures OwnedAt(p.words, p.threads, i)
      {
      }
    }
    if forall i: nat :: OwnedAt(p.words, p.threads, i) {
      forall i: nat
        ensures i / WORD_BITS < |p.words| ==> HeldBy(p.threads)[i] == if Free(p.words, i) then 0 else 1
        ensures i in HeldBy(p.threads) ==> i / WORD_BITS < |p.words|
      {
        assert OwnedAt(p.words, p.threads, i);
      }
    }
  }

  lemma PushCount(s: seq<nat>, x: nat, i: nat)
    ensures multiset(s + [x])[i] == multiset(s)[i] + if i == x then 1 else 0
  {
  }

  lemma DropCount(s: seq<nat>, k: nat, i: nat)
    requires k < |s|
    ensures multiset(s)[i] == multiset(s[..k] + s[k + 1..])[i] + if i == s[k] then 1 else 0
  {
    assert s == s[..k] + [s[k]] + s[k + 1..];
  }

  /** A step that changes neither words nor references keeps everything. */
  lemma PcStepKeeps(p: Pool, t: nat, pc: Pc, nextSearch: nat)
    requires PoolInv(p) && t < |p.threads|
    requires pc.Loaded? ==> 0 < pc.current < Pow2(WORD_BITS)
    ensures PoolInv(SetThread(p.(nextSearch := nextSearch), t, p.threads[t].(pc := pc)))
  {
    hide Pow2, Free, HeldBy, Owned;
    var q := SetThread(p.(nextSearch := nextSearch), t, p.threads[t].(pc := pc));
    OwnedEverywhere(p);
    forall i: nat
      ensures OwnedAt(q.words, q.threads, i)
    {
      HeldByUpdate(p.threads, t, p.threads[t].(pc := pc), i);
      assert OwnedAt(p.words, p.threads, i);
    }
    OwnedEverywhere(q);
  }

  lemma IndexParts(word: nat, bit: nat, j: nat)
    requires bit < WORD_BITS
    ensures (word * WORD_BITS + bit) / WORD_BITS == word && (word * WORD_BITS + bit) % WORD_BITS == bit
    ensures j / WORD_BITS == word && j % WORD_BITS == bit ==> j == word * WORD_BITS + bit
  {
  }

  /** Claiming a free bit: that packet gains its only reference. */
  lemma ClaimKeeps(p: Pool, t: nat, word: nat, bit: nat)
    requires PoolInv(p) && t < |p.threads| && word < |p.words| && bit < WORD_BITS && Bit(p.words[word], bit)
    ensures PoolInv(SetThread(p.(words := p.words[word := ClearBit(WORD_BITS, p.words[word], bit)]), t,
                              Thread(Claimed(word), p.threads[t].held + [word * WORD_BITS + bit])))
  {
    hide Pow2, Bit, ClearBit, HeldBy, Owned;
    var i := word * WORD_BITS + bit;
    var th := Thread(Claimed(word), p.threads[t].held + [i]);
    var q := SetThread(p.(words := p.words[word := ClearBit(WORD_BITS, p.words[word], bit)]), t, th);
    BitClear(WORD_BITS, p.words[word], bit, bit);
    IndexParts(word, bit, i);
    OwnedEverywhere(p);
    forall j: nat
      ensures OwnedAt(q.words, q.threads, j)
    {
      HeldByUpdate(p.threads, t, th, j);
      PushCount(p.threads[t].held, i, j);
      assert OwnedAt(p.words, p.threads, j);
      IndexParts(word, bit, j);
      BitClear(WORD_BITS, p.words[word], bit, j % WORD_BITS);
    }
    OwnedEverywhere(q);
  }

  /** Releasing a reference: its packet becomes free and loses its only reference. */
  lemma ReleaseKeeps(p: Pool, t: nat, k: nat)
    requires PoolInv(p) && t < |p.threads| && k < |p.threads[t].held|
    ensures PoolInv(Next(p, Release(t, k)))
  {
    hide Pow2, Bit, SetBit, HeldBy, Owned;
    var th := p.threads[t];
    var i := th.held[k];
    var word, bit := i / WORD_BITS, i % WORD_BITS;
    HeldIsCounted(p.threads, t, k);
    var th' := th.(held := th.held[..k] + th.held[k + 1..]);
    var q := SetThread(p.(words := p.words[word := SetBit(p.words[word], bit)]), t, th');
    BitSet(WORD_BITS, p.words[word], bit, bit);
    OwnedEverywhere(p);
    forall j: nat
      ensures OwnedAt(q.words, q.threads, j)
    {
      HeldByUpdate(p.threads, t, th', j);
      DropCount(th.held, k, j);
      assert OwnedAt(p.words, p.threads, j);
      IndexParts(word, bit, j);
      BitSet(WORD_BITS, p.words[word], bit, j % WORD_BITS);
    }
    OwnedEverywhere(q);
  }

  lemma MoveKeeps(p: Pool, t: nat, u: nat, k: nat)
    requires PoolInv(p) && t < |p.threads| && u < |p.threads| && u != t && k < |p.threads[t].held|
    ensures PoolInv(Next(p, Move(t, u, k)))
  {
    hide Pow2, Free, HeldBy, Owned;
    var th := p.threads[t];
    var i := th.held[k];
    var th' := th.(held := th.held[..k] + th.held[k + 1..]);
    var mid := p.threads[t := th'];
    var ut := mid[u].(held := mid[u].held + [i]);
    var q := p.(threads := mid[u := ut]);
    OwnedEverywhere(p);
    forall j: nat
      ensures OwnedAt(q.words, q.threads, j)
    {
      HeldByUpdate(p.threads, t, th', j);
      HeldByUpdate(mid, u, ut, j);
      DropCount(th.held, k, j);
      PushCount(mid[u].held, i, j);
      assert OwnedAt(p.words, p.threads, j);
    }
    OwnedEverywhere(q);
  }

  /** Every atomic step keeps shape and ownership, however stale the loaded word. */
  lemma StepKeeps(p: Pool, s: Step)
    requires PoolInv(p)
    ensures PoolInv(Next(p, s))
  {
    hide Pow2, Bit, HeldBy, Owned, Free;
    if s.t < |p.threads| {
      var th := p.threads[s.t];
      match s
      case Begin(t) =>
        PcStepKeeps(p, t, Scanning(p.nextSearch % |p.words|, 0), p.nextSearch);
      case Load(t) =>
        if th.pc.Scanning? {
          PcStepKeeps(p, t, Idle, p.nextSearch);
          PcStepKeeps(p, t, Scanning(th.pc.start, th.pc.offset + 1), p.nextSearch);
          var current := p.words[WordAt(th.pc.start, th.pc.offset, |p.words|)];
          if current != 0 {
            PcStepKeeps(p, t, Loaded(th.pc.start, th.pc.offset, current), p.nextSearch);
          }
        }
      case Exchange(t, spurious) =>
        if th.pc.Loaded? {
          PcStepKeeps(p, t, Scanning(th.pc.start, th.pc.offset), p.nextSearch);
          LowestBit(WORD_BITS, th.pc.current);
          var word := WordAt(th.pc.start, th.pc.offset, |p.words|);
          if p.words[word] == th.pc.current {
            ClaimKeeps(p, t, word, TrailingZeros(th.pc.current));
          }
        }
      case StoreNext(t) =>
        if th.pc.Claimed? {
          PcStepKeeps(p, t, Idle, (th.pc.word + 1) % |p.words|);
        }
      case Release(t, k) =>
        if k < |th.held| { ReleaseKeeps(p, t, k); }
      case Move(t, u, k) =>
        if k < |th.held| && u < |p.threads| && u != t { MoveKeeps(p, t, u, k); }
    }
  }

  /** A fresh pool of n words and the given number of threads. */
  function Initial(n: nat, threads: nat): Pool {
    Pool(seq(n, _ => Pow2(WORD_BITS) - 1), 0, seq(threads, _ => Thread(Idle, [])))
  }

  lemma {:induction false} NobodyHolds(threads: nat)
    ensures HeldBy(seq(threads, _ => Thread(Idle, []))) == multiset{}
  {
    if threads > 0 {
      NobodyHolds(threads - 1);
      var all := seq(threads, _ => Thread(Idle, []));
      assert all[..threads - 1] == seq(threads - 1, _ => Thread(Idle, []));
    }
  }

  lemma InitialInv(n: nat, threads: nat)
    requires n > 0
    ensures PoolInv(Initial(n, threads))
  {
    hide Pow2, Bit, HeldBy;
    var p := Initial(n, threads);
    NobodyHolds(threads);
    forall i: nat | i / WORD_BITS < |p.words|
      ensures Free(p.words, i)
    {
      BitZero(i % WORD_BITS);
      BitNot(WORD_BITS, 0, i % WORD_BITS);
    }
  }

  /** The state after a run of steps. */
  ghost function Run(p: Pool, steps: seq<Step>): (q: Pool)
    requires PoolInv(p)
    ensures PoolInv(q) && |q.words| == |p.words| && |q.threads| == |p.threads|
  {
    if steps == [] then p
    else
      var q := Run(p, steps[..|steps| - 1]);
      StepKeeps(q, steps[|steps| - 1]);
      Next(q, steps[|steps| - 1])
  }

  /** In every interleaving of any number of threads, from a fresh pool: no packet has two
      references, and a packet's bit is set exactly when nobody holds it. */
  lemma NoDoubleOwner(n: nat, threads: nat, steps: seq<Step>, t: nat, k: nat, u: nat, l: nat)
    requires n > 0
    ensures PoolInv(Initial(n, threads))
    ensures var q := Run(Initial(n, threads), steps);
            && (forall i: nat :: i / WORD_BITS < n ==> (Free(q.words, i) <==> i !in HeldBy(q.threads)))
            && (t < |q.threads| && k < |q.threads[t].held| ==> !Free(q.words, q.threads[t].held[k]))
            && (t < |q.threads| && k < |q.threads[t].held| && u < |q.threads| && l < |q.threads[u].held|
                && (t, k) != (u, l)
                ==> q.threads[t].held[k] != q.threads[u].held[l])
  {
    hide Pow2, Free;
    InitialInv(n, threads);
    var q := Run(Initial(n, threads), steps);
    if t < |q.threads| && k < |q.threads[t].held| {
      HeldIsCounted(q.threads, t, k);
      if u < |q.threads| && l < |q.threads[u].held| && (t, k) != (u, l)
         && q.threads[t].held[k] == q.threads[u].held[l] {
        TwoReferences(q.threads, t, k, u, l);
        assert false;
      }
    }
  }

  // ---------------------------------------------------------------- exhausted scans

  /** Inside the search of `acquire`, with no claim made. */
  predicate Searching(pc: Pc) {
    pc.Scanning? || pc.Loaded?
  }

  /** Only a thread's own steps move its program counter, and only to these places. */
  lemma PcNext(p: Pool, s: Step, t: nat)
    requires PoolInv(p) && t < |p.threads|
    ensures var pc, pc' := p.threads[t].pc, Next(p, s).threads[t].pc;
            Searching(pc') ==>
              || (pc'.offset == 0 && pc'.start < |p.words|)
              || (Searching(pc) && pc'.start == pc.start && pc'.offset == pc.offset)
              || (Searching(pc) && pc'.start == pc.start && pc'.offset == pc.offset + 1
                  && p.words[WordAt(pc.start, pc.offset, |p.words|)] == 0)
  {
    hide Pow2, Bit, Owned, HeldBy, TrailingZeros, ClearBit, SetBit;
  }

  /** At the moment `j` of a run the word was zero, and the thread has been searching ever since. */
  ghost predicate SawZero(p: Pool, steps: seq<Step>, t: nat, word: nat, j: nat)
    requires PoolInv(p) && t < |p.threads| && word < |p.words|
  {
    && j <= |steps| && Run(p, steps[..j]).words[word] == 0
    && forall i: nat :: j <= i <= |steps| ==> Searching(Run(p, steps[..i]).threads[t].pc)
  }

  lemma SawZeroLater(p: Pool, steps: seq<Step>, t: nat, word: nat, j: nat)
    requires PoolInv(p) && t < |p.threads| && word < |p.words| && steps != []
    requires SawZero(p, steps[..|steps| - 1], t, word, j) && Searching(Run(p, steps).threads[t].pc)
    ensures SawZero(p, steps, t, word, j)
  {
    hide Run, PoolInv;
    var n := |steps| - 1;
    assert forall i: nat :: i <= n ==> steps[..n][..i] == steps[..i];
    assert steps[..n + 1] == steps;
  }

  /** Every word a search has passed was zero at some moment of that search, whatever the other
      threads did. */
  lemma {:induction false} PassedWordWasZero(p: Pool, steps: seq<Step>, t: nat, o: nat) returns (j: nat)
    requires PoolInv(p) && t < |p.threads| && p.threads[t].pc.Idle?
    requires var pc := Run(p, steps).threads[t].pc; Searching(pc) && o < pc.offset
    ensures SawZero(p, steps, t, WordAt(Run(p, steps).threads[t].pc.start, o, |p.words|), j)
    ensures Run(p, steps).threads[t].pc.start < |p.words|
    decreases |steps|
  {
    hide PoolInv, WordAt, Next;
    var n := |steps| - 1;
    var before, after := Run(p, steps[..n]), Run(p, steps);
    var pc, pc' := before.threads[t].pc, after.threads[t].pc;
    PcNext(before, steps[n], t);
    if pc'.offset == pc.offset || o < pc.offset {
      j := PassedWordWasZero(p, steps[..n], t, o);
      SawZeroLater(p, steps, t, WordAt(pc.start, o, |p.words|), j);
    } else {
      j := n;
      ScanStart(p, steps[..n], t);
      assert steps[..n + 1] == steps;
    }
  }

  lemma {:induction false} ScanStart(p: Pool, steps: seq<Step>, t: nat)
    requires PoolInv(p) && t < |p.threads| && p.threads[t].pc.Idle?
    ensures var pc := Run(p, steps).threads[t].pc; Searching(pc) ==> pc.start < |p.words|
  {
    hide PoolInv, Next;
    if steps != [] {
      var n := |steps| - 1;
      ScanStart(p, steps[..n], t);
      PcNext(Run(p, steps[..n]), steps[n], t);
    }
  }

  /** In every interleaving: a search that comes to its end without a claim, so that `acquire`
      returns nothing, saw each word of the pool zero at some moment since it began. */
  lemma ExhaustedSawAllZero(n: nat, threads: nat, steps: seq<Step>, t: nat, word: nat) returns (j: nat)
    requires n > 0 && t < threads && word < n
    requires PoolInv(Initial(n, threads))
    requires var pc := Run(Initial(n, threads), steps).threads[t].pc; pc.Scanning? && pc.offset >= n
    ensures SawZero(Initial(n, threads), steps, t, word, j)
  {
    hide PoolInv, Run, SawZero, WordAt;
    var p := Initial(n, threads);
    ScanStart(p, steps, t);
    var pc := Run(p, steps).threads[t].pc;
    var o := Covers(pc.start, word, n);
    j := PassedWordWasZero(p, steps, t, o);
  }

  /** Two references to one packet would be counted twice. */
  lemma {:induction false} TwoReferences(threads: seq<Thread>, t: nat, k: nat, u: nat, l: nat)
    requires t < |threads| && k < |threads[t].held| && u < |threads| && l < |threads[u].held|
    requires (t, k) != (u, l) && threads[t].held[k] == threads[u].held[l]
    ensures HeldBy(threads)[threads[t].held[k]] >= 2
  {
    var i := threads[t].held[k];
    var th := threads[t];
    var th' := th.(held := th.held[..k] + th.held[k + 1..]);
    HeldByUpdate(threads, t, th', i);
    DropCount(th.held, k, i);
    var rest := threads[t := th'];
    if t == u {
      var l' := if l < k then l else l - 1;
      assert rest[t].held[l'] == i;
      HeldIsCounted(rest, t, l');
    } else {
      HeldIsCounted(rest, u, l);
    }
  }

  /** Free and held packets always add up to the pool. */
  lemma FreePlusHeld(p: Pool)
    requires PoolInv(p)
    ensures |FreeSet(p.words)| + |HeldBy(p.threads)| == |p.words| * WORD_BITS
  {
    hide Pow2, Free, HeldBy;
    var n := |p.words| * WORD_BITS;
    var free, all := FreeSet(p.words), Range(n);
    var held: set<nat> := all - free;
    var once: multiset<nat> := multiset(held);
    forall i: nat
      ensures HeldBy(p.threads)[i] == once[i]
    {
      assert i / WORD_BITS < |p.words| <==> i < n;
    }
    assert HeldBy(p.threads) == once;
    assert all == free + held;
  }

  ghost function FreeSet(words: seq<nat>): set<nat> {
    set i: nat | i < |words| * WORD_BITS && i / WORD_BITS < |words| && Free(words, i)
  }

  function Range(n: nat): (all: set<nat>)
    ensures |all| == n
    ensures forall i: nat :: i in all <==> i < n
  {
    if n == 0 then {} else Range(n - 1) + {n - 1}
  }

  // ---------------------------------------------------------------- without interference

  lemma Covers(start: nat, i: nat, n: nat) returns (offset: nat)
    requires start < n && i < n
    ensures offset < n && WordAt(start, offset, n) == i
  {
    if start <= i {
      offset := i - start;
      DivModUnique(start + offset, n, 0, i);
    } else {
      offset := i + n - start;
      DivModUnique(start + offset, n, 1, i);
    }
  }

  /** The first word in circular order from `start` with a free packet. */
  ghost predicate FirstHit(words: seq<nat>, start: nat, offset: nat)
    requires |words| > 0
  {
    && offset < |words|
    && words[WordAt(start, offset, |words|)] != 0
    && forall o: nat :: o < offset ==> words[WordAt(start, o, |words|)] == 0
  }

  /** A claim takes exactly one packet out of the free set, the lowest of its word. */
  ghost predicate Takes(before: seq<nat>, after: seq<nat>, i: nat) {
    && |after| == |before| && i / WORD_BITS < |before|
    && Free(before, i)
    && (forall j: nat :: j / WORD_BITS == i / WORD_BITS && j < i ==> !Free(before, j))
    && forall j: nat :: j / WORD_BITS < |after| ==> (Free(after, j) <==> j != i && Free(before, j))
  }

  lemma ClaimTakes(words: seq<nat>, word: nat)
    requires word < |words| && 0 < words[word] < Pow2(WORD_BITS)
    ensures TrailingZeros(words[word]) < WORD_BITS
    ensures var bit := TrailingZeros(words[word]);
            && ClearBit(WORD_BITS, words[word], bit) < Pow2(WORD_BITS)
            && Takes(words, words[word := ClearBit(WORD_BITS, words[word], bit)], word * WORD_BITS + bit)
  {
    hide Pow2, Bit, ClearBit;
    LowestBit(WORD_BITS, words[word]);
    var bit := TrailingZeros(words[word]);
    var after := words[word := ClearBit(WORD_BITS, words[word], bit)];
    var i := word * WORD_BITS + bit;
    IndexParts(word, bit, i);
    BitClear(WORD_BITS, words[word], bit, bit);
    forall j: nat | j / WORD_BITS < |after|
      ensures Free(after, j) <==> j != i && Free(words, j)
    {
      IndexParts(word, bit, j);
      BitClear(WORD_BITS, words[word], bit, j % WORD_BITS);
    }
  }

  // ---------------------------------------------------------------- what the steps do

  /** The lowest free packet of a word with the given bits, and the hint past that word. */
  function LowestOf(word: nat, current: nat): nat
    requires current > 0
  {
    word * WORD_BITS + TrailingZeros(current)
  }

  function HintPast(word: nat, n: nat): nat
    requires n > 0
  {
    (word + 1) % n
  }

  predicate InWord(i: nat, word: nat) {
    i / WORD_BITS == word
  }

  /** An exchange that finds the word as it was loaded, and does not fail spuriously, claims the lowest free packet
      of that word; any other changes nothing and goes back to loading it. */
  lemma ExchangeClaims(p: Pool, t: nat, spurious: bool)
    requires PoolInv(p) && t < |p.threads| && p.threads[t].pc.Loaded?
    ensures var th, q := p.threads[t], Next(p, Exchange(t, spurious));
            var word := WordAt(th.pc.start, th.pc.offset, |p.words|);
            if !spurious && p.words[word] == th.pc.current then
              var i := LowestOf(word, th.pc.current);
              && Takes(p.words, q.words, i) && InWord(i, word)
              && q == SetThread(p.(words := q.words), t, Thread(Claimed(word), th.held + [i]))
            else q == SetThread(p, t, th.(pc := Scanning(th.pc.start, th.pc.offset)))
  {
    hide Pow2, Bit, ClearBit, Takes, HeldBy, Owned;
    var pc := p.threads[t].pc;
    var word := WordAt(pc.start, pc.offset, |p.words|);
    if p.words[word] == pc.current {
      ClaimTakes(p.words, word);
      IndexParts(word, TrailingZeros(pc.current), 0);
    }
  }

  /** A release makes its packet, and no other, free, and takes the reference away. */
  lemma ReleaseFrees(p: Pool, t: nat, k: nat)
    requires PoolInv(p) && t < |p.threads| && k < |p.threads[t].held|
    ensures var th, q := p.threads[t], Next(p, Release(t, k));
            && q == SetThread(p.(words := q.words), t, th.(held := th.held[..k] + th.held[k + 1..]))
            && |q.words| == |p.words|
            && forall j: nat :: j / WORD_BITS < |p.words| ==>
                 (Free(q.words, j) <==> j == th.held[k] || Free(p.words, j))
  {
    hide Pow2, Bit, SetBit, HeldBy, Owned;
    var i := p.threads[t].held[k];
    var word, bit, q := i / WORD_BITS, i % WORD_BITS, Next(p, Release(t, k));
    BitSet(WORD_BITS, p.words[word], bit, bit);
    forall j: nat | j / WORD_BITS < |p.words|
      ensures Free(q.words, j) <==> j == i || Free(p.words, j)
    {
      IndexParts(word, bit, j);
      IndexParts(word, bit, i);
      BitSet(WORD_BITS, p.words[word], bit, j % WORD_BITS);
    }
  }

  lemma RunPush(p: Pool, steps: seq<Step>, s: Step)
    requires PoolInv(p)
    ensures Run(p, steps + [s]) == Next(Run(p, steps), s)
  {
    hide PoolInv, Next;
    assert (steps + [s])[..|steps|] == steps;
  }

  lemma RunOne(p: Pool, s: Step)
    requires PoolInv(p)
    ensures Run(p, [s]) == Next(p, s)
  {
    RunPush(p, [], s);
    assert [] + [s] == [s] && Run(p, []) == p;
    hide PoolInv, Next;
  }

  /** Where a search that begins now starts. */
  function StartOf(hint: nat, n: nat): (start: nat)
    requires n > 0
    ensures start < n
  {
    hint % n
  }

  lemma Begun(p: Pool, t: nat)
    requires PoolInv(p) && t < |p.threads| && p.threads[t].pc.Idle?
    ensures Run(p, Search(t, 0)) == SetThread(p, t, p.threads[t].(pc := Scanning(StartOf(p.nextSearch, |p.words|), 0)))
  {
    RunOne(p, Begin(t));
    hide Run;
  }

  lemma LoadedWord(p: Pool, t: nat)
    requires PoolInv(p) && t < |p.threads| && p.threads[t].pc.Scanning?
    ensures var th := p.threads[t];
            var start, offset := th.pc.start, th.pc.offset;
            Next(p, Load(t)) == SetThread(p, t, th.(pc :=
              if offset >= |p.words| then Idle
              else
                var current := p.words[WordAt(start, offset, |p.words|)];
                if current == 0 then Scanning(start, offset + 1) else Loaded(start, offset, current)))
  {
    hide WordAt;
  }

  lemma Stored(p: Pool, t: nat, word: nat)
    requires PoolInv(p) && t < |p.threads| && p.threads[t].pc == Claimed(word)
    ensures Next(p, StoreNext(t))
         == SetThread(p.(nextSearch := HintPast(word, |p.words|)), t, Thread(Idle, p.threads[t].held))
  {
  }

  lemma SetTwice(p: Pool, t: nat, a: Thread, b: Thread)
    requires t < |p.threads|
    ensures SetThread(SetThread(p, t, a), t, b) == SetThread(p, t, b)
    ensures SetThread(p, t, p.threads[t]) == p
  {
    assert p.threads[t := p.threads[t]] == p.threads;
  }

  /** The steps of one thread that starts a search and loads n times. */
  function Search(t: nat, n: nat): seq<Step> {
    if n == 0 then [Begin(t)] else Search(t, n - 1) + [Load(t)]
  }

  /** One more load of a thread that has passed o words. */
  lemma SoloLoad(p: Pool, t: nat, start: nat, o: nat)
    requires PoolInv(p) && t < |p.threads| && o <= |p.words|
    requires Run(p, Search(t, o)) == SetThread(p, t, p.threads[t].(pc := Scanning(start, o)))
    ensures Run(p, Search(t, o + 1)) == SetThread(p, t, p.threads[t].(pc :=
              if o == |p.words| then Idle
              else
                var current := p.words[WordAt(start, o, |p.words|)];
                if current == 0 then Scanning(start, o + 1) else Loaded(start, o, current)))
  {
    hide PoolInv, WordAt, Next, Run;
    var was := Run(p, Search(t, o));
    RunPush(p, Search(t, o), Load(t));
    LoadedWord(was, t);
    SetTwice(p, t, was.threads[t], Run(p, Search(t, o + 1)).threads[t]);
  }

  /** Alone, a thread passes empty words one by one. */
  lemma {:induction false} SoloPasses(p: Pool, t: nat, o: nat)
    requires PoolInv(p) && t < |p.threads| && p.threads[t].pc.Idle? && o <= |p.words|
    requires |p.words| > 0
    requires forall i: nat :: i < o ==> p.words[WordAt(StartOf(p.nextSearch, |p.words|), i, |p.words|)] == 0
    ensures Run(p, Search(t, o)) == SetThread(p, t, p.threads[t].(pc := Scanning(StartOf(p.nextSearch, |p.words|), o)))
  {
    hide PoolInv, WordAt, Run, Search, StartOf, SetThread;
    if o == 0 {
      Begun(p, t);
    } else {
      SoloPasses(p, t, o - 1);
      SoloLoad(p, t, StartOf(p.nextSearch, |p.words|), o - 1);
    }
  }

  /** The claim of a word just loaded. */
  lemma ClaimAndStore(p: Pool, t: nat, steps: seq<Step>, word: nat, current: nat)
    requires PoolInv(p) && t < |p.threads|
    requires var l := Run(p, steps);
             && l.threads[t].pc.Loaded? && l.threads[t].pc.current == current > 0 && word < |l.words|
             && WordAt(l.threads[t].pc.start, l.threads[t].pc.offset, |l.words|) == word && l.words[word] == current
    ensures var l, q := Run(p, steps), Run(p, steps + [Exchange(t, false)] + [StoreNext(t)]);
            var i := LowestOf(word, current);
            && Takes(l.words, q.words, i) && InWord(i, word)
            && q == SetThread(l.(words := q.words, nextSearch := HintPast(word, |l.words|)), t,
                              Thread(Idle, l.threads[t].held + [i]))
  {
    hide PoolInv, WordAt, Takes, Next, Run, LowestOf, HintPast, InWord;
    RunPush(p, steps, Exchange(t, false));
    ExchangeClaims(Run(p, steps), t, false);
    var claimed := Run(p, steps + [Exchange(t, false)]);
    RunPush(p, steps + [Exchange(t, false)], StoreNext(t));
    Stored(claimed, t, word);
  }

  /** Alone and without spurious failures, a search takes what the object below takes: the lowest free packet of
      the first nonempty word in circular order from the hint, which moves past that word. */
  lemma SoloAcquires(p: Pool, t: nat, o: nat)
    requires PoolInv(p) && t < |p.threads| && p.threads[t].pc.Idle?
    requires FirstHit(p.words, StartOf(p.nextSearch, |p.words|), o)
    ensures var q := Run(p, Search(t, o + 1) + [Exchange(t, false)] + [StoreNext(t)]);
            var word := WordAt(StartOf(p.nextSearch, |p.words|), o, |p.words|);
            var i := LowestOf(word, p.words[word]);
            && Takes(p.words, q.words, i) && InWord(i, word)
            && q.nextSearch == HintPast(word, |p.words|)
            && q.threads == p.threads[t := Thread(Idle, p.threads[t].held + [i])]
  {
    hide PoolInv, WordAt, Takes, Run, Search, StartOf, LowestOf, HintPast, InWord;
    var word := WordAt(StartOf(p.nextSearch, |p.words|), o, |p.words|);
    SoloPasses(p, t, o);
    SoloLoad(p, t, StartOf(p.nextSearch, |p.words|), o);
    ClaimAndStore(p, t, Search(t, o + 1), word, p.words[word]);
  }

  /** Alone over an empty pool, it ends with nothing and nothing changed. */
  lemma SoloExhausts(p: Pool, t: nat)
    requires PoolInv(p) && t < |p.threads| && p.threads[t].pc.Idle?
    requires forall w: nat :: w < |p.words| ==> p.words[w] == 0
    ensures Run(p, Search(t, |p.words| + 1)) == p
  {
    assert |p.words| > 0;
    hide PoolInv, WordAt, Run, Search, StartOf;
    SoloPasses(p, t, |p.words|);
    SoloLoad(p, t, StartOf(p.nextSearch, |p.words|), |p.words|);
    SetTwice(p, t, p.threads[t], p.threads[t]);
  }

  /** What the two forms promise determines the packet and leaves the same packets free. */
  lemma SameClaim(words: seq<nat>, start: nat, o: nat, i: nat, after: seq<nat>, o': nat, i': nat, after': seq<nat>)
    requires |words| > 0 && FirstHit(words, start, o) && FirstHit(words, start, o')
    requires Takes(words, after, i) && InWord(i, WordAt(start, o, |words|))
    requires Takes(words, after', i') && InWord(i', WordAt(start, o', |words|))
    ensures o == o' && i == i'
    ensures forall j: nat :: j / WORD_BITS < |words| ==> (Free(after, j) <==> Free(after', j))
  {
    hide Free, WordAt;
  }

  /** The pool's bitmap and search hint, used by one thread at a time. */
  class FreeBitmap {
    const freeMask: array<nat>
    var nextSearch: nat

    ghost predicate Valid()
      reads this, freeMask
    {
      freeMask.Length > 0 && forall w: nat :: w < freeMask.Length ==> freeMask[w] < Pow2(WORD_BITS)
    }

    constructor (n: nat)
      requires n > 0
      ensures Valid() && fresh(freeMask) && freeMask.Length == n && nextSearch == 0
      ensures forall i: nat :: i / WORD_BITS < n ==> Free(freeMask[..], i)
    {
      freeMask := new nat[n](_ => Pow2(WORD_BITS) - 1);
      nextSearch := 0;
      new;
      hide Pow2, Bit;
      forall i: nat | i / WORD_BITS < n
        ensures Free(freeMask[..], i)
      {
        BitZero(i % WORD_BITS);
        BitNot(WORD_BITS, 0, i % WORD_BITS);
      }
    }

    /** Claims the lowest free packet of a nonempty word and moves the hint past it. */
    method Claim(idx: nat, current: nat) returns (packet: nat)
      requires Valid() && idx < freeMask.Length && freeMask[idx] == current != 0
      modifies this, freeMask
      ensures Valid() && packet / WORD_BITS == idx && nextSearch == (idx + 1) % freeMask.Length
      ensures Takes(old(freeMask[..]), freeMask[..], packet)
    {
      hide Pow2, Bit, Takes;
      ghost var words := freeMask[..];
      LowestBit(WORD_BITS, current);
      var bit := TrailingZeros(current);
      ClaimTakes(words, idx);
      IndexParts(idx, bit, idx * WORD_BITS + bit);
      freeMask[idx] := ClearBit(WORD_BITS, current, bit);
      nextSearch := (idx + 1) % freeMask.Length;
      assert freeMask[..] == words[idx := ClearBit(WORD_BITS, words[idx], bit)];
      return idx * WORD_BITS + bit;
    }

    /** Claims the lowest free packet of the first nonempty word in circular order from the
        hint; None exactly when nothing is free. `glitches` bounds the spurious failures of
        the weak exchange. */
    method Acquire(glitches: nat) returns (packet: Option<nat>, ghost offset: nat)
      requires Valid()
      modifies this, freeMask
      ensures Valid()
      ensures packet.None? <==> forall w: nat :: w < freeMask.Length ==> old(freeMask[..])[w] == 0
      ensures packet.None? ==> freeMask[..] == old(freeMask[..]) && nextSearch == old(nextSearch)
      ensures packet.Some? ==>
                var words, start := old(freeMask[..]), StartOf(old(nextSearch), freeMask.Length);
                var word := WordAt(start, offset, freeMask.Length);
                && FirstHit(words, start, offset) && InWord(packet.value, word)
                && Takes(words, freeMask[..], packet.value)
                && nextSearch == HintPast(word, freeMask.Length)
    {
      hide Pow2, Bit, Takes;
      var n := freeMask.Length;
      var start := nextSearch % n;
      ghost var words := freeMask[..];
      offset := 0;
      var left := glitches;
      for step := 0 to n
        invariant Valid() && freeMask[..] == words && nextSearch == old(nextSearch)
        invariant forall o: nat :: o < step ==> words[WordAt(start, o, n)] == 0
      {
        var idx := (start + step) % n;
        while true
          invariant Valid() && freeMask[..] == words && nextSearch == old(nextSearch)
          decreases left
        {
          var current := freeMask[idx];
          if current == 0 {
            break;
          }
          var spurious: bool := *;
          if spurious && left > 0 {
            left := left - 1;
            continue;
          }
          offset := step;
          assert words[WordAt(start, offset, n)] != 0;
          var claimed := Claim(idx, current);
          return Some(claimed), offset;
        }
        assert words[idx] == 0;
      }
      forall w: nat | w < n
        ensures words[w] == 0
      {
        var o := Covers(start, w, n);
      }
      packet := None;
    }

    /** Returns a packet to the pool. */
    method Release(index: nat)
      requires Valid() && index / WORD_BITS < freeMask.Length
      modifies freeMask
      ensures Valid() && nextSearch == old(nextSearch)
      ensures forall j: nat :: j / WORD_BITS < freeMask.Length ==>
                (Free(freeMask[..], j) <==> j == index || Free(old(freeMask[..]), j))
    {
      hide Pow2, Bit, SetBit;
      var word, bit := index / WORD_BITS, index % WORD_BITS;
      ghost var words := freeMask[..];
      BitSet(WORD_BITS, freeMask[word], bit, bit);
      freeMask[word] := SetBit(freeMask[word], bit);
      forall j: nat | j / WORD_BITS < freeMask.Length
        ensures Free(freeMask[..], j) <==> j == index || Free(words, j)
      {
        IndexParts(word, bit, j);
        BitSet(WORD_BITS, words[word], bit, j % WORD_BITS);
      }
    }
  }
}

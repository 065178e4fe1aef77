/** Frames of the packet buffer, counted where they are: a place is a sequence of
    addresses or descriptors, and its frames form a multiset. */
module Frames {
  import Bits
  import opened RingObjects

  /** The frame an address falls in. */
  function FrameOf(addr: nat, frameSize: nat): nat
    requires frameSize > 0
  {
    addr / frameSize
  }

  function AddrFrames(addrs: seq<nat>, frameSize: nat): seq<nat>
    requires frameSize > 0
  {
    seq(|addrs|, i requires 0 <= i < |addrs| => FrameOf(addrs[i], frameSize))
  }

  function DescFrames(descs: seq<XdpDesc>, frameSize: nat): seq<nat>
    requires frameSize > 0
  {
    seq(|descs|, i requires 0 <= i < |descs| => FrameOf(descs[i].addr, frameSize))
  }

  function AddrPlace(addrs: seq<nat>, frameSize: nat): multiset<nat>
    requires frameSize > 0
  {
    multiset(AddrFrames(addrs, frameSize))
  }

  function DescPlace(descs: seq<XdpDesc>, frameSize: nat): multiset<nat>
    requires frameSize > 0
  {
    multiset(DescFrames(descs, frameSize))
  }

  lemma AddrPlaceAppend(a: seq<nat>, b: seq<nat>, frameSize: nat)
    requires frameSize > 0
    ensures AddrPlace(a + b, frameSize) == AddrPlace(a, frameSize) + AddrPlace(b, frameSize)
  {
    assert AddrFrames(a + b, frameSize) == AddrFrames(a, frameSize) + AddrFrames(b, frameSize);
  }

  lemma DescPlaceAppend(a: seq<XdpDesc>, b: seq<XdpDesc>, frameSize: nat)
    requires frameSize > 0
    ensures DescPlace(a + b, frameSize) == DescPlace(a, frameSize) + DescPlace(b, frameSize)
  {
    assert DescFrames(a + b, frameSize) == DescFrames(a, frameSize) + DescFrames(b, frameSize);
  }

  lemma AddrPlaceOne(addr: nat, frameSize: nat)
    requires frameSize > 0
    ensures AddrPlace([addr], frameSize) == multiset{FrameOf(addr, frameSize)}
  {
    assert AddrFrames([addr], frameSize) == [FrameOf(addr, frameSize)];
  }

  lemma DescPlaceOne(d: XdpDesc, frameSize: nat)
    requires frameSize > 0
    ensures DescPlace([d], frameSize) == multiset{FrameOf(d.addr, frameSize)}
  {
    assert DescFrames([d], frameSize) == [FrameOf(d.addr, frameSize)];
  }

  /** Adding at the back of a ring's unread part. */
  lemma AddrPlacePush(log: seq<nat>, read: nat, addr: nat, frameSize: nat)
    requires frameSize > 0 && read <= |log|
    ensures AddrPlace((log + [addr])[read..], frameSize)
         == AddrPlace(log[read..], frameSize) + multiset{FrameOf(addr, frameSize)}
  {
    assert (log + [addr])[read..] == log[read..] + [addr];
    AddrPlaceAppend(log[read..], [addr], frameSize);
    AddrPlaceOne(addr, frameSize);
  }

  lemma DescPlacePush(log: seq<XdpDesc>, read: nat, d: XdpDesc, frameSize: nat)
    requires frameSize > 0 && read <= |log|
    ensures DescPlace((log + [d])[read..], frameSize)
         == DescPlace(log[read..], frameSize) + multiset{FrameOf(d.addr, frameSize)}
  {
    assert (log + [d])[read..] == log[read..] + [d];
    DescPlaceAppend(log[read..], [d], frameSize);
    DescPlaceOne(d, frameSize);
  }

  /** Taking from the front of a ring's unread part. */
  lemma AddrPlaceTake(log: seq<nat>, read: nat, frameSize: nat)
    requires frameSize > 0 && read < |log|
    ensures AddrPlace(log[read..], frameSize)
         == AddrPlace(log[read + 1..], frameSize) + multiset{FrameOf(log[read], frameSize)}
  {
    assert log[read..] == [log[read]] + log[read + 1..];
    AddrPlaceAppend([log[read]], log[read + 1..], frameSize);
    AddrPlaceOne(log[read], frameSize);
  }

  lemma DescPlaceTake(log: seq<XdpDesc>, read: nat, frameSize: nat)
    requires frameSize > 0 && read < |log|
    ensures DescPlace(log[read..], frameSize)
         == DescPlace(log[read + 1..], frameSize) + multiset{FrameOf(log[read].addr, frameSize)}
  {
    assert log[read..] == [log[read]] + log[read + 1..];
    DescPlaceAppend([log[read]], log[read + 1..], frameSize);
    DescPlaceOne(log[read], frameSize);
  }

  /** Removing one element anywhere. */
  function Without<T>(s: seq<T>, k: nat): seq<T>
    requires k < |s|
  {
    s[..k] + s[k + 1..]
  }

  lemma AddrPlaceRemove(s: seq<nat>, k: nat, frameSize: nat)
    requires frameSize > 0 && k < |s|
    ensures AddrPlace(s, frameSize) == AddrPlace(Without(s, k), frameSize) + multiset{FrameOf(s[k], frameSize)}
  {
    AddrPlaceTake(s, k, frameSize);
    assert s == s[..k] + s[k..];
    AddrPlaceAppend(s[..k], s[k..], frameSize);
    AddrPlaceAppend(s[..k], s[k + 1..], frameSize);
  }

  lemma DescPlaceRemove(s: seq<XdpDesc>, k: nat, frameSize: nat)
    requires frameSize > 0 && k < |s|
    ensures DescPlace(s, frameSize) == DescPlace(Without(s, k), frameSize) + multiset{FrameOf(s[k].addr, frameSize)}
  {
    DescPlaceTake(s, k, frameSize);
    assert s == s[..k] + s[k..];
    DescPlaceAppend(s[..k], s[k..], frameSize);
    DescPlaceAppend(s[..k], s[k + 1..], frameSize);
  }

  lemma AddrPlaceMember(s: seq<nat>, k: nat, frameSize: nat)
    requires frameSize > 0 && k < |s|
    ensures FrameOf(s[k], frameSize) in AddrPlace(s, frameSize)
  {
    assert AddrFrames(s, frameSize)[k] == FrameOf(s[k], frameSize);
  }

  lemma DescPlaceMember(s: seq<XdpDesc>, k: nat, frameSize: nat)
    requires frameSize > 0 && k < |s|
    ensures FrameOf(s[k].addr, frameSize) in DescPlace(s, frameSize)
  {
    assert DescFrames(s, frameSize)[k] == FrameOf(s[k].addr, frameSize);
  }

  /** Popping the last free frame. */
  lemma PopLast(s: seq<nat>)
    requires s != []
    ensures multiset(s) == multiset(s[..|s| - 1]) + multiset{s[|s| - 1]}
  {
    assert s == s[..|s| - 1] + [s[|s| - 1]];
  }

  // ---------------------------------------------------------------- byte ranges

  /** A descriptor's bytes lie inside one frame of the buffer. */
  predicate InFrame(addr: nat, len: nat, frameSize: nat, bufferLen: nat)
    requires frameSize > 0
  {
    && addr % frameSize + len <= frameSize
    && FrameOf(addr, frameSize) < bufferLen / frameSize
  }

  lemma FrameStart(index: nat, frameSize: nat)
    requires frameSize > 0
    ensures FrameOf(index * frameSize, frameSize) == index && (index * frameSize) % frameSize == 0
  {
    Bits.DivModUnique(index * frameSize, frameSize, index, 0);
  }

  /** Every byte of an in-frame range belongs to that frame and to the buffer. */
  lemma RangeInFrame(addr: nat, len: nat, frameSize: nat, bufferLen: nat)
    requires frameSize > 0 && InFrame(addr, len, frameSize, bufferLen)
    ensures addr + len <= bufferLen
    ensures forall i: nat :: addr <= i < addr + len ==> FrameOf(i, frameSize) == FrameOf(addr, frameSize)
  {
    var f := FrameOf(addr, frameSize);
    FrameSpan(addr, frameSize);
    FrameInside(f, frameSize, bufferLen);
    hide FrameOf;
    forall i: nat | addr <= i < addr + len
      ensures FrameOf(i, frameSize) == f
    {
      FrameAt(i, f, frameSize);
    }
  }

  lemma FrameSpan(addr: nat, frameSize: nat)
    requires frameSize > 0
    ensures addr == frameSize * FrameOf(addr, frameSize) + addr % frameSize
  {
  }

  lemma FrameInside(f: nat, frameSize: nat, bufferLen: nat)
    requires frameSize > 0 && f < bufferLen / frameSize
    ensures frameSize * f + frameSize <= bufferLen
  {
    var n := bufferLen / frameSize;
    MulMonotone(frameSize, f + 1, n);
    assert frameSize * (f + 1) == frameSize * f + frameSize;
    assert frameSize * n <= bufferLen;
  }

  lemma FrameAt(i: nat, f: nat, frameSize: nat)
    requires frameSize > 0 && frameSize * f <= i < frameSize * f + frameSize
    ensures FrameOf(i, frameSize) == f
  {
    Bits.DivModUnique(i, frameSize, f, i - frameSize * f);
  }

  lemma MulMonotone(a: nat, b: nat, c: nat)
    requires b <= c
    ensures a * b <= a * c
  {
  }

  /** Two frames' byte ranges are inside the buffer and do not overlap. */
  lemma FramesDisjoint(f: nat, g: nat, frameSize: nat, bufferLen: nat)
    requires frameSize > 0 && f < g < bufferLen / frameSize
    ensures f * frameSize + frameSize <= g * frameSize
    ensures g * frameSize + frameSize <= bufferLen
  {
    MulMonotone(frameSize, f + 1, g);
    MulMonotone(frameSize, g + 1, bufferLen / frameSize);
    assert frameSize * (bufferLen / frameSize) <= bufferLen;
  }
}

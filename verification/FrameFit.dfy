/** A packet longer than its frame. The transmit loop does not check for it; this is exactly what
    such a packet breaks. */
module FrameFit {
  import opened Words
  import opened Rings
  import opened RingObjects
  import opened Frames
  import opened Packet
  import opened Kernel
  import opened TxModel

  /** Laying a packet down changes bytes of one frame only. */
  ghost predicate StaysInFrame(buffer: seq<u8>, at: nat, packet: seq<u8>, frameSize: nat)
    requires frameSize > 0 && at + |packet| <= |buffer|
  {
    forall i: nat :: i < |buffer| && FrameOf(i, frameSize) != FrameOf(at, frameSize) ==>
      Splice(buffer, at, packet)[i] == buffer[i]
  }

  /** The byte after a frame belongs to the next one. */
  lemma NextFrame(at: nat, frameSize: nat, k: nat)
    requires frameSize > 0 && at % frameSize == 0 && k < frameSize
    ensures FrameOf(at + k, frameSize) == FrameOf(at, frameSize)
    ensures FrameOf(at + frameSize, frameSize) == FrameOf(at, frameSize) + 1
  {
    var f := FrameOf(at, frameSize);
    assert at == frameSize * f;
    Bits.DivModUnique(at + k, frameSize, f, k);
    Bits.DivModUnique(at + frameSize, frameSize, f + 1, 0);
  }

  /** A packet at a frame's start stays in its frame, in every buffer that holds it, if and only if
      it is no longer than the frame. */
  lemma StaysInFrameIff(at: nat, packet: seq<u8>, frameSize: nat)
    requires frameSize > 0 && at % frameSize == 0
    ensures |packet| <= frameSize
       <==> forall buffer: seq<u8> :: at + |packet| <= |buffer| ==> StaysInFrame(buffer, at, packet, frameSize)
  {
    hide FrameOf;
    if |packet| <= frameSize {
      forall buffer: seq<u8> | at + |packet| <= |buffer|
        ensures StaysInFrame(buffer, at, packet, frameSize)
      {
        forall i: nat | i < |buffer| && FrameOf(i, frameSize) != FrameOf(at, frameSize)
          ensures Splice(buffer, at, packet)[i] == buffer[i]
        {
          if at <= i < at + |packet| { NextFrame(at, frameSize, i - at); }
        }
      }
    } else {
      var other: u8 := if packet[frameSize] == 0 then 1 else 0;
      var buffer: seq<u8> := seq(at + |packet|, _ => other);
      NextFrame(at, frameSize, 0);
      assert Splice(buffer, at, packet)[at + frameSize] == packet[frameSize] != buffer[at + frameSize];
      assert !StaysInFrame(buffer, at, packet, frameSize);
    }
  }

  /** Sending keeps the ownership and integrity law if and only if the packet fits its frame. */
  lemma SendKeepsIff(free: seq<nat>, s: TxState, pool: multiset<nat>, wire: seq<seq<u8>>, before: seq<u8>,
                     frameSize: nat, offset: nat, packet: seq<u8>)
    requires frameSize > 0
    requires TxInv(free, multiset{FrameOf(offset, frameSize)}, s, pool, wire, before, frameSize)
    requires offset % frameSize == 0 && offset + |packet| <= |before| && |packet| < U32_SPAN
    ensures |packet| <= frameSize
       <==> TxInv(free, multiset{}, s.(tx := s.tx.Push(XdpDesc(offset, |packet|, 0))), pool, wire + [packet],
                  Splice(before, offset, packet), frameSize)
  {
    if |packet| <= frameSize {
      InvSend(free, s, pool, wire, before, frameSize, offset, packet);
    } else {
      var s' := s.(tx := s.tx.Push(XdpDesc(offset, |packet|, 0)));
      assert TxLive(s', |s.tx.log|);
      assert !InFrame(offset, |packet|, frameSize, |before|);
    }
  }

  /** A live packet at the start of the next frame loses its first byte. */
  lemma NeighbourOverwritten(s: TxState, wire: seq<seq<u8>>, before: seq<u8>, frameSize: nat, offset: nat,
                             packet: seq<u8>, p: nat)
    requires frameSize > 0 && |wire| == |s.tx.log| && TxLive(s, p)
    requires Carries(before, s.tx.log[p], frameSize, wire[p]) && s.tx.log[p].len > 0
    requires s.tx.log[p].addr == offset + frameSize && offset + |packet| <= |before|
    requires |packet| > frameSize && packet[frameSize] != wire[p][0]
    ensures !Carries(Splice(before, offset, packet), s.tx.log[p], frameSize, wire[p])
  {
    hide InFrame;
    var d, after := s.tx.log[p], Splice(before, offset, packet);
    assert after[d.addr] == packet[frameSize];
    if d.addr + d.len <= |after| { assert Bytes(after, d)[0] == after[d.addr]; }
  }

  const QUEUED: XdpDesc := XdpDesc(64, 64, 0)

  /** The second of two 64-byte frames is queued and full of zeros. */
  ghost function OneQueued(): TxState {
    TxState(Fifo([QUEUED], 1, 0, 0, 0, 0), [], [], Fifo([], 0, 0, 0, 0, 0))
  }

  function Fill(n: nat, b: u8): (r: seq<u8>)
    ensures |r| == n && forall i: nat :: i < n ==> r[i] == b
  {
    seq(n, _ => b)
  }

  lemma OneQueuedIsAccounted()
    ensures TxInv([], multiset{0}, OneQueued(), multiset{0, 1}, [Fill(64, 0)], Fill(128, 0), 64)
    ensures TxLive(OneQueued(), 0)
  {
    hide Fill, AddrPlace, DescPlace;
    var s := OneQueued();
    assert s.tx.Pending() == [QUEUED];
    DescPlaceOne(QUEUED, 64);
    assert FrameOf(64, 64) == 1;
    NothingPlaced();
    assert TxHeld(s, 64) == multiset{1};
    assert Bytes(Fill(128, 0), QUEUED) == Fill(64, 0);
  }

  lemma NothingPlaced()
    ensures DescPlace([], 64) == multiset{} && AddrPlace([], 64) == multiset{}
  {
  }

  /** A 65-byte packet of ones built in the first frame overwrites the queued one. */
  lemma OverflowRun()
    ensures TxInv([], multiset{0}, OneQueued(), multiset{0, 1}, [Fill(64, 0)], Fill(128, 0), 64)
    ensures TxLive(OneQueued(), 0)
    ensures !Carries(Splice(Fill(128, 0), 0, Fill(65, 1)), QUEUED, 64, Fill(64, 0))
  {
    OneQueuedIsAccounted();
    hide TxInv, Fill, TxLive, Splice;
    assert Carries(Fill(128, 0), QUEUED, 64, Fill(64, 0)) by { QueuedIsCarried(); }
    NeighbourOverwritten(OneQueued(), [Fill(64, 0)], Fill(128, 0), 64, 0, Fill(65, 1), 0);
  }

  lemma QueuedIsCarried()
    ensures Carries(Fill(128, 0), QUEUED, 64, Fill(64, 0))
  {
    hide Fill;
    assert Bytes(Fill(128, 0), QUEUED) == Fill(64, 0);
  }
}

/** The packet buffer and its free-list allocator. */
module Umem {
  import opened Words
  import opened Bits
  import opened RingObjects
  import opened Frames

  class SliceUmem {
    const buffer: array<u8>
    const frameSize: u32
    const capacity: nat
    var availableFrames: seq<nat>

    ghost predicate Valid()
      reads this
    {
      frameSize > 0 && capacity == buffer.Length / frameSize
    }

    constructor (buffer: array<u8>, frameSize: u32)
      requires frameSize > 0
      ensures Valid() && this.buffer == buffer && this.frameSize == frameSize
      ensures availableFrames == AllFrames(buffer.Length / frameSize)
    {
      this.buffer, this.frameSize, this.capacity := buffer, frameSize, buffer.Length / frameSize;
      availableFrames := AllFrames(buffer.Length / frameSize);
    }

    function Available(): nat
      reads this
    {
      |availableFrames|
    }

    /** Pops a frame; its offset is the start of that frame. */
    method Reserve() returns (frame: Option<Frame>)
      requires Valid()
      modifies this
      ensures Valid()
      ensures frame.None? <==> old(availableFrames) == []
      ensures frame.None? ==> availableFrames == []
      ensures frame.Some? ==>
                && old(availableFrames) == availableFrames + [FrameOf(frame.value.offset, frameSize)]
                && multiset(old(availableFrames))
                   == multiset(availableFrames) + multiset{FrameOf(frame.value.offset, frameSize)}
                && |availableFrames| + 1 == |old(availableFrames)|
                && frame.value.offset % frameSize == 0
                && frame.value.len == 0
    {
      if |availableFrames| == 0 {
        return None;
      }
      var index := availableFrames[|availableFrames| - 1];
      PopLast(availableFrames);
      availableFrames := availableFrames[..|availableFrames| - 1];
      FrameStart(index, frameSize);
      frame := Some(Frame(index * frameSize, 0));
    }

    /** Pushes the frame an offset falls in; the offset need not be a frame start. */
    method Release(offset: nat)
      requires Valid()
      modifies this
      ensures Valid()
      ensures availableFrames == old(availableFrames) + [FrameOf(offset, frameSize)]
    {
      var index := offset / frameSize;
      availableFrames := availableFrames + [index];
    }
  }

  /** The frames of a buffer, each once. */
  function AllFrames(n: nat): seq<nat> {
    seq(n, i => i)
  }

  lemma {:induction false} AllFramesOnce(n: nat, f: nat)
    ensures multiset(AllFrames(n))[f] == if f < n then 1 else 0
  {
    if n > 0 {
      AllFramesOnce(n - 1, f);
      assert AllFrames(n) == AllFrames(n - 1) + [n - 1];
    }
  }

  /** The page-aligned allocation is the least multiple of the page size that holds every
      requested frame, so the allocator over it has at least that many. */
  lemma AllocationFits(frameSize: nat, frameCount: nat, pageShift: nat)
    requires pageShift <= USIZE_BITS && frameSize > 0
    requires frameCount * frameSize + (Pow2(pageShift) - 1) < Pow2(USIZE_BITS)
    ensures var size := AlignTo(USIZE_BITS, frameCount * frameSize, pageShift);
            && size % Pow2(pageShift) == 0
            && frameCount * frameSize <= size < frameCount * frameSize + Pow2(pageShift)
            && size / frameSize >= frameCount
  {
    AlignToLeast(USIZE_BITS, frameCount * frameSize, pageShift);
    DivAtLeast(AlignTo(USIZE_BITS, frameCount * frameSize, pageShift), frameSize, frameCount);
  }

  lemma DivAtLeast(x: nat, m: nat, q: nat)
    requires m > 0 && q * m <= x
    ensures x / m >= q
  {
    MultipleBig(m, q - x / m);
    assert x == m * (x / m) + x % m;
  }
}

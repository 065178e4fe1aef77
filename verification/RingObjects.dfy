/** The ring objects: shared memory, producer and consumer ends, and the four typed rings.
    Each operation is proved to perform the matching step of the FIFO it stands for. */
module RingObjects {
  import opened Words
  import opened Rings

  /** A UMEM frame handle: byte offset and length. */
  datatype Frame = Frame(offset: nat, len: nat)

  datatype XdpDesc = XdpDesc(addr: nat, len: u32, options: u32)

  /** The memory the kernel maps for one ring. `fifo` is the abstract queue it carries. */
  class RingMmap<T> {
    var producer: u32
    var consumer: u32
    const desc: array<T>
    ghost var fifo: Fifo<T>

    ghost function View(): Shared<T>
      reads this, desc
    {
      Shared(producer, consumer, desc[..])
    }

    ghost predicate Valid()
      reads this, desc
    {
      SharedRel(View(), fifo)
    }

    /** A ring as the kernel hands it out: empty, both cursors equal. */
    constructor (size: u32, cursor: u32, blank: T)
      requires PowerOfTwo(size)
      ensures Valid() && fresh(desc) && desc.Length == size
      ensures fifo.head == fifo.tail == |fifo.log| == fifo.read == fifo.seenHead == fifo.seenTail == cursor
    {
      producer, consumer := cursor, cursor;
      desc := new T[size](_ => blank);
      fifo := Fifo(seq(cursor, _ => blank), cursor, cursor, cursor, cursor, cursor);
    }
  }

  class RingProducer<T> {
    const mmap: RingMmap<T>
    const size: u32
    var cachedProducer: u32
    var cachedConsumer: u32

    ghost predicate Valid()
      reads this, mmap, mmap.desc
    {
      && mmap.Valid()
      && size == mmap.desc.Length
      && ProducerRel(End(cachedProducer, cachedConsumer), mmap.fifo)
    }

    constructor (mmap: RingMmap<T>, size: u32)
      requires mmap.Valid() && size == mmap.desc.Length
      requires mmap.fifo.head == |mmap.fifo.log|
      modifies mmap`fifo
      ensures Valid() && this.mmap == mmap && this.size == size
      ensures mmap.fifo == old(mmap.fifo).SeeTail()
    {
      this.mmap, this.size := mmap, size;
      cachedProducer, cachedConsumer := mmap.producer, mmap.consumer;
      new;
      mmap.fifo := mmap.fifo.SeeTail();
    }

    function Available(): (n: u32)
      requires Valid()
      reads this, mmap, mmap.desc
      ensures n == mmap.fifo.Room(size)
    {
      RoomRefines(mmap.View(), End(cachedProducer, cachedConsumer), mmap.fifo);
      SaturatingSub(size, WrappingSub(cachedProducer, cachedConsumer))
    }

    /** Claims the next position. The caller must store a descriptor there. */
    method Produce() returns (index: Option<u32>)
      requires Valid()
      modifies this`cachedProducer
      ensures index.Some? <==> old(mmap.fifo.Room(size)) > 0
      ensures index.None? ==> cachedProducer == old(cachedProducer)
      ensures index.Some? ==> index.value == old(cachedProducer) == |mmap.fifo.log| % U32_SPAN
      ensures index.Some? ==> cachedProducer == (|mmap.fifo.log| + 1) % U32_SPAN
    {
      if Available() == 0 {
        return None;
      }
      index := Some(cachedProducer);
      cachedProducer := WrappingAdd(cachedProducer, 1);
      WrapStep(|mmap.fifo.log|);
    }

    method Commit()
      requires Valid()
      modifies mmap
      ensures Valid() && mmap.fifo == old(mmap.fifo).Publish()
    {
      mmap.producer := cachedProducer;
      mmap.fifo := mmap.fifo.Publish();
    }

    method Sync(commit: bool)
      requires Valid()
      modifies this, mmap
      ensures Valid() && mmap.fifo == old(mmap.fifo).SyncProducer(commit)
    {
      if commit {
        Commit();
      }
      cachedConsumer := mmap.consumer;
      mmap.fifo := mmap.fifo.SeeTail();
    }
  }

  class RingConsumer<T> {
    const mmap: RingMmap<T>
    var cachedProducer: u32
    var cachedConsumer: u32

    ghost predicate Valid()
      reads this, mmap, mmap.desc
    {
      && mmap.Valid()
      && ConsumerRel(End(cachedProducer, cachedConsumer), mmap.fifo)
    }

    constructor (mmap: RingMmap<T>)
      requires mmap.Valid() && mmap.fifo.read == mmap.fifo.tail
      modifies mmap`fifo
      ensures Valid() && this.mmap == mmap
      ensures mmap.fifo == old(mmap.fifo).SeeHead()
    {
      this.mmap := mmap;
      cachedProducer, cachedConsumer := mmap.producer, mmap.consumer;
      new;
      mmap.fifo := mmap.fifo.SeeHead();
    }

    function Available(): (n: u32)
      requires Valid()
      reads this, mmap, mmap.desc
      ensures n == mmap.fifo.seenHead - mmap.fifo.read
    {
      SizeBound(mmap.desc.Length);
      WrapDistance(mmap.fifo.seenHead, mmap.fifo.read);
      WrappingSub(cachedProducer, cachedConsumer)
    }

    /** Advances past the next published position. The value there is still in its slot. */
    method Consume() returns (index: Option<u32>)
      requires Valid()
      modifies this, mmap`fifo
      ensures Valid()
      ensures index.Some? <==> old(mmap.fifo.read < mmap.fifo.seenHead)
      ensures index.None? ==> mmap.fifo == old(mmap.fifo)
      ensures index.Some? ==> index.value == old(mmap.fifo.read) % U32_SPAN
      ensures index.Some? ==> mmap.fifo == old(mmap.fifo).Take()
    {
      SizeBound(mmap.desc.Length);
      WrapDistance(mmap.fifo.seenHead, mmap.fifo.read);
      if cachedConsumer == cachedProducer {
        return None;
      }
      index := Some(cachedConsumer);
      WrapStep(mmap.fifo.read);
      cachedConsumer := WrappingAdd(cachedConsumer, 1);
      mmap.fifo := mmap.fifo.Take();
    }

    method Commit()
      requires Valid()
      modifies mmap
      ensures Valid() && mmap.fifo == old(mmap.fifo).Release()
    {
      mmap.consumer := cachedConsumer;
      mmap.fifo := mmap.fifo.Release();
    }

    method Sync(commit: bool)
      requires Valid()
      modifies this, mmap
      ensures Valid() && mmap.fifo == old(mmap.fifo).SyncConsumer(commit)
    {
      if commit {
        Commit();
      }
      cachedProducer := mmap.producer;
      mmap.fifo := mmap.fifo.SeeHead();
    }
  }

  /** Ring of transmit descriptors, written by its owner. */
  class TxRing {
    const mmap: RingMmap<XdpDesc>
    const producer: RingProducer<XdpDesc>
    const size: u32

    ghost predicate Valid()
      reads producer, mmap, mmap.desc
    {
      producer.mmap == mmap && producer.size == size && producer.Valid()
    }

    constructor (mmap: RingMmap<XdpDesc>, size: u32)
      requires mmap.Valid() && size == mmap.desc.Length
      requires mmap.fifo.head == |mmap.fifo.log|
      modifies mmap`fifo
      ensures Valid() && this.mmap == mmap && this.size == size && fresh(producer)
      ensures mmap.fifo == old(mmap.fifo).SeeTail()
    {
      var p := new RingProducer(mmap, size);
      this.producer, this.mmap, this.size := p, mmap, size;
    }

    function Capacity(): u32 {
      size
    }

    function Available(): (n: u32)
      requires Valid()
      reads producer, mmap, mmap.desc
      ensures n == mmap.fifo.Room(size)
    {
      producer.Available()
    }

    method Write(frame: Frame, options: u32) returns (ok: bool)
      requires Valid()
      modifies producer, mmap`fifo, mmap.desc
      ensures Valid() && ok == (old(mmap.fifo).Room(size) > 0)
      ensures mmap.fifo == if ok then old(mmap.fifo).Push(XdpDesc(frame.offset, frame.len % U32_SPAN, options))
                           else old(mmap.fifo)
    {
      var index := producer.Produce();
      if index.None? {
        return false;
      }
      SlotOfPosition(|mmap.fifo.log|, size);
      SlotInRange(index.value, size);
      var d := XdpDesc(frame.offset, frame.len % U32_SPAN, options);
      PushKeepsShared(mmap.View(), mmap.fifo, d);
      mmap.desc[SlotOf(index.value, size)] := d;
      mmap.fifo := mmap.fifo.Push(d);
      return true;
    }

    method Commit()
      requires Valid()
      modifies mmap
      ensures Valid() && mmap.fifo == old(mmap.fifo).Publish()
    {
      producer.Commit();
    }

    method Sync(commit: bool)
      requires Valid()
      modifies producer, mmap
      ensures Valid() && mmap.fifo == old(mmap.fifo).SyncProducer(commit)
    {
      producer.Sync(commit);
    }
  }

  /** Ring of frame offsets, written by its owner. */
  class RxFillRing {
    const mmap: RingMmap<nat>
    const producer: RingProducer<nat>
    const size: u32

    ghost predicate Valid()
      reads producer, mmap, mmap.desc
    {
      producer.mmap == mmap && producer.size == size && producer.Valid()
    }

    constructor (mmap: RingMmap<nat>, size: u32)
      requires mmap.Valid() && size == mmap.desc.Length
      requires mmap.fifo.head == |mmap.fifo.log|
      modifies mmap`fifo
      ensures Valid() && this.mmap == mmap && this.size == size && fresh(producer)
      ensures mmap.fifo == old(mmap.fifo).SeeTail()
    {
      var p := new RingProducer(mmap, size);
      this.producer, this.mmap, this.size := p, mmap, size;
    }

    function Available(): (n: u32)
      requires Valid()
      reads producer, mmap, mmap.desc
      ensures n == mmap.fifo.Room(size)
    {
      producer.Available()
    }

    method Write(frame: Frame) returns (ok: bool)
      requires Valid()
      modifies producer, mmap`fifo, mmap.desc
      ensures Valid() && ok == (old(mmap.fifo).Room(size) > 0)
      ensures mmap.fifo == if ok then old(mmap.fifo).Push(frame.offset) else old(mmap.fifo)
    {
      var index := producer.Produce();
      if index.None? {
        return false;
      }
      SlotOfPosition(|mmap.fifo.log|, size);
      SlotInRange(index.value, size);
      PushKeepsShared(mmap.View(), mmap.fifo, frame.offset);
      mmap.desc[SlotOf(index.value, size)] := frame.offset;
      mmap.fifo := mmap.fifo.Push(frame.offset);
      return true;
    }

    method Commit()
      requires Valid()
      modifies mmap
      ensures Valid() && mmap.fifo == old(mmap.fifo).Publish()
    {
      producer.Commit();
    }

    method Sync(commit: bool)
      requires Valid()
      modifies producer, mmap
      ensures Valid() && mmap.fifo == old(mmap.fifo).SyncProducer(commit)
    {
      producer.Sync(commit);
    }
  }

  /** Ring of descriptors, read by its owner. */
  class RxRing {
    const mmap: RingMmap<XdpDesc>
    const consumer: RingConsumer<XdpDesc>
    const size: u32

    ghost predicate Valid()
      reads consumer, mmap, mmap.desc
    {
      consumer.mmap == mmap && size == mmap.desc.Length && consumer.Valid()
    }

    constructor (mmap: RingMmap<XdpDesc>, size: u32)
      requires mmap.Valid() && size == mmap.desc.Length && mmap.fifo.read == mmap.fifo.tail
      modifies mmap`fifo
      ensures Valid() && this.mmap == mmap && this.size == size && fresh(consumer)
      ensures mmap.fifo == old(mmap.fifo).SeeHead()
    {
      var c := new RingConsumer(mmap);
      this.consumer, this.mmap, this.size := c, mmap, size;
    }

    method Read() returns (got: Option<XdpDesc>)
      requires Valid()
      modifies consumer, mmap`fifo
      ensures Valid()
      ensures var f := old(mmap.fifo);
              if f.read < f.seenHead then mmap.fifo == f.Take() && got == Some(f.log[f.read])
              else mmap.fifo == f && got == None
    {
      var index := consumer.Consume();
      if index.None? {
        return None;
      }
      SlotOfPosition(old(mmap.fifo).read, size);
      SlotInRange(index.value, size);
      got := Some(mmap.desc[SlotOf(index.value, size)]);
      assert old(mmap.View()).desc[old(mmap.fifo).read % size] == old(mmap.fifo).log[old(mmap.fifo).read];
    }

    method Commit()
      requires Valid()
      modifies mmap
      ensures Valid() && mmap.fifo == old(mmap.fifo).Release()
    {
      consumer.Commit();
    }

    method Sync(commit: bool)
      requires Valid()
      modifies consumer, mmap
      ensures Valid() && mmap.fifo == old(mmap.fifo).SyncConsumer(commit)
    {
      consumer.Sync(commit);
    }
  }

  /** Ring of frame offsets, read by its owner. */
  class TxCompletionRing {
    const mmap: RingMmap<nat>
    const consumer: RingConsumer<nat>
    const size: u32

    ghost predicate Valid()
      reads consumer, mmap, mmap.desc
    {
      consumer.mmap == mmap && size == mmap.desc.Length && consumer.Valid()
    }

    constructor (mmap: RingMmap<nat>, size: u32)
      requires mmap.Valid() && size == mmap.desc.Length && mmap.fifo.read == mmap.fifo.tail
      modifies mmap`fifo
      ensures Valid() && this.mmap == mmap && this.size == size && fresh(consumer)
      ensures mmap.fifo == old(mmap.fifo).SeeHead()
    {
      var c := new RingConsumer(mmap);
      this.consumer, this.mmap, this.size := c, mmap, size;
    }

    method Read() returns (got: Option<nat>)
      requires Valid()
      modifies consumer, mmap`fifo
      ensures Valid()
      ensures var f := old(mmap.fifo);
              if f.read < f.seenHead then mmap.fifo == f.Take() && got == Some(f.log[f.read])
              else mmap.fifo == f && got == None
    {
      var index := consumer.Consume();
      if index.None? {
        return None;
      }
      SlotOfPosition(old(mmap.fifo).read, size);
      SlotInRange(index.value, size);
      got := Some(mmap.desc[SlotOf(index.value, size)]);
      assert old(mmap.View()).desc[old(mmap.fifo).read % size] == old(mmap.fifo).log[old(mmap.fifo).read];
    }

    method Commit()
      requires Valid()
      modifies mmap
      ensures Valid() && mmap.fifo == old(mmap.fifo).Release()
    {
      consumer.Commit();
    }

    method Sync(commit: bool)
      requires Valid()
      modifies consumer, mmap
      ensures Valid() && mmap.fifo == old(mmap.fifo).SyncConsumer(commit)
    {
      consumer.Sync(commit);
    }
  }
}

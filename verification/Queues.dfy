/**
 The four queues as the repository codes them: src/umem/fill_queue.rs,
 src/socket/tx_queue.rs, src/socket/rx_queue.rs and src/umem/comp_queue.rs, over the
 ring handles of src/ring.rs.

 Each method is proved against the whole-call functions of module Ring, whose meaning as
 FIFO operations, and whose interleavings with the kernel, are established there. A
 descriptor count is cast to u32, so a slice of 2^32 or more descriptors is cut.
 */
module Queues {
  import opened Words
  import opened Frames
  import R = Ring

  /** The mapped memory of a ring. */
  class RingMem<T(0)> {
    const size: u32
    const slots: array<T>
    var producer: u32
    var consumer: u32

    ghost predicate Valid() {
      IsPowOfTwo(size) && slots.Length == size
    }

    ghost function View(): (m: R.Mem<T>)
      requires Valid()
      reads this, slots
      ensures R.Wf(m)
    {
      R.Mem(size, slots[..], producer, consumer)
    }

    constructor (size: u32)
      requires IsPowOfTwo(size)
      ensures Valid() && this.size == size && producer == consumer == 0 && fresh(slots)
    {
      this.size := size;
      this.slots := new T[size];
      this.producer, this.consumer := 0, 0;
    }
  }

  /** A producer handle: `xsk_ring_prod` with libxdp's operations on it. */
  class XskRingProd<T(0)> {
    const mem: RingMem<T>
    var cachedProd: u32
    var cachedCons: u32

    ghost function View(): R.Handle
      reads this
    {
      R.Handle(cachedProd, cachedCons)
    }

    constructor (mem: RingMem<T>)
      ensures this.mem == mem && View() == R.Handle(0, mem.size)
    {
      this.mem, this.cachedProd, this.cachedCons := mem, 0, mem.size;
    }

    method Reserve(nb: u32) returns (count: u32, idx: u32)
      requires mem.Valid()
      modifies this
      ensures R.Grant(View(), count, idx) == R.Reserve(old(mem.View()), old(View()), nb)
    {
      hide And, IsPowOfTwo, Wrap;
      if WrapSub(cachedCons, cachedProd) < nb {
        cachedCons := WrapAdd(mem.consumer, mem.size);
      }
      if WrapSub(cachedCons, cachedProd) < nb {
        return 0, 0;
      }
      count, idx := nb, cachedProd;
      cachedProd := WrapAdd(cachedProd, nb);
    }

    method Put(idx: u32, v: T)
      requires mem.Valid()
      modifies mem.slots
      ensures mem.slots[..] == R.PutSlot(mem.size, old(mem.slots[..]), idx, v)
    {
      mem.slots[R.SlotOf(mem.size, idx)] := v;
    }

    method Submit(nb: u32)
      requires mem.Valid()
      modifies mem`producer
      ensures mem.View() == R.Submit(old(mem.View()), nb)
    {
      hide And, IsPowOfTwo, Wrap;
      mem.producer := WrapAdd(mem.producer, nb);
    }
  }

  /** A consumer handle: `xsk_ring_cons` with libxdp's operations on it. */
  class XskRingCons<T(0)> {
    const mem: RingMem<T>
    var cachedProd: u32
    var cachedCons: u32

    ghost function View(): R.Handle
      reads this
    {
      R.Handle(cachedProd, cachedCons)
    }

    constructor (mem: RingMem<T>)
      ensures this.mem == mem && View() == R.Handle(0, 0)
    {
      this.mem, this.cachedProd, this.cachedCons := mem, 0, 0;
    }

    method Peek(nb: u32) returns (count: u32, idx: u32)
      requires mem.Valid()
      modifies this
      ensures R.Grant(View(), count, idx) == R.Peek(old(mem.View()), old(View()), nb)
    {
      hide And, IsPowOfTwo, Wrap;
      if WrapSub(cachedProd, cachedCons) == 0 {
        cachedProd := mem.producer;
      }
      count := WrapSub(cachedProd, cachedCons);
      if count > nb {
        count := nb;
      }
      idx := 0;
      if count > 0 {
        idx := cachedCons;
        cachedCons := WrapAdd(cachedCons, count);
      }
    }

    method Get(idx: u32) returns (v: T)
      requires mem.Valid()
      ensures v == R.GetSlot(mem.View(), idx)
    {
      v := mem.slots[R.SlotOf(mem.size, idx)];
    }

    method Release(nb: u32)
      requires mem.Valid()
      modifies mem`consumer
      ensures mem.View() == R.Release(old(mem.View()), nb)
    {
      hide And, IsPowOfTwo, Wrap;
      mem.consumer := WrapAdd(mem.consumer, nb);
    }
  }

  // ----- Producing -----

  function Cut(descs: seq<FrameDesc>): (r: seq<FrameDesc>)
    ensures |r| == |descs| % TWO32 && r <= descs
    ensures |descs| < TWO32 ==> r == descs
  {
    descs[..Wrap(|descs|)]
  }

  /** The addresses of descriptors, which is all a fill ring takes of them. */
  function FrameAddrs(descs: seq<FrameDesc>): (r: seq<usize>)
    ensures |r| == |descs|
    ensures forall i :: 0 <= i < |r| ==> r[i] == descs[i].addr
  {
    seq(|descs|, i requires 0 <= i < |descs| => descs[i].addr)
  }

  function TxEntries(descs: seq<FrameDesc>): (r: seq<XdpDesc>)
    ensures |r| == |descs|
    ensures forall i :: 0 <= i < |r| ==> r[i].addr == descs[i].addr && r[i].options == descs[i].options
    ensures forall i :: 0 <= i < |r| ==> r[i].len == descs[i].data % TWO32
  {
    seq(|descs|, i requires 0 <= i < |descs| => WriteXdpDesc(descs[i]))
  }

  class FillQueue {
    const ring: XskRingProd<usize>

    constructor (ring: XskRingProd<usize>)
      ensures this.ring == ring
    {
      this.ring := ring;
    }

    method Produce(descs: seq<FrameDesc>) returns (cnt: nat)
      requires ring.mem.Valid()
      modifies ring, ring.mem`producer, ring.mem.slots
      ensures R.Produced(ring.mem.View(), ring.View(), cnt)
           == R.Produce(old(ring.mem.View()), old(ring.View()), FrameAddrs(Cut(descs)))
    {
      hide And, IsPowOfTwo, Wrap;
      var nb := Wrap(|descs|);
      WrapBelow(|descs|);
      ghost var m, entries := ring.mem.View(), FrameAddrs(Cut(descs));
      if nb == 0 {
        return 0;
      }
      var count, start := ring.Reserve(nb);
      if count > 0 {
        var idx := start;
        WrapZero(start);
        for i := 0 to nb
          modifies ring.mem.slots
          invariant idx == WrapAdd(start, i)
          invariant ring.mem.slots[..] == R.PutAll(m.size, m.slots, start, entries[..i])
        {
          assert entries[..i + 1][..i] == entries[..i];
          ring.Put(idx, descs[i].addr);
          WrapStep(start, i);
          idx := WrapAdd(idx, 1);
        }
        assert entries[..nb] == entries;
        ring.Submit(count);
      }
      cnt := count;
    }

    method ProduceOne(desc: FrameDesc) returns (cnt: nat)
      requires ring.mem.Valid()
      modifies ring, ring.mem`producer, ring.mem.slots
      ensures R.Produced(ring.mem.View(), ring.View(), cnt)
           == R.Produce(old(ring.mem.View()), old(ring.View()), [desc.addr])
    {
      hide And, IsPowOfTwo, Wrap;
      ghost var m := ring.mem.View();
      var count, idx := ring.Reserve(1);
      if count > 0 {
        ring.Put(idx, desc.addr);
        R.PutOne(m.size, m.slots, idx, desc.addr);
        ring.Submit(count);
      }
      cnt := count;
    }
  }

  class TxQueue {
    const ring: XskRingProd<XdpDesc>

    constructor (ring: XskRingProd<XdpDesc>)
      ensures this.ring == ring
    {
      this.ring := ring;
    }

    method Produce(descs: seq<FrameDesc>) returns (cnt: nat)
      requires ring.mem.Valid()
      modifies ring, ring.mem`producer, ring.mem.slots
      ensures R.Produced(ring.mem.View(), ring.View(), cnt)
           == R.Produce(old(ring.mem.View()), old(ring.View()), TxEntries(Cut(descs)))
    {
      hide And, IsPowOfTwo, Wrap;
      var nb := Wrap(|descs|);
      WrapBelow(|descs|);
      ghost var m, entries := ring.mem.View(), TxEntries(Cut(descs));
      if nb == 0 {
        return 0;
      }
      var count, start := ring.Reserve(nb);
      if count > 0 {
        var idx := start;
        WrapZero(start);
        for i := 0 to nb
          modifies ring.mem.slots
          invariant idx == WrapAdd(start, i)
          invariant ring.mem.slots[..] == R.PutAll(m.size, m.slots, start, entries[..i])
        {
          assert entries[..i + 1][..i] == entries[..i];
          ring.Put(idx, WriteXdpDesc(descs[i]));
          WrapStep(start, i);
          idx := WrapAdd(idx, 1);
        }
        assert entries[..nb] == entries;
        ring.Submit(count);
      }
      cnt := count;
    }

    method ProduceOne(desc: FrameDesc) returns (cnt: nat)
      requires ring.mem.Valid()
      modifies ring, ring.mem`producer, ring.mem.slots
      ensures R.Produced(ring.mem.View(), ring.View(), cnt)
           == R.Produce(old(ring.mem.View()), old(ring.View()), [WriteXdpDesc(desc)])
    {
      hide And, IsPowOfTwo, Wrap;
      ghost var m := ring.mem.View();
      var count, idx := ring.Reserve(1);
      if count > 0 {
        ring.Put(idx, WriteXdpDesc(desc));
        R.PutOne(m.size, m.slots, idx, WriteXdpDesc(desc));
        ring.Submit(count);
      }
      cnt := count;
    }
  }

  // ----- Consuming -----

  class RxQueue {
    const ring: XskRingCons<XdpDesc>

    constructor (ring: XskRingCons<XdpDesc>)
      ensures this.ring == ring
    {
      this.ring := ring;
    }

    method Consume(descs: array<FrameDesc>) returns (cnt: nat)
      requires ring.mem.Valid()
      modifies ring, ring.mem`consumer, descs
      ensures var o := R.Consume(old(ring.mem.View()), old(ring.View()), Wrap(descs.Length));
              && ring.mem.View() == o.mem && ring.View() == o.handle
              && cnt == |o.entries| <= descs.Length
              && (forall i :: 0 <= i < cnt ==> descs[i] == FromRx(o.entries[i]))
              && (forall i :: 0 <= i < cnt ==>
                    && descs[i].addr == o.entries[i].addr && descs[i].options == o.entries[i].options
                    && descs[i].data == o.entries[i].len && descs[i].headroom == 0)
              && descs[cnt..] == old(descs[cnt..])
    {
      hide And, IsPowOfTwo, Wrap;
      var nb := Wrap(descs.Length);
      WrapBelow(descs.Length);
      ghost var m := ring.mem.View();
      if nb == 0 {
        return 0;
      }
      var count, start := ring.Peek(nb);
      assert count <= nb;
      if count > 0 {
        var idx := start;
        WrapZero(start);
        ghost var entries := R.GetAll(m, start, count);
        for i := 0 to count
          modifies descs
          invariant idx == WrapAdd(start, i)
          invariant ring.mem.slots[..] == m.slots
          invariant forall j :: 0 <= j < i ==> descs[j] == FromRx(entries[j])
          invariant forall j :: i <= j < descs.Length ==> descs[j] == old(descs[j])
        {
          var slot := ring.Get(idx);
          descs[i] := FrameDesc(slot.addr, slot.options, 0, slot.len);
          WrapStep(start, i);
          idx := WrapAdd(idx, 1);
        }
        ring.Release(count);
      }
      cnt := count;
    }

    method ConsumeOne(desc: FrameDesc) returns (cnt: nat, desc': FrameDesc)
      requires ring.mem.Valid()
      modifies ring, ring.mem`consumer
      ensures var o := R.Consume(old(ring.mem.View()), old(ring.View()), 1);
              && ring.mem.View() == o.mem && ring.View() == o.handle
              && cnt == |o.entries|
              && (cnt == 0 ==> desc' == desc)
              && (cnt > 0 ==> desc' == FromRx(o.entries[0]))
              && (cnt > 0 ==>
                    && desc'.addr == o.entries[0].addr && desc'.options == o.entries[0].options
                    && desc'.data == o.entries[0].len && desc'.headroom == 0)
    {
      hide And, IsPowOfTwo, Wrap;
      desc' := desc;
      var count, idx := ring.Peek(1);
      if count > 0 {
        WrapZero(idx);
        var slot := ring.Get(idx);
        desc' := FrameDesc(slot.addr, slot.options, 0, slot.len);
        ring.Release(count);
      }
      cnt := count;
    }
  }

  class CompQueue {
    const ring: XskRingCons<usize>

    constructor (ring: XskRingCons<usize>)
      ensures this.ring == ring
    {
      this.ring := ring;
    }

    method Consume(descs: array<FrameDesc>) returns (cnt: nat)
      requires ring.mem.Valid()
      modifies ring, ring.mem`consumer, descs
      ensures var o := R.Consume(old(ring.mem.View()), old(ring.View()), Wrap(descs.Length));
              && ring.mem.View() == o.mem && ring.View() == o.handle
              && cnt == |o.entries| <= descs.Length
              && (forall i :: 0 <= i < cnt ==> descs[i] == FromComp(o.entries[i]))
              && (forall i :: 0 <= i < cnt ==>
                    descs[i].addr == o.entries[i] && descs[i].options == 0 && descs[i].headroom == descs[i].data == 0)
              && descs[cnt..] == old(descs[cnt..])
    {
      hide And, IsPowOfTwo, Wrap;
      var nb := Wrap(descs.Length);
      WrapBelow(descs.Length);
      ghost var m := ring.mem.View();
      if nb == 0 {
        return 0;
      }
      var count, start := ring.Peek(nb);
      assert count <= nb;
      if count > 0 {
        var idx := start;
        WrapZero(start);
        ghost var entries := R.GetAll(m, start, count);
        for i := 0 to count
          modifies descs
          invariant idx == WrapAdd(start, i)
          invariant ring.mem.slots[..] == m.slots
          invariant forall j :: 0 <= j < i ==> descs[j] == FromComp(entries[j])
          invariant forall j :: i <= j < descs.Length ==> descs[j] == old(descs[j])
        {
          var addr := ring.Get(idx);
          descs[i] := FrameDesc(addr, 0, 0, 0);
          WrapStep(start, i);
          idx := WrapAdd(idx, 1);
        }
        ring.Release(count);
      }
      cnt := count;
    }

    method ConsumeOne(desc: FrameDesc) returns (cnt: nat, desc': FrameDesc)
      requires ring.mem.Valid()
      modifies ring, ring.mem`consumer
      ensures var o := R.Consume(old(ring.mem.View()), old(ring.View()), 1);
              && ring.mem.View() == o.mem && ring.View() == o.handle
              && cnt == |o.entries|
              && (cnt == 0 ==> desc' == desc)
              && (cnt > 0 ==> desc' == FromComp(o.entries[0]))
              && (cnt > 0 ==> desc'.addr == o.entries[0] && desc'.options == 0 && desc'.headroom == desc'.data == 0)
    {
      hide And, IsPowOfTwo, Wrap;
      desc' := desc;
      var count, idx := ring.Peek(1);
      if count > 0 {
        WrapZero(idx);
        var addr := ring.Get(idx);
        desc' := FrameDesc(addr, 0, 0, 0);
        ring.Release(count);
      }
      cnt := count;
    }
  }
}

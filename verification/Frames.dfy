/**
 Frame descriptors, frame layout and UMEM addresses: src/umem/frame/mod.rs,
 src/umem/mod.rs, src/config/umem.rs and src/config/mod.rs.
 */
module Frames {
  import opened Words

  const XDP_PACKET_HEADROOM: u32 := 256
  const XDP_UMEM_MIN_CHUNK_SIZE: u32 := 2048

  // ----- Descriptors -----

  /** A user-side handle on a frame: address of its data segment and how much of each segment is in use. */
  datatype FrameDesc = FrameDesc(addr: usize, options: u32, headroom: usize, data: usize)

  /** The kernel's descriptor, as it sits in a tx or rx ring slot. */
  datatype XdpDesc = XdpDesc(addr: usize, len: u32, options: u32)

  function NewDesc(addr: usize): FrameDesc {
    FrameDesc(addr, 0, 0, 0)
  }

  /** `write_xdp_desc`: the data length is cast to u32. */
  function WriteXdpDesc(d: FrameDesc): (x: XdpDesc)
    ensures x.addr == d.addr && x.options == d.options
    ensures x.len == d.data % TWO32
  {
    XdpDesc(d.addr, Wrap(d.data), d.options)
  }

  /** What `RxQueue::consume` leaves in a descriptor. */
  function FromRx(x: XdpDesc): (d: FrameDesc)
    ensures d.addr == x.addr && d.options == x.options && d.data == x.len && d.headroom == 0
  {
    FrameDesc(x.addr, x.options, 0, x.len)
  }

  /** What `CompQueue::consume` leaves in a descriptor. */
  function FromComp(addr: usize): (d: FrameDesc)
    ensures d.addr == addr && d.options == 0 && d.data == 0 && d.headroom == 0
  {
    FrameDesc(addr, 0, 0, 0)
  }

  /** A descriptor sent through a tx slot and read back as an rx slot keeps its data length exactly when that fits a u32. */
  lemma DescriptorRoundTrip(d: FrameDesc)
    ensures FromRx(WriteXdpDesc(d)) == d.(headroom := 0) <==> d.data < TWO32
  {
  }

  // ----- Configuration -----

  datatype FrameSizeError = FrameSizeError(size: u32)
  datatype ConfigBuildError = ConfigBuildError(frameSize: u32, totalHeadroom: u32)

  /** A frame is at least 2048 bytes. */
  function NewFrameSize(size: u32): (r: Result<u32, FrameSizeError>)
    ensures r.Ok? <==> size >= 2048
    ensures r.Ok? ==> r.value == size
    ensures r.Err? ==> r.error.size == size
  {
    if size < XDP_UMEM_MIN_CHUNK_SIZE then Err(FrameSizeError(size)) else Ok(size)
  }

  datatype Config = Config(frameSize: u32, fillSize: u32, compSize: u32, frameHeadroom: u32)

  /** `ConfigBuilder::build`: the headroom sum is a u32 sum. */
  function Build(c: Config): (r: Result<Config, ConfigBuildError>)
    ensures r.Ok? ==> r.value == c
    ensures r.Err? ==> r.error.frameSize == c.frameSize < r.error.totalHeadroom
    ensures r.Err? ==> r.error.totalHeadroom == (256 + c.frameHeadroom) % TWO32
  {
    var total := WrapAdd(XDP_PACKET_HEADROOM, c.frameHeadroom);
    if total > c.frameSize then Err(ConfigBuildError(c.frameSize, total)) else Ok(c)
  }

  function Mtu(c: Config): u32 {
    WrapSub(c.frameSize, WrapAdd(XDP_PACKET_HEADROOM, c.frameHeadroom))
  }

  // ----- Layout -----

  datatype FrameLayout = FrameLayout(xdpHeadroom: nat, frameHeadroom: nat, mtu: nat)

  function LayoutOf(c: Config): FrameLayout {
    FrameLayout(XDP_PACKET_HEADROOM, c.frameHeadroom, Mtu(c))
  }

  function FrameSize(l: FrameLayout): nat {
    l.xdpHeadroom + l.frameHeadroom + l.mtu
  }

  /** The headroom a configuration asks for, as a number rather than a u32. */
  function TotalHeadroom(c: Config): nat {
    XDP_PACKET_HEADROOM + c.frameHeadroom
  }

  /** The u32 sum of the headrooms loses 2^32 when it wraps, and is then tiny. */
  lemma HeadroomSum(c: Config)
    ensures WrapAdd(XDP_PACKET_HEADROOM, c.frameHeadroom) == if TotalHeadroom(c) < TWO32 then TotalHeadroom(c) else TotalHeadroom(c) - TWO32
    ensures TotalHeadroom(c) >= TWO32 ==> TotalHeadroom(c) - TWO32 < XDP_PACKET_HEADROOM
  {
  }

  /**
   `build` is meant to accept exactly the configurations whose headrooms fit the frame. For every frame size that
   `FrameSize::new` lets through, it decides rightly if and only if the headroom sum does not wrap; when the sum
   wraps it accepts although the headroom exceeds the frame.
   */
  lemma BuildIsRightIffUnwrapped(c: Config)
    requires NewFrameSize(c.frameSize).Ok?
    ensures (Build(c).Ok? <==> TotalHeadroom(c) <= c.frameSize) <==> TotalHeadroom(c) < TWO32
    ensures TotalHeadroom(c) >= TWO32 ==> Build(c).Ok? && TotalHeadroom(c) > c.frameSize
    ensures Build(c).Ok? <==> TotalHeadroom(c) <= c.frameSize || TotalHeadroom(c) >= TWO32
  {
    HeadroomSum(c);
  }

  lemma MtuExact(c: Config)
    requires Build(c).Ok?
    ensures Mtu(c) == if TotalHeadroom(c) < TWO32 then c.frameSize - TotalHeadroom(c) else c.frameSize - (TotalHeadroom(c) - TWO32)
  {
    HeadroomSum(c);
  }

  /** The layout of an accepted configuration has the configured frame size exactly when the headroom sum does not wrap. */
  lemma LayoutMatchesConfig(c: Config)
    requires Build(c).Ok?
    ensures FrameSize(LayoutOf(c)) == if TotalHeadroom(c) < TWO32 then c.frameSize else c.frameSize + TWO32
  {
    MtuExact(c);
  }

  /** A concrete accepted configuration whose headroom is far larger than its frame. */
  lemma WrappedHeadroomIsAccepted()
    ensures exists c: Config :: c.frameSize == 2048 && c.frameHeadroom == 0xFFFF_FF00 && Build(c).Ok?
                                && TotalHeadroom(c) > c.frameSize && FrameSize(LayoutOf(c)) != c.frameSize
  {
    var c := Config(2048, 4096, 2048, 0xFFFF_FF00);
    BuildIsRightIffUnwrapped(c);
    LayoutMatchesConfig(c);
    assert c.frameSize == 2048 && c.frameHeadroom == 0xFFFF_FF00 && Build(c).Ok?;
  }

  /** Where frame i begins when frames are laid end to end. */
  function Base(l: FrameLayout, i: nat): nat {
    if i == 0 then 0 else Base(l, i - 1) + FrameSize(l)
  }

  /** Where frame i's data begins. */
  function Addr(l: FrameLayout, i: nat): nat {
    Base(l, i) + l.xdpHeadroom + l.frameHeadroom
  }

  /** A UMEM of `frames` frames laid out as `l`. */
  datatype Umem = Umem(layout: FrameLayout, frames: nat)

  function RegionLen(u: Umem): nat {
    Base(u.layout, u.frames)
  }

  /** The layout's fields, one by one: 256 bytes for XDP programs, the user's headroom, and the rest for packets. */
  lemma LayoutFields(c: Config)
    requires Build(c).Ok? && TotalHeadroom(c) < TWO32
    ensures LayoutOf(c).xdpHeadroom == 256
    ensures LayoutOf(c).frameHeadroom == c.frameHeadroom
    ensures LayoutOf(c).mtu == c.frameSize - 256 - c.frameHeadroom
  {
    MtuExact(c);
  }

  /** The products the source computes for addresses and for the region length. */
  lemma {:induction false} BaseIsProduct(l: FrameLayout, i: nat)
    ensures Base(l, i) == i * FrameSize(l)
  {
    if i == 0 {
    } else {
      BaseIsProduct(l, i - 1);
      assert i * FrameSize(l) == (i - 1) * FrameSize(l) + FrameSize(l);
    }
  }

  /** The length `UmemRegion::new` maps. */
  lemma RegionLenIsProduct(u: Umem)
    ensures RegionLen(u) == u.frames * FrameSize(u.layout)
  {
    BaseIsProduct(u.layout, u.frames);
  }

  datatype Kind = Headroom | Data

  /** Where a segment begins: `headroom_ptr` and `data_ptr`. */
  function SegStart(l: FrameLayout, i: nat, k: Kind): nat {
    if k.Data? then Addr(l, i) else Addr(l, i) - l.frameHeadroom
  }

  function SegLen(l: FrameLayout, k: Kind): nat {
    if k.Data? then l.mtu else l.frameHeadroom
  }

  lemma {:induction false} FrameOrder(l: FrameLayout, i: nat, j: nat)
    requires i < j
    ensures Base(l, i) + FrameSize(l) <= Base(l, j)
    decreases j
  {
    if i + 1 < j {
      FrameOrder(l, i, j - 1);
    }
  }

  /**
   Where the segments of frame i are: the frame's XDP headroom, its headroom segment and its data segment follow
   each other and fill it.
   */
  lemma SegmentPlaces(l: FrameLayout, i: nat)
    ensures SegStart(l, i, Headroom) == i * FrameSize(l) + l.xdpHeadroom
    ensures SegStart(l, i, Data) == SegStart(l, i, Headroom) + SegLen(l, Headroom) && SegLen(l, Headroom) == l.frameHeadroom
    ensures SegStart(l, i, Data) + SegLen(l, Data) == Base(l, i) + FrameSize(l) && SegLen(l, Data) == l.mtu
  {
    BaseIsProduct(l, i);
  }

  /** Every segment lies in its own frame after the XDP headroom, and the frame in the region. */
  lemma SegmentInside(u: Umem, i: nat, k: Kind)
    requires i < u.frames
    ensures Base(u.layout, i) + u.layout.xdpHeadroom <= SegStart(u.layout, i, k)
    ensures SegStart(u.layout, i, k) + SegLen(u.layout, k) <= Base(u.layout, i) + FrameSize(u.layout) <= RegionLen(u)
  {
    FrameOrder(u.layout, i, u.frames);
  }

  /** Distinct segments never overlap. */
  lemma SegmentsDisjoint(l: FrameLayout, i: nat, k: Kind, j: nat, k': Kind)
    requires i != j || k != k'
    ensures || SegStart(l, i, k) + SegLen(l, k) <= SegStart(l, j, k')
            || SegStart(l, j, k') + SegLen(l, k') <= SegStart(l, i, k)
  {
    if i < j {
      FrameOrder(l, i, j);
    } else if j < i {
      FrameOrder(l, j, i);
    }
  }

  /** Distinct frames have distinct data addresses, in frame order, whatever the mtu. */
  lemma AddrInjective(l: FrameLayout, i: nat, j: nat)
    requires FrameSize(l) > 0 && i != j
    ensures Addr(l, i) != Addr(l, j)
  {
    if i < j {
      FrameOrder(l, i, j);
    } else {
      FrameOrder(l, j, i);
    }
  }

  /** The data segment of any frame of the UMEM, as every access to it needs. */
  lemma DataInside(u: Umem, i: nat)
    requires i < u.frames
    ensures Addr(u.layout, i) + u.layout.mtu <= RegionLen(u)
  {
    SegmentInside(u, i, Data);
  }

  /**
   For every accepted configuration whose headroom sum does not wrap and every u32 frame count, no usize
   address computation overflows: not the region length, not any frame's data address or its end, and the
   headroom subtraction never goes below the frame.
   */
  lemma NoAddressOverflow(c: Config, frames: u32, i: nat)
    requires Build(c).Ok? && TotalHeadroom(c) < TWO32
    requires i < frames
    ensures var l := LayoutOf(c);
            && FrameSize(l) == c.frameSize
            && RegionLen(Umem(l, frames)) < TWO64
            && l.frameHeadroom <= Addr(l, i)
            && Addr(l, i) + l.mtu <= RegionLen(Umem(l, frames))
  {
    var u := Umem(LayoutOf(c), frames);
    LayoutMatchesConfig(c);
    DataInside(u, i);
    BaseIsProduct(u.layout, frames);
    ProductBound(frames, c.frameSize);
  }

  lemma ProductBound(a: u32, b: u32)
    ensures a * b < TWO64
  {
    assert a * b <= a * 0xFFFF_FFFF by {
      MulMonotone(a, b, 0xFFFF_FFFF);
    }
  }

  lemma MulMonotone(a: nat, b: nat, c: nat)
    requires b <= c
    ensures a * b <= a * c
  {
  }

  /** Frames follow each other: one frame's data ends before the next frame's headroom begins. */
  lemma FramesInOrder(l: FrameLayout, i: nat, j: nat)
    requires i < j
    ensures Addr(l, i) + l.mtu <= Addr(l, j) - l.frameHeadroom
  {
    FrameOrder(l, i, j);
  }

  /** The data of frame i begins after i whole frames and both headrooms. */
  lemma AddrExact(c: Config, i: nat)
    requires Build(c).Ok? && TotalHeadroom(c) < TWO32
    ensures Addr(LayoutOf(c), i) == i * c.frameSize + 256 + c.frameHeadroom
  {
    LayoutFields(c);
    LayoutMatchesConfig(c);
    BaseIsProduct(LayoutOf(c), i);
  }

  /** The descriptor loop of `Umem::new`: one fresh descriptor per frame, in address order. */
  method InitialDescs(c: Config, frames: u32) returns (descs: seq<FrameDesc>)
    requires Build(c).Ok? && TotalHeadroom(c) < TWO32
    ensures |descs| == frames
    ensures forall i :: 0 <= i < frames ==> descs[i].addr == i * c.frameSize + 256 + c.frameHeadroom
    ensures forall i :: 0 <= i < frames ==> descs[i].addr == Addr(LayoutOf(c), i)
    ensures forall i :: 0 <= i < frames ==> descs[i].options == descs[i].headroom == descs[i].data == 0
    ensures forall i, j :: 0 <= i < j < frames ==> descs[i].addr + Mtu(c) <= descs[j].addr - c.frameHeadroom
  {
    var layout := LayoutOf(c);
    descs := [];
    for i := 0 to frames
      invariant |descs| == i
      invariant forall j :: 0 <= j < i ==> descs[j].addr == Addr(layout, j)
      invariant forall j :: 0 <= j < i ==> descs[j].options == descs[j].headroom == descs[j].data == 0
      invariant forall a, b :: 0 <= a < b < i ==> descs[a].addr + Mtu(c) <= descs[b].addr - c.frameHeadroom
    {
      NoAddressOverflow(c, frames, i);
      var addr := i * FrameSize(layout) + layout.xdpHeadroom + layout.frameHeadroom;
      BaseIsProduct(layout, i);
      forall a | 0 <= a < i ensures descs[a].addr + Mtu(c) <= addr - c.frameHeadroom {
        FramesInOrder(layout, a, i);
      }
      descs := descs + [NewDesc(addr)];
    }
    forall i: nat | i < frames ensures descs[i].addr == i * c.frameSize + 256 + c.frameHeadroom {
      AddrExact(c, i);
    }
  }
}

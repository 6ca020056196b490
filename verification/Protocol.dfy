/**
 The frame-ownership protocol of README.md:57-59 and src/lib.rs:24-28, run on the four
 AF_XDP rings, for any number of UMEMs ("hosts"), each with any number of sockets,
 fill/completion queue pairs and user-side holders.

 A host is a collection of places. A place is either a holder (a user thread, or the
 kernel working for one fill/completion pair) or a ring; a ring is the bounded FIFO that
 module Ring shows the real one to be. User moves are single-descriptor uses of the four
 queues; the user obeys the usage rule because it can only submit or write frames it
 holds. Kernel steps are nondeterministic: any enabled step may happen at any time. The
 kernel reads and writes packet bytes faithfully, at some moment while it holds the
 frame, and may drop packets. The user reads a frame it holds at any time, in a step of
 its own: other steps fall between a consume and the reads that follow it, and between a
 write and the produce that submits it.

 Tags and contents of items are history with no counterpart in memory.
 */
module Protocol {
  import opened Words
  import opened Frames
  import opened Region
  import opened Bags

  /** Whether the frame holds a packet on its way, or one the user has received and not yet given up. */
  datatype Tag = Idle | Carries(id: nat) | Got(id: nat)

  /** A frame as its holder or its ring slot describes it, and the bytes last put behind that description. */
  datatype Item = Item(desc: FrameDesc, tag: Tag, content: seq<byte>)

  /** `pair` names the (interface, queue) pair a ring or kernel holder works for. */
  datatype Role =
    | User
    | FillRing(pair: nat)
    | KernelRx(pair: nat)
    | RxRing(pair: nat)
    | TxRing(pair: nat)
    | KernelTx(pair: nat)
    | CompRing(pair: nat)
  {
    predicate IsRing() {
      FillRing? || RxRing? || TxRing? || CompRing?
    }
  }

  datatype Place = Place(role: Role, size: nat, items: seq<Item>)

  datatype Host = Host(umem: Umem, bytes: seq<byte>, places: seq<Place>)

  datatype Packet = Packet(id: nat, bytes: seq<byte>)

  /** The bytes in memory at every submission, by packet id; and the ids of the packets consumed from rx rings. */
  datatype History = History(sent: seq<seq<byte>>, delivered: seq<nat>)

  /** `received` is what each read of a received frame found in memory. */
  datatype World = World(hosts: seq<Host>, wire: seq<Packet>, log: History, received: seq<Packet>)

  // ----- Steps -----

  /** Who may hand a frame to whom: user, fill ring, kernel, rx ring, user; or user, tx ring, kernel, completion ring, user. */
  predicate Route(from: Role, to: Role) {
    match (from, to)
    case (User, FillRing(_)) => true
    case (FillRing(p), KernelRx(q)) => p == q
    case (KernelRx(p), RxRing(q)) => p == q
    case (RxRing(_), User) => true
    case (User, TxRing(_)) => true
    case (TxRing(p), KernelTx(q)) => p == q
    case (KernelTx(p), CompRing(q)) => p == q
    case (CompRing(_), User) => true
    case _ => false
  }

  datatype Step =
    /** Item i of place x is appended to place y: a produce, a consume, or the kernel's side of one. */
    | Move(x: nat, i: nat, y: nat)
    /** The user writes the headroom and data segments of a frame it holds and sets its descriptor. */
    | Write(x: nat, i: nat, b: seq<byte>, headroom: usize, data: usize, options: u32)
    /** The user looks at the contents of a frame it holds. */
    | Read(x: nat, i: nat)
    /** The kernel stores an incoming packet in a frame it holds for reception. */
    | Receive(x: nat, i: nat, pkt: Packet, options: u32)
    /** The kernel gives up on a packet it has stored. */
    | Discard(x: nat, i: nat)
    /** The kernel puts the bytes of a frame it holds for transmission on the wire. */
    | Transmit(x: nat, i: nat)

  predicate Enabled(h: Host, st: Step) {
    && st.x < |h.places|
    && st.i < |h.places[st.x].items|
    && var from := h.places[st.x];
       match st
       case Move(x, i, y) =>
         && y < |h.places|
         && Route(from.role, h.places[y].role)
         && (from.role.IsRing() ==> i == 0)
         && (h.places[y].role.IsRing() ==> |h.places[y].items| < h.places[y].size)
         && (h.places[y].role.RxRing? ==> from.items[i].tag.Carries?)
       case Write(x, i, b, headroom, data, options) =>
         && from.role.User?
         && |b| == h.umem.layout.frameHeadroom + h.umem.layout.mtu
         && headroom <= h.umem.layout.frameHeadroom && data <= h.umem.layout.mtu
       case Read(x, i) => from.role.User?
       case Receive(x, i, pkt, options) =>
         from.role.KernelRx? && from.items[i].tag.Idle? && |pkt.bytes| <= h.umem.layout.mtu < TWO32
       case Discard(x, i) => from.role.KernelRx?
       case Transmit(x, i) => from.role.KernelTx? && from.items[i].tag.Carries?
  }

  function Before(h: Host, st: Step): Item
    requires Enabled(h, st)
  {
    h.places[st.x].items[st.i]
  }

  /** The descriptor a hand-over leaves at its destination. */
  function Handed(from: Role, to: Role, d: FrameDesc): FrameDesc {
    if to.TxRing? || (to.User? && from.RxRing?) then FromRx(WriteXdpDesc(d))
    else if to.FillRing? || to.CompRing? || to.User? then FromComp(d.addr)
    else d
  }

  /** A hand-over keeps the contents unless the descriptor it leaves is blank. */
  predicate KeepsContent(from: Role, to: Role) {
    to.TxRing? || to.RxRing? || to.KernelRx? || to.KernelTx? || (to.User? && from.RxRing?)
  }

  /** The history tag after a hand-over; `id` is the tag of a packet being submitted. */
  function Retag(from: Role, to: Role, tag: Tag, id: nat): Tag {
    if to.TxRing? then Carries(id)
    else if to.User? && from.RxRing? && tag.Carries? then Got(tag.id)
    else if to.FillRing? || to.CompRing? || to.User? then Idle
    else tag
  }

  function HandedItem(from: Role, to: Role, it: Item, id: nat): Item {
    Item(Handed(from, to, it.desc), Retag(from, to, it.tag, id), if KeepsContent(from, to) then it.content else [])
  }

  /** What the step turns that item into. */
  function After(h: Host, st: Step, id: nat): Item
    requires Enabled(h, st)
  {
    var it := Before(h, st);
    match st
    case Move(x, i, y) => HandedItem(h.places[x].role, h.places[y].role, it, id)
    case Write(x, i, b, headroom, data, options) =>
      var at := h.umem.layout.frameHeadroom;
      Item(FrameDesc(it.desc.addr, options, headroom, data), Idle, b[at..at + data])
    case Read(x, i) => it
    case Receive(x, i, pkt, options) =>
      Item(FrameDesc(it.desc.addr, options, 0, |pkt.bytes|), Carries(pkt.id), pkt.bytes)
    case Discard(x, i) => it.(tag := Idle)
    case Transmit(x, i) => it.(tag := Idle)
  }

  /** Bytes laid over the region. */
  function Store(bytes: seq<byte>, at: int, b: seq<byte>): (r: seq<byte>)
    ensures |r| == |bytes|
  {
    if 0 <= at && at + |b| <= |bytes| then Splice(bytes, at, b) else bytes
  }

  function WithItems(ps: seq<Place>, x: nat, items: seq<Item>): (r: seq<Place>)
    requires x < |ps|
    ensures |r| == |ps|
  {
    ps[x := ps[x].(items := items)]
  }

  function Next(h: Host, st: Step, id: nat): Host
    requires Enabled(h, st)
  {
    var it, it' := Before(h, st), After(h, st, id);
    match st
    case Move(x, i, y) =>
      h.(places := WithItems(WithItems(h.places, x, Without(h.places[x].items, i)), y, h.places[y].items + [it']))
    case Write(x, i, b, headroom, data, options) =>
      Host(h.umem, Store(h.bytes, it.desc.addr - h.umem.layout.frameHeadroom, b),
           WithItems(h.places, x, h.places[x].items[i := it']))
    case Receive(x, i, pkt, options) =>
      Host(h.umem, Store(h.bytes, it.desc.addr, pkt.bytes), WithItems(h.places, x, h.places[x].items[i := it']))
    case _ =>
      h.(places := WithItems(h.places, st.x, h.places[st.x].items[st.i := it']))
  }

  /** A step of host n, or the loss of the packet at position n of the wire. */
  datatype Event = Act(n: nat, step: Step) | Lose(n: nat)

  predicate Submits(h: Host, st: Step)
    requires Enabled(h, st)
  {
    st.Move? && h.places[st.y].role.TxRing?
  }

  predicate Delivers(h: Host, st: Step)
    requires Enabled(h, st)
  {
    st.Move? && h.places[st.x].role.RxRing? && Before(h, st).tag.Carries?
  }

  predicate Reads(h: Host, st: Step)
    requires Enabled(h, st)
  {
    st.Read? && Before(h, st).tag.Got?
  }

  predicate EventEnabled(w: World, e: Event) {
    match e
    case Lose(n) => n < |w.wire|
    case Act(n, step) =>
      n < |w.hosts| && Enabled(w.hosts[n], step) && (step.Receive? ==> step.pkt in w.wire)
  }

  function Find(wire: seq<Packet>, pkt: Packet): (i: nat)
    requires pkt in wire
    ensures i < |wire| && wire[i] == pkt
  {
    if wire[0] == pkt then 0 else 1 + Find(wire[1..], pkt)
  }

  /** What memory holds behind the item a step is about. */
  function Seen(h: Host, st: Step): seq<byte>
    requires Enabled(h, st)
  {
    Contents(h.bytes, Before(h, st).desc)
  }

  function NextLog(log: History, h: Host, st: Step): History
    requires Enabled(h, st)
  {
    if Submits(h, st) then log.(sent := log.sent + [Seen(h, st)])
    else if Delivers(h, st) then log.(delivered := log.delivered + [Before(h, st).tag.id])
    else log
  }

  function NextWire(wire: seq<Packet>, h: Host, st: Step): seq<Packet>
    requires Enabled(h, st) && (st.Receive? ==> st.pkt in wire)
  {
    if st.Receive? then Without(wire, Find(wire, st.pkt))
    else if st.Transmit? then wire + [Packet(Before(h, st).tag.id, Seen(h, st))]
    else wire
  }

  function NextReceived(received: seq<Packet>, h: Host, st: Step): seq<Packet>
    requires Enabled(h, st)
  {
    if Reads(h, st) then received + [Packet(Before(h, st).tag.id, Seen(h, st))] else received
  }

  function NextWorld(w: World, e: Event): World
    requires EventEnabled(w, e)
  {
    match e
    case Lose(n) => w.(wire := Without(w.wire, n))
    case Act(n, st) =>
      var h := w.hosts[n];
      World(w.hosts[n := Next(h, st, |w.log.sent|)], NextWire(w.wire, h, st), NextLog(w.log, h, st),
            NextReceived(w.received, h, st))
  }

  predicate At(h: Host, x: nat, i: nat) {
    x < |h.places| && i < |h.places[x].items|
  }

  function ItemAt(h: Host, x: nat, i: nat): Item
    requires At(h, x, i)
  {
    h.places[x].items[i]
  }

  /** The state after a run, or None when some event was not enabled. */
  function Exec(w: World, es: seq<Event>): Option<World>
    decreases |es|
  {
    if es == [] then Some(w)
    else if EventEnabled(w, es[0]) then Exec(NextWorld(w, es[0]), es[1..])
    else None
  }
}

/**
 What every run of the protocol keeps: exclusive ownership and conservation of frames,
 lengths within their segments, and for every frame anywhere, memory that holds exactly
 the bytes last put there. From this follows end-to-end delivery.
 */
module Ownership {
  import opened Words
  import opened Frames
  import opened Region
  import opened Bags
  import opened Protocol

  // ----- Counting frames and packets -----

  /** What is counted: a frame by its address, a packet by its id. */
  datatype Key = Frame(addr: int) | Token(id: int)

  type Bag = multiset<Key>

  function ItemBag(it: Item): Bag {
    multiset{Frame(it.desc.addr)} + if it.tag.Carries? then multiset{Token(it.tag.id)} else multiset{}
  }

  function PlaceBag(p: Place): Bag {
    Sum(p.items, ItemBag)
  }

  /** Every frame once for each item that describes it, every packet once for each item that carries it. */
  function HostBag(h: Host): Bag {
    Sum(h.places, PlaceBag)
  }

  function PacketBag(p: Packet): Bag {
    multiset{Token(p.id)}
  }

  function IdBag(id: nat): Bag {
    multiset{Token(id)}
  }

  lemma ItemBagAt(it: Item, k: Key)
    ensures ItemBag(it)[k] ==
      match k
      case Frame(a) => if it.desc.addr == a then 1 else 0
      case Token(id) => if it.tag.Carries? && it.tag.id == id then 1 else 0
  {
  }

  lemma ItemsSwap(ps: seq<Place>, x: nat, items: seq<Item>, k: Key)
    requires x < |ps|
    ensures Sum(WithItems(ps, x, items), PlaceBag)[k] + Sum(ps[x].items, ItemBag)[k]
         == Sum(ps, PlaceBag)[k] + Sum(items, ItemBag)[k]
  {
    SumUpdate(ps, x, ps[x].(items := items), PlaceBag, k);
  }

  lemma MoveSwaps(h: Host, st: Step, id: nat, k: Key)
    requires Enabled(h, st) && st.Move?
    ensures HostBag(Next(h, st, id))[k] + ItemBag(Before(h, st))[k] == HostBag(h)[k] + ItemBag(After(h, st, id))[k]
  {
    var it' := After(h, st, id);
    var from := h.places[st.x].items;
    var ps := WithItems(h.places, st.x, Without(from, st.i));
    ItemsSwap(h.places, st.x, Without(from, st.i), k);
    SumWithout(from, st.i, ItemBag, k);
    assert ps[st.y] == h.places[st.y];
    ItemsSwap(ps, st.y, ps[st.y].items + [it'], k);
    SumAppend(ps[st.y].items, it', ItemBag, k);
  }

  lemma ChangeSwaps(h: Host, st: Step, id: nat, k: Key)
    requires Enabled(h, st) && !st.Move?
    ensures HostBag(Next(h, st, id))[k] + ItemBag(Before(h, st))[k] == HostBag(h)[k] + ItemBag(After(h, st, id))[k]
  {
    var items := h.places[st.x].items;
    ItemsSwap(h.places, st.x, items[st.i := After(h, st, id)], k);
    SumUpdate(items, st.i, After(h, st, id), ItemBag, k);
  }

  /** A step takes one item away and puts one back. */
  lemma StepSwapsOneItem(h: Host, st: Step, id: nat, k: Key)
    requires Enabled(h, st)
    ensures HostBag(Next(h, st, id))[k] + ItemBag(Before(h, st))[k] == HostBag(h)[k] + ItemBag(After(h, st, id))[k]
  {
    if st.Move? {
      MoveSwaps(h, st, id, k);
    } else {
      ChangeSwaps(h, st, id, k);
    }
  }

  // ----- What every step keeps -----

  ghost predicate FrameBelow(l: FrameLayout, n: nat, a: int) {
    exists f: nat :: f < n && Addr(l, f) == a
  }

  ghost predicate IsFrame(u: Umem, a: int) {
    FrameBelow(u.layout, u.frames, a)
  }

  /** How often a frame is described in a host. */
  function Described(h: Host, a: int): nat {
    HostBag(h)[Frame(a)]
  }

  /** Every frame of the UMEM is described exactly once and nothing else is described. */
  ghost predicate FramesOk(h: Host) {
    && FrameSize(h.umem.layout) > 0
    && h.umem.layout.mtu < TWO32
    && |h.bytes| == RegionLen(h.umem)
    && forall a :: Described(h, a) == if IsFrame(h.umem, a) then 1 else 0
  }

  /** A packet on record, with these bytes. */
  ghost predicate OnRecord(log: History, id: nat, bytes: seq<byte>) {
    id < |log.sent| && log.sent[id] == bytes
  }

  /**
   Lengths within the segments; memory holds what was last put behind the description; and if that is a packet,
   its bytes are the ones submitted.
   */
  ghost predicate ItemOk(l: FrameLayout, bytes: seq<byte>, log: History, it: Item) {
    && it.desc.data <= l.mtu && it.desc.headroom <= l.frameHeadroom
    && Contents(bytes, it.desc) == it.content
    && (!it.tag.Idle? ==> OnRecord(log, it.tag.id, it.content))
    && (it.tag.Got? ==> it.tag.id in log.delivered)
  }

  /** Packets on their way are with the kernel or in its tx and rx rings; received ones are with the user. */
  predicate TagOk(role: Role, it: Item) {
    match role
    case User => !it.tag.Carries?
    case FillRing(_) => it.tag.Idle?
    case CompRing(_) => it.tag.Idle?
    case RxRing(_) => it.tag.Carries?
    case _ => !it.tag.Got?
  }

  ghost predicate ItemsOk(h: Host, log: History) {
    forall x: nat, i: nat :: At(h, x, i) ==>
      ItemOk(h.umem.layout, h.bytes, log, ItemAt(h, x, i)) && TagOk(h.places[x].role, ItemAt(h, x, i))
  }

  ghost predicate HostOk(h: Host, log: History) {
    FramesOk(h) && ItemsOk(h, log)
  }

  lemma ItemCounts(h: Host, x: nat, i: nat)
    requires At(h, x, i)
    ensures PlaceBag(h.places[x])[Frame(ItemAt(h, x, i).desc.addr)] >= 1
  {
    SumMember(h.places[x].items, i, ItemBag, Frame(ItemAt(h, x, i).desc.addr));
  }

  lemma ItemIsFrame(h: Host, x: nat, i: nat)
    requires FramesOk(h) && At(h, x, i)
    ensures IsFrame(h.umem, ItemAt(h, x, i).desc.addr)
  {
    var a := ItemAt(h, x, i).desc.addr;
    ItemCounts(h, x, i);
    SumMember(h.places, x, PlaceBag, Frame(a));
    assert Described(h, a) >= 1;
  }

  lemma CountedTwice(h: Host, x: nat, i: nat, y: nat, j: nat)
    requires At(h, x, i) && At(h, y, j) && (x < y || (x == y && i < j))
    requires ItemAt(h, x, i).desc.addr == ItemAt(h, y, j).desc.addr
    ensures Described(h, ItemAt(h, x, i).desc.addr) >= 2
  {
    var k := Frame(ItemAt(h, x, i).desc.addr);
    if x == y {
      SumTwo(h.places[x].items, i, j, ItemBag, k);
      SumMember(h.places, x, PlaceBag, k);
    } else {
      ItemCounts(h, x, i);
      ItemCounts(h, y, j);
      SumTwo(h.places, x, y, PlaceBag, k);
    }
  }

  /** Exclusive ownership: no frame is described in two places, or twice in one. */
  lemma FramesDistinct(h: Host, x: nat, i: nat, y: nat, j: nat)
    requires FramesOk(h) && At(h, x, i) && At(h, y, j) && (x != y || i != j)
    ensures ItemAt(h, x, i).desc.addr != ItemAt(h, y, j).desc.addr
  {
    if ItemAt(h, x, i).desc.addr == ItemAt(h, y, j).desc.addr {
      if x < y || (x == y && i < j) {
        CountedTwice(h, x, i, y, j);
      } else {
        CountedTwice(h, y, j, x, i);
      }
    }
  }

  /** A write inside one frame's headroom and data segments is not seen through another frame. */
  lemma StoreElsewhere(u: Umem, bytes: seq<byte>, a: nat, at: int, b: seq<byte>, d: FrameDesc)
    requires |bytes| == RegionLen(u) && IsFrame(u, a) && IsFrame(u, d.addr) && a != d.addr
    requires a - u.layout.frameHeadroom <= at && at + |b| <= a + u.layout.mtu && d.data <= u.layout.mtu
    ensures Contents(Store(bytes, at, b), d) == Contents(bytes, d)
  {
    var f: nat :| f < u.frames && Addr(u.layout, f) == a;
    var g: nat :| g < u.frames && Addr(u.layout, g) == d.addr;
    if f < g {
      FramesInOrder(u.layout, f, g);
    } else {
      FramesInOrder(u.layout, g, f);
    }
    if 0 <= at && at + |b| <= |bytes| && d.addr + d.data <= |bytes| {
      SpliceOutside(bytes, at, b, d.addr, d.data);
    }
  }

  /** Bytes stored in a frame, from its headroom or its data on, are read back through its data. */
  lemma StoreHere(u: Umem, bytes: seq<byte>, a: nat, skip: nat, b: seq<byte>, data: nat)
    requires |bytes| == RegionLen(u) && IsFrame(u, a)
    requires skip <= u.layout.frameHeadroom && skip + data <= |b| <= skip + u.layout.mtu
    ensures 0 <= a - skip && a + data <= |bytes|
    ensures Store(bytes, a - skip, b)[a..a + data] == b[skip..skip + data]
  {
    var f: nat :| f < u.frames && Addr(u.layout, f) == a;
    DataInside(u, f);
    SpliceInside(bytes, a - skip, b, a, data);
  }

  /** Every item after a step is the changed one, or one that was in the same place all along. */
  lemma Origin(h: Host, st: Step, id: nat, x: nat, i: nat) returns (j: nat)
    requires Enabled(h, st) && At(Next(h, st, id), x, i)
    ensures (ItemAt(Next(h, st, id), x, i) == After(h, st, id) && x == (if st.Move? then st.y else st.x))
         || (At(h, x, j) && (x != st.x || j != st.i) && ItemAt(Next(h, st, id), x, i) == ItemAt(h, x, j))
    ensures x < |h.places| && Next(h, st, id).places[x].role == h.places[x].role
  {
    j := if st.Move? && x == st.x && i >= st.i then i + 1 else i;
  }

  lemma OtherFrame(h: Host, st: Step, x: nat, j: nat)
    requires FramesOk(h) && Enabled(h, st) && At(h, x, j) && (x != st.x || j != st.i)
    ensures IsFrame(h.umem, Before(h, st).desc.addr) && IsFrame(h.umem, ItemAt(h, x, j).desc.addr)
    ensures Before(h, st).desc.addr != ItemAt(h, x, j).desc.addr
  {
    ItemIsFrame(h, st.x, st.i);
    ItemIsFrame(h, x, j);
    FramesDistinct(h, st.x, st.i, x, j);
  }

  /** A step's bytes go to the frame it changes. */
  lemma OtherContents(h: Host, st: Step, id: nat, d: FrameDesc)
    requires FramesOk(h) && Enabled(h, st) && d.data <= h.umem.layout.mtu
    requires IsFrame(h.umem, Before(h, st).desc.addr) && IsFrame(h.umem, d.addr) && Before(h, st).desc.addr != d.addr
    ensures Contents(Next(h, st, id).bytes, d) == Contents(h.bytes, d)
  {
    var a := Before(h, st).desc.addr;
    if st.Write? {
      StoreElsewhere(h.umem, h.bytes, a, a - h.umem.layout.frameHeadroom, st.b, d);
    } else if st.Receive? {
      StoreElsewhere(h.umem, h.bytes, a, a, st.pkt.bytes, d);
    }
  }

  /** The bytes behind every other item survive a step. */
  lemma OtherItemKept(h: Host, st: Step, id: nat, log: History, x: nat, j: nat)
    requires HostOk(h, log) && Enabled(h, st) && At(h, x, j) && (x != st.x || j != st.i)
    ensures ItemOk(h.umem.layout, Next(h, st, id).bytes, log, ItemAt(h, x, j))
  {
    OtherFrame(h, st, x, j);
    OtherContents(h, st, id, ItemAt(h, x, j).desc);
  }

  /** What a step needs from outside the host: the packets it refers to are the ones on record. */
  ghost predicate Recorded(h: Host, st: Step, id: nat, log: History)
    requires Enabled(h, st)
  {
    && (Submits(h, st) ==> OnRecord(log, id, Seen(h, st)))
    && (Delivers(h, st) ==> Before(h, st).tag.id in log.delivered)
    && (st.Receive? ==> OnRecord(log, st.pkt.id, st.pkt.bytes))
  }

  /** A hand-over keeps the bytes behind a description, or makes it describe none. */
  lemma MovedItemOk(l: FrameLayout, bytes: seq<byte>, log: History, from: Role, to: Role, it: Item, id: nat)
    requires ItemOk(l, bytes, log, it) && TagOk(from, it) && l.mtu < TWO32
    requires Route(from, to) && (to.RxRing? ==> it.tag.Carries?)
    requires to.TxRing? ==> OnRecord(log, id, Contents(bytes, it.desc))
    requires from.RxRing? && it.tag.Carries? ==> it.tag.id in log.delivered
    ensures ItemOk(l, bytes, log, HandedItem(from, to, it, id)) && TagOk(to, HandedItem(from, to, it, id))
  {
    DescriptorRoundTrip(it.desc);
  }

  lemma WrittenItemOk(h: Host, st: Step, id: nat, log: History)
    requires HostOk(h, log) && Enabled(h, st) && st.Write?
    ensures ItemOk(h.umem.layout, Next(h, st, id).bytes, log, After(h, st, id))
  {
    ItemIsFrame(h, st.x, st.i);
    StoreHere(h.umem, h.bytes, Before(h, st).desc.addr, h.umem.layout.frameHeadroom, st.b, st.data);
  }

  lemma ReceivedItemOk(h: Host, st: Step, id: nat, log: History)
    requires HostOk(h, log) && Enabled(h, st) && Recorded(h, st, id, log) && st.Receive?
    ensures ItemOk(h.umem.layout, Next(h, st, id).bytes, log, After(h, st, id))
  {
    var b := st.pkt.bytes;
    ItemIsFrame(h, st.x, st.i);
    StoreHere(h.umem, h.bytes, Before(h, st).desc.addr, 0, b, |b|);
    assert b[0..|b|] == b;
  }

  lemma ChangedItemOk(h: Host, st: Step, id: nat, log: History)
    requires HostOk(h, log) && Enabled(h, st) && Recorded(h, st, id, log)
    ensures ItemOk(h.umem.layout, Next(h, st, id).bytes, log, After(h, st, id))
    ensures TagOk(h.places[if st.Move? then st.y else st.x].role, After(h, st, id))
  {
    var it := Before(h, st);
    assert At(h, st.x, st.i) && ItemAt(h, st.x, st.i) == it;
    if st.Move? {
      MovedItemOk(h.umem.layout, h.bytes, log, h.places[st.x].role, h.places[st.y].role, it, id);
    } else if st.Write? {
      WrittenItemOk(h, st, id, log);
    } else if st.Receive? {
      ReceivedItemOk(h, st, id, log);
    }
  }

  lemma AddrKept(h: Host, st: Step, id: nat)
    requires Enabled(h, st)
    ensures After(h, st, id).desc.addr == Before(h, st).desc.addr
  {
  }

  lemma DescribedKept(h: Host, st: Step, id: nat, a: int)
    requires Enabled(h, st)
    ensures Described(Next(h, st, id), a) == Described(h, a)
  {
    AddrKept(h, st, id);
    StepSwapsOneItem(h, st, id, Frame(a));
    ItemBagAt(Before(h, st), Frame(a));
    ItemBagAt(After(h, st, id), Frame(a));
  }

  lemma FramesKept(h: Host, st: Step, id: nat)
    requires FramesOk(h) && Enabled(h, st)
    ensures FramesOk(Next(h, st, id))
  {
    forall a ensures Described(Next(h, st, id), a) == if IsFrame(h.umem, a) then 1 else 0 {
      DescribedKept(h, st, id, a);
    }
  }

  /** Every step of the user or the kernel keeps exclusive ownership, conservation, and the bytes behind every description. */
  lemma StepKeepsHost(h: Host, st: Step, id: nat, log: History)
    requires HostOk(h, log) && Enabled(h, st) && Recorded(h, st, id, log)
    ensures HostOk(Next(h, st, id), log)
  {
    var h' := Next(h, st, id);
    FramesKept(h, st, id);
    ChangedItemOk(h, st, id, log);
    forall x: nat, i: nat | At(h', x, i)
      ensures ItemOk(h'.umem.layout, h'.bytes, log, ItemAt(h', x, i)) && TagOk(h'.places[x].role, ItemAt(h', x, i))
    {
      var j := Origin(h, st, id, x, i);
      if At(h, x, j) && (x != st.x || j != st.i) && ItemAt(h', x, i) == ItemAt(h, x, j) {
        OtherItemKept(h, st, id, log, x, j);
      }
    }
  }

  // ----- The whole world -----

  /** Where packets are: in frames, on the wire, or delivered. */
  function Copies(w: World, id: int): nat {
    Sum(w.hosts, HostBag)[Token(id)] + Sum(w.wire, PacketBag)[Token(id)] + Sum(w.log.delivered, IdBag)[Token(id)]
  }

  ghost predicate WireOk(w: World) {
    forall n :: 0 <= n < |w.wire| ==> OnRecord(w.log, w.wire[n].id, w.wire[n].bytes)
  }

  ghost predicate ReceivedOk(w: World) {
    forall r :: 0 <= r < |w.received| ==>
      OnRecord(w.log, w.received[r].id, w.received[r].bytes) && w.received[r].id in w.log.delivered
  }

  ghost predicate HostsOk(w: World) {
    forall n :: 0 <= n < |w.hosts| ==> HostOk(w.hosts[n], w.log)
  }

  ghost predicate WorldOk(w: World) {
    && HostsOk(w) && WireOk(w) && ReceivedOk(w)
    && forall id :: Copies(w, id) <= if 0 <= id < |w.log.sent| then 1 else 0
  }

  ghost predicate Extends(log: History, log': History) {
    log.sent <= log'.sent && log.delivered <= log'.delivered
  }

  /** More history leaves what is known of the earlier. */
  lemma HostOkGrows(h: Host, log: History, log': History)
    requires HostOk(h, log) && Extends(log, log')
    ensures HostOk(h, log')
  {
    forall x: nat, i: nat | At(h, x, i)
      ensures ItemOk(h.umem.layout, h.bytes, log', ItemAt(h, x, i)) && TagOk(h.places[x].role, ItemAt(h, x, i))
    {
      assert ItemOk(h.umem.layout, h.bytes, log, ItemAt(h, x, i));
    }
  }

  /** The copies of a packet an event newly makes: one when it submits it. */
  function NewCopies(w: World, e: Event, id: int): nat
    requires EventEnabled(w, e)
  {
    if e.Act? && Submits(w.hosts[e.n], e.step) && id == |w.log.sent| then 1 else 0
  }

  function Carried(it: Item, id: int): nat {
    if it.tag.Carries? && it.tag.id == id then 1 else 0
  }

  function Stored(st: Step, id: int): nat {
    if st.Receive? && st.pkt.id == id then 1 else 0
  }

  lemma HostTokens(hosts: seq<Host>, n: nat, st: Step, next: nat, id: int)
    requires n < |hosts| && Enabled(hosts[n], st)
    ensures Sum(hosts[n := Next(hosts[n], st, next)], HostBag)[Token(id)] + Carried(Before(hosts[n], st), id)
         == Sum(hosts, HostBag)[Token(id)] + Carried(After(hosts[n], st, next), id)
  {
    StepSwapsOneItem(hosts[n], st, next, Token(id));
    SumUpdate(hosts, n, Next(hosts[n], st, next), HostBag, Token(id));
    ItemBagAt(Before(hosts[n], st), Token(id));
    ItemBagAt(After(hosts[n], st, next), Token(id));
  }

  lemma WireTokens(wire: seq<Packet>, h: Host, st: Step, id: int)
    requires Enabled(h, st) && (st.Receive? ==> st.pkt in wire)
    ensures Sum(NextWire(wire, h, st), PacketBag)[Token(id)] + Stored(st, id)
         == Sum(wire, PacketBag)[Token(id)] + if st.Transmit? then Carried(Before(h, st), id) else 0
  {
    if st.Receive? {
      SumWithout(wire, Find(wire, st.pkt), PacketBag, Token(id));
    } else if st.Transmit? {
      SumAppend(wire, Packet(Before(h, st).tag.id, Seen(h, st)), PacketBag, Token(id));
    }
  }

  lemma DeliveredTokens(log: History, h: Host, st: Step, id: int)
    requires Enabled(h, st)
    ensures Sum(NextLog(log, h, st).delivered, IdBag)[Token(id)]
         == Sum(log.delivered, IdBag)[Token(id)] + if Delivers(h, st) then Carried(Before(h, st), id) else 0
  {
    if Delivers(h, st) {
      SumAppend(log.delivered, Before(h, st).tag.id, IdBag, Token(id));
    }
  }

  lemma TagsMove(w: World, n: nat, st: Step, id: int)
    requires EventEnabled(w, Act(n, st))
    ensures var h := w.hosts[n];
            var was := Carried(Before(h, st), id);
            Carried(After(h, st, |w.log.sent|), id) + (if st.Transmit? then was else 0) + (if Delivers(h, st) then was else 0)
            <= was + Stored(st, id) + NewCopies(w, Act(n, st), id)
  {
  }

  /** A packet moves from frame to wire to frame to user, or is lost; it is never copied. */
  lemma TokensMove(w: World, e: Event, id: int)
    requires EventEnabled(w, e)
    ensures Copies(NextWorld(w, e), id) <= Copies(w, id) + NewCopies(w, e, id)
  {
    match e
    case Lose(n) => SumWithout(w.wire, n, PacketBag, Token(id));
    case Act(n, st) =>
      HostTokens(w.hosts, n, st, |w.log.sent|, id);
      WireTokens(w.wire, w.hosts[n], st, id);
      DeliveredTokens(w.log, w.hosts[n], st, id);
      TagsMove(w, n, st, id);
  }

  lemma LogGrows(w: World, e: Event)
    requires EventEnabled(w, e)
    ensures Extends(w.log, NextWorld(w, e).log)
  {
  }

  lemma StepIsRecorded(w: World, n: nat, st: Step)
    requires WorldOk(w) && EventEnabled(w, Act(n, st))
    ensures Recorded(w.hosts[n], st, |w.log.sent|, NextWorld(w, Act(n, st)).log)
  {
  }

  lemma HostsKept(w: World, e: Event)
    requires WorldOk(w) && EventEnabled(w, e)
    ensures HostsOk(NextWorld(w, e))
  {
    var w' := NextWorld(w, e);
    LogGrows(w, e);
    forall m | 0 <= m < |w'.hosts| ensures HostOk(w'.hosts[m], w'.log) {
      HostOkGrows(w.hosts[m], w.log, w'.log);
      if e.Act? && m == e.n {
        StepIsRecorded(w, e.n, e.step);
        StepKeepsHost(w.hosts[m], e.step, |w.log.sent|, w'.log);
      }
    }
  }

  /** What a step sees in memory is the content of the item it is about. */
  lemma SeesContent(w: World, n: nat, st: Step)
    requires HostsOk(w) && EventEnabled(w, Act(n, st))
    ensures var it := Before(w.hosts[n], st);
            && Seen(w.hosts[n], st) == it.content
            && (!it.tag.Idle? ==> OnRecord(w.log, it.tag.id, it.content))
            && (it.tag.Got? ==> it.tag.id in w.log.delivered)
  {
    var h := w.hosts[n];
    assert HostOk(h, w.log) && At(h, st.x, st.i) && ItemAt(h, st.x, st.i) == Before(h, st);
  }

  lemma PacketsKept(w: World, e: Event)
    requires WorldOk(w) && EventEnabled(w, e)
    ensures WireOk(NextWorld(w, e)) && ReceivedOk(NextWorld(w, e))
  {
    LogGrows(w, e);
    if e.Act? {
      SeesContent(w, e.n, e.step);
    }
  }

  lemma EventKeeps(w: World, e: Event)
    requires WorldOk(w) && EventEnabled(w, e)
    ensures WorldOk(NextWorld(w, e))
  {
    PacketsKept(w, e);
    HostsKept(w, e);
    LogGrows(w, e);
    forall id ensures Copies(NextWorld(w, e), id) <= if 0 <= id < |NextWorld(w, e).log.sent| then 1 else 0 {
      TokensMove(w, e, id);
    }
  }

  lemma {:induction false} RunKeeps(w: World, es: seq<Event>)
    requires WorldOk(w) && Exec(w, es).Some?
    ensures WorldOk(Exec(w, es).value)
    decreases |es|
  {
    if es == [] {
    } else {
      EventKeeps(w, es[0]);
      RunKeeps(NextWorld(w, es[0]), es[1..]);
    }
  }

  // ----- The start -----

  /** A description of a frame nobody has used. */
  predicate Unused(it: Item) {
    it.tag.Idle? && it.desc.data == it.desc.headroom == 0 && it.content == []
  }

  /** A UMEM just created: its descriptors with the users, every ring and kernel holder empty, any bytes. */
  ghost predicate Fresh(h: Host) {
    && FramesOk(h)
    && forall x: nat, i: nat :: At(h, x, i) ==> h.places[x].role.User? && Unused(ItemAt(h, x, i))
  }

  ghost predicate Start(w: World) {
    w.wire == [] && w.log == History([], []) && w.received == [] && forall n :: 0 <= n < |w.hosts| ==> Fresh(w.hosts[n])
  }

  lemma TokenHolder(h: Host, id: int) returns (x: nat, i: nat)
    requires HostBag(h)[Token(id)] > 0
    ensures At(h, x, i) && ItemAt(h, x, i).tag.Carries? && ItemAt(h, x, i).tag.id == id
  {
    x := SumWitness(h.places, PlaceBag, Token(id));
    i := SumWitness(h.places[x].items, ItemBag, Token(id));
    ItemBagAt(ItemAt(h, x, i), Token(id));
  }

  lemma NoTokens(hs: seq<Host>, id: int)
    requires forall n :: 0 <= n < |hs| ==> Fresh(hs[n])
    ensures Sum(hs, HostBag)[Token(id)] == 0
  {
    if Sum(hs, HostBag)[Token(id)] > 0 {
      var n := SumWitness(hs, HostBag, Token(id));
      var x, i := TokenHolder(hs[n], id);
    }
  }

  /** The items a user starts with: one per frame, in the order of `Umem::new`. */
  function InitialItems(l: FrameLayout, n: nat): (r: seq<Item>)
    requires Base(l, n) < TWO64
    ensures |r| == n
    ensures forall i :: 0 <= i < n ==> r[i].desc.addr == Addr(l, i) && Unused(r[i])
  {
    if n == 0 then []
    else
      DataInside(Umem(l, n), n - 1);
      InitialItems(l, n - 1) + [Item(NewDesc(Addr(l, n - 1)), Idle, [])]
  }

  lemma NextFrame(l: FrameLayout, n: nat, a: int)
    requires FrameSize(l) > 0
    ensures FrameBelow(l, n + 1, a) <==> FrameBelow(l, n, a) || Addr(l, n) == a
    ensures FrameBelow(l, n, a) ==> Addr(l, n) != a
  {
    if f: nat :| f < n && Addr(l, f) == a {
      AddrInjective(l, f, n);
    }
  }

  lemma {:induction false} InitialCounts(l: FrameLayout, n: nat, a: int)
    requires Base(l, n) < TWO64 && FrameSize(l) > 0
    ensures Sum(InitialItems(l, n), ItemBag)[Frame(a)] == if FrameBelow(l, n, a) then 1 else 0
  {
    if n == 0 {
    } else {
      InitialCounts(l, n - 1, a);
      DataInside(Umem(l, n), n - 1);
      var it := Item(NewDesc(Addr(l, n - 1)), Idle, []);
      SumAppend(InitialItems(l, n - 1), it, ItemBag, Frame(a));
      ItemBagAt(it, Frame(a));
      NextFrame(l, n - 1, a);
    }
  }

  lemma EmptyPlaces(ps: seq<Place>, k: Key)
    requires forall x :: 0 <= x < |ps| ==> ps[x].items == []
    ensures Sum(ps, PlaceBag)[k] == 0
  {
    if Sum(ps, PlaceBag)[k] > 0 {
      var x := SumWitness(ps, PlaceBag, k);
    }
  }

  /** The descriptors `Umem::new` hands out, with any number of empty rings and holders beside them, are a proper start. */
  lemma NewUmemIsFresh(u: Umem, bytes: seq<byte>, size: nat, others: seq<Place>)
    requires FrameSize(u.layout) > 0 && u.layout.mtu < TWO32 && |bytes| == RegionLen(u) < TWO64
    requires forall x :: 0 <= x < |others| ==> others[x].items == []
    ensures Fresh(Host(u, bytes, [Place(User, size, InitialItems(u.layout, u.frames))] + others))
  {
    var first := Place(User, size, InitialItems(u.layout, u.frames));
    var h := Host(u, bytes, [first] + others);
    forall a ensures Described(h, a) == if IsFrame(u, a) then 1 else 0 {
      InitialCounts(u.layout, u.frames, a);
      EmptyPlaces(others, Frame(a));
      assert h.places[1..] == others;
    }
    forall x: nat, i: nat | At(h, x, i) ensures x == 0 {
    }
  }

  lemma FreshOk(h: Host)
    requires Fresh(h)
    ensures HostOk(h, History([], []))
  {
    forall x: nat, i: nat | At(h, x, i)
      ensures ItemOk(h.umem.layout, h.bytes, History([], []), ItemAt(h, x, i)) && TagOk(h.places[x].role, ItemAt(h, x, i))
    {
      assert Unused(ItemAt(h, x, i));
    }
  }

  lemma StartOk(w: World)
    requires Start(w)
    ensures WorldOk(w)
  {
    forall n | 0 <= n < |w.hosts| ensures HostOk(w.hosts[n], w.log) {
      FreshOk(w.hosts[n]);
    }
    forall id ensures Copies(w, id) == 0 {
      NoTokens(w.hosts, id);
    }
  }

  /** A state that a run from a proper start can reach. */
  ghost predicate Reachable(w: World) {
    exists start: World, es: seq<Event> :: Start(start) && Exec(start, es) == Some(w)
  }

  lemma ReachableOk(w: World)
    requires Reachable(w)
    ensures WorldOk(w)
  {
    var start, es :| Start(start) && Exec(start, es) == Some(w);
    StartOk(start);
    RunKeeps(start, es);
  }

  // ----- Theorems -----

  /** Two descriptions held anywhere in a host are of different frames. */
  ghost predicate Exclusive(h: Host) {
    forall x: nat, i: nat, y: nat, j: nat :: At(h, x, i) && At(h, y, j) && (x != y || i != j) ==>
      ItemAt(h, x, i).desc.addr != ItemAt(h, y, j).desc.addr
  }

  /** A frame is described somewhere. */
  ghost predicate Somewhere(h: Host, f: nat) {
    exists x: nat, i: nat :: At(h, x, i) && ItemAt(h, x, i).desc.addr == Addr(h.umem.layout, f)
  }

  /** Every description is of a frame of the host's UMEM, and every frame of the UMEM is described somewhere. */
  ghost predicate Complete(h: Host) {
    && (forall x: nat, i: nat :: At(h, x, i) ==> IsFrame(h.umem, ItemAt(h, x, i).desc.addr))
    && (forall f: nat :: f < h.umem.frames ==> Somewhere(h, f))
  }

  lemma HostIsExclusive(h: Host)
    requires FramesOk(h)
    ensures Exclusive(h)
  {
    forall x: nat, i: nat, y: nat, j: nat | At(h, x, i) && At(h, y, j) && (x != y || i != j)
      ensures ItemAt(h, x, i).desc.addr != ItemAt(h, y, j).desc.addr
    {
      FramesDistinct(h, x, i, y, j);
    }
  }

  lemma FrameSomewhere(h: Host, f: nat)
    requires FramesOk(h) && f < h.umem.frames
    ensures Somewhere(h, f)
  {
    var a := Addr(h.umem.layout, f);
    assert IsFrame(h.umem, a);
    assert Described(h, a) == 1;
    var x := SumWitness(h.places, PlaceBag, Frame(a));
    var i := SumWitness(h.places[x].items, ItemBag, Frame(a));
    ItemBagAt(h.places[x].items[i], Frame(a));
    assert At(h, x, i) && ItemAt(h, x, i).desc.addr == a;
  }

  lemma HostIsComplete(h: Host)
    requires FramesOk(h)
    ensures Complete(h)
  {
    forall x: nat, i: nat | At(h, x, i) ensures IsFrame(h.umem, ItemAt(h, x, i).desc.addr) {
      ItemIsFrame(h, x, i);
    }
    forall f: nat | f < h.umem.frames ensures Somewhere(h, f) {
      FrameSomewhere(h, f);
    }
  }

  /**
   Exclusive ownership and conservation: in every state reachable by user and kernel steps in any order, the
   places of a host together hold exactly the frames of its UMEM, each once.
   */
  lemma OwnershipInEveryRun(w: World, n: nat)
    requires Reachable(w) && n < |w.hosts|
    ensures Exclusive(w.hosts[n]) && Complete(w.hosts[n])
  {
    ReachableOk(w);
    assert HostOk(w.hosts[n], w.log);
    HostIsExclusive(w.hosts[n]);
    HostIsComplete(w.hosts[n]);
  }

  /**
   Lengths: in every reachable state every description stays within its segments, so slicing the contents is in
   range, and its data length passes through a ring's u32 unchanged.
   */
  lemma LengthsInEveryRun(w: World, n: nat, x: nat, i: nat)
    requires Reachable(w) && n < |w.hosts| && At(w.hosts[n], x, i)
    ensures var h := w.hosts[n];
            var d := ItemAt(h, x, i).desc;
            && d.data <= h.umem.layout.mtu && d.headroom <= h.umem.layout.frameHeadroom <= d.addr
            && d.addr + d.data <= |h.bytes|
            && FromRx(WriteXdpDesc(d)) == d.(headroom := 0)
  {
    ReachableOk(w);
    var h := w.hosts[n];
    assert HostOk(h, w.log);
    ItemIsFrame(h, x, i);
    var f: nat :| f < h.umem.frames && Addr(h.umem.layout, f) == ItemAt(h, x, i).desc.addr;
    DataInside(h.umem, f);
    DescriptorRoundTrip(ItemAt(h, x, i).desc);
  }

  /**
   End-to-end delivery: in every run, what each read of a received frame finds in memory, however long after the
   rx consume, is what memory held when some packet was submitted; each of those packets was delivered; and no
   packet was delivered twice.
   */
  lemma DeliveryInEveryRun(w: World)
    requires Reachable(w)
    ensures forall r :: 0 <= r < |w.received| ==>
              && w.received[r].id < |w.log.sent| && w.received[r].bytes == w.log.sent[w.received[r].id]
              && w.received[r].id in w.log.delivered
    ensures forall p, q :: 0 <= p < q < |w.log.delivered| ==> w.log.delivered[p] != w.log.delivered[q]
  {
    ReachableOk(w);
    forall p, q | 0 <= p < q < |w.log.delivered| ensures w.log.delivered[p] != w.log.delivered[q] {
      SumTwo(w.log.delivered, p, q, IdBag, Token(w.log.delivered[p]));
      assert Copies(w, w.log.delivered[p]) <= 1;
    }
    forall r | 0 <= r < |w.received|
      ensures OnRecord(w.log, w.received[r].id, w.received[r].bytes) && w.received[r].id in w.log.delivered
    {
    }
  }
}

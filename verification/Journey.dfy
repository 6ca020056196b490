/**
 A whole journey: two UMEMs just created, one socket on each, and a packet of any bytes that
 fit a frame. It is written, submitted, transmitted and completed on one side, received,
 consumed and read on the other, and every frame is back with its user at the end. So what
 the protocol allows is not too little to be of use.
 */
module Journey {
  import opened Words
  import opened Frames
  import opened Region
  import opened Bags
  import opened Protocol
  import opened Ownership
  import opened Delivery

  /** A user, and one place of each other role. */
  const ROLES: seq<Role> := [User, TxRing(0), KernelTx(0), CompRing(0), FillRing(0), KernelRx(0), RxRing(0)]

  /** The user has `mine`, place k has `there`, the other places are empty. */
  function Spots(mine: seq<Item>, k: nat, there: seq<Item>): (ps: seq<Place>)
    ensures |ps| == 7
  {
    seq(7, i requires 0 <= i < 7 => Place(ROLES[i], 1, if i == 0 then mine else if i == k then there else []))
  }

  /** A host with everything in the user's hands. */
  function Home(u: Umem, bytes: seq<byte>, mine: seq<Item>): Host {
    Host(u, bytes, Spots(mine, 1, []))
  }

  /** A host with one frame on its way. */
  function Away(u: Umem, bytes: seq<byte>, mine: seq<Item>, k: nat, it: Item): Host {
    Host(u, bytes, Spots(mine, k, [it]))
  }

  lemma SpotsChange(mine: seq<Item>, k: nat, there: seq<Item>, items: seq<Item>)
    requires 0 < k < 7
    ensures WithItems(Spots(mine, k, there), 0, items) == Spots(items, k, there)
    ensures WithItems(Spots(mine, k, there), k, items) == Spots(mine, k, items)
  {
  }

  lemma NothingThere(mine: seq<Item>, k: nat, l: nat)
    ensures Spots(mine, k, []) == Spots(mine, l, [])
  {
  }

  /** A step is about this item, and does or does not go on record. */
  ghost predicate About(h: Host, st: Step, it: Item, submits: bool, delivers: bool)
    requires Enabled(h, st)
  {
    Before(h, st) == it && (Submits(h, st) <==> submits) && (Delivers(h, st) <==> delivers)
  }

  lemma Leaves(u: Umem, bytes: seq<byte>, mine: seq<Item>, k: nat, id: nat)
    requires mine != [] && (k == 1 || k == 4)
    ensures var h, st := Home(u, bytes, mine), Move(0, 0, k);
      && Enabled(h, st) && About(h, st, mine[0], k == 1, false)
      && Next(h, st, id) == Away(u, bytes, mine[1..], k, HandedItem(User, ROLES[k], mine[0], id))
  {
    assert Without(mine, 0) == mine[1..];
    NothingThere(mine, 1, k);
    SpotsChange(mine, k, [], mine[1..]);
    var it := HandedItem(User, ROLES[k], mine[0], id);
    SpotsChange(mine[1..], k, [], [it]);
    assert Spots(mine, k, [])[k].items + [it] == [it];
    assert Home(u, bytes, mine) == Host(u, bytes, Spots(mine, k, []));
  }

  lemma Hops(u: Umem, bytes: seq<byte>, mine: seq<Item>, k: nat, it: Item, id: nat)
    requires k == 1 || k == 2 || k == 4 || (k == 5 && it.tag.Carries?)
    ensures var h, st := Away(u, bytes, mine, k, it), Move(k, 0, k + 1);
      && Enabled(h, st) && About(h, st, it, false, false)
      && Next(h, st, id) == Away(u, bytes, mine, k + 1, HandedItem(ROLES[k], ROLES[k + 1], it, id))
  {
    assert Without([it], 0) == [];
    SpotsChange(mine, k, [it], []);
    NothingThere(mine, k, k + 1);
    var it' := HandedItem(ROLES[k], ROLES[k + 1], it, id);
    SpotsChange(mine, k + 1, [], [it']);
    assert Spots(mine, k + 1, [])[k + 1].items + [it'] == [it'];
  }

  lemma Returns(u: Umem, bytes: seq<byte>, mine: seq<Item>, k: nat, it: Item, id: nat)
    requires k == 3 || (k == 6 && it.tag.Carries?)
    ensures var h, st := Away(u, bytes, mine, k, it), Move(k, 0, 0);
      && Enabled(h, st) && About(h, st, it, false, k == 6)
      && Next(h, st, id) == Home(u, bytes, mine + [HandedItem(ROLES[k], User, it, id)])
  {
    assert Without([it], 0) == [];
    SpotsChange(mine, k, [it], []);
    NothingThere(mine + [HandedItem(ROLES[k], User, it, id)], k, 1);
    SpotsChange(mine, k, [], mine + [HandedItem(ROLES[k], User, it, id)]);
  }

  /** The user's bytes for a frame: nothing in the headroom, then the packet, then anything. */
  function Filling(l: FrameLayout, p: seq<byte>): (b: seq<byte>)
    requires |p| <= l.mtu
    ensures |b| == l.frameHeadroom + l.mtu && b[l.frameHeadroom..l.frameHeadroom + |p|] == p
  {
    Zeroes(l.frameHeadroom) + p + Zeroes(l.mtu - |p|)
  }

  /** The user's write: packet p, with these options and this much of the headroom in use. */
  function Writing(l: FrameLayout, p: seq<byte>, options: u32, headroom: usize): Step
    requires |p| <= l.mtu < TWO32
  {
    Step.Write(0, 0, Filling(l, p), headroom, |p|, options)
  }

  lemma Writes(u: Umem, bytes: seq<byte>, mine: seq<Item>, p: seq<byte>, options: u32, headroom: usize, id: nat)
    returns (now: seq<byte>)
    requires mine != [] && |p| <= u.layout.mtu < TWO32 && headroom <= u.layout.frameHeadroom
    ensures var h, st := Home(u, bytes, mine), Writing(u.layout, p, options, headroom);
      && Enabled(h, st) && About(h, st, mine[0], false, false)
      && Next(h, st, id) == Home(u, now, [Item(FrameDesc(mine[0].desc.addr, options, headroom, |p|), Idle, p)] + mine[1..])
  {
    var it := Item(FrameDesc(mine[0].desc.addr, options, headroom, |p|), Idle, p);
    now := Next(Home(u, bytes, mine), Writing(u.layout, p, options, headroom), id).bytes;
    assert mine[0 := it] == [it] + mine[1..];
    SpotsChange(mine, 1, [], [it] + mine[1..]);
  }

  lemma Transmits(u: Umem, bytes: seq<byte>, mine: seq<Item>, it: Item, id: nat)
    requires it.tag.Carries?
    ensures var h, st := Away(u, bytes, mine, 2, it), Transmit(2, 0);
      && Enabled(h, st) && About(h, st, it, false, false)
      && Next(h, st, id) == Away(u, bytes, mine, 2, it.(tag := Idle))
  {
    assert [it][0 := it.(tag := Idle)] == [it.(tag := Idle)];
    SpotsChange(mine, 2, [it], [it.(tag := Idle)]);
  }

  lemma Receives(u: Umem, bytes: seq<byte>, mine: seq<Item>, it: Item, pkt: Packet, options: u32, id: nat) returns (now: seq<byte>)
    requires it.tag.Idle? && |pkt.bytes| <= u.layout.mtu < TWO32
    ensures var h, st := Away(u, bytes, mine, 5, it), Receive(5, 0, pkt, options);
      && Enabled(h, st) && About(h, st, it, false, false)
      && Next(h, st, id) == Away(u, now, mine, 5, Item(FrameDesc(it.desc.addr, options, 0, |pkt.bytes|), Carries(pkt.id), pkt.bytes))
  {
    var full := Item(FrameDesc(it.desc.addr, options, 0, |pkt.bytes|), Carries(pkt.id), pkt.bytes);
    now := Next(Away(u, bytes, mine, 5, it), Receive(5, 0, pkt, options), id).bytes;
    assert [it][0 := full] == [full];
    SpotsChange(mine, 5, [it], [full]);
  }

  lemma Looks(u: Umem, bytes: seq<byte>, mine: seq<Item>, i: nat, id: nat)
    requires i < |mine|
    ensures var h, st := Home(u, bytes, mine), Read(0, i);
      && Enabled(h, st) && About(h, st, mine[i], false, false)
      && Next(h, st, id) == h
  {
    assert mine[i := mine[i]] == mine;
    SpotsChange(mine, 1, [], mine);
  }

  // ----- The run, event by event -----

  /** One more event of host n: what it makes of the host, and what goes on the wire and on record. */
  lemma Then(start: World, es: seq<Event>, w: World, n: nat, st: Step, it: Item, submits: bool, delivers: bool, h: Host)
    returns (more: seq<Event>, w': World)
    requires Start(start) && Exec(start, es) == Some(w)
    requires EventEnabled(w, Act(n, st)) && About(w.hosts[n], st, it, submits, delivers)
    requires h == Next(w.hosts[n], st, |w.log.sent|)
    ensures Exec(start, more) == Some(w')
    ensures w' == World(
      w.hosts[n := h],
      if st.Receive? then Without(w.wire, Find(w.wire, st.pkt)) else if st.Transmit? then w.wire + [Packet(it.tag.id, it.content)] else w.wire,
      if submits then w.log.(sent := w.log.sent + [it.content])
      else if delivers then w.log.(delivered := w.log.delivered + [it.tag.id]) else w.log,
      if st.Read? && it.tag.Got? then w.received + [Packet(it.tag.id, it.content)] else w.received)
  {
    more, w' := es + [Act(n, st)], NextWorld(w, Act(n, st));
    ExecConcat(start, es, [Act(n, st)]);
    OneMore(w, Act(n, st));
    StartOk(start);
    RunKeeps(start, es);
    SeesContent(w, n, st);
  }

  /** Written and submitted. */
  lemma Submitting(start: World, u: Umem, bytes: seq<byte>, mine: seq<Item>, other: Host, p: seq<byte>, options: u32, headroom: usize)
    returns (es: seq<Event>, w: World, now: seq<byte>)
    requires Start(start) && start.hosts == [Home(u, bytes, mine), other]
    requires mine != [] && |p| <= u.layout.mtu < TWO32 && headroom <= u.layout.frameHeadroom
    ensures Exec(start, es) == Some(w)
    ensures w == World([Away(u, now, mine[1..], 1, Item(FrameDesc(mine[0].desc.addr, options, 0, |p|), Carries(0), p)), other],
                       [], History([p], []), [])
  {
    hide Next, Enabled, About, Spots, Filling, Exec, Start;
    var rest, a := mine[1..], mine[0].desc.addr;
    es, w := [], start;
    Begins(start);
    now := Writes(u, bytes, mine, p, options, headroom, 0);
    var full := Item(FrameDesc(a, options, headroom, |p|), Idle, p);
    assert ([full] + rest)[1..] == rest;
    es, w := Then(start, es, w, 0, Writing(u.layout, p, options, headroom), mine[0], false, false, Home(u, now, [full] + rest));
    Leaves(u, now, [full] + rest, 1, 0);
    es, w := Then(start, es, w, 0, Move(0, 0, 1), full, true, false, Away(u, now, rest, 1, Item(FrameDesc(a, options, 0, |p|), Carries(0), p)));
  }

  /** Taken by the kernel, transmitted, completed and returned. */
  lemma Transmitting(start: World, es0: seq<Event>, w0: World, u: Umem, bytes: seq<byte>, rest: seq<Item>, sent: Item, other: Host, p: seq<byte>)
    returns (es: seq<Event>, w: World)
    requires Start(start) && Exec(start, es0) == Some(w0)
    requires |p| < TWO32 && sent == Item(FrameDesc(sent.desc.addr, sent.desc.options, 0, |p|), Carries(0), p)
    requires w0 == World([Away(u, bytes, rest, 1, sent), other], [], History([p], []), [])
    ensures Exec(start, es) == Some(w)
    ensures w == World([Home(u, bytes, rest + [Item(FromComp(sent.desc.addr), Idle, [])]), other], [Packet(0, p)], History([p], []), [])
  {
    hide Next, Enabled, About, Spots, Exec, Start;
    es, w := es0, w0;
    Hops(u, bytes, rest, 1, sent, 1);
    es, w := Then(start, es, w, 0, Move(1, 0, 2), sent, false, false, Away(u, bytes, rest, 2, sent));
    Transmits(u, bytes, rest, sent, 1);
    var done := sent.(tag := Idle);
    es, w := Then(start, es, w, 0, Transmit(2, 0), sent, false, false, Away(u, bytes, rest, 2, done));
    Hops(u, bytes, rest, 2, done, 1);
    var it := Item(FromComp(sent.desc.addr), Idle, []);
    es, w := Then(start, es, w, 0, Move(2, 0, 3), done, false, false, Away(u, bytes, rest, 3, it));
    Returns(u, bytes, rest, 3, it, 1);
    es, w := Then(start, es, w, 0, Move(3, 0, 0), it, false, false, Home(u, bytes, rest + [it]));
  }

  /** Given to the kernel, which puts the packet in. */
  lemma Filled(start: World, es0: seq<Event>, w0: World, other: Host, u: Umem, bytes: seq<byte>, mine: seq<Item>, p: seq<byte>, options: u32)
    returns (es: seq<Event>, w: World, now: seq<byte>)
    requires Start(start) && Exec(start, es0) == Some(w0)
    requires w0 == World([other, Home(u, bytes, mine)], [Packet(0, p)], History([p], []), [])
    requires mine != [] && |p| <= u.layout.mtu < TWO32
    ensures Exec(start, es) == Some(w)
    ensures w == World([other, Away(u, now, mine[1..], 5, Item(FrameDesc(mine[0].desc.addr, options, 0, |p|), Carries(0), p))],
                       [], History([p], []), [])
  {
    hide Next, Enabled, About, Spots, Exec, Start;
    var rest, a := mine[1..], mine[0].desc.addr;
    es, w := es0, w0;
    Leaves(u, bytes, mine, 4, 1);
    var given := Item(FromComp(a), Idle, []);
    es, w := Then(start, es, w, 1, Move(0, 0, 4), mine[0], false, false, Away(u, bytes, rest, 4, given));
    Hops(u, bytes, rest, 4, given, 1);
    es, w := Then(start, es, w, 1, Move(4, 0, 5), given, false, false, Away(u, bytes, rest, 5, given));
    now := Receives(u, bytes, rest, given, Packet(0, p), options, 1);
    var full := Item(FrameDesc(a, options, 0, |p|), Carries(0), p);
    es, w := Then(start, es, w, 1, Receive(5, 0, Packet(0, p), options), given, false, false, Away(u, now, rest, 5, full));
  }

  /** Posted, consumed and read. */
  lemma Reading(start: World, es0: seq<Event>, w0: World, other: Host, u: Umem, bytes: seq<byte>, rest: seq<Item>, full: Item, p: seq<byte>)
    returns (es: seq<Event>, w: World)
    requires Start(start) && Exec(start, es0) == Some(w0)
    requires |p| < TWO32 && full == Item(FrameDesc(full.desc.addr, full.desc.options, 0, |p|), Carries(0), p)
    requires w0 == World([other, Away(u, bytes, rest, 5, full)], [], History([p], []), [])
    ensures Exec(start, es) == Some(w)
    ensures w == World([other, Home(u, bytes, rest + [full.(tag := Got(0))])], [], History([p], [0]), [Packet(0, p)])
  {
    hide Next, Enabled, About, Spots, Exec, Start;
    es, w := es0, w0;
    Hops(u, bytes, rest, 5, full, 1);
    es, w := Then(start, es, w, 1, Move(5, 0, 6), full, false, false, Away(u, bytes, rest, 6, full));
    Returns(u, bytes, rest, 6, full, 1);
    var it := full.(tag := Got(0));
    es, w := Then(start, es, w, 1, Move(6, 0, 0), full, false, true, Home(u, bytes, rest + [it]));
    Looks(u, bytes, rest + [it], |rest|, 1);
    es, w := Then(start, es, w, 1, Read(0, |rest|), it, false, false, Home(u, bytes, rest + [it]));
  }

  lemma Begins(start: World)
    requires Start(start)
    ensures Exec(start, []) == Some(start)
    ensures start == World(start.hosts, [], History([], []), [])
  {
  }

  /**
   For any two UMEMs just created, with a frame each, any packet that fits a frame of both, and whatever options the
   sender and the receiving kernel give it, there is a run in which the packet is read on the other side with those
   options, and at its end both users hold all their frames again.
   */
  lemma PacketGetsThrough(u: Umem, bytes: seq<byte>, v: Umem, bytes': seq<byte>, p: seq<byte>,
                          options: u32, headroom: usize, options': u32)
    returns (start: World, es: seq<Event>, w: World)
    requires FrameSize(u.layout) > 0 && u.layout.mtu < TWO32 && |bytes| == RegionLen(u) < TWO64 && u.frames > 0
    requires FrameSize(v.layout) > 0 && v.layout.mtu < TWO32 && |bytes'| == RegionLen(v) < TWO64 && v.frames > 0
    requires |p| <= u.layout.mtu && |p| <= v.layout.mtu && headroom <= u.layout.frameHeadroom
    ensures Start(start) && Exec(start, es) == Some(w)
    ensures w.received == [Packet(0, p)] && w.log == History([p], [0]) && w.wire == []
    ensures |w.hosts| == 2 && HasAll(w.hosts[0], u.frames) && HasAll(w.hosts[1], v.frames)
    ensures HasLast(w.hosts[0], Item(FromComp(Addr(u.layout, 0)), Idle, []))
    ensures HasLast(w.hosts[1], Item(FrameDesc(Addr(v.layout, 0), options', 0, |p|), Got(0), p))
  {
    var a, b := InitialItems(u.layout, u.frames), InitialItems(v.layout, v.frames);
    HomeIsFresh(u, bytes);
    HomeIsFresh(v, bytes');
    start := World([Home(u, bytes, a), Home(v, bytes', b)], [], History([], []), []);
    var now, full;
    es, w, now := Submitting(start, u, bytes, a, Home(v, bytes', b), p, options, headroom);
    full := Item(FrameDesc(a[0].desc.addr, options, 0, |p|), Carries(0), p);
    es, w := Transmitting(start, es, w, u, now, a[1..], full, Home(v, bytes', b), p);
    var other := w.hosts[0];
    es, w, now := Filled(start, es, w, other, v, bytes', b, p, options');
    full := Item(FrameDesc(b[0].desc.addr, options', 0, |p|), Carries(0), p);
    es, w := Reading(start, es, w, other, v, now, b[1..], full, p);
  }

  /** What the user got last. */
  predicate HasLast(h: Host, it: Item) {
    && |h.places| > 0 && |h.places[0].items| > 0
    && h.places[0].items[|h.places[0].items| - 1] == it
  }

  /** The wire may lose any packet, and the kernel may give up any it has stored: then nobody has it. */
  lemma PacketsMayBeLost(w: World, m: nat, n: nat, x: nat, i: nat, k: Key)
    requires m < |w.wire| && n < |w.hosts| && At(w.hosts[n], x, i) && w.hosts[n].places[x].role.KernelRx?
    ensures EventEnabled(w, Lose(m)) && |NextWorld(w, Lose(m)).wire| == |w.wire| - 1
    ensures EventEnabled(w, Act(n, Discard(x, i)))
    ensures ItemBag(After(w.hosts[n], Discard(x, i), 0))[k] == if k.Frame? then ItemBag(ItemAt(w.hosts[n], x, i))[k] else 0
  {
    ItemBagAt(ItemAt(w.hosts[n], x, i), k);
    ItemBagAt(After(w.hosts[n], Discard(x, i), 0), k);
  }

  /** The user holds this many frames. */
  predicate HasAll(h: Host, n: nat) {
    |h.places| > 0 && h.places[0].role.User? && |h.places[0].items| == n
  }

  lemma HomeIsFresh(u: Umem, bytes: seq<byte>)
    requires FrameSize(u.layout) > 0 && u.layout.mtu < TWO32 && |bytes| == RegionLen(u) < TWO64
    ensures Fresh(Home(u, bytes, InitialItems(u.layout, u.frames)))
  {
    var mine := InitialItems(u.layout, u.frames);
    var others := Spots(mine, 1, [])[1..];
    NewUmemIsFresh(u, bytes, 1, others);
    assert [Place(User, 1, mine)] + others == Spots(mine, 1, []);
  }
}

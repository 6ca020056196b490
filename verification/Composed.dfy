/**
 The protocol on real rings. Every ring of every host is the fine-grained machine of
 module Ring: slots, published and cached u32 indices, both sides in the middle of their
 calls. Whether a batch fits, how much a consumer finds and what it reads is decided by
 the machine alone. Frames change hands when a batch is submitted and when it is released;
 until then the producer still holds the descriptors it has lent to the call.

 Slots are given as the descriptors they decode to.
 */
module Composed {
  import opened Words
  import opened Frames
  import opened Protocol
  import opened Ownership
  import opened Delivery
  import opened Batches
  import R = Ring

  type Sys = R.Sys<FrameDesc>

  /** `rings[n][y]` is the ring at place y of host n; at holders it has no meaning. */
  datatype Net = Net(w: World, rings: seq<seq<Sys>>)

  datatype NetEvent =
    /** Anything the protocol has but a hand-over. */
    | Plain(e: Event)
    /** One access of one side of the ring at y; when it is a submit or a release, x is the holder and ps its slice. */
    | OnRing(n: nat, y: nat, access: R.Event<FrameDesc>, x: nat, ps: seq<nat>)

  predicate Shaped(net: Net) {
    && |net.rings| == |net.w.hosts|
    && forall n :: 0 <= n < |net.rings| ==> |net.rings[n]| == |net.w.hosts[n].places|
  }

  /** The holder's slice is what the call was given. */
  predicate Lent(h: Host, x: nat, ps: seq<nat>, y: nat, batch: seq<FrameDesc>)
    requires x < |h.places| && y < |h.places|
  {
    && Route(h.places[x].role, h.places[y].role)
    && CanPick(h.places[x].items, ps)
    && HandedAll(h.places[x].role, h.places[y].role, Descs(Picked(h.places[x].items, ps))) == batch
    && (h.places[y].role.RxRing? ==>
          forall i :: 0 <= i < |ps| ==> Picked(h.places[x].items, ps)[i].tag.Carries?)
  }

  predicate NetEnabled(net: Net, e: NetEvent)
    requires Shaped(net)
  {
    match e
    case Plain(pe) => EventEnabled(net.w, pe) && (pe.Act? ==> !pe.step.Move?)
    case OnRing(n, y, re, x, ps) =>
      && n < |net.rings| && y < |net.rings[n]| && x < |net.rings[n]|
      && var h := net.w.hosts[n];
         && h.places[y].role.IsRing()
         && R.Enabled(net.rings[n][y], re)
         && (re.SubmitBatch? ==> Lent(h, x, ps, y, net.rings[n][y].p.batch))
         && (re.ReleaseBatch? ==> Route(h.places[y].role, h.places[x].role))
  }

  /** What an event means in the protocol. */
  function Meaning(net: Net, e: NetEvent): seq<Event>
    requires Shaped(net) && NetEnabled(net, e)
  {
    match e
    case Plain(pe) => [pe]
    case OnRing(n, y, re, x, ps) =>
      if re.SubmitBatch? then Moves(n, x, ps, y)
      else if re.ReleaseBatch? then Moves(n, y, Zeros(net.rings[n][y].c.count), x)
      else []
  }

  function RingsAfter(net: Net, e: NetEvent): seq<seq<Sys>>
    requires Shaped(net) && NetEnabled(net, e)
  {
    match e
    case Plain(_) => net.rings
    case OnRing(n, y, re, x, ps) => net.rings[n := net.rings[n][y := R.Next(net.rings[n][y], re)]]
  }

  /** The rings move on by themselves; None if the protocol does not allow what they did. */
  function NetNext(net: Net, e: NetEvent): Option<Net>
    requires Shaped(net) && NetEnabled(net, e)
  {
    var r := Exec(net.w, Meaning(net, e));
    if r.Some? then Some(Net(r.value, RingsAfter(net, e))) else None
  }

  // ----- Coupling -----

  /** The machine holds the place's items, and is in a state the refinement of module Ring knows. */
  ghost predicate Matches(p: Place, s: Sys, v: R.View<FrameDesc>) {
    R.Inv(s, v) && v.taken <= |v.log| && Descs(p.items) == v.log[v.taken..] && p.size == s.mem.size
  }

  ghost predicate Coupled(p: Place, s: Sys) {
    p.role.IsRing() ==> exists v :: Matches(p, s, v)
  }

  ghost predicate HostCoupled(h: Host, rings: seq<Sys>) {
    |rings| == |h.places| && forall y :: 0 <= y < |rings| ==> Coupled(h.places[y], rings[y])
  }

  ghost predicate NetCoupled(net: Net) {
    Shaped(net) && forall n :: 0 <= n < |net.rings| ==> HostCoupled(net.w.hosts[n], net.rings[n])
  }

  /** A ring that accepts a submit has had room for it. */
  lemma SubmitFits(p: Place, s: Sys, v: R.View<FrameDesc>)
    requires Matches(p, s, v) && R.Enabled(s, R.SubmitBatch)
    ensures |p.items| + |s.p.batch| <= p.size
  {
    hide And, IsPowOfTwo, Wrap, Rem;
  }

  lemma SubmitMatches(p: Place, p': Place, s: Sys, v: R.View<FrameDesc>)
    requires Matches(p, s, v) && R.Enabled(s, R.SubmitBatch)
    requires p'.size == p.size && Descs(p'.items) == Descs(p.items) + s.p.batch
    ensures Matches(p', R.Next(s, R.SubmitBatch), R.NextView(s, v, R.SubmitBatch))
  {
    hide And, IsPowOfTwo, Wrap, Rem;
    R.StepRefines(s, v, R.SubmitBatch);
    assert v.log[v.taken..] + s.p.batch == (v.log + s.p.batch)[v.taken..];
  }

  /** What a release hands over is what was read, and that is the front of the place. */
  lemma ReleaseTakesFront(p: Place, s: Sys, v: R.View<FrameDesc>)
    requires Matches(p, s, v) && R.Enabled(s, R.ReleaseBatch)
    ensures s.c.count <= |p.items| && Descs(p.items[..s.c.count]) == s.c.got
  {
    hide And, IsPowOfTwo, Wrap, Rem;
    assert Descs(p.items[..s.c.count]) == Descs(p.items)[..s.c.count];
    assert v.log[v.taken..][..s.c.count] == v.log[v.taken..v.taken + s.c.count];
  }

  lemma ReleaseMatches(p: Place, p': Place, s: Sys, v: R.View<FrameDesc>)
    requires Matches(p, s, v) && R.Enabled(s, R.ReleaseBatch) && s.c.count <= |p.items|
    requires p'.size == p.size && p'.items == p.items[s.c.count..]
    ensures Matches(p', R.Next(s, R.ReleaseBatch), R.NextView(s, v, R.ReleaseBatch))
  {
    hide And, IsPowOfTwo, Wrap, Rem;
    R.StepRefines(s, v, R.ReleaseBatch);
    assert Descs(p.items[s.c.count..]) == Descs(p.items)[s.c.count..];
    assert v.log[v.taken..][s.c.count..] == v.log[v.taken + s.c.count..];
  }

  lemma InnerMatches(p: Place, s: Sys, v: R.View<FrameDesc>, e: R.Event<FrameDesc>)
    requires Matches(p, s, v) && R.Enabled(s, e) && !e.SubmitBatch? && !e.ReleaseBatch?
    ensures Matches(p, R.Next(s, e), R.NextView(s, v, e))
  {
    hide And, IsPowOfTwo, Wrap, Rem;
    R.StepRefines(s, v, e);
  }

  // ----- Steps -----

  /** Everything but one ring and the holder it deals with is as it was. */
  lemma OthersCoupled(h: Host, h': Host, rings: seq<Sys>, y: nat, x: nat, s: Sys)
    requires HostCoupled(h, rings) && y < |rings| && x < |rings| && !h.places[x].role.IsRing()
    requires OnlyItems(h, h', x, y) && Coupled(h'.places[y], s)
    ensures HostCoupled(h', rings[y := s])
  {
    var now := rings[y := s];
    forall z | 0 <= z < |now| ensures Coupled(h'.places[z], now[z]) {
      if z != y && z != x {
        assert h'.places[z] == h.places[z];
      }
    }
  }

  lemma PlainKeepsRings(h: Host, st: Step, id: nat, rings: seq<Sys>)
    requires Enabled(h, st) && !st.Move? && HostCoupled(h, rings)
    ensures HostCoupled(Next(h, st, id), rings)
  {
    var h' := Next(h, st, id);
    forall y | 0 <= y < |rings| ensures Coupled(h'.places[y], rings[y]) {
      assert y != st.x ==> h'.places[y] == h.places[y];
    }
  }

  lemma PlainAllowed(net: Net, e: NetEvent)
    requires NetCoupled(net) && NetEnabled(net, e) && e.Plain?
    ensures NetNext(net, e).Some? && NetCoupled(NetNext(net, e).value)
  {
    OneMore(net.w, e.e);
    if e.e.Act? {
      PlainKeepsRings(net.w.hosts[e.e.n], e.e.step, |net.w.log.sent|, net.rings[e.e.n]);
    }
  }

  lemma SubmitAllowed(net: Net, e: NetEvent)
    requires NetCoupled(net) && NetEnabled(net, e) && e.OnRing? && e.access.SubmitBatch?
    ensures NetNext(net, e).Some? && NetCoupled(NetNext(net, e).value)
  {
    hide And, IsPowOfTwo, Wrap, Rem, R.Inv, R.Next, Exec, Moves, Left, Picked;
    var n, y, x, ps := e.n, e.y, e.x, e.ps;
    var h, s := net.w.hosts[n], net.rings[n][y];
    assert Coupled(h.places[y], s);
    var v :| Matches(h.places[y], s, v);
    SubmitFits(h.places[y], s, v);
    BatchIsMoves(net.w, n, x, ps, y);
    var h' := Exec(net.w, Moves(n, x, ps, y)).value.hosts[n];
    SubmitMatches(h.places[y], h'.places[y], s, v);
    OthersCoupled(h, h', net.rings[n], y, x, R.Next(s, R.SubmitBatch));
  }

  lemma ReleaseAllowed(net: Net, e: NetEvent)
    requires NetCoupled(net) && NetEnabled(net, e) && e.OnRing? && e.access.ReleaseBatch?
    ensures NetNext(net, e).Some? && NetCoupled(NetNext(net, e).value)
    ensures var from, to := net.w.hosts[e.n].places[e.y], net.w.hosts[e.n].places[e.x];
            var now := NetNext(net, e).value.w.hosts[e.n].places[e.x];
            Descs(now.items) == Descs(to.items) + HandedAll(from.role, to.role, net.rings[e.n][e.y].c.got)
  {
    hide And, IsPowOfTwo, Wrap, Rem, R.Inv, R.Next, Exec, Moves, Left, Picked;
    var n, y, x := e.n, e.y, e.x;
    var h, s := net.w.hosts[n], net.rings[n][y];
    var k := s.c.count;
    assert Coupled(h.places[y], s);
    var v :| Matches(h.places[y], s, v);
    ReleaseTakesFront(h.places[y], s, v);
    PickFront(h.places[y].items, k);
    BatchIsMoves(net.w, n, y, Zeros(k), x);
    var h' := Exec(net.w, Moves(n, y, Zeros(k), x)).value.hosts[n];
    ReleaseMatches(h.places[y], h'.places[y], s, v);
    OthersCoupled(h, h', net.rings[n], y, x, R.Next(s, R.ReleaseBatch));
  }

  lemma InnerAllowed(net: Net, e: NetEvent)
    requires NetCoupled(net) && NetEnabled(net, e) && e.OnRing? && !e.access.SubmitBatch? && !e.access.ReleaseBatch?
    ensures NetNext(net, e).Some? && NetCoupled(NetNext(net, e).value)
  {
    var h, s := net.w.hosts[e.n], net.rings[e.n][e.y];
    assert Coupled(h.places[e.y], s);
    var v :| Matches(h.places[e.y], s, v);
    InnerMatches(h.places[e.y], s, v, e.access);
  }

  /** Whatever the rings do on their own indices and slots, the protocol allows, and the coupling holds on. */
  lemma StepAllowed(net: Net, e: NetEvent)
    requires NetCoupled(net) && NetEnabled(net, e)
    ensures NetNext(net, e).Some? && NetCoupled(NetNext(net, e).value)
  {
    match e
    case Plain(_) => PlainAllowed(net, e);
    case OnRing(_, _, re, _, _) =>
      if re.SubmitBatch? {
        SubmitAllowed(net, e);
      } else if re.ReleaseBatch? {
        ReleaseAllowed(net, e);
      } else {
        InnerAllowed(net, e);
      }
  }

  // ----- Runs -----

  /** A run of the net: None when an event was not enabled, or when the protocol did not allow what a ring did. */
  function NetExec(net: Net, es: seq<NetEvent>): Option<Net>
    decreases |es|
  {
    if es == [] then Some(net)
    else if Shaped(net) && NetEnabled(net, es[0]) && NetNext(net, es[0]).Some? then NetExec(NetNext(net, es[0]).value, es[1..])
    else None
  }

  ghost predicate FreshRing(p: Place, s: Sys) {
    p.role.IsRing() ==>
      IsPowOfTwo(s.mem.size) && |s.mem.slots| == s.mem.size == p.size && s == R.Init(s.mem.size, s.mem.slots)
  }

  ghost predicate NetStart(net: Net) {
    && Shaped(net) && Start(net.w)
    && forall n, y :: 0 <= n < |net.rings| && 0 <= y < |net.rings[n]| ==> FreshRing(net.w.hosts[n].places[y], net.rings[n][y])
  }

  lemma StartCoupled(net: Net)
    requires NetStart(net)
    ensures NetCoupled(net)
  {
    forall n, y | 0 <= n < |net.rings| && 0 <= y < |net.rings[n]| ensures Coupled(net.w.hosts[n].places[y], net.rings[n][y]) {
      var h, p, s := net.w.hosts[n], net.w.hosts[n].places[y], net.rings[n][y];
      assert FreshRing(p, s) && Fresh(h);
      if p.role.IsRing() {
        R.InitInv(s.mem.size, s.mem.slots);
        assert !At(h, y, 0);
        assert Matches(p, s, R.View([], 0, 0, 0));
      }
    }
  }

  /** Every run of the net is a run of the protocol. */
  lemma {:induction false} RunIsProtocolRun(net: Net, es: seq<NetEvent>)
    requires NetCoupled(net) && Reachable(net.w) && NetExec(net, es).Some?
    ensures NetCoupled(NetExec(net, es).value) && Reachable(NetExec(net, es).value.w)
    decreases |es|
  {
    if es == [] {
    } else {
      StepAllowed(net, es[0]);
      StaysReachable(net.w, Meaning(net, es[0]));
      RunIsProtocolRun(NetNext(net, es[0]).value, es[1..]);
    }
  }

  // ----- What the memory of the rings says -----

  /** The entries between a ring's published indices, read slot by slot. */
  function Occupied(s: Sys): seq<FrameDesc>
    requires R.Wf(s.mem)
  {
    R.GetAll(s.mem, s.mem.consumer, WrapSub(s.mem.producer, s.mem.consumer))
  }

  lemma OccupiedIsPlace(p: Place, s: Sys, v: R.View<FrameDesc>)
    requires Matches(p, s, v)
    ensures R.Wf(s.mem) && Occupied(s) == Descs(p.items)
  {
    hide And, IsPowOfTwo, Wrap, Rem, R.GetSlot;
    R.InvMeaning(s, v);
    var k := |v.log| - v.taken;
    forall i | 0 <= i < k ensures R.GetSlot(s.mem, WrapAdd(s.mem.consumer, i)) == v.log[v.taken + i] {
      WrapAddExact(v.taken, i);
    }
  }

  /** The descriptors at a place: a holder's own, or a ring's as they lie in its slots. */
  ghost function DescsAt(net: Net, n: nat, x: nat): seq<FrameDesc>
    requires Shaped(net) && n < |net.rings|
  {
    if x >= |net.rings[n]| then []
    else if !net.w.hosts[n].places[x].role.IsRing() then Descs(net.w.hosts[n].places[x].items)
    else if R.Wf(net.rings[n][x].mem) then Occupied(net.rings[n][x])
    else []
  }

  lemma DescsAtPlace(net: Net, n: nat, x: nat)
    requires NetCoupled(net) && n < |net.rings|
    ensures DescsAt(net, n, x) == if x < |net.rings[n]| then Descs(net.w.hosts[n].places[x].items) else []
  {
    if x < |net.rings[n]| {
      var p, s := net.w.hosts[n].places[x], net.rings[n][x];
      assert HostCoupled(net.w.hosts[n], net.rings[n]);
      assert Coupled(p, s);
      if p.role.IsRing() {
        var v :| Matches(p, s, v);
        OccupiedIsPlace(p, s, v);
      }
    }
  }

  /** The i-th descriptor at place x is of the frame at address a. */
  ghost predicate LiesAt(net: Net, n: nat, x: nat, i: nat, a: usize)
    requires Shaped(net) && n < |net.rings|
  {
    i < |DescsAt(net, n, x)| && DescsAt(net, n, x)[i].addr == a
  }

  ghost predicate Lies(net: Net, n: nat, f: nat)
    requires Shaped(net) && n < |net.rings|
  {
    var a := Addr(net.w.hosts[n].umem.layout, f);
    a < TWO64 && exists x: nat, i: nat :: LiesAt(net, n, x, i, a)
  }

  /** No two descriptors, in hands or in slots, are of one frame. */
  ghost predicate NoFrameTwice(net: Net, n: nat)
    requires Shaped(net) && n < |net.rings|
  {
    forall x: nat, i: nat, y: nat, j: nat, a: usize :: LiesAt(net, n, x, i, a) && LiesAt(net, n, y, j, a) ==> x == y && i == j
  }

  lemma FrameLies(net: Net, n: nat, f: nat)
    requires NetCoupled(net) && n < |net.rings| && Complete(net.w.hosts[n]) && f < net.w.hosts[n].umem.frames
    ensures Lies(net, n, f)
  {
    var h := net.w.hosts[n];
    assert Somewhere(h, f);
    var x: nat, i: nat :| At(h, x, i) && ItemAt(h, x, i).desc.addr == Addr(h.umem.layout, f);
    DescsAtPlace(net, n, x);
    assert LiesAt(net, n, x, i, Addr(h.umem.layout, f));
  }

  lemma ExclusiveInSlots(net: Net, n: nat)
    requires NetCoupled(net) && n < |net.rings| && Exclusive(net.w.hosts[n])
    ensures NoFrameTwice(net, n)
  {
    var h := net.w.hosts[n];
    forall x: nat, i: nat, y: nat, j: nat, a: usize | LiesAt(net, n, x, i, a) && LiesAt(net, n, y, j, a) ensures x == y && i == j {
      DescsAtPlace(net, n, x);
      DescsAtPlace(net, n, y);
      assert At(h, x, i) && At(h, y, j);
      assert ItemAt(h, x, i).desc.addr == ItemAt(h, y, j).desc.addr;
    }
  }

  lemma StartReachable(w: World)
    requires Start(w)
    ensures Reachable(w)
  {
    assert Exec(w, []) == Some(w);
  }

  /**
   Ownership on real rings: in every state of every run of the net, with every ring possibly in the middle of
   calls on both sides, the descriptors held by users and kernel and those lying in the occupied slots of the
   rings are of pairwise different frames, and every frame of the UMEM is among them.
   */
  lemma OwnershipOnRealRings(net: Net, es: seq<NetEvent>, n: nat)
    requires NetStart(net) && NetExec(net, es).Some? && n < |NetExec(net, es).value.rings|
    ensures var now := NetExec(net, es).value;
            && Shaped(now) && NoFrameTwice(now, n)
            && forall f: nat :: f < now.w.hosts[n].umem.frames ==> Lies(now, n, f)
  {
    StartReachable(net.w);
    StartCoupled(net);
    RunIsProtocolRun(net, es);
    var now := NetExec(net, es).value;
    OwnershipInEveryRun(now.w, n);
    ExclusiveInSlots(now, n);
    forall f: nat | f < now.w.hosts[n].umem.frames ensures Lies(now, n, f) {
      FrameLies(now, n, f);
    }
  }

  /** Delivery on real rings: what `DeliveryInEveryRun` and the theorems of module Delivery say of reachable states holds of the net. */
  lemma DeliveryOnRealRings(net: Net, es: seq<NetEvent>, r: nat)
    requires NetStart(net) && NetExec(net, es).Some? && r < |NetExec(net, es).value.w.received|
    ensures var w := NetExec(net, es).value.w;
            Reachable(w) && OnRecord(w.log, w.received[r].id, w.received[r].bytes) && w.received[r].id in w.log.delivered
  {
    StartReachable(net.w);
    StartCoupled(net);
    RunIsProtocolRun(net, es);
    DeliveryInEveryRun(NetExec(net, es).value.w);
  }

  // ----- Whole calls on the net -----

  lemma {:induction false} NetExecThen(net: Net, es: seq<NetEvent>, e: NetEvent)
    requires NetExec(net, es).Some? && Shaped(NetExec(net, es).value)
    requires NetEnabled(NetExec(net, es).value, e) && NetNext(NetExec(net, es).value, e).Some?
    ensures NetExec(net, es + [e]) == NetNext(NetExec(net, es).value, e)
    decreases |es|
  {
    if es == [] {
      assert NetExec(NetNext(net, e).value, []) == NetNext(net, e);
      assert (es + [e])[1..] == [];
    } else {
      assert (es + [e])[1..] == es[1..] + [e];
      NetExecThen(NetNext(net, es[0]).value, es[1..], e);
    }
  }

  /** Accesses of one ring, on behalf of holder x and its slice. */
  function OnOne(n: nat, y: nat, es: seq<R.Event<FrameDesc>>, x: nat, ps: seq<nat>): (r: seq<NetEvent>)
    ensures |r| == |es|
  {
    seq(|es|, i requires 0 <= i < |es| => OnRing(n, y, es[i], x, ps))
  }

  predicate Inner(e: R.Event<FrameDesc>) {
    !e.SubmitBatch? && !e.ReleaseBatch?
  }

  function WithRing(net: Net, n: nat, y: nat, s: Sys): Net
    requires n < |net.rings| && y < |net.rings[n]|
  {
    net.(rings := net.rings[n := net.rings[n][y := s]])
  }

  /** Accesses that hand nothing over change the ring alone. */
  lemma {:induction false} InnerRun(net: Net, n: nat, y: nat, es: seq<R.Event<FrameDesc>>, x: nat, ps: seq<nat>)
    requires Shaped(net) && n < |net.rings| && y < |net.rings[n]| && x < |net.rings[n]|
    requires net.w.hosts[n].places[y].role.IsRing()
    requires R.Exec(net.rings[n][y], es).Some? && forall i :: 0 <= i < |es| ==> Inner(es[i])
    ensures NetExec(net, OnOne(n, y, es, x, ps)) == Some(WithRing(net, n, y, R.Exec(net.rings[n][y], es).value))
    decreases |es|
  {
    hide R.Next, R.Enabled;
    if es == [] {
      assert net.rings[n][y := net.rings[n][y]] == net.rings[n] && net.rings[n := net.rings[n]] == net.rings;
    } else {
      var k := |es| - 1;
      InnerRun(net, n, y, es[..k], x, ps);
      var mid := NetExec(net, OnOne(n, y, es[..k], x, ps)).value;
      var e := OnRing(n, y, es[k], x, ps);
      assert Exec(mid.w, []) == Some(mid.w);
      NetExecThen(net, OnOne(n, y, es[..k], x, ps), e);
      assert OnOne(n, y, es, x, ps) == OnOne(n, y, es[..k], x, ps) + [e];
      WithRingTwice(net, n, y, mid.rings[n][y], R.Next(mid.rings[n][y], es[k]));
    }
  }

  lemma WithRingTwice(net: Net, n: nat, y: nat, s: Sys, t: Sys)
    requires n < |net.rings| && y < |net.rings[n]|
    ensures WithRing(net, n, y, s).rings[n][y] == s
    ensures WithRing(WithRing(net, n, y, s), n, y, t) == WithRing(net, n, y, t)
  {
    assert net.rings[n][y := s][y := t] == net.rings[n][y := t];
    assert net.rings[n := net.rings[n][y := s]][n := net.rings[n][y := t]] == net.rings[n := net.rings[n][y := t]];
  }

  lemma WritesAreInner(batch: seq<FrameDesc>, k: nat)
    ensures forall i :: 0 <= i < k + 1 ==> Inner(([R.ReserveFor(batch)] + R.Writes(k))[i])
  {
    var es := [R.ReserveFor(batch)] + R.Writes(k);
    if k == 0 {
    } else {
      WritesAreInner(batch, k - 1);
      assert es == [R.ReserveFor(batch)] + R.Writes(k - 1) + [R.WriteSlot];
    }
  }

  lemma ReadsAreInner(nb: u32, k: nat)
    ensures var es: seq<R.Event<FrameDesc>> := [R.PeekFor(nb)] + R.Reads(k); forall i :: 0 <= i < k + 1 ==> Inner(es[i])
  {
    var es: seq<R.Event<FrameDesc>> := [R.PeekFor(nb)] + R.Reads(k);
    if k == 0 {
    } else {
      ReadsAreInner(nb, k - 1);
      var fewer: seq<R.Event<FrameDesc>> := [R.PeekFor(nb)] + R.Reads(k - 1);
      assert es == fewer + [R.ReadSlot];
    }
  }

  /** A ring with room for a batch accepts it. */
  lemma FitsIsAccepted(p: Place, s: Sys, v: R.View<FrameDesc>, batch: seq<FrameDesc>)
    requires Matches(p, s, v) && s.p.batch == [] && 0 < |batch| < TWO32 && |p.items| + |batch| <= p.size
    ensures R.Produce(s.mem, s.p.handle, batch).count > 0
  {
    hide And, IsPowOfTwo, Wrap, Rem;
    R.ReserveMeaning(s.mem, s.p.handle, |v.log|, v.taken, |v.log|, v.seen, |batch|);
  }

  /** What an access makes of the ring and of the world. */
  lemma AccessMeans(net: Net, e: NetEvent)
    requires NetCoupled(net) && NetEnabled(net, e) && e.OnRing?
    ensures var r := NetNext(net, e);
            && r.Some? && NetCoupled(r.value) && Some(r.value.w) == Exec(net.w, Meaning(net, e))
            && e.n < |r.value.rings| && e.y < |r.value.rings[e.n]|
            && r.value.rings[e.n][e.y] == R.Next(net.rings[e.n][e.y], e.access)
  {
    hide And, IsPowOfTwo, Wrap, Rem, R.Inv, R.Next, R.Enabled, Exec, Meaning;
    StepAllowed(net, e);
  }

  /** Inner accesses and then one that hands over: what the protocol makes of that one is all that happens to the world. */
  lemma CallRun(net: Net, n: nat, y: nat, inner: seq<R.Event<FrameDesc>>, last: R.Event<FrameDesc>, x: nat, ps: seq<nat>)
    requires NetCoupled(net) && n < |net.rings| && y < |net.rings[n]| && x < |net.rings[n]|
    requires net.w.hosts[n].places[y].role.IsRing()
    requires R.Exec(net.rings[n][y], inner).Some? && forall i :: 0 <= i < |inner| ==> Inner(inner[i])
    requires NetEnabled(WithRing(net, n, y, R.Exec(net.rings[n][y], inner).value), OnRing(n, y, last, x, ps))
    ensures var mid := WithRing(net, n, y, R.Exec(net.rings[n][y], inner).value);
            var r := NetExec(net, OnOne(n, y, inner + [last], x, ps));
            && r.Some? && Some(r.value.w) == Exec(net.w, Meaning(mid, OnRing(n, y, last, x, ps)))
            && n < |r.value.rings| && y < |r.value.rings[n]|
            && r.value.rings[n][y] == R.Next(R.Exec(net.rings[n][y], inner).value, last)
  {
    hide And, IsPowOfTwo, Wrap, Rem, R.Inv, R.Next, R.Enabled, R.Exec, Exec, Moves, Meaning, HostCoupled, NetEnabled, NetExec, NetNext, OnOne;
    var s := R.Exec(net.rings[n][y], inner).value;
    var mid, e := WithRing(net, n, y, s), OnRing(n, y, last, x, ps);
    InnerRun(net, n, y, inner, x, ps);
    InnerKeepsCoupling(net, OnOne(n, y, inner, x, ps));
    AccessMeans(mid, e);
    NetExecThen(net, OnOne(n, y, inner, x, ps), e);
    OneMoreAccess(n, y, inner, last, x, ps);
    WithRingTwice(net, n, y, s, s);
  }

  lemma OneMoreAccess(n: nat, y: nat, inner: seq<R.Event<FrameDesc>>, last: R.Event<FrameDesc>, x: nat, ps: seq<nat>)
    ensures OnOne(n, y, inner + [last], x, ps) == OnOne(n, y, inner, x, ps) + [OnRing(n, y, last, x, ps)]
  {
  }

  /** The parts of a run that ends with one more event. */
  lemma LastEvent(s: Sys, inner: seq<R.Event<FrameDesc>>, last: R.Event<FrameDesc>)
    requires R.Exec(s, inner + [last]).Some?
    ensures R.Exec(s, inner).Some? && R.Enabled(R.Exec(s, inner).value, last)
    ensures R.Exec(s, inner + [last]).value == R.Next(R.Exec(s, inner).value, last)
  {
    assert (inner + [last])[..|inner|] == inner;
  }

  /**
   Every batch the protocol lets a holder hand to a ring can be handed over by a `produce` call on the real ring:
   reserve, write each slot, submit.
   */
  lemma ProduceOnNet(net: Net, n: nat, x: nat, ps: seq<nat>, y: nat)
    requires NetCoupled(net) && n < |net.rings| && x < |net.rings[n]| && y < |net.rings[n]|
    requires Movable(net.w.hosts[n], x, ps, y) && net.w.hosts[n].places[y].role.IsRing() && 0 < |ps| < TWO32
    requires var s := net.rings[n][y]; s.p.batch == [] && s.p.written == 0
    ensures var h := net.w.hosts[n];
            var batch := HandedAll(h.places[x].role, h.places[y].role, Descs(Picked(h.places[x].items, ps)));
            var r := NetExec(net, OnOne(n, y, R.ProduceEvents(batch, true), x, ps));
            && r.Some? && Some(r.value.w) == Exec(net.w, Moves(n, x, ps, y))
            && n < |r.value.rings| && y < |r.value.rings[n]|
            && r.value.rings[n][y].mem == R.Produce(net.rings[n][y].mem, net.rings[n][y].p.handle, batch).mem
  {
    hide And, IsPowOfTwo, Wrap, Rem, R.Inv, R.Next, R.Enabled, R.Exec, R.Produce, Exec, Moves, NetExec, OnOne, HandedAll, Picked;
    var h, s := net.w.hosts[n], net.rings[n][y];
    var batch := HandedAll(h.places[x].role, h.places[y].role, Descs(Picked(h.places[x].items, ps)));
    assert Coupled(h.places[y], s);
    var v :| Matches(h.places[y], s, v);
    FitsIsAccepted(h.places[y], s, v, batch);
    RingIsWf(s, v);
    R.ProduceIsRun(s, batch);
    var inner := [R.ReserveFor(batch)] + R.Writes(|batch|);
    WritesAreInner(batch, |batch|);
    LastEvent(s, inner, R.SubmitBatch);
    WithRingTwice(net, n, y, R.Exec(s, inner).value, s);
    CallRun(net, n, y, inner, R.SubmitBatch, x, ps);
  }

  lemma RingIsWf(s: Sys, v: R.View<FrameDesc>)
    requires R.Inv(s, v)
    ensures R.Wf(s.mem)
  {
  }

  /** Runs of the net keep the coupling. */
  lemma {:induction false} InnerKeepsCoupling(net: Net, es: seq<NetEvent>)
    requires NetCoupled(net) && NetExec(net, es).Some?
    ensures NetCoupled(NetExec(net, es).value)
    decreases |es|
  {
    if es == [] {
    } else {
      StepAllowed(net, es[0]);
      InnerKeepsCoupling(NetNext(net, es[0]).value, es[1..]);
    }
  }

  /** An idle consumer of a ring with entries finds some, at most as many as it asks for. */
  lemma EntriesAreFound(p: Place, s: Sys, v: R.View<FrameDesc>, nb: u32)
    requires Matches(p, s, v) && s.c.count == 0 && nb > 0 && p.items != []
    ensures 0 < |R.Consume(s.mem, s.c.handle, nb).entries| <= Min(nb, |p.items|)
  {
    hide And, IsPowOfTwo, Wrap, Rem;
    var _ := R.ConsumeMeaning(s.mem, s.c.handle, v.log, v.taken, v.avail, nb);
  }

  /** At a release as many entries have been read as were counted. */
  lemma CountIsRead(s: Sys)
    requires R.Enabled(s, R.ReleaseBatch)
    ensures s.c.count == |s.c.got|
  {
  }

  /**
   A `consume` call on a real ring that is not empty, peek, read each slot, release, hands over some of the entries
   in front, as the protocol's moves do.
   */
  lemma ConsumeOnNet(net: Net, n: nat, y: nat, x: nat, nb: u32) returns (k: nat)
    requires NetCoupled(net) && n < |net.rings| && x < |net.rings[n]| && y < |net.rings[n]| && nb > 0
    requires var h := net.w.hosts[n];
             h.places[y].role.IsRing() && Route(h.places[y].role, h.places[x].role) && h.places[y].items != []
    requires net.rings[n][y].c.count == 0
    ensures 0 < k <= Min(nb, |net.w.hosts[n].places[y].items|)
    ensures var r := NetExec(net, OnOne(n, y, R.ConsumeEvents(nb, k), x, []));
            && r.Some? && Some(r.value.w) == Exec(net.w, Moves(n, y, Zeros(k), x))
            && n < |r.value.rings| && y < |r.value.rings[n]|
            && r.value.rings[n][y].mem == R.Consume(net.rings[n][y].mem, net.rings[n][y].c.handle, nb).mem
  {
    hide And, IsPowOfTwo, Wrap, Rem, R.Inv, R.Next, R.Enabled, R.Exec, R.Consume, Exec, Moves, NetExec, OnOne;
    var h, s := net.w.hosts[n], net.rings[n][y];
    assert Coupled(h.places[y], s);
    var v :| Matches(h.places[y], s, v);
    EntriesAreFound(h.places[y], s, v, nb);
    RingIsWf(s, v);
    R.ConsumeIsRun(s, nb);
    k := |R.Consume(s.mem, s.c.handle, nb).entries|;
    var inner: seq<R.Event<FrameDesc>> := [R.PeekFor(nb)] + R.Reads(k);
    ReadsAreInner(nb, k);
    LastEvent(s, inner, R.ReleaseBatch);
    WithRingTwice(net, n, y, R.Exec(s, inner).value, s);
    CountIsRead(R.Exec(s, inner).value);
    CallRun(net, n, y, inner, R.ReleaseBatch, x, []);
  }
}

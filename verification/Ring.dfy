/**
 One AF_XDP ring as libxdp and the kernel share it: a masked slot array, two
 published u32 indices, and a pair of cached u32 indices on each side
 (src/ring.rs:24-33).

 The primitives `Reserve`, `PutSlot`, `Submit`, `Peek`, `GetSlot` and `Release` are
 libxdp's and are not part of the repository; their bodies here are the assumption
 the repository makes about libxdp. A producer's cached consumer index carries the
 ring size as a bias, as libxdp keeps it.

 The `Sys` machine interleaves the two sides at the grain of single loads, stores
 and slot accesses. It is proved to refine a bounded FIFO with an unbounded history.
 */
module Ring {
  import opened Words

  /** The memory both sides can see. */
  datatype Mem<T> = Mem(size: u32, slots: seq<T>, producer: u32, consumer: u32)

  /** The private index cache of one side. */
  datatype Handle = Handle(cachedProd: u32, cachedCons: u32)

  /** What a reservation or a peek hands out: `count` entries starting at index `idx`. */
  datatype Grant = Grant(handle: Handle, count: u32, idx: u32)

  predicate Wf<T>(m: Mem<T>) {
    0 < m.size && IsPowOfTwo(m.size) && |m.slots| == m.size
  }

  // ----- libxdp primitives -----

  function Reserve<T>(m: Mem<T>, h: Handle, nb: u32): Grant {
    var cache := if WrapSub(h.cachedCons, h.cachedProd) >= nb then h
                 else h.(cachedCons := WrapAdd(m.consumer, m.size));
    if WrapSub(cache.cachedCons, cache.cachedProd) < nb then Grant(cache, 0, 0)
    else Grant(cache.(cachedProd := WrapAdd(cache.cachedProd, nb)), nb, cache.cachedProd)
  }

  function Peek<T>(m: Mem<T>, h: Handle, nb: u32): Grant {
    var cache := if WrapSub(h.cachedProd, h.cachedCons) == 0 then h.(cachedProd := m.producer) else h;
    var entries := Min(WrapSub(cache.cachedProd, cache.cachedCons), nb);
    if entries == 0 then Grant(cache, 0, 0)
    else Grant(cache.(cachedCons := WrapAdd(cache.cachedCons, entries)), entries, cache.cachedCons)
  }

  function SlotOf(size: u32, idx: u32): (k: nat)
    requires size > 0
    ensures k < size
  {
    AndBound(idx, size - 1);
    And(idx, size - 1)
  }

  function PutSlot<T>(size: u32, slots: seq<T>, idx: u32, v: T): (r: seq<T>)
    requires 0 < size == |slots|
    ensures |r| == |slots|
  {
    slots[SlotOf(size, idx) := v]
  }

  function GetSlot<T>(m: Mem<T>, idx: u32): T
    requires Wf(m)
  {
    m.slots[SlotOf(m.size, idx)]
  }

  function Submit<T>(m: Mem<T>, nb: nat): Mem<T> {
    m.(producer := WrapAdd(m.producer, nb))
  }

  function Release<T>(m: Mem<T>, nb: nat): Mem<T> {
    m.(consumer := WrapAdd(m.consumer, nb))
  }

  // ----- Whole calls: what one side does when nothing interleaves -----

  /** The slots after writing `vs` one by one while stepping the index. */
  function PutAll<T>(size: u32, slots: seq<T>, idx: u32, vs: seq<T>): (r: seq<T>)
    requires 0 < size == |slots|
    ensures |r| == |slots|
  {
    if vs == [] then slots
    else
      var n := |vs| - 1;
      PutSlot(size, PutAll(size, slots, idx, vs[..n]), WrapAdd(idx, n), vs[n])
  }

  lemma PutOne<T>(size: u32, slots: seq<T>, idx: u32, v: T)
    requires 0 < size == |slots|
    ensures PutAll(size, slots, idx, [v]) == PutSlot(size, slots, idx, v)
  {
    hide And, IsPowOfTwo, Rem;
    assert PutAll(size, slots, idx, [v][..0]) == slots;
    assert WrapAdd(idx, 0) == idx;
  }

  /** The values read one by one while stepping the index. */
  function GetAll<T>(m: Mem<T>, idx: u32, n: nat): (vs: seq<T>)
    requires Wf(m)
    ensures |vs| == n
  {
    seq(n, i => GetSlot(m, WrapAdd(idx, i)))
  }

  datatype Produced<T> = Produced(mem: Mem<T>, handle: Handle, count: nat)
  datatype Consumed<T> = Consumed(mem: Mem<T>, handle: Handle, entries: seq<T>)

  /** Reserve, write every slot, submit; nothing at all when the batch is empty. */
  function Produce<T>(m: Mem<T>, h: Handle, batch: seq<T>): Produced<T>
    requires Wf(m) && |batch| < TWO32
  {
    if batch == [] then Produced(m, h, 0)
    else
      var g := Reserve(m, h, |batch|);
      if g.count == 0 then Produced(m, g.handle, 0)
      else Produced(Submit(m.(slots := PutAll(m.size, m.slots, g.idx, batch)), g.count), g.handle, g.count)
  }

  /** Peek, read every slot, release; nothing at all when no entry is asked for. */
  function Consume<T>(m: Mem<T>, h: Handle, nb: u32): Consumed<T>
    requires Wf(m)
  {
    if nb == 0 then Consumed(m, h, [])
    else
      var g := Peek(m, h, nb);
      if g.count == 0 then Consumed(m, g.handle, [])
      else Consumed(Release(m, g.count), g.handle, GetAll(m, g.idx, g.count))
  }

  // ----- The meaning of a ring: a history of entries and how many have left -----

  /** The published indices are the positions `len` and `taken`, at most a ring apart. */
  ghost predicate Indices<T>(m: Mem<T>, len: nat, taken: nat) {
    && 1 <= m.size <= 0x8000_0000
    && taken <= len <= taken + m.size
    && m.producer == Wrap(len)
    && m.consumer == Wrap(taken)
  }

  /** The slots hold the entries still in the ring. */
  ghost predicate Holds<T>(size: u32, slots: seq<T>, log: seq<T>, taken: nat)
    requires 0 < size == |slots|
  {
    forall i :: taken <= i < |log| ==> slots[Rem(i, size)] == log[i]
  }

  /** `log` is every entry ever submitted, `taken` how many of them have been released. */
  ghost predicate MemInv<T>(m: Mem<T>, log: seq<T>, taken: nat) {
    && Wf(m)
    && Indices(m, |log|, taken)
    && Holds(m.size, m.slots, log, taken)
  }

  /** The producer has reserved up to position `reserved` and last saw `seen` entries released. */
  ghost predicate ProdInv(size: u32, h: Handle, len: nat, taken: nat, reserved: nat, seen: nat) {
    && seen <= taken
    && len <= reserved <= seen + size
    && h.cachedProd == Wrap(reserved)
    && h.cachedCons == Wrap(seen + size)
  }

  /** The consumer has peeked up to position `peeked` and last saw `avail` entries submitted. */
  ghost predicate ConsInv(h: Handle, len: nat, taken: nat, peeked: nat, avail: nat) {
    && taken <= peeked <= avail <= len
    && h.cachedProd == Wrap(avail)
    && h.cachedCons == Wrap(peeked)
  }

  ghost function SeenAfter(size: u32, taken: nat, reserved: nat, seen: nat, nb: nat): nat {
    if seen + size - reserved >= nb then seen else taken
  }

  ghost function AvailAfter(len: nat, peeked: nat, avail: nat): nat {
    if avail == peeked then len else avail
  }

  /** A reservation is all or nothing, and it is refused exactly when the ring really lacks the room. */
  lemma ReserveMeaning<T>(m: Mem<T>, h: Handle, len: nat, taken: nat, reserved: nat, seen: nat, nb: u32)
    requires Indices(m, len, taken) && ProdInv(m.size, h, len, taken, reserved, seen)
    ensures var g := Reserve(m, h, nb);
            && g.count == (if nb <= taken + m.size - reserved then nb else 0)
            && (g.count > 0 ==> g.idx == Wrap(reserved))
            && ProdInv(m.size, g.handle, len, taken, reserved + g.count, SeenAfter(m.size, taken, reserved, seen, nb))
  {
    hide And, IsPowOfTwo, Wrap, Rem;
    WrapSubExact(seen + m.size, reserved);
    WrapSubExact(taken + m.size, reserved);
    WrapAddExact(taken, m.size);
    WrapAddExact(reserved, nb);
  }

  /** A peek hands out a non-empty run of entries exactly when one was asked for and one is there. */
  lemma PeekMeaning<T>(m: Mem<T>, h: Handle, len: nat, taken: nat, peeked: nat, avail: nat, nb: u32)
    requires Indices(m, len, taken) && ConsInv(h, len, taken, peeked, avail)
    ensures var g := Peek(m, h, nb);
            && g.count == Min(AvailAfter(len, peeked, avail) - peeked, nb)
            && (g.count > 0 <==> nb > 0 && peeked < len)
            && (g.count > 0 ==> g.idx == Wrap(peeked))
            && ConsInv(g.handle, len, taken, peeked + g.count, AvailAfter(len, peeked, avail))
  {
    hide And, IsPowOfTwo, Wrap, Rem;
    WrapSubExact(avail, peeked);
    WrapSubExact(len, peeked);
    WrapAddExact(peeked, Peek(m, h, nb).count);
  }

  /** Writing the slot of position n leaves the slots of the positions less than a ring before n alone. */
  lemma PutSlotMeaning<T>(size: u32, slots: seq<T>, n: nat, v: T)
    requires IsPowOfTwo(size) && |slots| == size
    ensures var r := PutSlot(size, slots, Wrap(n), v);
            && r[Rem(n, size)] == v
            && (forall i: nat :: n < i + size && i < n ==> r[Rem(i, size)] == slots[Rem(i, size)])
  {
    hide And, IsPowOfTwo, Wrap, Rem;
    MaskIsMod(n, size);
    forall i: nat | n < i + size && i < n ensures Rem(i, size) != Rem(n, size) {
      SlotsDiffer(i, n, size);
    }
  }

  lemma GetSlotMeaning<T>(m: Mem<T>, log: seq<T>, taken: nat, n: nat)
    requires MemInv(m, log, taken) && taken <= n < |log|
    ensures GetSlot(m, Wrap(n)) == log[n]
  {
    hide And, IsPowOfTwo, Wrap, Rem;
    MaskIsMod(n, m.size);
  }

  // ----- The two sides interleaved -----

  /** Where the producing side is in its current call: no batch when idle. */
  datatype Producing<T> = Producing(handle: Handle, batch: seq<T>, written: nat, idx: u32)

  /** Where the consuming side is in its current call: no count when idle. */
  datatype Consuming<T> = Consuming(handle: Handle, count: nat, got: seq<T>, idx: u32)

  datatype Sys<T> = Sys(mem: Mem<T>, p: Producing<T>, c: Consuming<T>)

  datatype Event<T> =
    | ReserveFor(entries: seq<T>)
    | WriteSlot
    | SubmitBatch
    | PeekFor(nb: u32)
    | ReadSlot
    | ReleaseBatch

  predicate Enabled<T(==)>(s: Sys<T>, e: Event<T>) {
    && Wf(s.mem)
    && match e
       case ReserveFor(entries) => s.p.batch == [] && 0 < |entries| < TWO32
       case WriteSlot => s.p.written < |s.p.batch|
       case SubmitBatch => s.p.batch != [] && s.p.written == |s.p.batch|
       case PeekFor(nb) => s.c.count == 0 && nb > 0
       case ReadSlot => |s.c.got| < s.c.count
       case ReleaseBatch => s.c.count > 0 && |s.c.got| == s.c.count
  }

  function Next<T>(s: Sys<T>, e: Event<T>): Sys<T>
    requires Enabled(s, e)
  {
    match e
    case ReserveFor(entries) =>
      var g := Reserve(s.mem, s.p.handle, |entries|);
      if g.count == 0 then s.(p := s.p.(handle := g.handle))
      else s.(p := Producing(g.handle, entries, 0, g.idx))
    case WriteSlot =>
      s.(mem := s.mem.(slots := PutSlot(s.mem.size, s.mem.slots, s.p.idx, s.p.batch[s.p.written])),
         p := s.p.(written := s.p.written + 1, idx := WrapAdd(s.p.idx, 1)))
    case SubmitBatch =>
      s.(mem := Submit(s.mem, |s.p.batch|), p := s.p.(batch := [], written := 0))
    case PeekFor(nb) =>
      var g := Peek(s.mem, s.c.handle, nb);
      s.(c := Consuming(g.handle, g.count, [], g.idx))
    case ReadSlot =>
      s.(c := s.c.(got := s.c.got + [GetSlot(s.mem, s.c.idx)], idx := WrapAdd(s.c.idx, 1)))
    case ReleaseBatch =>
      s.(mem := Release(s.mem, s.c.count), c := s.c.(count := 0, got := []))
  }

  /** A fresh ring: nothing submitted, whatever the slots hold. */
  function Init<T>(size: u32, slots: seq<T>): Sys<T> {
    Sys(Mem(size, slots, 0, 0), Producing(Handle(0, size), [], 0, 0), Consuming(Handle(0, 0), 0, [], 0))
  }

  /** The state after a run, or None when some event was not enabled. */
  function Exec<T(==)>(s: Sys<T>, es: seq<Event<T>>): Option<Sys<T>> {
    if es == [] then Some(s)
    else
      var before := Exec(s, es[..|es| - 1]);
      if before.Some? && Enabled(before.value, es[|es| - 1]) then Some(Next(before.value, es[|es| - 1])) else None
  }

  /** The entries an event makes visible to the consumer. */
  function SubmittedBy<T>(s: Sys<T>, e: Event<T>): seq<T> {
    if e.SubmitBatch? then s.p.batch else []
  }

  /** The entries an event finishes consuming, as they were read. */
  function DeliveredBy<T>(s: Sys<T>, e: Event<T>): seq<T> {
    if e.ReleaseBatch? then s.c.got else []
  }

  /** Every entry submitted in a run, in submission order. */
  function Submitted<T(==)>(s: Sys<T>, es: seq<Event<T>>): seq<T>
    requires Exec(s, es).Some?
  {
    if es == [] then []
    else Submitted(s, es[..|es| - 1]) + SubmittedBy(Exec(s, es[..|es| - 1]).value, es[|es| - 1])
  }

  /** Every entry the consumer read and released in a run, in release order. */
  function Delivered<T(==)>(s: Sys<T>, es: seq<Event<T>>): seq<T>
    requires Exec(s, es).Some?
  {
    if es == [] then []
    else Delivered(s, es[..|es| - 1]) + DeliveredBy(Exec(s, es[..|es| - 1]).value, es[|es| - 1])
  }

  /** The abstract state: the history, and what each side last saw of the other. */
  datatype View<T> = View(log: seq<T>, taken: nat, seen: nat, avail: nat)

  ghost predicate ProducingInv<T>(size: u32, slots: seq<T>, p: Producing<T>, log: seq<T>, taken: nat, seen: nat)
    requires 0 < size == |slots|
  {
    && ProdInv(size, p.handle, |log|, taken, |log| + |p.batch|, seen)
    && p.written <= |p.batch|
    && (p.batch != [] ==> p.idx == Wrap(|log| + p.written))
    && (forall j :: 0 <= j < p.written ==> slots[Rem(|log| + j, size)] == p.batch[j])
  }

  ghost predicate ConsumingInv<T>(c: Consuming<T>, log: seq<T>, taken: nat, avail: nat) {
    && ConsInv(c.handle, |log|, taken, taken + c.count, avail)
    && |c.got| <= c.count
    && (c.count > 0 ==> c.idx == Wrap(taken + |c.got|))
    && c.got == log[taken..taken + |c.got|]
  }

  ghost predicate Inv<T>(s: Sys<T>, v: View<T>) {
    && MemInv(s.mem, v.log, v.taken)
    && ProducingInv(s.mem.size, s.mem.slots, s.p, v.log, v.taken, v.seen)
    && ConsumingInv(s.c, v.log, v.taken, v.avail)
  }

  /** What an event does to the abstract FIFO: only a submit appends and only a release removes. */
  ghost function NextView<T>(s: Sys<T>, v: View<T>, e: Event<T>): View<T> {
    match e
    case ReserveFor(entries) => v.(seen := SeenAfter(s.mem.size, v.taken, |v.log|, v.seen, |entries|))
    case WriteSlot => v
    case SubmitBatch => v.(log := v.log + s.p.batch)
    case PeekFor(nb) => v.(avail := AvailAfter(|v.log|, v.taken, v.avail))
    case ReadSlot => v
    case ReleaseBatch => v.(taken := v.taken + s.c.count)
  }

  lemma ReserveKeeps<T>(s: Sys<T>, v: View<T>, entries: seq<T>)
    requires Inv(s, v) && Enabled(s, ReserveFor(entries))
    ensures Inv(Next(s, ReserveFor(entries)), NextView(s, v, ReserveFor(entries)))
  {
    hide And, IsPowOfTwo, Wrap, Rem;
    ReserveMeaning(s.mem, s.p.handle, |v.log|, v.taken, |v.log|, v.seen, |entries|);
  }

  /** The next write of a batch damages neither the entries in the ring nor the batch's earlier writes. */
  lemma PutKeepsSlots<T>(size: u32, slots: seq<T>, log: seq<T>, taken: nat, batch: seq<T>, written: nat)
    requires IsPowOfTwo(size) && |slots| == size && Holds(size, slots, log, taken)
    requires written < |batch| && taken <= |log| && |log| + written < taken + size
    requires forall j :: 0 <= j < written ==> slots[Rem(|log| + j, size)] == batch[j]
    ensures var r := PutSlot(size, slots, Wrap(|log| + written), batch[written]);
            && Holds(size, r, log, taken)
            && (forall j :: 0 <= j <= written ==> r[Rem(|log| + j, size)] == batch[j])
  {
    hide And, IsPowOfTwo, Wrap, Rem;
    var n := |log| + written;
    PutSlotMeaning(size, slots, n, batch[written]);
    var r := PutSlot(size, slots, Wrap(n), batch[written]);
    forall j | 0 <= j <= written ensures r[Rem(|log| + j, size)] == batch[j] {
      if j < written {
        var i: nat := |log| + j;
        assert r[Rem(i, size)] == slots[Rem(i, size)];
      }
    }
  }

  lemma WriteKeeps<T>(s: Sys<T>, v: View<T>)
    requires Inv(s, v) && Enabled(s, WriteSlot)
    ensures Inv(Next(s, WriteSlot), v)
  {
    hide And, IsPowOfTwo, Wrap, Rem;
    PutKeepsSlots(s.mem.size, s.mem.slots, v.log, v.taken, s.p.batch, s.p.written);
    WrapAddExact(|v.log| + s.p.written, 1);
  }

  lemma SubmitKeeps<T>(s: Sys<T>, v: View<T>)
    requires Inv(s, v) && Enabled(s, SubmitBatch)
    ensures Inv(Next(s, SubmitBatch), NextView(s, v, SubmitBatch))
  {
    hide And, IsPowOfTwo, Wrap, Rem;
    WrapAddExact(|v.log|, |s.p.batch|);
    var log := v.log + s.p.batch;
    forall i | v.taken <= i < |log| ensures s.mem.slots[Rem(i, s.mem.size)] == log[i] {
      if i >= |v.log| {
        assert s.mem.slots[Rem(|v.log| + (i - |v.log|), s.mem.size)] == s.p.batch[i - |v.log|];
      }
    }
  }

  lemma PeekKeeps<T>(s: Sys<T>, v: View<T>, nb: u32)
    requires Inv(s, v) && Enabled(s, PeekFor(nb))
    ensures Inv(Next(s, PeekFor(nb)), NextView(s, v, PeekFor(nb)))
  {
    hide And, IsPowOfTwo, Wrap, Rem;
    PeekMeaning(s.mem, s.c.handle, |v.log|, v.taken, v.taken, v.avail, nb);
  }

  lemma ReadKeeps<T>(s: Sys<T>, v: View<T>)
    requires Inv(s, v) && Enabled(s, ReadSlot)
    ensures Inv(Next(s, ReadSlot), v)
  {
    hide And, IsPowOfTwo, Wrap, Rem;
    var n := v.taken + |s.c.got|;
    GetSlotMeaning(s.mem, v.log, v.taken, n);
    WrapAddExact(n, 1);
  }

  lemma ReleaseKeeps<T>(s: Sys<T>, v: View<T>)
    requires Inv(s, v) && Enabled(s, ReleaseBatch)
    ensures Inv(Next(s, ReleaseBatch), NextView(s, v, ReleaseBatch))
  {
    hide And, IsPowOfTwo, Wrap, Rem;
    WrapAddExact(v.taken, s.c.count);
  }

  /** Every event of either side keeps the coupling, so each concrete step is an abstract FIFO step or a stutter. */
  lemma StepRefines<T>(s: Sys<T>, v: View<T>, e: Event<T>)
    requires Inv(s, v) && Enabled(s, e)
    ensures Inv(Next(s, e), NextView(s, v, e))
  {
    hide And, IsPowOfTwo, Wrap, Rem;
    match e
    case ReserveFor(entries) => ReserveKeeps(s, v, entries);
    case WriteSlot => WriteKeeps(s, v);
    case SubmitBatch => SubmitKeeps(s, v);
    case PeekFor(nb) => PeekKeeps(s, v, nb);
    case ReadSlot => ReadKeeps(s, v);
    case ReleaseBatch => ReleaseKeeps(s, v);
  }

  /** What an event delivers is the next stretch of the history, and the history only grows by what it submits. */
  lemma StepDelivers<T>(s: Sys<T>, v: View<T>, e: Event<T>)
    requires Inv(s, v) && Enabled(s, e)
    ensures var w := NextView(s, v, e);
            && v.taken <= w.taken <= |w.log|
            && w.log == v.log + SubmittedBy(s, e)
            && (v.taken <= |v.log| <= |w.log|)
            && DeliveredBy(s, e) == w.log[v.taken..w.taken]
            && (forall a: nat :: a <= v.taken ==> w.log[a..v.taken] == v.log[a..v.taken])
  {
    hide And, IsPowOfTwo, Wrap, Rem;
  }

  lemma {:induction false} RunRefines<T>(s: Sys<T>, v: View<T>, es: seq<Event<T>>) returns (w: View<T>)
    requires Inv(s, v) && Exec(s, es).Some?
    ensures Inv(Exec(s, es).value, w)
    ensures w.log == v.log + Submitted(s, es)
    ensures v.taken <= w.taken <= |w.log|
    ensures Delivered(s, es) == w.log[v.taken..w.taken]
  {
    hide And, IsPowOfTwo, Wrap, Rem;
    if es == [] {
      w := v;
    } else {
      var init, e := es[..|es| - 1], es[|es| - 1];
      var u := RunRefines(s, v, init);
      var t := Exec(s, init).value;
      StepRefines(t, u, e);
      StepDelivers(t, u, e);
      w := NextView(t, u, e);
      Assoc(v.log, Submitted(s, init), SubmittedBy(t, e));
      Slices(w.log, v.taken, u.taken, w.taken);
    }
  }

  lemma Assoc<T>(a: seq<T>, b: seq<T>, c: seq<T>)
    ensures (a + b) + c == a + (b + c)
  {
  }

  lemma Slices<T>(log: seq<T>, a: nat, b: nat, c: nat)
    requires a <= b <= c <= |log|
    ensures log[a..c] == log[a..b] + log[b..c]
  {
  }

  lemma InitInv<T>(size: u32, slots: seq<T>)
    requires IsPowOfTwo(size) && |slots| == size
    ensures Inv(Init(size, slots), View([], 0, 0, 0))
  {
    hide And, IsPowOfTwo, Rem;
    PowOfTwoBound(size);
  }

  lemma RunFromInit<T>(size: u32, slots: seq<T>, es: seq<Event<T>>) returns (w: View<T>)
    requires IsPowOfTwo(size) && |slots| == size
    requires Exec(Init(size, slots), es).Some?
    ensures Inv(Exec(Init(size, slots), es).value, w)
    ensures Exec(Init(size, slots), es).value.mem.size == size
    ensures w.log == Submitted(Init(size, slots), es)
    ensures Delivered(Init(size, slots), es) <= w.log
    ensures w.taken == |Delivered(Init(size, slots), es)|
  {
    hide And, IsPowOfTwo, Wrap, Rem;
    InitInv(size, slots);
    var s := Init(size, slots);
    w := RunRefines(s, View([], 0, 0, 0), es);
    SizeKept(s, es);
    assert [] + Submitted(s, es) == Submitted(s, es);
  }

  /**
   The ring is a bounded FIFO under every interleaving of the two sides and across every index wrap:
   what has been delivered is a prefix of what has been submitted; the occupancy is the wrapping
   difference of the published indices and never exceeds the size; each visible slot holds the entry
   submitted for it, so no reserved but unsubmitted slot is visible and no undelivered slot has been
   overwritten; and what an unfinished consume has read so far is the front of what is still undelivered.
   */
  lemma RingRefinesFifo<T>(size: u32, slots: seq<T>, es: seq<Event<T>>)
    requires IsPowOfTwo(size) && |slots| == size
    requires Exec(Init(size, slots), es).Some?
    ensures var s := Init(size, slots);
            var t, sent, recv := Exec(s, es).value, Submitted(s, es), Delivered(s, es);
            && recv <= sent
            && WrapSub(t.mem.producer, t.mem.consumer) == |sent| - |recv| <= size
            && Wf(t.mem)
            && (forall i :: |recv| <= i < |sent| ==> GetSlot(t.mem, Wrap(i)) == sent[i])
            && t.c.got <= sent[|recv|..]
  {
    hide And, IsPowOfTwo, Wrap, Rem;
    var w := RunFromInit(size, slots, es);
    InvMeaning(Exec(Init(size, slots), es).value, w);
  }

  /** The coupling read off at the concrete ring. */
  lemma InvMeaning<T>(t: Sys<T>, w: View<T>)
    requires Inv(t, w)
    ensures WrapSub(t.mem.producer, t.mem.consumer) == |w.log| - w.taken <= t.mem.size
    ensures Wf(t.mem)
    ensures forall i :: w.taken <= i < |w.log| ==> GetSlot(t.mem, Wrap(i)) == w.log[i]
    ensures t.c.got <= w.log[w.taken..]
  {
    hide And, IsPowOfTwo, Wrap, Rem;
    WrapSubExact(|w.log|, w.taken);
    forall i | w.taken <= i < |w.log| ensures GetSlot(t.mem, Wrap(i)) == w.log[i] {
      GetSlotMeaning(t.mem, w.log, w.taken, i);
    }
  }

  lemma {:induction false} SizeKept<T>(s: Sys<T>, es: seq<Event<T>>)
    requires Exec(s, es).Some?
    ensures Exec(s, es).value.mem.size == s.mem.size
  {
    if es == [] {
    } else {
      SizeKept(s, es[..|es| - 1]);
    }
  }

  /** In every reachable state a reservation is granted exactly when the batch fits the true free space. */
  lemma ReserveIsExact<T>(size: u32, slots: seq<T>, es: seq<Event<T>>, entries: seq<T>)
    requires IsPowOfTwo(size) && |slots| == size
    requires Exec(Init(size, slots), es).Some? && Enabled(Exec(Init(size, slots), es).value, ReserveFor(entries))
    ensures var s := Init(size, slots);
            var granted := Next(Exec(s, es).value, ReserveFor(entries)).p.batch;
            if |Submitted(s, es)| - |Delivered(s, es)| + |entries| <= size then granted == entries else granted == []
  {
    hide And, IsPowOfTwo, Wrap, Rem;
    var w := RunFromInit(size, slots, es);
    GrantMeaning(Exec(Init(size, slots), es).value, w, entries);
  }

  lemma GrantMeaning<T>(t: Sys<T>, w: View<T>, entries: seq<T>)
    requires Inv(t, w) && Enabled(t, ReserveFor(entries))
    ensures Next(t, ReserveFor(entries)).p.batch == if |w.log| - w.taken + |entries| <= t.mem.size then entries else []
  {
    hide And, IsPowOfTwo, Wrap, Rem;
    ReserveMeaning(t.mem, t.p.handle, |w.log|, w.taken, |w.log|, w.seen, |entries|);
  }

  /** In every reachable state a peek finds something exactly when something is undelivered, and never too much. */
  lemma PeekIsExact<T>(size: u32, slots: seq<T>, es: seq<Event<T>>, nb: u32)
    requires IsPowOfTwo(size) && |slots| == size
    requires Exec(Init(size, slots), es).Some? && Enabled(Exec(Init(size, slots), es).value, PeekFor(nb))
    ensures var s := Init(size, slots);
            var count := Next(Exec(s, es).value, PeekFor(nb)).c.count;
            var pending := |Submitted(s, es)| - |Delivered(s, es)|;
            && count <= Min(nb, pending)
            && (count > 0 <==> pending > 0)
  {
    hide And, IsPowOfTwo, Wrap, Rem;
    var w := RunFromInit(size, slots, es);
    var t := Exec(Init(size, slots), es).value;
    PeekMeaning(t.mem, t.c.handle, |w.log|, w.taken, w.taken, w.avail, nb);
  }

  // ----- Whole calls on the abstract level -----

  lemma {:induction false} PutAllMeaning<T>(size: u32, slots: seq<T>, n: nat, vs: seq<T>)
    requires IsPowOfTwo(size) && |slots| == size && |vs| <= size
    ensures var r := PutAll(size, slots, Wrap(n), vs);
            && (forall j :: 0 <= j < |vs| ==> r[Rem(n + j, size)] == vs[j])
            && (forall i: nat :: n + |vs| <= i + size && i < n ==> r[Rem(i, size)] == slots[Rem(i, size)])
    decreases |vs|
  {
    hide And, IsPowOfTwo, Wrap, Rem;
    if vs == [] {
    } else {
      var k := |vs| - 1;
      var init := PutAll(size, slots, Wrap(n), vs[..k]);
      PutAllMeaning(size, slots, n, vs[..k]);
      WrapAddExact(n, k);
      PutSlotMeaning(size, init, n + k, vs[k]);
      var r := PutAll(size, slots, Wrap(n), vs);
      forall j | 0 <= j < |vs| ensures r[Rem(n + j, size)] == vs[j] {
        if j < k {
          assert init[Rem(n + j, size)] == vs[..k][j];
        }
      }
      forall i: nat | n + |vs| <= i + size && i < n ensures r[Rem(i, size)] == slots[Rem(i, size)] {
        assert init[Rem(i, size)] == slots[Rem(i, size)];
      }
    }
  }

  /** A batch written after the entries in the ring, where it fits, damages none of them. */
  lemma PutAllHolds<T>(size: u32, slots: seq<T>, log: seq<T>, taken: nat, batch: seq<T>)
    requires IsPowOfTwo(size) && 0 < size == |slots| && Holds(size, slots, log, taken)
    requires taken <= |log| && |log| + |batch| <= taken + size
    ensures Holds(size, PutAll(size, slots, Wrap(|log|), batch), log + batch, taken)
  {
    hide And, IsPowOfTwo, Wrap, Rem, PutAll;
    PutAllMeaning(size, slots, |log|, batch);
    var r, more := PutAll(size, slots, Wrap(|log|), batch), log + batch;
    forall i | taken <= i < |more| ensures r[Rem(i, size)] == more[i] {
      if i >= |log| {
        assert r[Rem(|log| + (i - |log|), size)] == batch[i - |log|];
      }
    }
  }

  /** A whole produce submits the batch exactly when it fits, and then appends it to the history. */
  lemma ProduceMeaning<T>(m: Mem<T>, h: Handle, log: seq<T>, taken: nat, seen: nat, batch: seq<T>) returns (seen': nat)
    requires MemInv(m, log, taken) && ProdInv(m.size, h, |log|, taken, |log|, seen) && |batch| < TWO32
    ensures var o := Produce(m, h, batch);
            var fits := |batch| <= taken + m.size - |log|;
            var log' := if fits then log + batch else log;
            && o.count == (if fits then |batch| else 0)
            && o.mem.size == m.size
            && MemInv(o.mem, log', taken)
            && ProdInv(m.size, o.handle, |log'|, taken, |log'|, seen')
  {
    hide And, IsPowOfTwo, Wrap, Rem, Reserve, PutAll, Holds;
    seen' := seen;
    if batch != [] {
      seen' := SeenAfter(m.size, taken, |log|, seen, |batch|);
      ReserveMeaning(m, h, |log|, taken, |log|, seen, |batch|);
      var o := Produce(m, h, batch);
      if o.count > 0 {
        PutAllHolds(m.size, m.slots, log, taken, batch);
        WrapAddExact(|log|, |batch|);
      }
    } else {
      assert log + batch == log;
    }
  }

  /** A whole consume hands out the oldest entries of the history, and some whenever there are any. */
  lemma ConsumeMeaning<T>(m: Mem<T>, h: Handle, log: seq<T>, taken: nat, avail: nat, nb: u32) returns (avail': nat)
    requires MemInv(m, log, taken) && ConsInv(h, |log|, taken, taken, avail)
    ensures var o := Consume(m, h, nb);
            var k := |o.entries|;
            && k <= Min(nb, |log| - taken)
            && (k > 0 <==> nb > 0 && taken < |log|)
            && o.entries == log[taken..taken + k]
            && o.mem.size == m.size
            && MemInv(o.mem, log, taken + k)
            && ConsInv(o.handle, |log|, taken + k, taken + k, avail')
  {
    hide And, IsPowOfTwo, Wrap, Rem;
    avail' := avail;
    if nb > 0 {
      avail' := AvailAfter(|log|, taken, avail);
      PeekMeaning(m, h, |log|, taken, taken, avail, nb);
      var g := Peek(m, h, nb);
      var o := Consume(m, h, nb);
      if g.count > 0 {
        forall i | 0 <= i < g.count ensures o.entries[i] == log[taken + i] {
          WrapAddExact(taken, i);
          GetSlotMeaning(m, log, taken, taken + i);
        }
        WrapAddExact(taken, g.count);
      }
    }
  }

  /** The published indices tell how many entries are in the ring, and whether there are any. */
  lemma Occupancy<T>(m: Mem<T>, log: seq<T>, taken: nat)
    requires MemInv(m, log, taken)
    ensures WrapSub(m.producer, m.consumer) == |log| - taken
    ensures m.producer == m.consumer <==> taken == |log|
    ensures m.size >= 1
  {
    hide And, IsPowOfTwo, Wrap, Rem;
    WrapSubExact(|log|, taken);
    WrapEqual(|log|, taken);
  }

  /** The kernel taking the oldest entry of a ring the user fills. */
  lemma TakeMeaning<T>(m: Mem<T>, log: seq<T>, taken: nat)
    requires MemInv(m, log, taken) && m.producer != m.consumer
    ensures taken < |log|
    ensures GetSlot(m, m.consumer) == log[taken]
    ensures MemInv(Release(m, 1), log, taken + 1)
  {
    hide And, IsPowOfTwo, Wrap, Rem;
    GetSlotMeaning(m, log, taken, taken);
    WrapAddExact(taken, 1);
  }

  /** The kernel appending an entry to a ring the user drains. */
  lemma PostMeaning<T>(m: Mem<T>, log: seq<T>, taken: nat, x: T)
    requires MemInv(m, log, taken) && WrapSub(m.producer, m.consumer) < m.size
    ensures MemInv(Submit(m.(slots := PutSlot(m.size, m.slots, m.producer, x)), 1), log + [x], taken)
  {
    hide And, IsPowOfTwo, Wrap, Rem;
    WrapSubExact(|log|, taken);
    WrapAddExact(|log|, 1);
    PutSlotMeaning(m.size, m.slots, |log|, x);
  }

  // ----- Batches against single calls -----

  /** Submit a batch one descriptor at a time, as repeated `produce_one` calls do. */
  function ProduceOnes<T>(m: Mem<T>, h: Handle, batch: seq<T>): Produced<T>
    requires Wf(m) && |batch| < TWO32
    decreases |batch|
  {
    if batch == [] then Produced(m, h, 0)
    else
      var one := Produce(m, h, batch[..1]);
      var rest := ProduceOnes(one.mem, one.handle, batch[1..]);
      rest.(count := one.count + rest.count)
  }

  /** Take k entries one at a time, as repeated `consume_one` calls do. */
  function ConsumeOnes<T>(m: Mem<T>, h: Handle, k: nat): Consumed<T>
    requires Wf(m)
    decreases k
  {
    if k == 0 then Consumed(m, h, [])
    else
      var one := Consume(m, h, 1);
      var rest := ConsumeOnes(one.mem, one.handle, k - 1);
      rest.(entries := one.entries + rest.entries)
  }

  lemma {:induction false} PutAllSplit<T>(size: u32, slots: seq<T>, n: nat, a: seq<T>, b: seq<T>)
    requires 0 < size == |slots|
    ensures PutAll(size, slots, Wrap(n), a + b) == PutAll(size, PutAll(size, slots, Wrap(n), a), Wrap(n + |a|), b)
    decreases |b|
  {
    hide And, IsPowOfTwo, Wrap, Rem;
    if b == [] {
      assert a + b == a;
    } else {
      var k := |b| - 1;
      PutAllSplit(size, slots, n, a, b[..k]);
      assert (a + b)[..|a| + k] == a + b[..k];
      WrapAddExact(n, |a| + k);
      WrapAddExact(n + |a|, k);
    }
  }

  /** Reserving one and then the rest leaves the same cache as reserving all at once. */
  lemma ReservePeel<T>(m: Mem<T>, m1: Mem<T>, h: Handle, n: nat, taken: nat, seen: nat, nb: u32)
    requires Indices(m, n, taken) && ProdInv(m.size, h, n, taken, n, seen)
    requires m1.size == m.size && m1.consumer == m.consumer
    requires 1 < nb && Reserve(m, h, nb).count == nb
    ensures var g, one := Reserve(m, h, nb), Reserve(m, h, 1);
            && one.count == 1 && one.idx == g.idx == Wrap(n)
            && Reserve(m1, one.handle, nb - 1) == Grant(g.handle, nb - 1, Wrap(n + 1))
  {
    hide And, IsPowOfTwo, Wrap, Rem;
    WrapSubExact(seen + m.size, n);
    WrapSubExact(taken + m.size, n);
    WrapAddExact(taken, m.size);
    if seen + m.size > n {
      WrapSubExact(seen + m.size, n + 1);
    }
    WrapSubExact(taken + m.size, n + 1);
    WrapAddExact(n, 1);
    WrapAddExact(n, nb);
    WrapAddExact(n + 1, nb - 1);
  }

  /** An accepted batch is its first descriptor produced alone, then the rest. */
  lemma ProducePeel<T>(m: Mem<T>, h: Handle, log: seq<T>, taken: nat, seen: nat, batch: seq<T>)
    requires MemInv(m, log, taken) && ProdInv(m.size, h, |log|, taken, |log|, seen)
    requires 1 < |batch| < TWO32 && Produce(m, h, batch).count == |batch|
    ensures var one := Produce(m, h, batch[..1]);
            && one.count == 1
            && Produce(one.mem, one.handle, batch[1..]) == Produce(m, h, batch).(count := |batch| - 1)
  {
    hide And, IsPowOfTwo, Wrap, Rem;
    var n := |log|;
    var one := Produce(m, h, batch[..1]);
    ReservePeel(m, one.mem, h, n, taken, seen, |batch|);
    assert batch == batch[..1] + batch[1..];
    PutAllSplit(m.size, m.slots, n, batch[..1], batch[1..]);
    assert WrapAdd(WrapAdd(m.producer, 1), |batch| - 1) == WrapAdd(m.producer, |batch|);
  }

  /** If a produce of a batch is accepted, the same descriptors produced one by one leave the very same ring and cache. */
  lemma {:induction false} BatchProduceIsSingles<T>(m: Mem<T>, h: Handle, log: seq<T>, taken: nat, seen: nat, batch: seq<T>)
    requires MemInv(m, log, taken) && ProdInv(m.size, h, |log|, taken, |log|, seen) && |batch| < TWO32
    requires Produce(m, h, batch).count == |batch|
    ensures ProduceOnes(m, h, batch) == Produce(m, h, batch)
    decreases |batch|
  {
    hide And, IsPowOfTwo, Wrap, Rem;
    if batch == [] {
    } else {
      var one := Produce(m, h, batch[..1]);
      var rest := ProduceOnes(one.mem, one.handle, batch[1..]);
      if |batch| == 1 {
        assert batch[..1] == batch;
        assert rest == Produced(one.mem, one.handle, 0);
      } else {
        ProducePeel(m, h, log, taken, seen, batch);
        var seen' := ProduceMeaning(m, h, log, taken, seen, batch[..1]);
        BatchProduceIsSingles(one.mem, one.handle, log + batch[..1], taken, seen', batch[1..]);
        assert rest.count == |batch| - 1;
      }
      assert ProduceOnes(m, h, batch) == rest.(count := one.count + rest.count);
    }
  }

  /** A consume of several entries is one entry consumed alone, then the rest. */
  lemma ConsumePeel<T>(m: Mem<T>, h: Handle, log: seq<T>, taken: nat, avail: nat, nb: u32)
    requires MemInv(m, log, taken) && ConsInv(h, |log|, taken, taken, avail)
    requires |Consume(m, h, nb).entries| > 1
    ensures nb > 1
    ensures var one := Consume(m, h, 1);
            var o, rest := Consume(m, h, nb), Consume(one.mem, one.handle, nb - 1);
            && |one.entries| == 1
            && |rest.entries| == |o.entries| - 1
            && rest.mem == o.mem && rest.handle == o.handle
  {
    hide And, IsPowOfTwo, Wrap, Rem;
    var k := |Consume(m, h, nb).entries|;
    WrapSubExact(avail, taken);
    WrapSubExact(|log|, taken);
    WrapSubExact(|log|, taken + 1);
    if avail > taken {
      WrapSubExact(avail, taken + 1);
    }
    WrapAddExact(taken, 1);
    WrapAddExact(taken, k);
    WrapAddExact(taken + 1, k - 1);
  }

  /** If a consume hands out k entries, k single consumes hand out the same entries and leave the very same ring and cache. */
  lemma {:induction false} BatchConsumeIsSingles<T>(m: Mem<T>, h: Handle, log: seq<T>, taken: nat, avail: nat, nb: u32)
    requires MemInv(m, log, taken) && ConsInv(h, |log|, taken, taken, avail)
    requires Consume(m, h, nb).entries != []
    ensures ConsumeOnes(m, h, |Consume(m, h, nb).entries|) == Consume(m, h, nb)
    decreases nb
  {
    hide And, IsPowOfTwo, Wrap, Rem;
    var o := Consume(m, h, nb);
    var one := Consume(m, h, 1);
    var rest := ConsumeOnes(one.mem, one.handle, |o.entries| - 1);
    if |o.entries| == 1 {
      SinglePeel(m, h, nb);
      assert rest == Consumed(one.mem, one.handle, []);
    } else {
      ConsumeRest(m, h, log, taken, avail, nb);
      var avail' := ConsumeMeaning(m, h, log, taken, avail, 1);
      BatchConsumeIsSingles(one.mem, one.handle, log, taken + 1, avail', nb - 1);
    }
    assert ConsumeOnes(m, h, |o.entries|) == rest.(entries := one.entries + rest.entries);
  }

  lemma ConsumeRest<T>(m: Mem<T>, h: Handle, log: seq<T>, taken: nat, avail: nat, nb: u32)
    requires MemInv(m, log, taken) && ConsInv(h, |log|, taken, taken, avail)
    requires |Consume(m, h, nb).entries| > 1
    ensures nb > 1
    ensures var one := Consume(m, h, 1);
            var o, rest := Consume(m, h, nb), Consume(one.mem, one.handle, nb - 1);
            && |one.entries| == 1
            && rest.entries != []
            && o == rest.(entries := one.entries + rest.entries)
  {
    hide And, IsPowOfTwo, Wrap, Rem;
    ConsumePeel(m, h, log, taken, avail, nb);
    var one := Consume(m, h, 1);
    var _ := ConsumeMeaning(m, h, log, taken, avail, nb);
    var avail' := ConsumeMeaning(m, h, log, taken, avail, 1);
    var _ := ConsumeMeaning(one.mem, one.handle, log, taken + 1, avail', nb - 1);
    Slices(log, taken, taken + 1, taken + |Consume(m, h, nb).entries|);
  }

  lemma SinglePeel<T>(m: Mem<T>, h: Handle, nb: u32)
    requires Wf(m) && |Consume(m, h, nb).entries| == 1
    ensures Consume(m, h, 1) == Consume(m, h, nb)
  {
    hide And, IsPowOfTwo, Wrap, Rem;
  }

  // ----- Whole calls are runs of the machine -----

  lemma ExecThen<T>(s: Sys<T>, es: seq<Event<T>>, e: Event<T>)
    requires Exec(s, es).Some? && Enabled(Exec(s, es).value, e)
    ensures Exec(s, es + [e]) == Some(Next(Exec(s, es).value, e))
  {
    assert (es + [e])[..|es|] == es;
  }

  function Writes<T>(k: nat): (es: seq<Event<T>>)
    ensures |es| == k
  {
    if k == 0 then [] else Writes(k - 1) + [WriteSlot]
  }

  function Reads<T>(k: nat): (es: seq<Event<T>>)
    ensures |es| == k
  {
    if k == 0 then [] else Reads(k - 1) + [ReadSlot]
  }

  /** A producing side in the middle of its batch, k slots written. */
  function Writing<T>(s: Sys<T>, k: nat): Sys<T>
    requires Wf(s.mem) && k <= |s.p.batch|
  {
    s.(mem := s.mem.(slots := PutAll(s.mem.size, s.mem.slots, s.p.idx, s.p.batch[..k])),
       p := s.p.(written := k, idx := WrapAdd(s.p.idx, k)))
  }

  lemma {:induction false} WritesRun<T>(s: Sys<T>, k: nat)
    requires Wf(s.mem) && k <= |s.p.batch| && s.p.written == 0
    ensures Exec(s, Writes(k)) == Some(Writing(s, k))
  {
    hide And, IsPowOfTwo, Rem;
    if k == 0 {
      assert s.p.batch[..0] == [];
    } else {
      WritesRun(s, k - 1);
      ExecThen(s, Writes(k - 1), WriteSlot);
      assert s.p.batch[..k][..k - 1] == s.p.batch[..k - 1];
      WrapStep(s.p.idx, k - 1);
    }
  }

  /** A consuming side in the middle of its call, k slots read. */
  function Reading<T>(s: Sys<T>, k: nat): Sys<T>
    requires Wf(s.mem)
  {
    s.(c := s.c.(got := GetAll(s.mem, s.c.idx, k), idx := WrapAdd(s.c.idx, k)))
  }

  lemma GetNone<T>(m: Mem<T>, idx: u32)
    requires Wf(m)
    ensures GetAll(m, idx, 0) == []
  {
  }

  lemma GetOneMore<T>(m: Mem<T>, idx: u32, k: nat)
    requires Wf(m)
    ensures GetAll(m, idx, k + 1) == GetAll(m, idx, k) + [GetSlot(m, WrapAdd(idx, k))]
  {
    hide And, IsPowOfTwo, Wrap;
  }

  lemma {:induction false} ReadsRun<T>(s: Sys<T>, k: nat)
    requires Wf(s.mem) && k <= s.c.count && s.c.got == []
    ensures Exec(s, Reads(k)) == Some(Reading(s, k))
  {
    hide And, IsPowOfTwo, Wrap, GetAll, GetSlot;
    if k == 0 {
      WrapZero(s.c.idx);
      GetNone(s.mem, s.c.idx);
    } else {
      ReadsRun(s, k - 1);
      ExecThen(s, Reads(k - 1), ReadSlot);
      GetOneMore(s.mem, s.c.idx, k - 1);
      WrapStep(s.c.idx, k - 1);
    }
  }

  lemma {:induction false} ExecConcat<T>(s: Sys<T>, a: seq<Event<T>>, b: seq<Event<T>>)
    requires Exec(s, a).Some?
    ensures Exec(s, a + b) == Exec(Exec(s, a).value, b)
    decreases |b|
  {
    hide Next, Enabled;
    if b == [] {
      assert a + b == a;
    } else {
      var n := |b| - 1;
      ExecConcat(s, a, b[..n]);
      assert (a + b)[..|a| + n] == a + b[..n];
    }
  }

  /** The events of one `produce` call: a refused batch ends with the reservation. */
  function ProduceEvents<T>(batch: seq<T>, accepted: bool): seq<Event<T>> {
    if accepted then [ReserveFor(batch)] + Writes(|batch|) + [SubmitBatch] else [ReserveFor(batch)]
  }

  /** The events of one `consume` call that finds k entries. */
  function ConsumeEvents<T>(nb: u32, k: nat): seq<Event<T>> {
    if k > 0 then [PeekFor(nb)] + Reads(k) + [ReleaseBatch] else [PeekFor(nb)]
  }

  /** One `produce` call with nothing in between is a run of the machine that ends idle, with the call's ring and cache. */
  lemma ProduceIsRun<T>(s: Sys<T>, batch: seq<T>)
    requires Wf(s.mem) && s.p.batch == [] && s.p.written == 0 && 0 < |batch| < TWO32
    ensures var o := Produce(s.mem, s.p.handle, batch);
            var r := Exec(s, ProduceEvents(batch, o.count > 0));
            && r.Some? && r.value.mem == o.mem && r.value.p.handle == o.handle
            && r.value.p.batch == [] && r.value.p.written == 0 && r.value.c == s.c
            && (o.count > 0 ==> Exec(s, [ReserveFor(batch)] + Writes(|batch|)).Some?
                                && Exec(s, [ReserveFor(batch)] + Writes(|batch|)).value.p.batch == batch)
  {
    hide And, IsPowOfTwo, Wrap, Rem;
    var e := ReserveFor(batch);
    ExecThen(s, [], e);
    assert [] + [e] == [e];
    var t := Next(s, e);
    if Reserve(s.mem, s.p.handle, |batch|).count > 0 {
      WritesRun(t, |batch|);
      assert batch[..|batch|] == batch;
      ExecConcat(s, [e], Writes(|batch|));
      ExecThen(s, [e] + Writes(|batch|), SubmitBatch);
    }
  }

  /** One `consume` call with nothing in between is a run of the machine that ends idle and delivers the call's entries. */
  lemma ConsumeIsRun<T>(s: Sys<T>, nb: u32)
    requires Wf(s.mem) && s.c.count == 0 && nb > 0
    ensures var o := Consume(s.mem, s.c.handle, nb);
            var k := |o.entries|;
            var r := Exec(s, ConsumeEvents(nb, k));
            && r.Some? && r.value.mem == o.mem && r.value.c.handle == o.handle && r.value.c.count == 0 && r.value.p == s.p
            && (k > 0 ==> Exec(s, [PeekFor(nb)] + Reads(k)).Some? && Exec(s, [PeekFor(nb)] + Reads(k)).value.c.got == o.entries)
  {
    hide And, IsPowOfTwo, Wrap, Rem;
    var e := PeekFor(nb);
    ExecThen(s, [], e);
    assert [] + [e] == [e];
    var t := Next(s, e);
    var k := t.c.count;
    if k > 0 {
      ReadsRun(t, k);
      ExecConcat(s, [e], Reads(k));
      ExecThen(s, [e] + Reads(k), ReleaseBatch);
    }
  }
}

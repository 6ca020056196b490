/**
 The sending half of an AF_XDP socket under a running kernel: a tx queue, a completion
 queue and the region the packets lie in. The kernel takes descriptors from the tx ring,
 puts the bytes they describe on the wire at any time, any number of times, while it holds
 them, and completes them in any order. Kernel progress is a nondeterministic number of
 kernel steps before each user call.
 */
module Transmit {
  import opened Words
  import opened Frames
  import opened Region
  import opened Paths
  import opened Queues
  import R = Ring

  /** The bytes each descriptor describes. */
  function Payloads(bytes: seq<byte>, descs: seq<FrameDesc>): (r: seq<seq<byte>>)
    ensures |r| == |descs|
  {
    seq(|descs|, i requires 0 <= i < |descs| => Contents(bytes, descs[i]))
  }

  /**
   What has happened to the submissions, which are numbered in order: `taken` of them have left the tx ring; the
   kernel holds those numbered `flying`; it has completed those numbered `landed`, whose addresses are `completed`;
   and what it has put on the wire were those numbered `aired`.
   */
  datatype Books = Books(
    submitted: seq<XdpDesc>, payloads: seq<seq<byte>>, taken: nat,
    held: seq<XdpDesc>, flying: seq<nat>,
    completed: seq<usize>, landed: seq<nat>,
    wire: seq<seq<byte>>, aired: seq<nat>)

  const NO_BOOKS: Books := Books([], [], 0, [], [], [], [], [], [])

  /** Each submission taken is held or completed, once. */
  ghost predicate Once(b: Books) {
    forall i: nat :: multiset(b.landed)[i] + multiset(b.flying)[i] == if i < b.taken then 1 else 0
  }

  ghost predicate Numbered(b: Books)
    requires b.taken <= |b.submitted|
  {
    && |b.held| == |b.flying| && |b.completed| == |b.landed|
    && (forall j :: 0 <= j < |b.flying| ==> b.flying[j] < b.taken && b.held[j] == b.submitted[b.flying[j]])
    && (forall j :: 0 <= j < |b.landed| ==> b.landed[j] < b.taken && b.completed[j] == b.submitted[b.landed[j]].addr)
  }

  /** The wire has seen nothing but packets as they were submitted. */
  ghost predicate Aired(b: Books) {
    && |b.wire| == |b.aired|
    && (forall p :: 0 <= p < |b.aired| ==> b.aired[p] < |b.payloads| && b.wire[p] == b.payloads[b.aired[p]])
  }

  ghost predicate BooksOk(b: Books) {
    && b.taken <= |b.submitted| == |b.payloads|
    && Numbered(b) && Once(b) && Aired(b)
    && multiset(b.completed) + multiset(Addrs(b.held)) == multiset(Addrs(b.submitted)[..b.taken])
  }

  /** Submission i still lies in memory as it was submitted. */
  ghost predicate Intact(b: Books, bytes: seq<byte>, i: nat)
    requires i < |b.submitted| && i < |b.payloads|
  {
    Contents(bytes, FromRx(b.submitted[i])) == b.payloads[i]
  }

  /** Every submission whose completion the user has not yet read is intact. */
  ghost predicate InFlight(b: Books, bytes: seq<byte>, read: nat)
    requires |b.submitted| == |b.payloads| && read <= |b.landed|
  {
    forall i: nat :: i < |b.submitted| && i !in b.landed[..read] ==> Intact(b, bytes, i)
  }

  // ----- What kernel and user do to the books -----

  function Taken(b: Books): Books
    requires b.taken < |b.submitted|
  {
    b.(taken := b.taken + 1, held := b.held + [b.submitted[b.taken]], flying := b.flying + [b.taken])
  }

  function Completed(b: Books, j: nat): Books
    requires j < |b.held| == |b.flying|
  {
    b.(held := b.held[..j] + b.held[j + 1..], flying := b.flying[..j] + b.flying[j + 1..],
       completed := b.completed + [b.held[j].addr], landed := b.landed + [b.flying[j]])
  }

  function Sent(b: Books, entries: seq<XdpDesc>, payloads: seq<seq<byte>>): Books {
    b.(submitted := b.submitted + entries, payloads := b.payloads + payloads)
  }

  lemma TakenOnce(b: Books)
    requires Once(b) && b.taken < |b.submitted|
    ensures Once(Taken(b))
  {
    forall i: nat ensures multiset(b.flying + [b.taken])[i] == multiset(b.flying)[i] + if i == b.taken then 1 else 0 {
    }
  }

  lemma TakenNumbered(b: Books)
    requires b.taken < |b.submitted| && Numbered(b)
    ensures Numbered(Taken(b))
  {
  }

  lemma TakenAddrs(b: Books)
    requires b.taken < |b.submitted|
    requires multiset(b.completed) + multiset(Addrs(b.held)) == multiset(Addrs(b.submitted)[..b.taken])
    ensures var t := Taken(b); multiset(t.completed) + multiset(Addrs(t.held)) == multiset(Addrs(t.submitted)[..t.taken])
  {
    AddrsConcat(b.held, [b.submitted[b.taken]]);
    TakeOne(Addrs(b.submitted), b.taken, multiset(b.completed), Addrs(b.held));
    assert Addrs([b.submitted[b.taken]]) == [Addrs(b.submitted)[b.taken]];
  }

  lemma TakenOk(b: Books)
    requires BooksOk(b) && b.taken < |b.submitted|
    ensures BooksOk(Taken(b))
  {
    hide Once, Numbered, Addrs;
    TakenOnce(b);
    TakenNumbered(b);
    TakenAddrs(b);
  }

  /** What was taken is held or completed. */
  lemma BooksCount(b: Books)
    requires BooksOk(b)
    ensures |b.completed| + |b.held| == b.taken
  {
    assert |multiset(b.completed)| == |b.completed| && |multiset(Addrs(b.held))| == |b.held|;
    assert |multiset(Addrs(b.submitted)[..b.taken])| == b.taken;
  }

  lemma MoveCount<T>(to: seq<T>, from: seq<T>, j: nat, x: T)
    requires j < |from|
    ensures multiset(to + [from[j]])[x] + multiset(from[..j] + from[j + 1..])[x] == multiset(to)[x] + multiset(from)[x]
  {
    PostOne(multiset(to) + multiset(from), to, from, j);
    assert (multiset(to + [from[j]]) + multiset(from[..j] + from[j + 1..]))[x] == (multiset(to) + multiset(from))[x];
  }

  lemma CompletedOnce(b: Books, j: nat)
    requires Once(b) && j < |b.held| == |b.flying|
    ensures Once(Completed(b, j))
  {
    forall i: nat ensures multiset(b.landed + [b.flying[j]])[i] + multiset(b.flying[..j] + b.flying[j + 1..])[i]
                       == if i < b.taken then 1 else 0
    {
      MoveCount(b.landed, b.flying, j, i);
    }
  }

  lemma CompletedNumbered(b: Books, j: nat)
    requires b.taken <= |b.submitted| && Numbered(b) && j < |b.held|
    ensures Numbered(Completed(b, j))
  {
  }

  lemma CompletedAddrs(b: Books, j: nat)
    requires j < |b.held| == |b.flying| && b.taken <= |b.submitted|
    requires multiset(b.completed) + multiset(Addrs(b.held)) == multiset(Addrs(b.submitted)[..b.taken])
    ensures var c := Completed(b, j); multiset(c.completed) + multiset(Addrs(c.held)) == multiset(Addrs(c.submitted)[..c.taken])
  {
    PostOne(multiset(Addrs(b.submitted)[..b.taken]), b.completed, Addrs(b.held), j);
    assert Addrs(b.held)[..j] + Addrs(b.held)[j + 1..] == Addrs(b.held[..j] + b.held[j + 1..]);
  }

  lemma CompletedOk(b: Books, j: nat)
    requires BooksOk(b) && j < |b.held| == |b.flying|
    ensures BooksOk(Completed(b, j))
  {
    hide Once, Numbered, Addrs;
    CompletedOnce(b, j);
    CompletedNumbered(b, j);
    CompletedAddrs(b, j);
  }

  lemma SentOk(b: Books, entries: seq<XdpDesc>, payloads: seq<seq<byte>>)
    requires BooksOk(b) && |entries| == |payloads|
    ensures BooksOk(Sent(b, entries, payloads))
  {
    assert Addrs(b.submitted + entries)[..b.taken] == Addrs(b.submitted)[..b.taken];
  }

  lemma SentInFlight(b: Books, bytes: seq<byte>, read: nat, descs: seq<FrameDesc>)
    requires BooksOk(b) && read <= |b.landed| && InFlight(b, bytes, read)
    requires forall i :: 0 <= i < |descs| ==> descs[i].data < TWO32
    ensures InFlight(Sent(b, TxEntries(descs), Payloads(bytes, descs)), bytes, read)
  {
    var b' := Sent(b, TxEntries(descs), Payloads(bytes, descs));
    forall i: nat | i < |b'.submitted| && i !in b'.landed[..read] ensures Intact(b', bytes, i) {
      if i < |b.submitted| {
        assert Intact(b, bytes, i);
      } else {
        DescriptorRoundTrip(descs[i - |b.submitted|]);
      }
    }
  }

  /** What the kernel holds has not been completed. */
  lemma FlyingIsIntact(b: Books, bytes: seq<byte>, read: nat, j: nat)
    requires BooksOk(b) && read <= |b.landed| && InFlight(b, bytes, read) && j < |b.flying|
    ensures Contents(bytes, FromRx(b.held[j])) == b.payloads[b.flying[j]]
  {
    var i := b.flying[j];
    assert multiset(b.flying)[i] >= 1;
    assert multiset(b.landed)[i] == 0;
    assert i !in b.landed;
    assert Intact(b, bytes, i);
  }

  // ----- The path -----

  class TxPath {
    const txq: TxQueue
    const cq: CompQueue
    const region: UmemRegion
    var held: seq<XdpDesc>
    var wire: seq<seq<byte>>

    ghost var books: Books
    ghost var seen: nat
    ghost var read: nat
    ghost var avail: nat

    ghost function Repr(): set<object> {
      {this, txq.ring, txq.ring.mem, txq.ring.mem.slots, cq.ring, cq.ring.mem, cq.ring.mem.slots}
    }

    ghost predicate TxOk()
      reads this, txq.ring, txq.ring.mem, txq.ring.mem.slots
    {
      && txq.ring.mem.Valid()
      && R.MemInv(txq.ring.mem.View(), books.submitted, books.taken)
      && R.ProdInv(txq.ring.mem.size, txq.ring.View(), |books.submitted|, books.taken, |books.submitted|, seen)
    }

    ghost predicate CompOk()
      reads this, cq.ring, cq.ring.mem, cq.ring.mem.slots
    {
      && cq.ring.mem.Valid()
      && R.MemInv(cq.ring.mem.View(), books.completed, read)
      && R.ConsInv(cq.ring.View(), |books.completed|, read, read, avail)
    }

    /** The kernel's own state is the books'. */
    ghost predicate KernelOk()
      reads this
    {
      && BooksOk(books) && held == books.held && wire == books.wire
      && |held| == |books.flying| && read <= |books.completed| == |books.landed|
    }

    /** All but the bytes in the region. */
    ghost predicate RingsOk()
      reads Repr()
    {
      TxOk() && CompOk() && KernelOk() && region.mem !in Repr() && region.Valid()
    }

    ghost predicate Valid()
      reads Repr(), region.mem
    {
      RingsOk() && InFlight(books, region.mem[..], read)
    }

    /** Two queues nothing has gone through yet. */
    constructor (txq: TxQueue, cq: CompQueue, region: UmemRegion)
      requires txq.ring.mem.Valid() && txq.ring.mem.producer == txq.ring.mem.consumer == 0
      requires txq.ring.View() == R.Handle(0, txq.ring.mem.size)
      requires cq.ring.mem.Valid() && cq.ring.mem.producer == cq.ring.mem.consumer == 0 && cq.ring.View() == R.Handle(0, 0)
      requires region.Valid() && region.mem !in {txq.ring, txq.ring.mem, txq.ring.mem.slots, cq.ring, cq.ring.mem, cq.ring.mem.slots}
      ensures Valid() && this.txq == txq && this.cq == cq && this.region == region
      ensures books == NO_BOOKS && read == 0
    {
      hide And, IsPowOfTwo, Wrap, Rem, R.MemInv, R.ProdInv, R.ConsInv;
      this.txq, this.cq, this.region := txq, cq, region;
      held, wire, books, seen, read, avail := [], [], NO_BOOKS, 0, 0, 0;
      new;
      R.InitInv(txq.ring.mem.size, txq.ring.mem.slots[..]);
      R.InitInv(cq.ring.mem.size, cq.ring.mem.slots[..]);
    }

    /** The kernel takes the oldest tx entry, if there is one. */
    method KernelTake()
      requires Valid()
      modifies this`held, this`books, txq.ring.mem`consumer
      ensures Valid()
      ensures books == if old(books.taken) < |old(books.submitted)| then Taken(old(books)) else old(books)
    {
      hide And, IsPowOfTwo, Wrap, Rem, BooksOk, InFlight;
      var mem := txq.ring.mem;
      R.Occupancy(mem.View(), books.submitted, books.taken);
      if mem.producer != mem.consumer {
        R.TakeMeaning(mem.View(), books.submitted, books.taken);
        TakenOk(books);
        TakenInFlight(books, region.mem[..], read);
        held := held + [mem.slots[R.SlotOf(mem.size, mem.consumer)]];
        mem.consumer := WrapAdd(mem.consumer, 1);
        books := Taken(books);
      }
    }

    /** The kernel puts the bytes of the i-th frame it holds on the wire. */
    method KernelTransmit(i: nat)
      requires Valid() && i < |held|
      modifies this`wire, this`books
      ensures Valid() && books == old(books).(wire := wire, aired := books.aired)
      ensures wire == old(wire) + [Contents(region.mem[..], FromRx(held[i]))]
      ensures wire == old(wire) + [books.payloads[books.flying[i]]] && books.aired == old(books.aired) + [books.flying[i]]
    {
      hide And, IsPowOfTwo, Wrap, Rem;
      var d := FromRx(held[i]);
      FlyingIsIntact(books, region.mem[..], read, i);
      var pkt := if d.addr + d.data <= region.mem.Length then region.mem[d.addr..d.addr + d.data] else [];
      assert pkt == Contents(region.mem[..], d);
      wire := wire + [pkt];
      books := books.(wire := wire, aired := books.aired + [books.flying[i]]);
    }

    /** The kernel completes the i-th frame it holds, if the completion ring has room. */
    method KernelComplete(i: nat)
      requires Valid() && i < |held|
      modifies this`held, this`books, cq.ring.mem`producer, cq.ring.mem.slots
      ensures Valid()
      ensures books == if |old(books.completed)| - read < cq.ring.mem.size then Completed(old(books), i) else old(books)
    {
      hide And, IsPowOfTwo, Wrap, Rem, BooksOk, InFlight;
      var mem := cq.ring.mem;
      ghost var m := mem.View();
      R.Occupancy(m, books.completed, read);
      if WrapSub(mem.producer, mem.consumer) < mem.size {
        var x := held[i].addr;
        R.PostMeaning(m, books.completed, read, x);
        CompletedOk(books, i);
        CompletedInFlight(books, region.mem[..], read, i);
        mem.slots[R.SlotOf(mem.size, mem.producer)] := x;
        mem.producer := WrapAdd(mem.producer, 1);
        held := held[..i] + held[i + 1..];
        books := Completed(books, i);
        assert mem.View() == R.Submit(m.(slots := R.PutSlot(m.size, m.slots, m.producer, x)), 1);
        assert CompOk() && TxOk();
      }
    }

    method KernelStep()
      requires Valid()
      modifies this`held, this`wire, this`books, txq.ring.mem`consumer, cq.ring.mem`producer, cq.ring.mem.slots
      ensures Valid() && books.taken >= old(books.taken) && old(books.completed) <= books.completed
      ensures books.submitted == old(books.submitted) && books.payloads == old(books.payloads)
    {
      hide And, IsPowOfTwo, Wrap, Rem, BooksOk, InFlight, R.MemInv, R.ProdInv, R.ConsInv;
      var i: int := *;
      var transmits: bool := *;
      if 0 <= i < |held| && transmits {
        KernelTransmit(i);
      } else if 0 <= i < |held| {
        KernelComplete(i);
      } else {
        KernelTake();
      }
    }

    /** The kernel sees to it that a completion is waiting, if anything is outstanding. */
    method KernelProgress()
      requires Valid()
      modifies this`held, this`books, txq.ring.mem`consumer, cq.ring.mem`producer, cq.ring.mem.slots
      ensures Valid() && books.taken >= old(books.taken) && old(books.completed) <= books.completed
      ensures NotEnqueued(old(books), books)
      ensures read < |books.submitted| ==> read < |books.completed|
    {
      hide And, IsPowOfTwo, Wrap, Rem, InFlight, BooksOk, Addrs, R.MemInv, R.ProdInv, R.ConsInv;
      var mem := cq.ring.mem;
      R.Occupancy(mem.View(), books.completed, read);
      BooksCount(books);
      if mem.producer == mem.consumer {
        if held == [] {
          KernelTake();
        }
        if held != [] {
          KernelComplete(0);
        }
      }
    }

    /** Any number of kernel steps, in any order; an eager kernel leaves a completion waiting if anything is outstanding. */
    method Kernel(eager: bool)
      requires Valid()
      modifies this`held, this`wire, this`books, txq.ring.mem`consumer, cq.ring.mem`producer, cq.ring.mem.slots
      ensures Valid() && books.taken >= old(books.taken) && old(books.completed) <= books.completed
      ensures NotEnqueued(old(books), books)
      ensures eager && read < |books.submitted| ==> read < |books.completed|
    {
      hide And, IsPowOfTwo, Wrap, Rem, BooksOk, InFlight, R.MemInv, R.ProdInv, R.ConsInv;
      var steps: nat := *;
      while steps > 0
        invariant Valid() && books.taken >= old(books.taken) && old(books.completed) <= books.completed
        invariant NotEnqueued(old(books), books)
      {
        KernelStep();
        steps := steps - 1;
      }
      if eager {
        KernelProgress();
      }
    }

    /** `tx_q.produce` with the history it makes. */
    method Send(descs: seq<FrameDesc>) returns (cnt: nat)
      requires Valid() && |descs| < TWO32 && forall i :: 0 <= i < |descs| ==> descs[i].data < TWO32
      modifies this`books, this`seen, txq.ring, txq.ring.mem`producer, txq.ring.mem.slots
      ensures Valid()
      ensures if |descs| <= books.taken + txq.ring.mem.size - |old(books.submitted)| then
                cnt == |descs| && books == Sent(old(books), TxEntries(descs), Payloads(region.mem[..], descs))
              else
                cnt == 0 && books == old(books)
    {
      hide And, IsPowOfTwo, Wrap, Rem, BooksOk, InFlight;
      ghost var m, h := txq.ring.mem.View(), txq.ring.View();
      cnt := txq.Produce(descs);
      assert Cut(descs) == descs;
      seen := R.ProduceMeaning(m, h, books.submitted, books.taken, seen, TxEntries(descs));
      if |descs| <= books.taken + m.size - |books.submitted| {
        SentOk(books, TxEntries(descs), Payloads(region.mem[..], descs));
        SentInFlight(books, region.mem[..], read, descs);
        books := Sent(books, TxEntries(descs), Payloads(region.mem[..], descs));
      }
    }

    /** `cq.consume` with the history it makes. */
    method Complete(descs: array<FrameDesc>) returns (cnt: nat)
      requires Valid() && descs !in Repr() && (descs as object) != region.mem
      modifies this`read, this`avail, cq.ring, cq.ring.mem`consumer, descs
      ensures Valid()
      ensures cnt <= descs.Length && read == old(read) + cnt <= |books.completed|
      ensures cnt > 0 <==> Wrap(descs.Length) > 0 && old(read) < |books.completed|
      ensures forall i :: 0 <= i < cnt ==> descs[i] == FromComp(books.completed[old(read) + i])
      ensures descs[cnt..] == old(descs[cnt..])
    {
      hide And, IsPowOfTwo, Wrap, Rem, BooksOk, InFlight, R.MemInv, R.ProdInv, R.ConsInv;
      ghost var m, h := cq.ring.mem.View(), cq.ring.View();
      cnt := cq.Consume(descs);
      avail := R.ConsumeMeaning(m, h, books.completed, read, avail, Wrap(descs.Length));
      ReadOut(descs[..], R.Consume(m, h, Wrap(descs.Length)).entries, books.completed, read);
      ReadInFlight(books, region.mem[..], read, read + cnt);
      read := read + cnt;
      assert TxOk() && CompOk();
    }

    /** `cq.consume(descs)` after some kernel progress. */
    method CompleteSome(descs: array<FrameDesc>, eager: bool) returns (k: nat)
      requires Valid() && descs !in Repr() && (descs as object) != region.mem
      modifies Repr(), descs
      ensures Valid() && old(books.completed) <= books.completed
      ensures books.submitted == old(books.submitted) && books.payloads == old(books.payloads)
      ensures k <= descs.Length && read == old(read) + k <= |books.completed|
      ensures k > 0 <==> Wrap(descs.Length) > 0 && old(read) < |books.completed|
      ensures eager && Wrap(descs.Length) > 0 && old(read) < |books.submitted| ==> k > 0
      ensures forall i :: 0 <= i < k ==> descs[i] == FromComp(books.completed[old(read) + i])
    {
      hide And, IsPowOfTwo, Wrap, Rem, BooksOk, InFlight, R.MemInv, R.ProdInv, R.ConsInv;
      Kernel(eager);
      k := Complete(descs);
    }

    /**
     `tx_q.produce_and_wakeup(descs)` after some kernel progress; `wakeupFails` is what the wakeup will say, which it
     also says after the frames were submitted.
     */
    method SendOnce(descs: seq<FrameDesc>, wakeupFails: bool) returns (r: Attempt)
      requires Valid() && 0 < |descs| < TWO32 && forall i :: 0 <= i < |descs| ==> descs[i].data < TWO32
      modifies Repr()
      ensures Valid() && read == old(read) && old(books.completed) <= books.completed && books.taken >= old(books.taken)
      ensures r.Failed? <==> wakeupFails
      ensures Enqueued(old(books), books, descs, region.mem[..]) || NotEnqueued(old(books), books)
      ensures r.Accepted? ==> Enqueued(old(books), books, descs, region.mem[..])
      ensures r.GaveUp? ==> NotEnqueued(old(books), books)
      ensures |descs| <= old(books.taken) + txq.ring.mem.size - |old(books.submitted)| ==> Enqueued(old(books), books, descs, region.mem[..])
    {
      hide And, IsPowOfTwo, Wrap, Rem, BooksOk, InFlight, R.MemInv, R.ProdInv, R.ConsInv;
      Kernel(false);
      var cnt := Send(descs);
      r := if wakeupFails then Failed else if cnt == |descs| then Accepted else GaveUp;
    }

    /**
     `while tx_q.produce_and_wakeup(descs).unwrap() != descs.len() {}`, for as many attempts as `wakeups` has outcomes.
     The batch is on the tx ring exactly once when the loop is left normally and never more than once, and the loop
     is left otherwise only when a wakeup fails.
     */
    method SendUntilAccepted(descs: seq<FrameDesc>, wakeups: seq<bool>) returns (r: Attempt)
      requires Valid() && 0 < |descs| < TWO32 && forall i :: 0 <= i < |descs| ==> descs[i].data < TWO32
      modifies Repr()
      ensures Valid() && read == old(read) && old(books.completed) <= books.completed
      ensures r.GaveUp? ==> NotEnqueued(old(books), books)
      ensures r.Accepted? ==> Enqueued(old(books), books, descs, region.mem[..])
      ensures r.Failed? ==> true in wakeups && (Enqueued(old(books), books, descs, region.mem[..]) || NotEnqueued(old(books), books))
      ensures |wakeups| > 0 && |descs| <= old(books.taken) + txq.ring.mem.size - |old(books.submitted)| ==>
                Enqueued(old(books), books, descs, region.mem[..]) && (r.Failed? <==> wakeups[0]) && !r.GaveUp?
    {
      hide And, IsPowOfTwo, Wrap, Rem, BooksOk, InFlight, R.MemInv, R.ProdInv, R.ConsInv;
      for n := 0 to |wakeups|
        invariant Valid() && read == old(read) && old(books.completed) <= books.completed && books.taken >= old(books.taken)
        invariant NotEnqueued(old(books), books)
        invariant n > 0 ==> |descs| > old(books.taken) + txq.ring.mem.size - |old(books.submitted)|
      {
        r := SendOnce(descs, wakeups[n]);
        if !r.GaveUp? {
          return;
        }
      }
      r := GaveUp;
    }
  }

  /** The batch has gone onto the tx ring, after what was there. */
  ghost predicate Enqueued(was: Books, now: Books, descs: seq<FrameDesc>, bytes: seq<byte>) {
    now.submitted == was.submitted + TxEntries(descs) && now.payloads == was.payloads + Payloads(bytes, descs)
  }

  ghost predicate NotEnqueued(was: Books, now: Books) {
    now.submitted == was.submitted && now.payloads == was.payloads
  }

  /** Descriptors filled in from a stretch of the completions are blank handles on that stretch. */
  lemma ReadOut(descs: seq<FrameDesc>, entries: seq<usize>, completed: seq<usize>, at: nat)
    requires |entries| <= |descs| && at + |entries| <= |completed| && entries == completed[at..at + |entries|]
    requires forall i :: 0 <= i < |entries| ==> descs[i] == FromComp(entries[i])
    ensures forall i :: 0 <= i < |entries| ==> descs[i] == FromComp(completed[at + i])
  {
    forall i | 0 <= i < |entries| ensures descs[i] == FromComp(completed[at + i]) {
      assert entries[i] == completed[at + i];
    }
  }

  // ----- What is in flight, step by step -----

  lemma TakenInFlight(b: Books, bytes: seq<byte>, read: nat)
    requires BooksOk(b) && read <= |b.landed| && InFlight(b, bytes, read) && b.taken < |b.submitted|
    ensures InFlight(Taken(b), bytes, read)
  {
    forall i: nat | i < |b.submitted| && i !in b.landed[..read] ensures Intact(Taken(b), bytes, i) {
      assert Intact(b, bytes, i);
    }
  }

  lemma CompletedInFlight(b: Books, bytes: seq<byte>, read: nat, j: nat)
    requires BooksOk(b) && read <= |b.landed| && InFlight(b, bytes, read) && j < |b.held|
    ensures InFlight(Completed(b, j), bytes, read)
  {
    assert (b.landed + [b.flying[j]])[..read] == b.landed[..read];
    forall i: nat | i < |b.submitted| && i !in b.landed[..read] ensures Intact(Completed(b, j), bytes, i) {
      assert Intact(b, bytes, i);
    }
  }

  /** Reading completions only takes submissions out of flight. */
  lemma ReadInFlight(b: Books, bytes: seq<byte>, read: nat, later: nat)
    requires BooksOk(b) && read <= later <= |b.completed| && InFlight(b, bytes, read)
    ensures later <= |b.landed| && InFlight(b, bytes, later)
  {
    assert b.landed[..later][..read] == b.landed[..read];
    forall i: nat | i < |b.submitted| && i !in b.landed[..later] ensures Intact(b, bytes, i) {
      assert i !in b.landed[..later][..read];
    }
  }
}

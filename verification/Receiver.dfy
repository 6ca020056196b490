/**
 The receiving half of an AF_XDP socket pair under a running kernel, and the receiver loop
 of `dev1_to_dev2_multithreaded` (examples/dev1_to_dev2.rs:388-462).

 Kernel progress is a nondeterministic number of kernel steps before each user call.
 */
module Receiver {
  import opened Words
  import opened Frames
  import opened Paths
  import opened Queues
  import R = Ring

  /** Descriptors filled in from a stretch of the history are descriptors of that stretch. */
  lemma ReadOut(descs: seq<FrameDesc>, entries: seq<XdpDesc>, posted: seq<XdpDesc>, at: nat)
    requires |entries| <= |descs| && at + |entries| <= |posted| && entries == posted[at..at + |entries|]
    requires forall i :: 0 <= i < |entries| ==> descs[i] == FromRx(entries[i])
    ensures forall i :: 0 <= i < |entries| ==> descs[i] == FromRx(posted[at + i])
    ensures FrameAddrs(descs[..|entries|]) == Addrs(posted)[at..at + |entries|]
  {
    forall i | 0 <= i < |entries| ensures descs[i] == FromRx(posted[at + i]) {
      assert entries[i] == posted[at + i];
    }
  }

  lemma PostDesc(log: multiset<usize>, posted: seq<XdpDesc>, held: seq<usize>, i: nat, x: XdpDesc)
    requires i < |held| && x.addr == held[i] && multiset(Addrs(posted)) + multiset(held) == log
    ensures multiset(Addrs(posted + [x])) + multiset(held[..i] + held[i + 1..]) == log
  {
    AddrsConcat(posted, [x]);
    PostOne(log, Addrs(posted), held, i);
    assert Addrs([x]) == [held[i]];
  }

  /** A fill queue, an rx queue, and the frames the kernel has taken from one and not yet posted on the other. */
  class RxPath {
    const fq: FillQueue
    const rxq: RxQueue
    var held: seq<usize>

    /** Every address ever submitted to the fill ring, and how many of them the kernel has taken. */
    ghost var filled: seq<usize>
    ghost var taken: nat
    ghost var seen: nat

    /** Every descriptor the kernel ever posted on the rx ring, and how many of them the user has read. */
    ghost var posted: seq<XdpDesc>
    ghost var read: nat
    ghost var avail: nat

    ghost function Repr(): set<object> {
      {this, fq.ring, fq.ring.mem, fq.ring.mem.slots, rxq.ring, rxq.ring.mem, rxq.ring.mem.slots}
    }

    ghost predicate FillOk()
      reads this, fq.ring, fq.ring.mem, fq.ring.mem.slots
    {
      && fq.ring.mem.Valid()
      && R.MemInv(fq.ring.mem.View(), filled, taken)
      && R.ProdInv(fq.ring.mem.size, fq.ring.View(), |filled|, taken, |filled|, seen)
    }

    ghost predicate RxOk()
      reads this, rxq.ring, rxq.ring.mem, rxq.ring.mem.slots
    {
      && rxq.ring.mem.Valid()
      && R.MemInv(rxq.ring.mem.View(), posted, read)
      && R.ConsInv(rxq.ring.View(), |posted|, read, read, avail)
    }

    /** The kernel posts what it took, each frame once. */
    ghost predicate KernelOk()
      reads this
    {
      && taken <= |filled| && read <= |posted|
      && multiset(Addrs(posted)) + multiset(held) == multiset(filled[..taken])
    }

    ghost predicate Valid()
      reads Repr()
    {
      FillOk() && RxOk() && KernelOk()
    }

    /** Two queues nothing has gone through yet. */
    constructor (fq: FillQueue, rxq: RxQueue)
      requires fq.ring.mem.Valid() && fq.ring.mem.producer == fq.ring.mem.consumer == 0
      requires fq.ring.View() == R.Handle(0, fq.ring.mem.size)
      requires rxq.ring.mem.Valid() && rxq.ring.mem.producer == rxq.ring.mem.consumer == 0 && rxq.ring.View() == R.Handle(0, 0)
      ensures Valid() && this.fq == fq && this.rxq == rxq
      ensures filled == [] && taken == 0 && posted == [] && read == 0
    {
      hide And, IsPowOfTwo, Wrap, Rem, R.MemInv, R.ProdInv, R.ConsInv;
      this.fq, this.rxq := fq, rxq;
      held, filled, taken, seen, posted, read, avail := [], [], 0, 0, [], 0, 0;
      new;
      R.InitInv(fq.ring.mem.size, fq.ring.mem.slots[..]);
      R.InitInv(rxq.ring.mem.size, rxq.ring.mem.slots[..]);
    }

    /** The kernel takes the oldest fill entry, if there is one. */
    method KernelTake()
      requires Valid()
      modifies this`held, this`taken, fq.ring.mem`consumer
      ensures Valid() && taken == old(taken) + if old(taken) < |filled| then 1 else 0
      ensures held == old(held) + filled[old(taken)..taken]
    {
      hide And, IsPowOfTwo, Wrap, Rem, Addrs;
      var mem := fq.ring.mem;
      ghost var m := mem.View();
      R.Occupancy(m, filled, taken);
      if mem.producer != mem.consumer {
        R.TakeMeaning(m, filled, taken);
        TakeOne(filled, taken, multiset(Addrs(posted)), held);
        assert filled[taken..taken + 1] == [filled[taken]];
        held := held + [mem.slots[R.SlotOf(mem.size, mem.consumer)]];
        mem.consumer := WrapAdd(mem.consumer, 1);
        taken := taken + 1;
      }
    }

    /** The kernel posts a received packet in the i-th frame it holds, if the rx ring has room. */
    method KernelPost(i: nat, len: u32, options: u32)
      requires Valid() && i < |held|
      modifies this`held, this`posted, rxq.ring.mem`producer, rxq.ring.mem.slots
      ensures Valid()
      ensures if |old(posted)| - read < rxq.ring.mem.size then
                posted == old(posted) + [XdpDesc(old(held)[i], len, options)] && held == old(held)[..i] + old(held)[i + 1..]
              else
                posted == old(posted) && held == old(held)
    {
      hide And, IsPowOfTwo, Wrap, Rem, Addrs;
      var mem := rxq.ring.mem;
      ghost var m := mem.View();
      R.Occupancy(m, posted, read);
      if WrapSub(mem.producer, mem.consumer) < mem.size {
        var x := XdpDesc(held[i], len, options);
        R.PostMeaning(m, posted, read, x);
        PostDesc(multiset(filled[..taken]), posted, held, i, x);
        mem.slots[R.SlotOf(mem.size, mem.producer)] := x;
        mem.producer := WrapAdd(mem.producer, 1);
        posted := posted + [x];
        held := held[..i] + held[i + 1..];
        assert mem.View() == R.Submit(m.(slots := R.PutSlot(m.size, m.slots, m.producer, x)), 1);
        assert RxOk() && FillOk();
      }
    }

    method KernelStep()
      requires Valid()
      modifies this`held, this`taken, this`posted, fq.ring.mem`consumer, rxq.ring.mem`producer, rxq.ring.mem.slots
      ensures Valid() && taken >= old(taken) && old(posted) <= posted
    {
      hide And, IsPowOfTwo, Wrap, Rem, R.MemInv, R.ProdInv, R.ConsInv;
      var i: int := *;
      var len: u32 := *;
      var options: u32 := *;
      if 0 <= i < |held| {
        KernelPost(i, len, options);
      } else {
        KernelTake();
      }
    }

    /** A packet arrives: one is left waiting on the rx ring, if the kernel has any frame to put it in. */
    method KernelProgress()
      requires Valid()
      modifies this`held, this`taken, this`posted, fq.ring.mem`consumer, rxq.ring.mem`producer, rxq.ring.mem.slots
      ensures Valid() && taken >= old(taken) && old(posted) <= posted
      ensures old(taken) < |filled| || old(held) != [] ==> read < |posted|
    {
      hide And, IsPowOfTwo, Wrap, Rem, R.MemInv, R.ProdInv, R.ConsInv, Addrs;
      var mem := rxq.ring.mem;
      R.Occupancy(mem.View(), posted, read);
      if mem.producer == mem.consumer {
        if held == [] {
          KernelTake();
        }
        if held != [] {
          var len: u32 := *;
          var options: u32 := *;
          KernelPost(0, len, options);
        }
      }
    }

    /** How many frames the kernel has. */
    ghost function KernelFrames(): int
      reads this
    {
      |filled| - taken + |held| + |posted| - read
    }

    /** Any number of kernel steps, in any order; when a packet `arrives`, one is left waiting if the kernel has a frame. */
    method Kernel(arrives: bool)
      requires Valid()
      modifies this`held, this`taken, this`posted, fq.ring.mem`consumer, rxq.ring.mem`producer, rxq.ring.mem.slots
      ensures Valid() && taken >= old(taken) && old(posted) <= posted
      ensures arrives && KernelFrames() > 0 ==> read < |posted|
    {
      hide And, IsPowOfTwo, Wrap, Rem, R.MemInv, R.ProdInv, R.ConsInv;
      var steps: nat := *;
      while steps > 0
        invariant Valid() && taken >= old(taken) && old(posted) <= posted
      {
        KernelStep();
        steps := steps - 1;
      }
      if arrives {
        KernelProgress();
      }
    }

    /** `fq.produce` with the history it makes. */
    method Fill(descs: seq<FrameDesc>) returns (cnt: nat)
      requires Valid() && |descs| < TWO32
      modifies this`filled, this`seen, fq.ring, fq.ring.mem`producer, fq.ring.mem.slots
      ensures Valid()
      ensures if |descs| <= taken + fq.ring.mem.size - |old(filled)| then
                cnt == |descs| && filled == old(filled) + FrameAddrs(descs)
              else
                cnt == 0 && filled == old(filled)
    {
      hide And, IsPowOfTwo, Wrap, Rem, R.MemInv, R.ProdInv, R.ConsInv;
      ghost var m, h := fq.ring.mem.View(), fq.ring.View();
      cnt := fq.Produce(descs);
      assert Cut(descs) == descs;
      seen := R.ProduceMeaning(m, h, filled, taken, seen, FrameAddrs(descs));
      if |descs| <= taken + m.size - |filled| {
        filled := filled + FrameAddrs(descs);
        assert filled[..taken] == old(filled)[..taken];
      }
    }

    /** `rx_q.consume` with the history it makes. */
    method Receive(descs: array<FrameDesc>) returns (cnt: nat)
      requires Valid() && descs !in Repr()
      modifies this`read, this`avail, rxq.ring, rxq.ring.mem`consumer, descs
      ensures Valid()
      ensures cnt <= descs.Length && read == old(read) + cnt <= |posted|
      ensures cnt > 0 <==> Wrap(descs.Length) > 0 && old(read) < |posted|
      ensures forall i :: 0 <= i < cnt ==> descs[i] == FromRx(posted[old(read) + i])
      ensures FrameAddrs(descs[..cnt]) == Addrs(posted)[old(read)..read]
      ensures descs[cnt..] == old(descs[cnt..])
    {
      hide And, IsPowOfTwo, Wrap, Rem, R.MemInv, R.ProdInv, R.ConsInv;
      ghost var m, h := rxq.ring.mem.View(), rxq.ring.View();
      cnt := rxq.Consume(descs);
      avail := R.ConsumeMeaning(m, h, posted, read, avail, Wrap(descs.Length));
      ReadOut(descs[..], R.Consume(m, h, Wrap(descs.Length)).entries, posted, read);
      read := read + cnt;
      assert descs[..][..cnt] == descs[..cnt];
    }

    /**
     `while fq.produce_and_wakeup(descs, ..).unwrap() != descs.len() {}`, for as many attempts as `wakeups` has
     outcomes. The batch is on the fill ring exactly once when the loop ends, also when a wakeup fails after the
     frames were submitted, and not at all while it is still being refused.
     */
    method FillUntilAccepted(descs: seq<FrameDesc>, wakeups: seq<bool>) returns (r: Attempt)
      requires Valid() && 0 < |descs| < TWO32
      modifies Repr()
      ensures Valid() && read == old(read) && old(posted) <= posted
      ensures filled == if r.GaveUp? then old(filled) else old(filled) + FrameAddrs(descs)
      ensures r.Failed? ==> true in wakeups
      ensures |wakeups| > 0 && |descs| <= old(taken) + fq.ring.mem.size - |old(filled)| ==>
                r == if wakeups[0] then Failed else Accepted
    {
      hide And, IsPowOfTwo, Wrap, Rem, R.MemInv, R.ProdInv, R.ConsInv;
      for n := 0 to |wakeups|
        invariant Valid() && read == old(read) && old(posted) <= posted && taken >= old(taken)
        invariant filled == old(filled)
        invariant n > 0 ==> |descs| > old(taken) + fq.ring.mem.size - |old(filled)|
      {
        Kernel(false);
        var cnt := Fill(descs);
        if cnt > 0 && wakeups[n] {
          return Failed;
        }
        if cnt == |descs| {
          return Accepted;
        }
      }
      return GaveUp;
    }
  }

  /** The frames on the kernel's side: in the fill ring, in its hands, or in the rx ring. */
  ghost function KernelSide(path: RxPath): multiset<usize>
    requires path.taken <= |path.filled| && path.read <= |path.posted|
    reads path
  {
    multiset(path.filled[path.taken..]) + multiset(path.held) + multiset(Addrs(path.posted)[path.read..])
  }

  /** What the loop keeps: every resubmission was exactly the frames just received, in order. */
  ghost predicate Recycled(path: RxPath, initial: seq<usize>)
    requires path.read <= |path.posted|
    reads path
  {
    path.filled == initial + Addrs(path.posted)[..path.read]
  }

  /** Then the kernel side holds exactly the frames first submitted, each as often as at the start. */
  lemma KernelSideIsInitial(path: RxPath, initial: seq<usize>)
    requires path.KernelOk() && path.read <= |path.posted| && Recycled(path, initial)
    ensures KernelSide(path) == multiset(initial)
    ensures |path.posted| - path.read <= |initial|
    ensures path.taken >= |path.posted|
    ensures path.KernelFrames() == |initial|
  {
    Cancel(path.filled, path.taken, path.held, Addrs(path.posted), path.read, initial);
  }

  datatype Round = Received(k: nat) | Nothing | Done | Panic

  /**
   What the world does around one poll: whether a packet arrives, whether the poll fails or finds the socket ready,
   which wakeups fail if they are made, and whether the sender is done.
   */
  datatype Poll = Poll(arrives: bool, fails: bool, ready: bool, wakeupFails: bool, refillFails: bool, senderDone: bool)

  predicate Faulty(p: Poll) {
    p.fails || p.wakeupFails || p.refillFails
  }

  /** Polls that have something to report. */
  function Fruitful(polls: seq<Poll>): nat {
    if polls == [] then 0
    else
      var last := polls[|polls| - 1];
      Fruitful(polls[..|polls| - 1]) + if last.arrives && last.ready then 1 else 0
  }

  lemma OneMorePoll(polls: seq<Poll>, n: nat)
    requires n < |polls|
    ensures Fruitful(polls[..n + 1]) == Fruitful(polls[..n]) + if polls[n].arrives && polls[n].ready then 1 else 0
  {
    assert polls[..n + 1][..n] == polls[..n];
  }

  /** The inner loop on what was just consumed: `fq.produce_and_wakeup(&rx_frames[..k])` until accepted. */
  method Resubmit(path: RxPath, descs: seq<FrameDesc>, fails: bool, ghost initial: seq<usize>) returns (r: Round)
    requires path.Valid() && 0 < |descs| <= path.read <= |path.posted| && |initial| == path.fq.ring.mem.size
    requires |descs| < TWO32
    requires path.filled == initial + Addrs(path.posted)[..path.read - |descs|]
    requires FrameAddrs(descs) == Addrs(path.posted)[path.read - |descs|..path.read]
    modifies path.Repr()
    ensures path.Valid() && path.read == old(path.read)
    ensures r == if fails then Panic else Received(|descs|)
    ensures old(path.posted) <= path.posted
    ensures r.Received? ==> Recycled(path, initial)
  {
    hide And, IsPowOfTwo, Wrap, Rem, R.MemInv, R.ProdInv, R.ConsInv;
    ghost var was, k := Addrs(path.posted), |descs|;
    Cancel(path.filled, path.taken, path.held, was, path.read - k, initial);
    var attempt := path.FillUntilAccepted(descs, [fails]);
    assert was <= Addrs(path.posted);
    Regrow(initial, was, Addrs(path.posted), path.read - k, path.read);
    r := if attempt.Failed? then Panic else Received(|descs|);
  }

  /** `rx_q.poll_and_consume(&mut rx_frames[..])` after some kernel progress: no more than the frames it gave the kernel. */
  method PollAndConsume(path: RxPath, frames: array<FrameDesc>, poll: Poll, ghost initial: seq<usize>) returns (k: nat)
    requires path.Valid() && frames !in path.Repr() && Recycled(path, initial) && |initial| <= frames.Length < TWO32
    modifies path.Repr(), frames
    ensures path.Valid() && path.filled == old(path.filled)
    ensures k <= |initial| && path.read == old(path.read) + k <= |path.posted|
    ensures old(path.posted) <= path.posted
    ensures k > 0 <==> poll.ready && frames.Length > 0 && old(path.read) < |path.posted|
    ensures poll.ready && poll.arrives && |initial| > 0 ==> k > 0
    ensures path.filled == initial + Addrs(path.posted)[..path.read - k]
    ensures FrameAddrs(frames[..k]) == Addrs(path.posted)[path.read - k..path.read]
    ensures frames[|initial|..] == old(frames[|initial|..])
  {
    hide And, IsPowOfTwo, Wrap, Rem, R.MemInv, R.ProdInv, R.ConsInv, FrameAddrs;
    ghost var was := Addrs(path.posted);
    path.Kernel(poll.arrives);
    assert Addrs(path.posted)[..path.read] == was[..path.read];
    KernelSideIsInitial(path, initial);
    k := 0;
    WrapBelow(frames.Length);
    if poll.ready {
      k := path.Receive(frames);
      TailKept(old(frames[..]), frames[..], k, |initial|);
    } else {
      NoAddrs(frames[..0]);
    }
  }

  lemma NoAddrs(descs: seq<FrameDesc>)
    requires descs == []
    ensures FrameAddrs(descs) == []
  {
  }

  lemma TailKept(was: seq<FrameDesc>, now: seq<FrameDesc>, k: nat, n: nat)
    requires k <= n <= |was| == |now| && now[k..] == was[k..]
    ensures now[n..] == was[n..]
  {
    assert now[n..] == now[k..][n - k..] && was[n..] == was[k..][n - k..];
  }

  /** One pass of the receiver loop: poll, consume, resubmit what was consumed. */
  method ReceiverRound(path: RxPath, frames: array<FrameDesc>, poll: Poll, ghost initial: seq<usize>) returns (r: Round)
    requires path.Valid() && frames !in path.Repr() && Recycled(path, initial)
    requires |initial| == path.fq.ring.mem.size <= frames.Length < TWO32
    modifies path.Repr(), frames
    ensures path.Valid()
    ensures frames[|initial|..] == old(frames[|initial|..])
    ensures !r.Panic? ==> Recycled(path, initial) && path.read == old(path.read) + if r.Received? then r.k else 0
    ensures r.Panic? ==> Faulty(poll)
    ensures r.Received? ==> r.k > 0
    ensures r.Done? ==> poll.senderDone
    ensures poll.ready && old(path.read) < |old(path.posted)| ==> r.Received? || r.Panic?
    ensures poll.ready && poll.arrives ==> r.Received? || r.Panic?
  {
    hide And, IsPowOfTwo, Wrap, Rem, R.MemInv, R.ProdInv, R.ConsInv;
    assert 1 <= path.fq.ring.mem.size;
    if poll.fails {
      return Panic;
    }
    var k := PollAndConsume(path, frames, poll, initial);
    if k == 0 {
      return if poll.wakeupFails then Panic else if poll.senderDone then Done else Nothing;
    }
    r := Resubmit(path, frames[..k], poll.refillFails, initial);
  }

  /**
   The receiver thread of the multithreaded example, for the given polls. At every loop head, and so whenever the loop
   stops, the kernel side holds exactly the first `fq_size` initial frames; every resubmitted prefix is what was just
   received and is accepted at the first attempt; and the handles from `fq_size` on are never overwritten. The loop
   panics only when a system call fails, finishes only with enough frames or when the sender is done, and every poll
   that has something to report brings it further.
   */
  method ReceiverLoop(path: RxPath, frames: array<FrameDesc>, target: nat, polls: seq<Poll>)
    returns (outcome: Outcome, total: nat)
    requires path.Valid() && frames !in path.Repr()
    requires path.filled == [] && path.taken == 0 && path.posted == [] && path.read == 0
    requires path.fq.ring.mem.size <= frames.Length < TWO32
    modifies path.Repr(), frames
    ensures path.Valid()
    ensures frames[path.fq.ring.mem.size..] == old(frames[path.fq.ring.mem.size..])
    ensures outcome != Panicked ==>
              && total == path.read
              && Recycled(path, old(FrameAddrs(frames[..path.fq.ring.mem.size])))
              && KernelSide(path) == multiset(old(FrameAddrs(frames[..path.fq.ring.mem.size])))
    ensures outcome == Panicked ==> exists n :: 0 <= n < |polls| && Faulty(polls[n])
    ensures outcome == Finished ==> total >= target || exists n :: 0 <= n < |polls| && polls[n].senderDone
    ensures outcome == OutOfRounds ==> Fruitful(polls) <= total < target
  {
    hide And, IsPowOfTwo, Wrap, Rem, R.MemInv, R.ProdInv, R.ConsInv, Addrs, FrameAddrs;
    var size := path.fq.ring.mem.size;
    ghost var initial := FrameAddrs(frames[..size]);
    total := 0;
    var filled := path.Fill(frames[..size]);
    FirstFilled(path, initial);
    outcome := OutOfRounds;
    for n := 0 to |polls|
      invariant path.Valid() && total == path.read && Recycled(path, initial)
      invariant frames[size..] == old(frames[size..])
      invariant total >= Fruitful(polls[..n])
    {
      if total >= target {
        break;
      }
      OneMorePoll(polls, n);
      var r := ReceiverRound(path, frames, polls[n], initial);
      if r.Panic? {
        return Panicked, total;
      }
      if r.Received? {
        total := total + r.k;
      }
      if r.Done? {
        outcome := Finished;
        break;
      }
    }
    KernelSideIsInitial(path, initial);
    assert polls[..|polls|] == polls;
    if total >= target {
      outcome := Finished;
    }
  }

  lemma FirstFilled(path: RxPath, initial: seq<usize>)
    requires path.filled == [] + initial && path.read == 0 <= |path.posted|
    ensures Recycled(path, initial)
  {
  }
}

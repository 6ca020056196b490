/**
 Delivery told along a run: what is submitted is what was last written, what is read is
 what was submitted, whatever else happens in between to other frames, in the kernel, on
 the wire and in other hosts.
 */
module Delivery {
  import opened Words
  import opened Frames
  import opened Region
  import opened Bags
  import opened Protocol
  import opened Ownership

  ghost predicate Holds(h: Host, x: nat, it: Item) {
    x < |h.places| && it in h.places[x].items
  }

  /** A step that only looks, or is about another frame. */
  predicate Spares(h: Host, st: Step, a: usize)
    requires Enabled(h, st)
  {
    st.Read? || Before(h, st).desc.addr != a
  }

  /** No event of the run writes, moves or changes the frame at address a of host n. */
  predicate Untouched(w: World, es: seq<Event>, n: nat, a: usize)
    requires Exec(w, es).Some?
    decreases |es|
  {
    es == [] ||
    (&& (es[0].Act? && es[0].n == n ==> Spares(w.hosts[n], es[0].step, a))
     && Untouched(NextWorld(w, es[0]), es[1..], n, a))
  }

  lemma StepSpares(h: Host, st: Step, id: nat, x: nat, it: Item)
    requires Enabled(h, st) && Holds(h, x, it) && Spares(h, st, it.desc.addr)
    ensures Holds(Next(h, st, id), x, it)
  {
    var i :| 0 <= i < |h.places[x].items| && h.places[x].items[i] == it;
    var now := Next(h, st, id).places[x].items;
    if x == st.x && st.Move? {
      assert now[if i < st.i then i else i - 1] == it;
    } else {
      assert now[i] == it;
    }
  }

  lemma {:induction false} RunSpares(w: World, es: seq<Event>, n: nat, x: nat, it: Item)
    requires Exec(w, es).Some? && n < |w.hosts| && Holds(w.hosts[n], x, it) && Untouched(w, es, n, it.desc.addr)
    ensures n < |Exec(w, es).value.hosts| && Holds(Exec(w, es).value.hosts[n], x, it)
    decreases |es|
  {
    if es == [] {
    } else {
      var e := es[0];
      if e.Act? && e.n == n {
        StepSpares(w.hosts[n], e.step, |w.log.sent|, x, it);
      }
      RunSpares(NextWorld(w, e), es[1..], n, x, it);
    }
  }

  /** Where a frame is described, there is only one description it can be. */
  lemma SameItem(h: Host, st: Step, x: nat, it: Item)
    requires FramesOk(h) && Enabled(h, st) && Holds(h, x, it) && Before(h, st).desc.addr == it.desc.addr
    ensures Before(h, st) == it
  {
    var i :| 0 <= i < |h.places[x].items| && h.places[x].items[i] == it;
    assert At(h, x, i) && At(h, st.x, st.i);
    if x != st.x || i != st.i {
      FramesDistinct(h, x, i, st.x, st.i);
    }
  }

  /** The changed item is where the step put it. */
  lemma ChangedItemIsHeld(h: Host, st: Step, id: nat)
    requires Enabled(h, st)
    ensures Holds(Next(h, st, id), if st.Move? then st.y else st.x, After(h, st, id))
  {
    var items := Next(h, st, id).places[if st.Move? then st.y else st.x].items;
    if st.Move? {
      assert items[|items| - 1] == After(h, st, id);
    } else {
      assert items[st.i] == After(h, st, id);
    }
  }

  /** A step on a frame, any run that leaves the frame alone, then another step on it: the second finds what the first left. */
  lemma FoundAsLeft(w: World, n: nat, first: Step, mid: seq<Event>, second: Step)
    requires WorldOk(w) && EventEnabled(w, Act(n, first)) && Exec(NextWorld(w, Act(n, first)), mid).Some?
    requires Untouched(NextWorld(w, Act(n, first)), mid, n, Before(w.hosts[n], first).desc.addr)
    requires EventEnabled(Exec(NextWorld(w, Act(n, first)), mid).value, Act(n, second))
    requires var w2 := Exec(NextWorld(w, Act(n, first)), mid).value;
             Before(w2.hosts[n], second).desc.addr == Before(w.hosts[n], first).desc.addr
    ensures var w2 := Exec(NextWorld(w, Act(n, first)), mid).value;
            var it := After(w.hosts[n], first, |w.log.sent|);
            && WorldOk(w2) && Before(w2.hosts[n], second) == it && Seen(w2.hosts[n], second) == it.content
            && (!it.tag.Idle? ==> OnRecord(w2.log, it.tag.id, it.content))
  {
    var w1 := NextWorld(w, Act(n, first));
    var w2 := Exec(w1, mid).value;
    var x, it := if first.Move? then first.y else first.x, After(w.hosts[n], first, |w.log.sent|);
    EventKeeps(w, Act(n, first));
    RunKeeps(w1, mid);
    AddrKept(w.hosts[n], first, |w.log.sent|);
    ChangedItemIsHeld(w.hosts[n], first, |w.log.sent|);
    RunSpares(w1, mid, n, x, it);
    assert HostOk(w2.hosts[n], w2.log);
    SameItem(w2.hosts[n], second, x, it);
    SeesContent(w2, n, second);
  }

  /** The packet a write puts in a frame. */
  function Payload(w: World, n: nat, st: Step): seq<byte>
    requires EventEnabled(w, Act(n, st)) && st.Write?
  {
    var at := w.hosts[n].umem.layout.frameHeadroom;
    st.b[at..at + st.data]
  }

  /** The user writes a frame, leaves it alone while `mid` happens, and submits it as packet `id`, which leads to w'. */
  ghost predicate WritesAndSends(w: World, n: nat, write: Step, mid: seq<Event>, submit: Step, id: nat, w': World) {
    && EventEnabled(w, Act(n, write)) && write.Write?
    && var w1 := NextWorld(w, Act(n, write));
       && Exec(w1, mid).Some? && Untouched(w1, mid, n, Before(w.hosts[n], write).desc.addr)
       && var w2 := Exec(w1, mid).value;
          && EventEnabled(w2, Act(n, submit)) && Submits(w2.hosts[n], submit)
          && Before(w2.hosts[n], submit).desc.addr == Before(w.hosts[n], write).desc.addr
          && id == |w2.log.sent| && w' == NextWorld(w2, Act(n, submit))
  }

  /** The user consumes packet `id` from an rx ring, leaves its frame alone while `mid` happens, and reads it, which leads to w'. */
  ghost predicate ConsumesAndReads(w: World, n: nat, consume: Step, mid: seq<Event>, read: Step, id: nat, w': World) {
    && EventEnabled(w, Act(n, consume)) && Delivers(w.hosts[n], consume) && Before(w.hosts[n], consume).tag.id == id
    && var w1 := NextWorld(w, Act(n, consume));
       && Exec(w1, mid).Some? && Untouched(w1, mid, n, Before(w.hosts[n], consume).desc.addr)
       && var w2 := Exec(w1, mid).value;
          && EventEnabled(w2, Act(n, read)) && read.Read?
          && Before(w2.hosts[n], read).desc.addr == Before(w.hosts[n], consume).desc.addr
          && w' == NextWorld(w2, Act(n, read))
  }

  /** What goes on record at a submission is what the user last wrote to the frame. */
  lemma SubmittedIsLastWritten(w: World, n: nat, write: Step, mid: seq<Event>, submit: Step, id: nat, w': World)
    requires Reachable(w) && WritesAndSends(w, n, write, mid, submit, id, w')
    ensures OnRecord(w'.log, id, Payload(w, n, write))
  {
    ReachableOk(w);
    FoundAsLeft(w, n, write, mid, submit);
  }

  /** Every read of a received frame, until the user writes or gives away the frame, finds the packet as submitted. */
  lemma ReadIsSubmitted(w: World, n: nat, consume: Step, mid: seq<Event>, read: Step, id: nat, w': World)
    requires Reachable(w) && ConsumesAndReads(w, n, consume, mid, read, id, w')
    ensures |w'.received| > 0 && w'.received[|w'.received| - 1].id == id
    ensures OnRecord(w'.log, id, w'.received[|w'.received| - 1].bytes)
  {
    ReachableOk(w);
    FoundAsLeft(w, n, consume, mid, read);
  }

  lemma {:induction false} HistoryGrows(w: World, es: seq<Event>)
    requires Exec(w, es).Some?
    ensures Extends(w.log, Exec(w, es).value.log)
    decreases |es|
  {
    if es == [] {
    } else {
      LogGrows(w, es[0]);
      HistoryGrows(NextWorld(w, es[0]), es[1..]);
    }
  }

  lemma {:induction false} ExecConcat(w: World, a: seq<Event>, b: seq<Event>)
    requires Exec(w, a).Some?
    ensures Exec(w, a + b) == Exec(Exec(w, a).value, b)
    decreases |a|
  {
    if a == [] {
      assert a + b == b;
    } else {
      assert (a + b)[1..] == a[1..] + b;
      ExecConcat(NextWorld(w, a[0]), a[1..], b);
    }
  }

  /** Running on from a reachable state. */
  lemma StaysReachable(w: World, es: seq<Event>)
    requires Reachable(w) && Exec(w, es).Some?
    ensures Reachable(Exec(w, es).value)
  {
    var start, before :| Start(start) && Exec(start, before) == Some(w);
    ExecConcat(start, before, es);
  }

  lemma OneMore(w: World, e: Event)
    requires EventEnabled(w, e)
    ensures Exec(w, [e]) == Some(NextWorld(w, e))
  {
    assert Exec(NextWorld(w, e), []) == Some(NextWorld(w, e));
  }

  lemma SenderIsReachable(w: World, n: nat, write: Step, mid: seq<Event>, submit: Step, id: nat, w': World)
    requires Reachable(w) && WritesAndSends(w, n, write, mid, submit, id, w')
    ensures Reachable(w')
  {
    var w1 := NextWorld(w, Act(n, write));
    var w2 := Exec(w1, mid).value;
    OneMore(w, Act(n, write));
    StaysReachable(w, [Act(n, write)]);
    StaysReachable(w1, mid);
    OneMore(w2, Act(n, submit));
    StaysReachable(w2, [Act(n, submit)]);
  }

  lemma ReaderKeepsHistory(w: World, n: nat, consume: Step, mid: seq<Event>, read: Step, id: nat, w': World)
    requires ConsumesAndReads(w, n, consume, mid, read, id, w')
    ensures Extends(w.log, w'.log)
  {
    var w1 := NextWorld(w, Act(n, consume));
    LogGrows(w, Act(n, consume));
    HistoryGrows(w1, mid);
    LogGrows(Exec(w1, mid).value, Act(n, read));
  }

  /**
   From cursor to reader: a packet written in one host, submitted some time later, carried through rings, kernels
   and wire during any run, consumed in any host and read some time after that, is read exactly as it was written.
   */
  lemma ReadAsWritten(w: World, n: nat, write: Step, mid: seq<Event>, submit: Step, id: nat, w1: World,
                      between: seq<Event>, w2: World,
                      m: nat, consume: Step, later: seq<Event>, read: Step, w3: World)
    requires Reachable(w) && WritesAndSends(w, n, write, mid, submit, id, w1)
    requires Exec(w1, between) == Some(w2)
    requires ConsumesAndReads(w2, m, consume, later, read, id, w3)
    ensures |w3.received| > 0 && w3.received[|w3.received| - 1] == Packet(id, Payload(w, n, write))
  {
    SubmittedIsLastWritten(w, n, write, mid, submit, id, w1);
    SenderIsReachable(w, n, write, mid, submit, id, w1);
    StaysReachable(w1, between);
    HistoryGrows(w1, between);
    ReadIsSubmitted(w2, m, consume, later, read, id, w3);
    ReaderKeepsHistory(w2, m, consume, later, read, id, w3);
  }
}

/**
 Teardown: Arc counts and field order (src/umem/mod.rs:97-102, src/socket/mod.rs:56-61,
 src/umem/mem/mod.rs:20-29).

 A `Umem` value owns one count of the UMEM's `inner` and one count of the mapping; a
 `Socket` value owns one count of its `SocketInner`, which owns the socket pointer and a
 `Umem`. Fill and completion queues own a `Umem`, tx and rx queues a `Socket`. Dropping a
 value runs the drop glue of its fields in declaration order; each drop is a task whose
 atomic actions interleave freely with every other task and with the program.
 */
module Lifetime {
  import opened Bags
  import opened Words

  /** Atomic actions of drop glue; the last three are the calls into libxdp and the kernel. */
  datatype Action =
    | DecSocket(i: nat)
    | DecInner
    | DecMap
    | DeleteSocket(i: nat)
    | DeleteUmem
    | Unmap

  predicate IsCall(a: Action) {
    a.DeleteSocket? || a.DeleteUmem? || a.Unmap?
  }

  /** The declaration order of the two structs' fields. The source has both flags set. */
  datatype Order = Order(ptrBeforeUmem: bool, innerBeforeMem: bool)

  const SOURCE: Order := Order(true, true)

  /** The drop glue of a `Umem` value. */
  function UmemGlue(o: Order): seq<Action> {
    if o.innerBeforeMem then [DecInner, DecMap] else [DecMap, DecInner]
  }

  /** The drop glue of socket i's `SocketInner`. */
  function SocketGlue(o: Order, i: nat): seq<Action> {
    if o.ptrBeforeUmem then [DeleteSocket(i)] + UmemGlue(o) else UmemGlue(o) + [DeleteSocket(i)]
  }

  /** Live values, Arc counts, drops in progress, and the calls made so far. */
  datatype State = State(
    umems: nat, socks: seq<nat>,
    inner: nat, maps: nat, counts: seq<nat>,
    tasks: seq<seq<Action>>, log: seq<Action>)

  datatype Event =
    | CloneUmem
    | DropUmem
    | NewSocket
    | CloneSocket(i: nat)
    | DropSocket(i: nat)
    | Run(t: nat)

  predicate Enabled(s: State, e: Event) {
    match e
    case CloneUmem => s.umems > 0
    case DropUmem => s.umems > 0
    case NewSocket => s.umems > 0
    case CloneSocket(i) => i < |s.socks| == |s.counts| && s.socks[i] > 0
    case DropSocket(i) => i < |s.socks| && s.socks[i] > 0
    case Run(t) =>
      && t < |s.tasks| && s.tasks[t] != []
      && match s.tasks[t][0]
         case DecSocket(i) => i < |s.counts| && s.counts[i] > 0
         case DecInner => s.inner > 0
         case DecMap => s.maps > 0
         case _ => true
  }

  /** The destructor a task's first action starts, when it takes the last count. */
  function Started(o: Order, s: State, t: nat): seq<Action>
    requires Enabled(s, Run(t))
  {
    match s.tasks[t][0]
    case DecSocket(i) => if s.counts[i] == 1 then SocketGlue(o, i) else []
    case DecInner => if s.inner == 1 then [DeleteUmem] else []
    case DecMap => if s.maps == 1 then [Unmap] else []
    case _ => []
  }

  function Next(o: Order, s: State, e: Event): State
    requires Enabled(s, e)
  {
    match e
    case CloneUmem => s.(umems := s.umems + 1, inner := s.inner + 1, maps := s.maps + 1)
    case DropUmem => s.(umems := s.umems - 1, tasks := s.tasks + [UmemGlue(o)])
    case NewSocket => s.(socks := s.socks + [1], counts := s.counts + [1], inner := s.inner + 1, maps := s.maps + 1)
    case CloneSocket(i) => s.(socks := s.socks[i := s.socks[i] + 1], counts := s.counts[i := s.counts[i] + 1])
    case DropSocket(i) => s.(socks := s.socks[i := s.socks[i] - 1], tasks := s.tasks + [[DecSocket(i)]])
    case Run(t) =>
      var a := s.tasks[t][0];
      var s' := s.(tasks := s.tasks[t := Started(o, s, t) + s.tasks[t][1..]]);
      match a
      case DecSocket(i) => s'.(counts := s.counts[i := s.counts[i] - 1])
      case DecInner => s'.(inner := s.inner - 1)
      case DecMap => s'.(maps := s.maps - 1)
      case _ => s'.(log := s.log + [a])
  }

  /** One `Umem` value, no socket. */
  const START: State := State(1, [], 1, 1, [], [], [])

  /** The state after a run, or None when some event was not enabled. */
  function Exec(o: Order, s: State, es: seq<Event>): Option<State>
    decreases |es|
  {
    if es == [] then Some(s)
    else if Enabled(s, es[0]) then Exec(o, Next(o, s, es[0]), es[1..])
    else None
  }

  // ----- Safety -----

  /** Each call at most once, no socket deleted after its UMEM, no UMEM unmapped before it is deleted. */
  ghost predicate Safe(log: seq<Action>) {
    && (forall p, q :: 0 <= p < q < |log| ==> log[p] != log[q])
    && (forall p, q :: 0 <= p < q < |log| ==> !(log[p].DeleteUmem? && log[q].DeleteSocket?))
    && (forall q :: 0 <= q < |log| && log[q].Unmap? ==> DeleteUmem in log[..q])
  }

  /** No drop is in progress. */
  ghost predicate Idle(s: State) {
    forall t :: 0 <= t < |s.tasks| ==> s.tasks[t] == []
  }

  // ----- The invariant for the source's order -----

  /** The shapes drop glue passes through. */
  predicate Shape(t: seq<Action>) {
    || t == [] || (|t| == 1 && t[0].DecSocket?)
    || (|t| == 3 && t[0].DeleteSocket? && t[1..] == [DecInner, DecMap])
    || t == [DecInner, DecMap] || t == [DeleteUmem, DecMap] || t == [DecMap] || t == [Unmap]
  }

  function Acts(t: seq<Action>): multiset<Action> {
    multiset(t)
  }

  /** How many sockets are alive; each owns a `Umem`. */
  function Live(counts: seq<nat>): nat {
    if counts == [] then 0 else (if counts[0] > 0 then 1 else 0) + Live(counts[1..])
  }

  /** How many actions of one kind running drops still have to do. */
  function Pending(s: State, a: Action): nat {
    Sum(s.tasks, Acts)[a]
  }

  function Made(s: State, a: Action): nat {
    if a in s.log then 1 else 0
  }

  function At(xs: seq<nat>, i: nat): nat {
    if i < |xs| then xs[i] else 0
  }

  /**
   The books, one action at a time: an Arc count is the number of live values, live owners
   and pending decrements; a call is pending or made, once, exactly when the count that
   triggers it has reached zero.
   */
  predicate Balanced(s: State, a: Action) {
    match a
    case DecSocket(i) => At(s.counts, i) == At(s.socks, i) + Pending(s, a)
    case DecInner => s.inner == s.umems + Live(s.counts) + Pending(s, a)
    case DecMap => s.maps == s.umems + Live(s.counts) + Pending(s, a)
    case DeleteSocket(i) => Pending(s, a) + Made(s, a) == if i < |s.counts| && s.counts[i] == 0 then 1 else 0
    case DeleteUmem => Pending(s, a) + Made(s, a) == if s.inner == 0 then 1 else 0
    case Unmap => Pending(s, a) + Made(s, a) == if s.maps == 0 then 1 else 0
  }

  ghost predicate Books(s: State) {
    |s.socks| == |s.counts| && forall a :: Balanced(s, a)
  }

  ghost predicate Shapes(s: State) {
    forall t :: 0 <= t < |s.tasks| ==> Shape(s.tasks[t])
  }

  lemma {:induction false} LiveAppend(counts: seq<nat>)
    ensures Live(counts + [1]) == Live(counts) + 1
  {
    if counts == [] {
    } else {
      assert (counts + [1])[1..] == counts[1..] + [1];
      LiveAppend(counts[1..]);
    }
  }

  lemma {:induction false} LiveUpdate(counts: seq<nat>, i: nat, c: nat)
    requires i < |counts|
    ensures Live(counts[i := c]) + (if counts[i] > 0 then 1 else 0) == Live(counts) + (if c > 0 then 1 else 0)
  {
    if i == 0 {
      assert counts[i := c][1..] == counts[1..];
    } else {
      assert counts[i := c][1..] == counts[1..][i - 1 := c];
      LiveUpdate(counts[1..], i - 1, c);
    }
  }

  // ----- The books are kept whatever the order of fields -----

  lemma RunPending(o: Order, s: State, t: nat, a: Action)
    requires Enabled(s, Run(t))
    ensures Pending(Next(o, s, Run(t)), a) + (if s.tasks[t][0] == a then 1 else 0)
         == Pending(s, a) + multiset(Started(o, s, t))[a]
  {
    var task := s.tasks[t];
    assert task == [task[0]] + task[1..];
    SumUpdate(s.tasks, t, Started(o, s, t) + task[1..], Acts, a);
  }

  /** A call about to be made has not been made. */
  lemma CallIsNew(s: State, t: nat)
    requires Enabled(s, Run(t)) && Books(s)
    requires IsCall(s.tasks[t][0])
    ensures Pending(s, s.tasks[t][0]) == 1 && s.tasks[t][0] !in s.log
  {
    var a := s.tasks[t][0];
    assert a in s.tasks[t];
    SumMember(s.tasks, t, Acts, a);
    assert Balanced(s, a);
  }

  lemma SocketGlueActs(o: Order, i: nat, a: Action)
    ensures multiset(SocketGlue(o, i))[a] == if a == DeleteSocket(i) || a == DecInner || a == DecMap then 1 else 0
  {
    assert multiset(SocketGlue(o, i)) == multiset{DeleteSocket(i), DecInner, DecMap};
  }

  lemma CallBalanced(o: Order, s: State, t: nat, a: Action)
    requires Enabled(s, Run(t)) && Books(s)
    requires IsCall(s.tasks[t][0])
    ensures Balanced(Next(o, s, Run(t)), a)
  {
    hide Sum, Live, SocketGlue, UmemGlue;
    assert Balanced(s, a);
    RunPending(o, s, t, a);
    CallIsNew(s, t);
  }

  lemma DecSocketPending(o: Order, s: State, t: nat, i: nat, a: Action)
    requires Enabled(s, Run(t)) && s.tasks[t][0] == DecSocket(i)
    ensures Pending(Next(o, s, Run(t)), a) + (if a == DecSocket(i) then 1 else 0) ==
            Pending(s, a) + if s.counts[i] == 1 && (a == DeleteSocket(i) || a == DecInner || a == DecMap) then 1 else 0
  {
    hide Sum;
    RunPending(o, s, t, a);
    SocketGlueActs(o, i, a);
  }

  lemma DecSocketBalanced(o: Order, s: State, t: nat, a: Action)
    requires Enabled(s, Run(t)) && Books(s) && s.tasks[t][0].DecSocket?
    ensures Balanced(Next(o, s, Run(t)), a)
  {
    hide Sum, Live, SocketGlue, UmemGlue;
    var i := s.tasks[t][0].i;
    assert Balanced(s, a);
    LiveUpdate(s.counts, i, s.counts[i] - 1);
    DecSocketPending(o, s, t, i, a);
  }

  lemma DecArcBalanced(o: Order, s: State, t: nat, a: Action)
    requires Enabled(s, Run(t)) && Books(s) && (s.tasks[t][0].DecInner? || s.tasks[t][0].DecMap?)
    ensures Balanced(Next(o, s, Run(t)), a)
  {
    hide Sum, Live, SocketGlue, UmemGlue;
    assert Balanced(s, a);
    RunPending(o, s, t, a);
  }

  lemma DropUmemBalanced(o: Order, s: State, a: Action)
    requires Enabled(s, DropUmem) && Books(s)
    ensures Balanced(Next(o, s, DropUmem), a)
  {
    hide Sum;
    assert multiset(UmemGlue(o))[a] == if a == DecInner || a == DecMap then 1 else 0;
    assert Balanced(s, a);
    SumAppend(s.tasks, UmemGlue(o), Acts, a);
  }

  lemma DropSocketBalanced(o: Order, s: State, i: nat, a: Action)
    requires Enabled(s, DropSocket(i)) && Books(s)
    ensures Balanced(Next(o, s, DropSocket(i)), a)
  {
    hide Sum;
    assert Balanced(s, a);
    SumAppend(s.tasks, [DecSocket(i)], Acts, a);
  }

  lemma UmemGrows(o: Order, s: State, e: Event, a: Action)
    requires Enabled(s, e) && Books(s) && (e.CloneUmem? || e.NewSocket?)
    ensures Balanced(Next(o, s, e), a)
  {
    hide Sum, Live, SocketGlue, UmemGlue;
    assert Balanced(s, a) && Balanced(s, DecInner) && Balanced(s, DecMap);
    LiveAppend(s.counts);
  }

  lemma SocketGrows(o: Order, s: State, e: Event, a: Action)
    requires Enabled(s, e) && Books(s) && e.CloneSocket?
    ensures Balanced(Next(o, s, e), a)
  {
    hide Sum, Live, SocketGlue, UmemGlue;
    assert Balanced(s, a) && Balanced(s, DecSocket(e.i));
    LiveUpdate(s.counts, e.i, s.counts[e.i] + 1);
  }

  lemma BooksKept(o: Order, s: State, e: Event)
    requires Enabled(s, e) && Books(s)
    ensures Books(Next(o, s, e))
  {
    forall a ensures Balanced(Next(o, s, e), a) {
      match e
      case CloneUmem | NewSocket => UmemGrows(o, s, e, a);
      case CloneSocket(_) => SocketGrows(o, s, e, a);
      case DropUmem => DropUmemBalanced(o, s, a);
      case DropSocket(i) => DropSocketBalanced(o, s, i, a);
      case Run(t) =>
        match s.tasks[t][0]
        case DecSocket(_) => DecSocketBalanced(o, s, t, a);
        case DecInner | DecMap => DecArcBalanced(o, s, t, a);
        case _ => CallBalanced(o, s, t, a);
    }
  }

  // ----- The order of calls, for the source's order of fields -----

  /** A drop that still has to make one of these calls also still holds the count the next call waits for. */
  lemma HeldBehind(s: State, a: Action, b: Action)
    requires Shapes(s) && Pending(s, a) > 0
    requires (a.DeleteSocket? && b.DecInner?) || (a.DecInner? && b.DecMap?) || (a.DeleteUmem? && b.DecMap?)
    ensures Pending(s, b) > 0
  {
    hide Sum;
    var t := SumWitness(s.tasks, Acts, a);
    var task := s.tasks[t];
    assert Shape(task) && a in task;
    assert |task| == 3 ==> task[1] == task[1..][0] && task[2] == task[1..][1];
    assert b in task;
    SumMember(s.tasks, t, Acts, b);
  }

  /** Once the mapping's count is gone, the UMEM has been deleted. */
  lemma UnmappedLast(s: State)
    requires Books(s) && Shapes(s) && s.maps == 0
    ensures DeleteUmem in s.log
  {
    hide Sum, Live;
    assert Balanced(s, DecInner) && Balanced(s, DecMap) && Balanced(s, DeleteUmem);
    if Pending(s, DecInner) > 0 {
      HeldBehind(s, DecInner, DecMap);
    }
    if Pending(s, DeleteUmem) > 0 {
      HeldBehind(s, DeleteUmem, DecMap);
    }
  }

  /** A call that is due can be made: the log stays safe. */
  lemma CallIsSafe(s: State, t: nat)
    requires Books(s) && Shapes(s) && Safe(s.log) && Enabled(s, Run(t))
    requires IsCall(s.tasks[t][0])
    ensures Safe(s.log + [s.tasks[t][0]])
  {
    var a := s.tasks[t][0];
    CallIsNew(s, t);
    if a.DeleteSocket? {
      HeldBehind(s, a, DecInner);
      assert Balanced(s, DecInner) && Balanced(s, DeleteUmem);
    }
    if a.Unmap? {
      assert Balanced(s, a);
      UnmappedLast(s);
    }
    SafeAppend(s.log, a);
  }

  lemma SafeAppend(log: seq<Action>, a: Action)
    requires Safe(log) && a !in log
    requires a.DeleteSocket? ==> DeleteUmem !in log
    requires a.Unmap? ==> DeleteUmem in log
    ensures Safe(log + [a])
  {
    var more := log + [a];
    forall q | 0 <= q < |more| && more[q].Unmap? ensures DeleteUmem in more[..q] {
      assert more[..q] == log[..q];
    }
  }

  ghost predicate Inv(s: State) {
    Books(s) && Shapes(s) && Safe(s.log)
  }

  lemma ShapesKept(s: State, e: Event)
    requires Shapes(s) && Enabled(s, e)
    ensures Shapes(Next(SOURCE, s, e))
  {
    if e.Run? {
      assert Shape(s.tasks[e.t]);
    }
  }

  lemma StepKeeps(s: State, e: Event)
    requires Inv(s) && Enabled(s, e)
    ensures Inv(Next(SOURCE, s, e))
  {
    BooksKept(SOURCE, s, e);
    ShapesKept(s, e);
    if e.Run? && IsCall(s.tasks[e.t][0]) {
      CallIsSafe(s, e.t);
    }
  }

  lemma {:induction false} RunKeeps(s: State, es: seq<Event>)
    requires Inv(s) && Exec(SOURCE, s, es).Some?
    ensures Inv(Exec(SOURCE, s, es).value)
    decreases |es|
  {
    if es == [] {
    } else {
      StepKeeps(s, es[0]);
      RunKeeps(Next(SOURCE, s, es[0]), es[1..]);
    }
  }

  lemma StartOk()
    ensures Inv(START)
  {
    forall a ensures Balanced(START, a) { }
  }

  // ----- Theorems -----

  /** A drop in progress always has its next action enabled: no count ever underflows. */
  lemma NeverStuck(s: State, t: nat)
    requires Books(s) && t < |s.tasks| && s.tasks[t] != []
    ensures Enabled(s, Run(t))
  {
    var a := s.tasks[t][0];
    assert a in s.tasks[t];
    SumMember(s.tasks, t, Acts, a);
    assert Balanced(s, a);
  }

  lemma {:induction false} LiveSocket(counts: seq<nat>, i: nat)
    requires i < |counts| && counts[i] > 0
    ensures Live(counts) > 0
  {
    if i == 0 {
    } else {
      LiveSocket(counts[1..], i - 1);
    }
  }

  /** The UMEM is deleted after every socket that was ever made on it. */
  lemma SocketsGoFirst(s: State, i: nat)
    requires Inv(s) && DeleteUmem in s.log && i < |s.socks|
    ensures s.umems == 0 && s.socks[i] == 0 && DeleteSocket(i) in s.log
  {
    assert Balanced(s, DeleteUmem) && Balanced(s, DecInner) && Balanced(s, DecSocket(i)) && Balanced(s, DeleteSocket(i));
    if s.counts[i] > 0 {
      LiveSocket(s.counts, i);
    }
    if Pending(s, DeleteSocket(i)) > 0 {
      HeldBehind(s, DeleteSocket(i), DecInner);
    }
  }

  lemma NothingPending(s: State, a: Action)
    requires Idle(s)
    ensures Pending(s, a) == 0
  {
    if Pending(s, a) > 0 {
      var t := SumWitness(s.tasks, Acts, a);
    }
  }

  lemma {:induction false} NoneLive(counts: seq<nat>)
    requires forall i :: 0 <= i < |counts| ==> counts[i] == 0
    ensures Live(counts) == 0
  {
    if counts == [] {
    } else {
      NoneLive(counts[1..]);
    }
  }

  // ----- Handles, counted from the events alone -----

  function Count(es: seq<Event>, e: Event): nat {
    if es == [] then 0 else (if es[0] == e then 1 else 0) + Count(es[1..], e)
  }

  /** A run leaves as many handles as it has cloned and not dropped; a new socket starts with one. */
  lemma {:induction false} HandlesFromEvents(o: Order, s: State, es: seq<Event>, i: nat)
    requires Exec(o, s, es).Some? && |s.socks| == |s.counts|
    ensures var t := Exec(o, s, es).value;
      && |t.socks| == |t.counts| == |s.socks| + Count(es, NewSocket)
      && t.umems + Count(es, DropUmem) == s.umems + Count(es, CloneUmem)
      && At(t.socks, i) + Count(es, DropSocket(i)) ==
           At(s.socks, i) + Count(es, CloneSocket(i)) + if |s.socks| <= i < |t.socks| then 1 else 0
    decreases |es|
  {
    if es == [] {
    } else {
      HandlesFromEvents(o, Next(o, s, es[0]), es[1..], i);
    }
  }

  /** How many `Umem` values the events have made and not dropped. */
  function UmemHandles(es: seq<Event>): int {
    1 + Count(es, CloneUmem) - Count(es, DropUmem)
  }

  /** How many values of socket i. */
  function SocketHandles(es: seq<Event>, i: nat): int {
    if i < Count(es, NewSocket) then 1 + Count(es, CloneSocket(i)) - Count(es, DropSocket(i)) else 0
  }

  /** The state's handles are the events', and a handle can be used exactly while it is held. */
  ghost predicate HandlesCounted(s: State, es: seq<Event>) {
    && s.umems == UmemHandles(es) && |s.socks| == |s.counts| == Count(es, NewSocket)
    && (forall i: nat :: At(s.socks, i) == SocketHandles(es, i))
    && (UmemHandles(es) > 0 <==> Enabled(s, CloneUmem)) && (UmemHandles(es) > 0 <==> Enabled(s, DropUmem))
    && (UmemHandles(es) > 0 <==> Enabled(s, NewSocket))
    && (forall i: nat :: SocketHandles(es, i) > 0 <==> Enabled(s, CloneSocket(i)))
    && (forall i: nat :: SocketHandles(es, i) > 0 <==> Enabled(s, DropSocket(i)))
  }

  lemma HandlesAreCounted(o: Order, es: seq<Event>)
    requires Exec(o, START, es).Some?
    ensures HandlesCounted(Exec(o, START, es).value, es)
  {
    HandlesFromEvents(o, START, es, 0);
    var s := Exec(o, START, es).value;
    forall i: nat
      ensures At(s.socks, i) == SocketHandles(es, i)
      ensures SocketHandles(es, i) > 0 <==> Enabled(s, CloneSocket(i))
      ensures SocketHandles(es, i) > 0 <==> Enabled(s, DropSocket(i))
    {
      HandlesFromEvents(o, START, es, i);
    }
  }

  /** Every handle ever made has been dropped. */
  ghost predicate AllDropped(es: seq<Event>) {
    UmemHandles(es) == 0 && forall i: nat :: SocketHandles(es, i) == 0
  }

  /** What has been called had no handle left. */
  ghost predicate CallsAreDue(s: State, es: seq<Event>) {
    && (forall i: nat :: DeleteSocket(i) in s.log ==> i < Count(es, NewSocket) && SocketHandles(es, i) == 0)
    && (DeleteUmem in s.log ==> AllDropped(es) && forall i: nat :: i < Count(es, NewSocket) ==> DeleteSocket(i) in s.log)
    && (Unmap in s.log ==> DeleteUmem in s.log)
  }

  lemma SocketCallIsDue(s: State, es: seq<Event>, i: nat)
    requires Inv(s) && HandlesCounted(s, es) && DeleteSocket(i) in s.log
    ensures i < Count(es, NewSocket) && SocketHandles(es, i) == 0
  {
    assert Balanced(s, DeleteSocket(i)) && Balanced(s, DecSocket(i));
    assert At(s.socks, i) == SocketHandles(es, i);
  }

  lemma UmemCallIsDue(s: State, es: seq<Event>)
    requires Inv(s) && HandlesCounted(s, es) && DeleteUmem in s.log
    ensures AllDropped(es) && forall i: nat :: i < Count(es, NewSocket) ==> DeleteSocket(i) in s.log
  {
    assert Balanced(s, DeleteUmem) && Balanced(s, DecInner);
    forall i: nat
      ensures SocketHandles(es, i) == 0
      ensures i < Count(es, NewSocket) ==> DeleteSocket(i) in s.log
    {
      if i < |s.socks| {
        SocketsGoFirst(s, i);
      }
      assert At(s.socks, i) == SocketHandles(es, i);
    }
  }

  lemma CallsAreOnlyDue(s: State, es: seq<Event>)
    requires Inv(s) && HandlesCounted(s, es)
    ensures CallsAreDue(s, es)
  {
    forall i: nat | DeleteSocket(i) in s.log ensures i < Count(es, NewSocket) && SocketHandles(es, i) == 0 {
      SocketCallIsDue(s, es, i);
    }
    if DeleteUmem in s.log {
      UmemCallIsDue(s, es);
    }
    if Unmap in s.log {
      var q :| 0 <= q < |s.log| && s.log[q] == Unmap;
      assert DeleteUmem in s.log[..q];
    }
  }

  /** The calls a finished program has made: one for each resource, and no others. */
  predicate Due(es: seq<Event>, a: Action) {
    a.DeleteUmem? || a.Unmap? || (a.DeleteSocket? && a.i < Count(es, NewSocket))
  }

  lemma AllReleased(s: State, es: seq<Event>, a: Action)
    requires Books(s) && HandlesCounted(s, es) && AllDropped(es) && Idle(s) && IsCall(a)
    ensures a in s.log <==> Due(es, a)
  {
    forall i | 0 <= i < |s.counts| ensures s.counts[i] == 0 {
      assert Balanced(s, DecSocket(i));
      NothingPending(s, DecSocket(i));
      assert At(s.socks, i) == SocketHandles(es, i);
    }
    NoneLive(s.counts);
    NothingPending(s, DecInner);
    NothingPending(s, DecMap);
    NothingPending(s, a);
    assert Balanced(s, DecInner) && Balanced(s, DecMap) && Balanced(s, a);
  }

  /**
   Whatever the program clones, drops and creates, and however the drops interleave: handles are what the events say;
   the calls made so far are in a safe order, made once, and only for what has no handle left; no drop is stuck; and
   when every handle is dropped and every drop complete, every resource has been released.
   */
  lemma TeardownInEveryRun(es: seq<Event>)
    requires Exec(SOURCE, START, es).Some?
    ensures var s := Exec(SOURCE, START, es).value;
      && HandlesCounted(s, es) && Safe(s.log) && CallsAreDue(s, es)
      && (forall t: nat :: t < |s.tasks| && s.tasks[t] != [] ==> Enabled(s, Run(t)))
      && (AllDropped(es) && Idle(s) ==> forall a :: IsCall(a) ==> (a in s.log <==> Due(es, a)))
  {
    StartOk();
    RunKeeps(START, es);
    HandlesAreCounted(SOURCE, es);
    var s := Exec(SOURCE, START, es).value;
    CallsAreOnlyDue(s, es);
    forall t: nat | t < |s.tasks| && s.tasks[t] != [] ensures Enabled(s, Run(t)) {
      NeverStuck(s, t);
    }
    if AllDropped(es) && Idle(s) {
      forall a | IsCall(a) ensures a in s.log <==> Due(es, a) {
        AllReleased(s, es, a);
      }
    }
  }

  // ----- Drops finish -----

  /** A bound on the actions a drop still leads to. */
  function Weight(task: seq<Action>): nat {
    if task == [] then 0
    else (match task[0] case DecSocket(_) => 6 case DecInner => 2 case DecMap => 2 case _ => 1) + Weight(task[1..])
  }

  function Work(tasks: seq<seq<Action>>): nat {
    if tasks == [] then 0 else Weight(tasks[0]) + Work(tasks[1..])
  }

  lemma {:induction false} WorkUpdate(tasks: seq<seq<Action>>, t: nat, task: seq<Action>)
    requires t < |tasks|
    ensures Work(tasks[t := task]) + Weight(tasks[t]) == Work(tasks) + Weight(task)
  {
    if t == 0 {
      assert tasks[t := task][1..] == tasks[1..];
    } else {
      assert tasks[t := task][1..] == tasks[1..][t - 1 := task];
      WorkUpdate(tasks[1..], t - 1, task);
    }
  }

  lemma {:induction false} WeightConcat(xs: seq<Action>, ys: seq<Action>)
    ensures Weight(xs + ys) == Weight(xs) + Weight(ys)
  {
    if xs == [] {
      assert xs + ys == ys;
    } else {
      assert (xs + ys)[1..] == xs[1..] + ys;
      WeightConcat(xs[1..], ys);
    }
  }

  lemma GlueWeights(o: Order, i: nat)
    ensures Weight(UmemGlue(o)) == 4 && Weight(SocketGlue(o, i)) == 5
  {
    assert Weight([DecMap]) == 2 && Weight([DecInner]) == 2 && Weight([DeleteSocket(i)]) == 1;
    assert UmemGlue(o)[1..] == if o.innerBeforeMem then [DecMap] else [DecInner];
    WeightConcat([DeleteSocket(i)], UmemGlue(o));
    WeightConcat(UmemGlue(o), [DeleteSocket(i)]);
  }

  lemma RunLessens(o: Order, s: State, t: nat)
    requires Enabled(s, Run(t))
    ensures Work(Next(o, s, Run(t)).tasks) < Work(s.tasks)
  {
    var started := Started(o, s, t);
    if s.tasks[t][0].DecSocket? {
      GlueWeights(o, s.tasks[t][0].i);
    }
    assert Weight([DeleteUmem]) == 1 && Weight([Unmap]) == 1 && Weight([]) == 0;
    WeightConcat(started, s.tasks[t][1..]);
    WorkUpdate(s.tasks, t, started + s.tasks[t][1..]);
  }

  /**
   From any reachable state the drops in progress, left to run in any order, stop within
   their work bound, and they stop only when every one of them is complete.
   */
  lemma {:induction false} DropsFinish(s: State, es: seq<Event>)
    requires Books(s) && Exec(SOURCE, s, es).Some?
    requires forall k :: 0 <= k < |es| ==> es[k].Run?
    ensures |es| <= Work(s.tasks)
    ensures var s' := Exec(SOURCE, s, es).value;
      s'.umems == s.umems && s'.socks == s.socks && (Idle(s') || exists t: nat :: Enabled(s', Run(t)))
    decreases |es|
  {
    if es == [] {
      if !Idle(s) {
        var t: nat :| t < |s.tasks| && s.tasks[t] != [];
        NeverStuck(s, t);
      }
    } else {
      RunLessens(SOURCE, s, es[0].t);
      BooksKept(SOURCE, s, es[0]);
      DropsFinish(Next(SOURCE, s, es[0]), es[1..]);
    }
  }

  // ----- The order of fields is needed -----

  /** The state a run reaches, one more event at a time. */
  lemma {:induction false} ExecThen(o: Order, s: State, es: seq<Event>, e: Event)
    requires Exec(o, s, es).Some? && Enabled(Exec(o, s, es).value, e)
    ensures Exec(o, s, es + [e]) == Some(Next(o, Exec(o, s, es).value, e))
    decreases |es|
  {
    if es == [] {
      assert Exec(o, Next(o, s, e), []) == Some(Next(o, s, e));
      assert (es + [e])[1..] == [];
    } else {
      assert (es + [e])[1..] == es[1..] + [e];
      ExecThen(o, Next(o, s, es[0]), es[1..], e);
    }
  }

  /** Dropping the only `Umem` unmaps first when `mem` is declared before `inner`. */
  lemma UnmapsTooEarly(o: Order) returns (es: seq<Event>)
    requires !o.innerBeforeMem
    ensures Exec(o, START, es).Some? && !Safe(Exec(o, START, es).value.log)
  {
    es := [];
    ExecThen(o, START, es, DropUmem);
    es := es + [DropUmem];
    ExecThen(o, START, es, Run(0));
    es := es + [Run(0)];
    ExecThen(o, START, es, Run(0));
    es := es + [Run(0)];
    assert Exec(o, START, es).value.log[0] == Unmap;
  }

  /** Dropping a socket after the program's `Umem` deletes the UMEM under it when `_umem` is declared before `_ptr`. */
  lemma DeletesUmemTooEarly(o: Order) returns (es: seq<Event>)
    requires o.innerBeforeMem && !o.ptrBeforeUmem
    ensures Exec(o, START, es).Some? && !Safe(Exec(o, START, es).value.log)
  {
    es := [];
    ExecThen(o, START, es, NewSocket);
    es := es + [NewSocket];
    ExecThen(o, START, es, DropUmem);
    es := es + [DropUmem];
    ExecThen(o, START, es, Run(0));
    es := es + [Run(0)];
    ExecThen(o, START, es, DropSocket(0));
    es := es + [DropSocket(0)];
    ExecThen(o, START, es, Run(1));
    es := es + [Run(1)];
    assert Exec(o, START, es).value.tasks[1] == [DecInner, DecMap, DeleteSocket(0)];
    ExecThen(o, START, es, Run(1));
    es := es + [Run(1)];
    ExecThen(o, START, es, Run(1));
    es := es + [Run(1)];
    ExecThen(o, START, es, Run(1));
    es := es + [Run(1)];
    ExecThen(o, START, es, Run(1));
    es := es + [Run(1)];
    var log := Exec(o, START, es).value.log;
    assert log[0] == DeleteUmem && log[1] == DeleteSocket(0);
  }

  /** Of the four orders of fields, exactly the source's is safe in every run. */
  lemma OnlyThisOrderIsSafe(o: Order)
    ensures o == SOURCE <==> forall es :: Exec(o, START, es).Some? ==> Safe(Exec(o, START, es).value.log)
  {
    if o == SOURCE {
      forall es | Exec(o, START, es).Some? ensures Safe(Exec(o, START, es).value.log) {
        TeardownInEveryRun(es);
      }
    } else if !o.innerBeforeMem {
      var es := UnmapsTooEarly(o);
    } else {
      var es := DeletesUmemTooEarly(o);
    }
  }
}

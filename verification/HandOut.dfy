/**
 Which `Socket::new` call on one UMEM gets a fill and completion queue
 (src/socket/mod.rs:118-221, src/umem/mod.rs:319-326).

 `xsk_socket__create_shared` is libxdp's: what it reports is a parameter, constrained by
 the assumption `Libxdp` below. libxdp keeps pointers of its own to the two rings made
 with the UMEM and pops them when it first makes a socket (src/umem/mod.rs:74-78). The
 call runs under the UMEM's mutex, so calls from several threads are ordered by it;
 sockets go away at any time in between.
 */
module HandOut {
  import opened Words

  /** What a ring structure points at: nothing, the ring made with the UMEM, or a later one. */
  datatype Ring = Null | Saved | Made(id: nat)

  datatype Rings = Rings(fill: Ring, comp: Ring)

  const NO_RINGS: Rings := Rings(Null, Null)

  datatype Reply = Reply(err: int, socketNull: bool, fd: int, txNull: bool, rxNull: bool, rings: Rings)

  datatype SocketCreateError = CreateFailed(errno: int) | NullSocket | NoFd(errno: int) | NullTx | NullRx | OneRingNull

  /** libxdp has made a socket. */
  predicate Makes(r: Reply) {
    r.err == 0 && !r.socketNull
  }

  /** What `Socket::new` makes of libxdp's reply. */
  function Verdict(r: Reply): (v: Result<Option<Rings>, SocketCreateError>)
    ensures v.Ok? <==> r.err == 0 && !r.socketNull && r.fd >= 0 && !r.txNull && !r.rxNull && (r.rings.fill.Null? <==> r.rings.comp.Null?)
    ensures v.Ok? ==> v.value == if r.rings == NO_RINGS then None else Some(r.rings)
    ensures v.Ok? && v.value.Some? ==> !v.value.value.fill.Null? && !v.value.value.comp.Null?
    ensures v == Err(CreateFailed(-r.err)) <==> r.err != 0
    ensures v == Err(NullSocket) <==> r.err == 0 && r.socketNull
    ensures v == Err(NoFd(-r.fd)) <==> Makes(r) && r.fd < 0
    ensures v == Err(NullTx) <==> Makes(r) && r.fd >= 0 && r.txNull
    ensures v == Err(NullRx) <==> Makes(r) && r.fd >= 0 && !r.txNull && r.rxNull
    ensures v == Err(OneRingNull) <==> Makes(r) && r.fd >= 0 && !r.txNull && !r.rxNull && r.rings.fill.Null? != r.rings.comp.Null?
  {
    if r.err != 0 then Err(CreateFailed(-r.err))
    else if r.socketNull then Err(NullSocket)
    else if r.fd < 0 then Err(NoFd(-r.fd))
    else if r.txNull then Err(NullTx)
    else if r.rxNull then Err(NullRx)
    else if r.rings.fill.Null? && r.rings.comp.Null? then Ok(None)
    else if !r.rings.fill.Null? && !r.rings.comp.Null? then Ok(Some(r.rings))
    else Err(OneRingNull)
  }

  /** The rings a call passes to libxdp. */
  function Passed(saved: Option<Rings>): Rings {
    if saved.Some? then saved.value else NO_RINGS
  }

  class UmemInner {
    var saved: Option<Rings>

    constructor ()
      ensures saved == Some(Rings(Saved, Saved))
    {
      saved := Some(Rings(Saved, Saved));
    }

    /** `Socket::new`, with libxdp's call as a function of the rings it is given. */
    method NewSocket(create: Rings -> Reply) returns (v: Result<Option<Rings>, SocketCreateError>)
      modifies this
      ensures saved == None
      ensures v == Verdict(create(Passed(old(saved))))
    {
      var rings := NO_RINGS;
      if saved.Some? {
        rings := saved.value;
        saved := None;
      }
      var r := create(rings);
      if r.err != 0 {
        return Err(CreateFailed(-r.err));
      }
      if r.socketNull {
        return Err(NullSocket);
      }
      if r.fd < 0 {
        return Err(NoFd(-r.fd));
      }
      if r.txNull {
        return Err(NullTx);
      }
      if r.rxNull {
        return Err(NullRx);
      }
      match (r.rings.fill, r.rings.comp)
      case (Null, Null) => return Ok(None);
      case (Null, _) => return Err(OneRingNull);
      case (_, Null) => return Err(OneRingNull);
      case _ => return Ok(Some(r.rings));
    }
  }

  // ----- Runs -----

  datatype Pair = Pair(interface: string, queue: u32)

  /** The UMEM's saved rings, whether libxdp still has its own pointers to them, and the sockets bound to each pair. */
  datatype State = State(saved: Option<Rings>, kept: bool, bound: multiset<Pair>)

  const START: State := State(Some(Rings(Saved, Saved)), true, multiset{})

  datatype Event =
    | Create(p: Pair, r: Reply)
    | Release(p: Pair)

  /**
   Assumption about libxdp: when it makes a socket for a pair that is already bound it leaves the rings it is given
   alone; for a new pair it fills them in from the rings made with the UMEM while it still has those, and with rings
   of its own making afterwards.
   */
  predicate Libxdp(s: State, p: Pair, r: Reply) {
    Makes(r) ==>
      if s.bound[p] > 0 then r.rings == Passed(s.saved)
      else if s.kept then r.rings == Rings(Saved, Saved)
      else r.rings.fill.Made? && r.rings.comp.Made?
  }

  predicate Enabled(s: State, e: Event) {
    match e
    case Create(p, r) => Libxdp(s, p, r)
    case Release(p) => s.bound[p] > 0
  }

  /** A failing call that has made a socket releases it later, like any other. */
  function Next(s: State, e: Event): State
    requires Enabled(s, e)
  {
    match e
    case Create(p, r) => if Makes(r) then State(None, false, s.bound[p := s.bound[p] + 1]) else State(None, s.kept, s.bound)
    case Release(p) => s.(bound := s.bound[p := s.bound[p] - 1])
  }

  /** The state after the first k events, or None when one of them was not enabled. */
  function After(es: seq<Event>, k: nat): Option<State>
    requires k <= |es|
  {
    if k == 0 then Some(START)
    else
      var before := After(es, k - 1);
      if before.Some? && Enabled(before.value, es[k - 1]) then Some(Next(before.value, es[k - 1])) else None
  }

  ghost predicate IsRun(es: seq<Event>) {
    After(es, |es|).Some?
  }

  /** The queues the k-th event hands to the caller. */
  function Given(e: Event): Option<Rings> {
    if e.Create? && Verdict(e.r).Ok? then Verdict(e.r).value else None
  }

  lemma {:induction false} Prefix(es: seq<Event>, k: nat, n: nat)
    requires k <= n <= |es| && After(es, n).Some?
    ensures After(es, k).Some?
    decreases n
  {
    if k == n {
    } else {
      Prefix(es, k, n - 1);
    }
  }

  /** No socket made before k. */
  predicate NothingMade(es: seq<Event>, k: nat)
    requires k <= |es|
  {
    forall j :: 0 <= j < k && es[j].Create? ==> !Makes(es[j].r)
  }

  /** libxdp keeps the rings until a socket is made, and until then nothing is bound; the saved rings go with the first call. */
  lemma {:induction false} KeptUntilMade(es: seq<Event>, k: nat)
    requires k <= |es| && After(es, k).Some?
    ensures var s := After(es, k).value;
            && (s.kept <==> NothingMade(es, k))
            && (s.kept ==> forall p :: s.bound[p] == 0)
            && (s.saved.Some? ==> s.kept)
  {
    if k == 0 {
    } else {
      KeptUntilMade(es, k - 1);
    }
  }

  /** A successful call hands out queues exactly when no socket was bound to its pair. */
  lemma HandedOutIffUnbound(es: seq<Event>, k: nat)
    requires IsRun(es) && k < |es| && es[k].Create? && Verdict(es[k].r).Ok?
    ensures Given(es[k]).Some? <==> BoundAt(es, k, es[k].p) == 0
  {
    Prefix(es, k + 1, |es|);
    KeptUntilMade(es, k);
  }

  /** How many sockets are bound to a pair after k events. */
  function BoundAt(es: seq<Event>, k: nat, p: Pair): nat
    requires k <= |es|
  {
    if After(es, k).Some? then After(es, k).value.bound[p] else 0
  }

  /** The sockets made for a pair among the first k events. */
  function MadeFor(es: seq<Event>, k: nat, p: Pair): nat
    requires k <= |es|
  {
    if k == 0 then 0 else MadeFor(es, k - 1, p) + if es[k - 1].Create? && es[k - 1].p == p && Makes(es[k - 1].r) then 1 else 0
  }

  /** The sockets of a pair released among the first k events. */
  function Released(es: seq<Event>, k: nat, p: Pair): nat
    requires k <= |es|
  {
    if k == 0 then 0 else Released(es, k - 1, p) + if es[k - 1] == Release(p) then 1 else 0
  }

  /** A pair is bound as often as sockets were made for it and not released. */
  lemma {:induction false} BoundIsMadeLessReleased(es: seq<Event>, k: nat, p: Pair)
    requires k <= |es| && After(es, k).Some?
    ensures BoundAt(es, k, p) + Released(es, k, p) == MadeFor(es, k, p)
  {
    if k == 0 {
    } else {
      BoundIsMadeLessReleased(es, k - 1, p);
    }
  }

  lemma {:induction false} LastRelease(es: seq<Event>, p: Pair, j: nat, k: nat) returns (m: nat)
    requires j < k <= |es| && After(es, k).Some?
    requires BoundAt(es, j, p) > 0 && BoundAt(es, k, p) == 0
    ensures j <= m < k && es[m] == Release(p) && BoundAt(es, m + 1, p) == 0
    decreases k
  {
    m := k - 1;
    if BoundAt(es, m, p) == 0 {
      m := LastRelease(es, p, j, m);
    }
  }

  lemma HandOutBinds(es: seq<Event>, k: nat)
    requires IsRun(es) && k < |es| && Given(es[k]).Some?
    ensures BoundAt(es, k + 1, es[k].p) > 0
  {
    Prefix(es, k + 1, |es|);
  }

  /** Two hand-outs for one pair have the release of its last socket between them. */
  lemma OncePerBinding(es: seq<Event>, j: nat, k: nat) returns (m: nat)
    requires IsRun(es) && j < k < |es|
    requires Given(es[j]).Some? && Given(es[k]).Some? && es[j].p == es[k].p
    ensures j < m < k && es[m] == Release(es[j].p) && BoundAt(es, m + 1, es[j].p) == 0
  {
    var p := es[j].p;
    assert BoundAt(es, j + 1, p) > 0 by {
      HandOutBinds(es, j);
    }
    assert BoundAt(es, k, p) == 0 by {
      HandedOutIffUnbound(es, k);
    }
    assert After(es, k).Some? by {
      Prefix(es, k, |es|);
    }
    m := LastRelease(es, p, j + 1, k);
  }

  /**
   The rings made with the UMEM are handed out at most once over any sequence of calls, failing ones among them:
   by the call for which libxdp first makes a socket, if that call succeeds, and neither of the two by any other.
   */
  lemma SavedAtMostOnce(es: seq<Event>, k: nat)
    requires IsRun(es) && k < |es| && es[k].Create?
    ensures Given(es[k]) == Some(Rings(Saved, Saved)) <==> NothingMade(es, k) && Verdict(es[k].r).Ok?
    ensures Given(es[k]).Some? && (Given(es[k]).value.fill.Saved? || Given(es[k]).value.comp.Saved?) ==> NothingMade(es, k)
  {
    Prefix(es, k + 1, |es|);
    KeptUntilMade(es, k);
  }

  /** So two calls that get them are one call. */
  lemma SavedGoToOneCall(es: seq<Event>, j: nat, k: nat)
    requires IsRun(es) && j < |es| && k < |es|
    requires Given(es[j]) == Given(es[k]) == Some(Rings(Saved, Saved))
    ensures j == k
  {
    SavedAtMostOnce(es, j);
    SavedAtMostOnce(es, k);
  }

  function Success(rings: Rings): Reply {
    Reply(0, false, 3, false, false, rings)
  }

  /**
   Serving two pairs: the first call for a pair gets the UMEM's own rings, a second call for it none, a call for
   another pair rings of its own, and after both sockets of the first pair are gone it gets rings again.
   */
  lemma PairsAreServed(p: Pair, q: Pair)
    requires p != q
    ensures var own, more := Rings(Made(0), Made(0)), Rings(Made(1), Made(1));
            var es := [Create(p, Success(Rings(Saved, Saved))), Create(p, Success(NO_RINGS)), Create(q, Success(own)),
                       Release(p), Release(p), Create(p, Success(more))];
            && IsRun(es)
            && Given(es[0]) == Some(Rings(Saved, Saved)) && Given(es[1]) == None && Given(es[2]) == Some(own)
            && Given(es[5]) == Some(more)
  {
    var own, more := Rings(Made(0), Made(0)), Rings(Made(1), Made(1));
    var es := [Create(p, Success(Rings(Saved, Saved))), Create(p, Success(NO_RINGS)), Create(q, Success(own)),
               Release(p), Release(p), Create(p, Success(more))];
    var none: multiset<Pair> := multiset{};
    var one := none[p := 1];
    var two := one[p := 2];
    assert After(es, 0) == Some(START);
    assert After(es, 1) == Some(State(None, false, one));
    assert After(es, 2) == Some(State(None, false, two));
    assert After(es, 3) == Some(State(None, false, two[q := 1]));
    assert After(es, 4) == Some(State(None, false, two[q := 1][p := 1]));
    assert After(es, 5) == Some(State(None, false, two[q := 1][p := 1][p := 0]));
    assert After(es, 6).Some?;
  }
}

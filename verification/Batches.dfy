/**
 Whole `produce` and `consume` calls in the protocol: a batch is a run of single moves.
 */
module Batches {
  import opened Words
  import opened Frames
  import opened Bags
  import opened Protocol

  // ----- Slices -----

  /** Items can be taken one after another at these positions, each counted among what is then left. */
  predicate CanPick(items: seq<Item>, ps: seq<nat>)
    decreases |ps|
  {
    ps == [] || (ps[0] < |items| && CanPick(Without(items, ps[0]), ps[1..]))
  }

  function Picked(items: seq<Item>, ps: seq<nat>): (r: seq<Item>)
    requires CanPick(items, ps)
    ensures |r| == |ps|
    decreases |ps|
  {
    if ps == [] then [] else [items[ps[0]]] + Picked(Without(items, ps[0]), ps[1..])
  }

  function Left(items: seq<Item>, ps: seq<nat>): (r: seq<Item>)
    requires CanPick(items, ps)
    ensures |r| == |items| - |ps|
    decreases |ps|
  {
    if ps == [] then items else Left(Without(items, ps[0]), ps[1..])
  }

  function Zeros(k: nat): (ps: seq<nat>)
    ensures |ps| == k && forall i :: 0 <= i < k ==> ps[i] == 0
  {
    seq(k, _ => 0)
  }

  /** Taking from the front, as every consumer of a ring does. */
  lemma {:induction false} PickFront(items: seq<Item>, k: nat)
    requires k <= |items|
    ensures CanPick(items, Zeros(k)) && Picked(items, Zeros(k)) == items[..k] && Left(items, Zeros(k)) == items[k..]
    decreases k
  {
    if k == 0 {
    } else {
      assert Zeros(k)[1..] == Zeros(k - 1);
      assert Without(items, 0) == items[1..];
      PickFront(items[1..], k - 1);
      assert [items[0]] + items[1..][..k - 1] == items[..k];
      assert items[1..][k - 1..] == items[k..];
    }
  }

  predicate DistinctPositions(slice: seq<nat>, n: nat) {
    && (forall i :: 0 <= i < |slice| ==> slice[i] < n)
    && (forall i, j :: 0 <= i < j < |slice| ==> slice[i] != slice[j])
  }

  /** The same positions after the item at p is gone. */
  function Closed(slice: seq<nat>, p: nat): (r: seq<nat>)
    requires forall i :: 0 <= i < |slice| ==> slice[i] != p
    ensures |r| == |slice|
  {
    seq(|slice|, i requires 0 <= i < |slice| => if slice[i] > p then slice[i] - 1 else slice[i])
  }

  function Slice(items: seq<Item>, slice: seq<nat>): (r: seq<Item>)
    requires DistinctPositions(slice, |items|)
    ensures |r| == |slice|
  {
    seq(|slice|, i requires 0 <= i < |slice| => items[slice[i]])
  }

  lemma CloseUp(items: seq<Item>, slice: seq<nat>)
    requires slice != [] && DistinctPositions(slice, |items|)
    ensures forall i :: 0 <= i < |slice[1..]| ==> slice[1..][i] != slice[0]
    ensures DistinctPositions(slice[1..], |items|) && DistinctPositions(Closed(slice[1..], slice[0]), |items| - 1)
    ensures Slice(Without(items, slice[0]), Closed(slice[1..], slice[0])) == Slice(items, slice[1..])
  {
    var rest, p := slice[1..], slice[0];
    forall i | 0 <= i < |rest| ensures rest[i] != p {
      assert rest[i] == slice[i + 1];
    }
    forall i, j | 0 <= i < j < |rest| ensures rest[i] != rest[j] {
      assert rest[i] == slice[i + 1] && rest[j] == slice[j + 1];
    }
  }

  /** Any slice of distinct descriptors, in any order, can be taken one by one. */
  lemma {:induction false} SliceIsPick(items: seq<Item>, slice: seq<nat>) returns (ps: seq<nat>)
    requires DistinctPositions(slice, |items|)
    ensures CanPick(items, ps) && Picked(items, ps) == Slice(items, slice)
    decreases |slice|
  {
    if slice == [] {
      ps := [];
    } else {
      CloseUp(items, slice);
      var rest := SliceIsPick(Without(items, slice[0]), Closed(slice[1..], slice[0]));
      ps := [slice[0]] + rest;
      assert ps[1..] == rest;
      assert Slice(items, slice) == [items[slice[0]]] + Slice(items, slice[1..]);
    }
  }

  // ----- Batches -----

  function Descs(items: seq<Item>): (r: seq<FrameDesc>)
    ensures |r| == |items|
  {
    seq(|items|, i requires 0 <= i < |items| => items[i].desc)
  }

  /** The descriptors a queue makes of a batch. */
  function HandedAll(from: Role, to: Role, ds: seq<FrameDesc>): (r: seq<FrameDesc>)
    ensures |r| == |ds|
  {
    seq(|ds|, i requires 0 <= i < |ds| => Handed(from, to, ds[i]))
  }

  function Moves(n: nat, x: nat, ps: seq<nat>, y: nat): (es: seq<Event>)
    ensures |es| == |ps|
  {
    seq(|ps|, i requires 0 <= i < |ps| => Act(n, Move(x, ps[i], y)))
  }

  /** The batch can go: along a route, from the front if x is a ring, with room if y is one. */
  predicate Movable(h: Host, x: nat, ps: seq<nat>, y: nat) {
    && x < |h.places| && y < |h.places|
    && Route(h.places[x].role, h.places[y].role)
    && CanPick(h.places[x].items, ps)
    && (h.places[x].role.IsRing() ==> forall i :: 0 <= i < |ps| ==> ps[i] == 0)
    && (h.places[y].role.IsRing() ==> |h.places[y].items| + |ps| <= h.places[y].size)
    && (h.places[y].role.RxRing? ==>
          forall i :: 0 <= i < |ps| ==> Picked(h.places[x].items, ps)[i].tag.Carries?)
  }

  /** Nothing but the contents of the places x and y has changed. */
  ghost predicate OnlyItems(h: Host, h': Host, x: nat, y: nat) {
    && h'.umem == h.umem && h'.bytes == h.bytes && |h'.places| == |h.places|
    && (forall z :: 0 <= z < |h.places| ==> h'.places[z].role == h.places[z].role && h'.places[z].size == h.places[z].size)
    && (forall z :: 0 <= z < |h.places| && z != x && z != y ==> h'.places[z].items == h.places[z].items)
  }

  /** The batch has gone: the rest is left, and y has got it at its end, in order, rewritten as the queue rewrites it. */
  ghost predicate Moved(h: Host, h': Host, x: nat, ps: seq<nat>, y: nat)
    requires Movable(h, x, ps, y)
  {
    && OnlyItems(h, h', x, y)
    && h'.places[x].items == Left(h.places[x].items, ps)
    && Descs(h'.places[y].items) == Descs(h.places[y].items)
         + HandedAll(h.places[x].role, h.places[y].role, Descs(Picked(h.places[x].items, ps)))
  }

  lemma MoveOne(h: Host, x: nat, ps: seq<nat>, y: nat, id: nat)
    requires ps != [] && Movable(h, x, ps, y)
    ensures Enabled(h, Move(x, ps[0], y))
    ensures var h1 := Next(h, Move(x, ps[0], y), id);
            && OnlyItems(h, h1, x, y)
            && h1.places[x].items == Without(h.places[x].items, ps[0])
            && h1.places[y].items == h.places[y].items + [HandedItem(h.places[x].role, h.places[y].role, h.places[x].items[ps[0]], id)]
  {
    assert Picked(h.places[x].items, ps)[0] == h.places[x].items[ps[0]];
  }

  lemma MovableRest(h: Host, h1: Host, x: nat, ps: seq<nat>, y: nat, it: Item)
    requires ps != [] && Movable(h, x, ps, y) && OnlyItems(h, h1, x, y)
    requires h1.places[x].items == Without(h.places[x].items, ps[0])
    requires h1.places[y].items == h.places[y].items + [it]
    ensures Movable(h1, x, ps[1..], y)
  {
    var all, rest := Picked(h.places[x].items, ps), Picked(h1.places[x].items, ps[1..]);
    assert forall i :: 0 <= i < |rest| ==> rest[i] == all[i + 1];
  }

  lemma MovedAll(h: Host, h1: Host, h2: Host, x: nat, ps: seq<nat>, y: nat, it: Item)
    requires ps != [] && Movable(h, x, ps, y) && OnlyItems(h, h1, x, y)
    requires h1.places[x].items == Without(h.places[x].items, ps[0])
    requires h1.places[y].items == h.places[y].items + [it]
    requires it.desc == Handed(h.places[x].role, h.places[y].role, h.places[x].items[ps[0]].desc)
    requires Movable(h1, x, ps[1..], y) && Moved(h1, h2, x, ps[1..], y)
    ensures Moved(h, h2, x, ps, y)
  {
    var from, to := h.places[x].role, h.places[y].role;
    var first, rest := h.places[x].items[ps[0]], Picked(h1.places[x].items, ps[1..]);
    assert Descs(h1.places[y].items) == Descs(h.places[y].items) + [it.desc];
    assert Descs([first] + rest) == [first.desc] + Descs(rest);
    assert HandedAll(from, to, [first.desc] + Descs(rest)) == [it.desc] + HandedAll(from, to, Descs(rest));
  }

  /**
   A batch that a queue accepts or hands out, any slice of what a holder has or the front of a ring, is a run of
   single moves. So what every run keeps holds before and after whole calls.
   */
  lemma {:induction false} BatchIsMoves(w: World, n: nat, x: nat, ps: seq<nat>, y: nat)
    requires n < |w.hosts| && Movable(w.hosts[n], x, ps, y)
    ensures var r := Exec(w, Moves(n, x, ps, y));
            && r.Some? && |r.value.hosts| == |w.hosts|
            && (forall m :: 0 <= m < |w.hosts| && m != n ==> r.value.hosts[m] == w.hosts[m])
            && Moved(w.hosts[n], r.value.hosts[n], x, ps, y)
    decreases |ps|
  {
    hide Next, Enabled;
    var es, h := Moves(n, x, ps, y), w.hosts[n];
    if ps == [] {
      assert es == [];
    } else {
      MoveOne(h, x, ps, y, |w.log.sent|);
      var w1 := NextWorld(w, es[0]);
      var it := HandedItem(h.places[x].role, h.places[y].role, h.places[x].items[ps[0]], |w.log.sent|);
      MovableRest(h, w1.hosts[n], x, ps, y, it);
      BatchIsMoves(w1, n, x, ps[1..], y);
      assert es[1..] == Moves(n, x, ps[1..], y);
      MovedAll(h, w1.hosts[n], Exec(w1, es[1..]).value.hosts[n], x, ps, y, it);
    }
  }
}

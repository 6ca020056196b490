/**
 The sender loops of `dev1_to_dev2_multithreaded` and `dev1_to_dev2_single_thread`
 (examples/dev1_to_dev2.rs:464-554 and 189-330).
 */
module Sender {
  import opened Words
  import opened Frames
  import opened Region
  import opened Paths
  import opened Queues
  import opened Transmit
  import R = Ring

  // ----- Writing packets into frames -----

  /** Data segments of length mtu at these addresses do not overlap. */
  ghost predicate Apart(mtu: nat, addrs: seq<usize>) {
    forall i, j :: 0 <= i < |addrs| && 0 <= j < |addrs| && i != j ==> addrs[i] + mtu <= addrs[j] || addrs[j] + mtu <= addrs[i]
  }

  ghost predicate Distinct(addrs: seq<usize>) {
    forall i, j :: 0 <= i < j < |addrs| ==> addrs[i] != addrs[j]
  }

  /** A packet written at the start of an empty segment is all the descriptor then describes; other frames keep theirs. */
  lemma WholePacket(bytes: seq<byte>, mtu: nat, at: usize, b: seq<byte>, d: FrameDesc)
    requires at + mtu <= |bytes| && |b| <= mtu && d.addr + mtu <= |bytes| && d.data <= mtu
    requires (d.addr == at && d.data == |b|) || d.addr + mtu <= at || at + mtu <= d.addr
    ensures Contents(Splice(bytes, at, b), d) == if d.addr == at && d.data == |b| then b else Contents(bytes, d)
  {
    if d.addr == at && d.data == |b| {
      SpliceWhole(bytes, at, b);
    } else {
      SpliceOutside(bytes, at, b, d.addr, d.data);
    }
  }

  /** A byte in none of these data segments. */
  predicate Outside(mtu: nat, addrs: seq<usize>, p: nat) {
    forall j :: 0 <= j < |addrs| ==> p < addrs[j] || addrs[j] + mtu <= p
  }

  /** Nothing outside these data segments has changed. */
  ghost predicate KeptOutside(mtu: nat, addrs: seq<usize>, was: seq<byte>, now: seq<byte>) {
    |now| == |was| && forall p: nat :: p < |was| && Outside(mtu, addrs, p) ==> now[p] == was[p]
  }

  lemma KeptGrows(mtu: nat, addrs: seq<usize>, i: nat, was: seq<byte>, mid: seq<byte>, b: seq<byte>)
    requires i < |addrs| && KeptOutside(mtu, addrs[..i], was, mid) && |b| <= mtu && addrs[i] + |b| <= |mid|
    ensures KeptOutside(mtu, addrs[..i + 1], was, Splice(mid, addrs[i], b))
  {
    var now := Splice(mid, addrs[i], b);
    forall p: nat | p < |was| && Outside(mtu, addrs[..i + 1], p) ensures now[p] == was[p] {
      assert addrs[..i + 1][i] == addrs[i];
      assert Outside(mtu, addrs[..i], p) by {
        forall j | 0 <= j < i ensures p < addrs[..i][j] || addrs[..i][j] + mtu <= p {
          assert addrs[..i + 1][j] == addrs[..i][j];
        }
      }
    }
  }

  /** Then neither has what any descriptor apart from them describes. */
  lemma KeptContents(mtu: nat, addrs: seq<usize>, was: seq<byte>, now: seq<byte>, d: FrameDesc)
    requires KeptOutside(mtu, addrs, was, now) && d.data <= mtu
    requires forall j :: 0 <= j < |addrs| ==> d.addr + mtu <= addrs[j] || addrs[j] + mtu <= d.addr
    ensures Contents(now, d) == Contents(was, d)
  {
    if d.addr + d.data <= |was| {
      var seen, before := now[d.addr..d.addr + d.data], was[d.addr..d.addr + d.data];
      forall i | 0 <= i < d.data ensures seen[i] == before[i] {
        assert Outside(mtu, addrs, d.addr + i);
      }
    }
  }

  /** Every descriptor starts an empty segment of this region. */
  ghost predicate Blank(mtu: nat, len: nat, descs: seq<FrameDesc>) {
    forall i :: 0 <= i < |descs| ==> descs[i].addr + mtu <= len && descs[i].data == 0
  }

  /** The descriptors describe these packets, whole. */
  ghost predicate Holding(mtu: nat, bytes: seq<byte>, descs: seq<FrameDesc>, pkts: seq<seq<byte>>) {
    && |descs| == |pkts|
    && (forall i :: 0 <= i < |pkts| ==> descs[i].addr + mtu <= |bytes|)
    && (forall i :: 0 <= i < |pkts| ==> descs[i].data == |pkts[i]| <= mtu)
    && (forall i :: 0 <= i < |pkts| ==> Contents(bytes, descs[i]) == pkts[i])
  }

  /** Writing one more frame, apart from the others, adds one more whole packet. */
  lemma WriteNext(mtu: nat, bytes: seq<byte>, descs: seq<FrameDesc>, pkts: seq<seq<byte>>, d: FrameDesc, src: seq<byte>)
    requires Holding(mtu, bytes, descs, pkts)
    requires d.addr + mtu <= |bytes| && d.data == |src| <= mtu
    requires forall j :: 0 <= j < |descs| ==> descs[j].addr + mtu <= d.addr || d.addr + mtu <= descs[j].addr
    ensures Holding(mtu, Splice(bytes, d.addr, src), descs + [d], pkts + [src])
  {
    WholePacket(bytes, mtu, d.addr, src, d);
    forall j | 0 <= j < |descs| ensures Contents(Splice(bytes, d.addr, src), descs[j]) == pkts[j] {
      WholePacket(bytes, mtu, d.addr, src, descs[j]);
    }
  }

  /** The first i descriptors hold the first i packets at the first i addresses. */
  ghost predicate WrittenTo(mtu: nat, bytes: seq<byte>, descs: seq<FrameDesc>, addrs: seq<usize>, pkts: seq<seq<byte>>, i: nat)
    requires i <= |pkts| == |addrs| <= |descs|
  {
    Holding(mtu, bytes, descs[..i], pkts[..i]) && FrameAddrs(descs[..i]) == addrs[..i]
  }

  lemma WrittenMore(mtu: nat, bytes: seq<byte>, descs: seq<FrameDesc>, addrs: seq<usize>, pkts: seq<seq<byte>>, i: nat, d: FrameDesc)
    requires i < |pkts| == |addrs| <= |descs| && WrittenTo(mtu, bytes, descs, addrs, pkts, i)
    requires Apart(mtu, addrs) && d.addr == addrs[i] && d.addr + mtu <= |bytes| && d.data == |pkts[i]| <= mtu
    ensures WrittenTo(mtu, Splice(bytes, d.addr, pkts[i]), descs[i := d], addrs, pkts, i + 1)
  {
    var done, now := descs[..i], descs[i := d];
    forall j | 0 <= j < i ensures done[j].addr + mtu <= d.addr || d.addr + mtu <= done[j].addr {
      assert FrameAddrs(done)[j] == addrs[..i][j];
    }
    WriteNext(mtu, bytes, done, pkts[..i], d, pkts[i]);
    assert now[..i + 1] == done + [d];
    assert pkts[..i + 1] == pkts[..i] + [pkts[i]];
    assert FrameAddrs(done + [d]) == FrameAddrs(done) + [d.addr];
    assert addrs[..i + 1] == addrs[..i] + [addrs[i]];
  }

  predicate AllFit(pkts: seq<seq<byte>>, mtu: nat) {
    forall i :: 0 <= i < |pkts| ==> |pkts[i]| <= mtu
  }

  /** `data_mut(desc).cursor().write_all(&pkt)` on an empty frame, through the descriptor in the array. */
  method WritePacket(region: UmemRegion, descs: array<FrameDesc>, i: nat, pkt: seq<byte>) returns (ok: bool, n: nat)
    requires region.Valid() && i < descs.Length
    requires descs[i].addr + region.umem.layout.mtu <= region.mem.Length && descs[i].data == 0
    modifies region.mem, descs
    ensures ok <==> |pkt| <= region.umem.layout.mtu
    ensures n <= |pkt| && n <= region.umem.layout.mtu && (ok ==> n == |pkt|)
    ensures descs[..] == old(descs[..])[i := descs[i]] && descs[i].addr == old(descs[i].addr) && descs[i].data == n
    ensures region.mem[..] == Splice(old(region.mem[..]), old(descs[i].addr), pkt[..n])
  {
    var d;
    d, n := region.WriteData(descs[i], pkt);
    descs[i] := d;
    ok := n == |pkt|;
  }

  /**
   The writing loop of the example: `data_mut(desc).cursor().write_all(&pkt).unwrap()` on the first frames, a packet
   each. Bytes outside the data segments of those frames stay as they are, also when a packet does not fit.
   */
  method WritePackets(region: UmemRegion, descs: array<FrameDesc>, pkts: seq<seq<byte>>) returns (ok: bool)
    requires region.Valid() && |pkts| <= descs.Length
    requires Blank(region.umem.layout.mtu, region.mem.Length, descs[..|pkts|])
    requires Apart(region.umem.layout.mtu, FrameAddrs(descs[..|pkts|]))
    modifies region.mem, descs
    ensures descs[|pkts|..] == old(descs[|pkts|..])
    ensures ok <==> AllFit(pkts, region.umem.layout.mtu)
    ensures ok ==> Holding(region.umem.layout.mtu, region.mem[..], descs[..|pkts|], pkts)
    ensures ok ==> FrameAddrs(descs[..|pkts|]) == old(FrameAddrs(descs[..|pkts|]))
    ensures KeptOutside(region.umem.layout.mtu, old(FrameAddrs(descs[..|pkts|])), old(region.mem[..]), region.mem[..])
  {
    hide Splice, KeptOutside, WrittenTo, Apart;
    var mtu := region.umem.layout.mtu;
    ghost var was, addrs, before := descs[..], FrameAddrs(descs[..|pkts|]), region.mem[..];
    NoneWritten(mtu, before, was, addrs, pkts);
    for i := 0 to |pkts|
      invariant descs[i..] == was[i..]
      invariant forall j :: 0 <= j < i ==> |pkts[j]| <= mtu
      invariant WrittenTo(mtu, region.mem[..], descs[..], addrs, pkts, i)
      invariant KeptOutside(mtu, addrs[..i], before, region.mem[..])
    {
      ghost var bytes, now := region.mem[..], descs[..];
      assert descs[i] == was[..|pkts|][i];
      assert descs[i].addr == addrs[i];
      var n;
      ok, n := WritePacket(region, descs, i, pkts[i]);
      assert descs[i + 1..] == was[i + 1..];
      KeptGrows(mtu, addrs, i, before, bytes, pkts[i][..n]);
      if !ok {
        KeptMore(mtu, addrs, i + 1, before, region.mem[..]);
        return;
      }
      assert pkts[i][..n] == pkts[i];
      WrittenMore(mtu, bytes, now, addrs, pkts, i, descs[i]);
    }
    AllWritten(mtu, region.mem[..], descs[..], addrs, pkts);
    assert descs[..][..|pkts|] == descs[..|pkts|] && addrs[..|pkts|] == addrs;
    ok := true;
  }

  lemma NoneWritten(mtu: nat, bytes: seq<byte>, descs: seq<FrameDesc>, addrs: seq<usize>, pkts: seq<seq<byte>>)
    requires |pkts| == |addrs| <= |descs|
    ensures WrittenTo(mtu, bytes, descs, addrs, pkts, 0) && KeptOutside(mtu, addrs[..0], bytes, bytes)
  {
  }

  lemma AllWritten(mtu: nat, bytes: seq<byte>, descs: seq<FrameDesc>, addrs: seq<usize>, pkts: seq<seq<byte>>)
    requires |pkts| == |addrs| <= |descs| && WrittenTo(mtu, bytes, descs, addrs, pkts, |pkts|)
    ensures Holding(mtu, bytes, descs[..|pkts|], pkts) && FrameAddrs(descs[..|pkts|]) == addrs
  {
    assert pkts[..|pkts|] == pkts && addrs[..|addrs|] == addrs;
  }

  lemma KeptMore(mtu: nat, addrs: seq<usize>, i: nat, was: seq<byte>, now: seq<byte>)
    requires i <= |addrs| && KeptOutside(mtu, addrs[..i], was, now)
    ensures KeptOutside(mtu, addrs, was, now)
  {
    forall p: nat | p < |was| && Outside(mtu, addrs, p) ensures Outside(mtu, addrs[..i], p) {
    }
  }

  // ----- The sender loop -----

  /** The packets `pkts.next()` yields from the n-th on. */
  function Upcoming(packet: nat -> seq<byte>, n: nat, k: nat): (r: seq<seq<byte>>)
    ensures |r| == k && forall i :: 0 <= i < k ==> r[i] == packet(n + i)
  {
    seq(k, i requires 0 <= i < k => packet(n + i))
  }

  /** What was submitted so far is packets 0, 1, 2, ... in order, each whole and no longer than the mtu. */
  ghost predicate InOrder(submitted: seq<XdpDesc>, payloads: seq<seq<byte>>, mtu: nat, packet: nat -> seq<byte>) {
    && |payloads| == |submitted|
    && (forall i :: 0 <= i < |submitted| ==> payloads[i] == packet(i))
    && (forall i :: 0 <= i < |submitted| ==> submitted[i].len == |payloads[i]| <= mtu)
  }

  /** What the kernel has put on the wire so far is packets of the stream, each whole. */
  ghost predicate OnlyPackets(wire: seq<seq<byte>>, aired: seq<nat>, packet: nat -> seq<byte>) {
    |wire| == |aired| && forall p :: 0 <= p < |wire| ==> wire[p] == packet(aired[p])
  }

  /** The counters: outstanding frames never exceed the batch, and equal it until everything is submitted. */
  ghost predicate Counters(sent: nat, consumed: nat, batch: nat, target: nat) {
    && consumed <= sent <= (if target < batch then batch else target)
    && sent - consumed <= batch
    && (sent < target ==> sent - consumed == batch)
  }

  /** Until everything is submitted, every frame but the first batch was resubmitted just as it was completed. */
  ghost predicate Resent(submitted: seq<XdpDesc>, completed: seq<usize>, read: nat, initial: seq<usize>, target: nat) {
    && read <= |completed|
    && Counters(|submitted|, read, |initial|, target)
    && (|submitted| < target ==> Addrs(submitted) == initial + completed[..read])
  }

  /** The initial frames: distinct, apart, and inside a region of this length. */
  ghost predicate FramesReady(mtu: nat, len: nat, initial: seq<usize>) {
    && mtu < TWO32
    && Distinct(initial) && Apart(mtu, initial)
    && forall i :: 0 <= i < |initial| ==> initial[i] + mtu <= len
  }

  lemma Position(a: usize, t: seq<usize>) returns (i: nat)
    requires a in multiset(t)
    ensures i < |t| && t[i] == a
  {
    i :| 0 <= i < |t| && t[i] == a;
  }

  lemma CountTwice(s: seq<usize>, i: nat, j: nat)
    requires i < j < |s| && s[i] == s[j]
    ensures multiset(s)[s[i]] >= 2
  {
    assert s == s[..j] + [s[j]] + s[j + 1..];
    assert s[..j] == s[..i] + [s[i]] + s[i + 1..j];
  }

  lemma {:induction false} CountOnce(t: seq<usize>, a: usize)
    requires Distinct(t)
    ensures multiset(t)[a] <= 1
    decreases |t|
  {
    if t == [] {
    } else {
      var n := |t| - 1;
      assert t == t[..n] + [t[n]];
      CountOnce(t[..n], a);
      assert t[n] !in t[..n];
    }
  }

  /** A selection from distinct, apart frames is itself distinct and apart, and selects from them. */
  lemma Selected(mtu: nat, s: seq<usize>, t: seq<usize>)
    requires multiset(s) <= multiset(t) && Distinct(t) && Apart(mtu, t)
    ensures Apart(mtu, s)
    ensures forall i :: 0 <= i < |s| ==> s[i] in t
  {
    forall i | 0 <= i < |s| ensures s[i] in t {
      assert s[i] in multiset(s);
      var p := Position(s[i], t);
    }
    forall i, j | 0 <= i < |s| && 0 <= j < |s| && i != j
      ensures s[i] + mtu <= s[j] || s[j] + mtu <= s[i]
    {
      assert s[i] in multiset(s) && s[j] in multiset(s);
      var p := Position(s[i], t);
      var q := Position(s[j], t);
      CountOnce(t, s[i]);
      if p == q {
        CountTwice(s, Min(i, j), i + j - Min(i, j));
      }
    }
  }

  /** Frames just completed are initial frames, pairwise apart, and as many again fit where a batch fitted. */
  lemma CompletedFrames(mtu: nat, len: nat, initial: seq<usize>, addrs: seq<usize>, taken: nat, held: seq<usize>,
                        completed: seq<usize>, read: nat, k: nat)
    requires FramesReady(mtu, len, initial)
    requires read + k <= |completed| && taken <= |addrs|
    requires multiset(completed) + multiset(held) == multiset(addrs[..taken])
    requires addrs == initial + completed[..read]
    ensures Apart(mtu, completed[read..read + k])
    ensures forall i :: read <= i < read + k ==> completed[i] + mtu <= len
    ensures k <= |initial| && |addrs| - taken <= |initial| - k
  {
    var got := completed[read..read + k];
    Cancel(addrs, taken, held, completed, read, initial);
    assert completed[read..] == got + completed[read + k..];
    assert multiset(got) <= multiset(initial);
    Selected(mtu, got, initial);
    forall i | read <= i < read + k ensures completed[i] + mtu <= len {
      assert got[i - read] in initial;
    }
  }

  // ----- Frames in flight are left alone -----

  /** Where the frames outside the user's hands are: tx ring, kernel, completion ring. */
  function Outstanding(b: Books, read: nat): seq<usize>
    requires b.taken <= |b.submitted| && read <= |b.completed|
  {
    Addrs(b.submitted)[b.taken..] + Addrs(b.held) + b.completed[read..]
  }

  /** A submission taken, not held and not among the completions read has been completed since. */
  lemma LandedLater(b: Books, m: nat, i: nat) returns (j: nat)
    requires Once(b) && m <= |b.landed| && i < b.taken && i !in b.flying && i !in b.landed[..m]
    ensures m <= j < |b.landed| && b.landed[j] == i
  {
    assert multiset(b.flying)[i] == 0;
    assert i in multiset(b.landed);
    j :| 0 <= j < |b.landed| && b.landed[j] == i;
    assert forall t :: 0 <= t < m ==> b.landed[t] in b.landed[..m];
  }

  /** A submission not yet read back is at a position of its own among them, not among the k completions just read. */
  lemma FlightPosition(b: Books, read: nat, k: nat, i: nat) returns (p: nat)
    requires BooksOk(b) && read + k <= |b.completed| && i < |b.submitted| && i !in b.landed[..read + k]
    ensures p < |Outstanding(b, read)| && Outstanding(b, read)[p] == b.submitted[i].addr
    ensures var base := |b.submitted| - b.taken + |b.held|; p < base || base + k <= p
  {
    var base := |b.submitted| - b.taken + |b.held|;
    if i >= b.taken {
      p := i - b.taken;
    } else if i in b.flying {
      var j :| 0 <= j < |b.flying| && b.flying[j] == i;
      p := |b.submitted| - b.taken + j;
    } else {
      var j := LandedLater(b, read + k, i);
      p := base + (j - read);
    }
  }

  lemma OutstandingApart(mtu: nat, len: nat, initial: seq<usize>, b: Books, read: nat)
    requires FramesReady(mtu, len, initial) && BooksOk(b) && read <= |b.completed|
    requires Addrs(b.submitted) == initial + b.completed[..read]
    ensures Apart(mtu, Outstanding(b, read))
  {
    Cancel(Addrs(b.submitted), b.taken, Addrs(b.held), b.completed, read, initial);
    Selected(mtu, Outstanding(b, read), initial);
  }

  /** Writing to the data segments of the frames just completed leaves everything in flight intact. */
  lemma StillInFlight(mtu: nat, len: nat, initial: seq<usize>, b: Books, read: nat, k: nat, was: seq<byte>, now: seq<byte>)
    requires FramesReady(mtu, len, initial) && BooksOk(b) && read + k <= |b.completed|
    requires Addrs(b.submitted) == initial + b.completed[..read]
    requires forall i :: 0 <= i < |b.submitted| ==> b.submitted[i].len <= mtu
    requires InFlight(b, was, read + k) && KeptOutside(mtu, b.completed[read..read + k], was, now)
    ensures InFlight(b, now, read + k)
  {
    OutstandingApart(mtu, len, initial, b, read);
    var out, base := Outstanding(b, read), |b.submitted| - b.taken + |b.held|;
    forall i: nat | i < |b.submitted| && i !in b.landed[..read + k] ensures Intact(b, now, i) {
      var p := FlightPosition(b, read, k, i);
      var got := b.completed[read..read + k];
      forall j | 0 <= j < |got| ensures b.submitted[i].addr + mtu <= got[j] || got[j] + mtu <= b.submitted[i].addr {
        assert got[j] == out[base + j];
      }
      KeptContents(mtu, got, was, now, FromRx(b.submitted[i]));
      assert Intact(b, was, i);
    }
  }

  lemma WireIsPackets(b: Books, mtu: nat, packet: nat -> seq<byte>)
    requires BooksOk(b) && InOrder(b.submitted, b.payloads, mtu, packet)
    ensures OnlyPackets(b.wire, b.aired, packet)
  {
    forall p | 0 <= p < |b.wire| ensures b.wire[p] == packet(b.aired[p]) {
      assert b.payloads[b.aired[p]] == packet(b.aired[p]);
    }
  }

  // ----- The loops -----

  /** Appending the next packets, whole, keeps the order. */
  lemma OrderGrows(submitted: seq<XdpDesc>, payloads: seq<seq<byte>>, mtu: nat, bytes: seq<byte>, descs: seq<FrameDesc>,
                   k: nat, packet: nat -> seq<byte>)
    requires InOrder(submitted, payloads, mtu, packet) && mtu < TWO32
    requires Holding(mtu, bytes, descs, Upcoming(packet, |submitted|, |descs|))
    requires k <= |descs|
    ensures InOrder(submitted + TxEntries(descs[..k]), payloads + Payloads(bytes, descs[..k]), mtu, packet)
  {
    hide Wrap;
    var ss, ps := submitted + TxEntries(descs[..k]), payloads + Payloads(bytes, descs[..k]);
    forall i | 0 <= i < |ss| ensures ps[i] == packet(i) && ss[i].len == |ps[i]| <= mtu {
      if i >= |submitted| {
        var j := i - |submitted|;
        assert ps[i] == Upcoming(packet, |submitted|, |descs|)[j];
        WrapBelow(descs[j].data);
      }
    }
  }

  /** Sending the frames just completed, or as many as are still due, keeps the recycling. */
  lemma ResentGrows(submitted: seq<XdpDesc>, completed: seq<usize>, read: nat, initial: seq<usize>, target: nat,
                    written: seq<FrameDesc>, later: seq<usize>)
    requires Resent(submitted, completed, read, initial, target) && |submitted| < target
    requires read + |written| <= |completed| && completed <= later
    requires FrameAddrs(written) == completed[read..read + |written|] && |written| <= |initial|
    ensures var due := Min(|written|, target - |submitted|);
            Resent(submitted + TxEntries(written[..due]), later, read + |written|, initial, target)
  {
    hide Wrap;
    var k := |written|;
    if k <= target - |submitted| {
      assert written[..k] == written;
      assert Addrs(TxEntries(written)) == FrameAddrs(written);
      AddrsConcat(submitted, TxEntries(written));
      Regrow(initial, completed, later, read, read + k);
    }
  }

  lemma ResentWaits(submitted: seq<XdpDesc>, completed: seq<usize>, later: seq<usize>, read: nat, k: nat, initial: seq<usize>, target: nat)
    requires Resent(submitted, completed, read, initial, target) && completed <= later && read + k <= |later| <= |submitted|
    ensures Resent(submitted, later, read, initial, target)
    ensures k == 0 || |submitted| >= target ==> Resent(submitted, later, read + k, initial, target)
  {
  }

  lemma ResentStarts(first: seq<FrameDesc>, target: nat)
    ensures Resent(TxEntries(first), [], 0, FrameAddrs(first), target)
  {
    hide Wrap;
    assert Addrs(TxEntries(first)) == FrameAddrs(first);
    assert FrameAddrs(first) + [] == FrameAddrs(first);
  }

  /**
   What the sending side keeps at every loop head: the rings, everything in flight as it was submitted, packets
   submitted in order and whole, and the counters.
   */
  ghost predicate Sending(path: TxPath, initial: seq<usize>, batch: nat, target: nat, packet: nat -> seq<byte>)
    reads path.Repr(), path.region.mem
  {
    && path.Valid()
    && FramesReady(path.region.umem.layout.mtu, path.region.mem.Length, initial)
    && |initial| == batch <= path.txq.ring.mem.size
    && InOrder(path.books.submitted, path.books.payloads, path.region.umem.layout.mtu, packet)
    && Resent(path.books.submitted, path.books.completed, path.read, initial, target)
  }

  /** The same while the k frames just completed are in the user's hands. */
  ghost predicate Refilling(path: TxPath, k: nat, initial: seq<usize>, batch: nat, target: nat, packet: nat -> seq<byte>)
    reads path.Repr(), path.region.mem
  {
    && path.Valid() && 0 < k <= path.read
    && FramesReady(path.region.umem.layout.mtu, path.region.mem.Length, initial)
    && |initial| == batch <= path.txq.ring.mem.size
    && |path.books.submitted| < target
    && InOrder(path.books.submitted, path.books.payloads, path.region.umem.layout.mtu, packet)
    && Resent(path.books.submitted, path.books.completed, path.read - k, initial, target)
  }

  /** What that says to the caller of a loop. */
  lemma SendingMeans(path: TxPath, initial: seq<usize>, batch: nat, target: nat, packet: nat -> seq<byte>)
    requires Sending(path, initial, batch, target, packet)
    ensures path.Valid() && Counters(|path.books.submitted|, path.read, batch, target)
    ensures InOrder(path.books.submitted, path.books.payloads, path.region.umem.layout.mtu, packet)
    ensures OnlyPackets(path.wire, path.books.aired, packet)
  {
    WireIsPackets(path.books, path.region.umem.layout.mtu, packet);
  }

  datatype Round = Panic | Progress(completed: nat, resent: nat)

  /** What the world does in one pass: whether the kernel is eager, and which system calls fail if they are made. */
  datatype Pass = Pass(eager: bool, wakeupFails: bool, pollFails: bool, sendFails: bool)

  predicate Faulty(p: Pass) {
    p.wakeupFails || p.pollFails || p.sendFails
  }

  /** The only other reason to panic: a packet that does not fit a frame. */
  ghost predicate TooLong(packet: nat -> seq<byte>, mtu: nat) {
    exists i: nat :: |packet(i)| > mtu
  }

  lemma SomeIsTooLong(packet: nat -> seq<byte>, n: nat, k: nat, mtu: nat)
    requires !AllFit(Upcoming(packet, n, k), mtu)
    ensures TooLong(packet, mtu)
  {
    var i :| 0 <= i < k && |Upcoming(packet, n, k)[i]| > mtu;
    assert |packet(n + i)| > mtu;
  }

  function EagerPasses(passes: seq<Pass>): nat {
    if passes == [] then 0
    else EagerPasses(passes[..|passes| - 1]) + if passes[|passes| - 1].eager then 1 else 0
  }

  lemma OneMorePass(passes: seq<Pass>, n: nat)
    requires n < |passes|
    ensures EagerPasses(passes[..n + 1]) == EagerPasses(passes[..n]) + if passes[n].eager then 1 else 0
  {
    assert passes[..n + 1][..n] == passes[..n];
  }

  /** Submit the packets now written, or as many of them as are due, until accepted. */
  method Resend(path: TxPath, written: seq<FrameDesc>, sent: nat, sendFails: bool,
                ghost initial: seq<usize>, batch: nat, target: nat, packet: nat -> seq<byte>) returns (r: Round)
    requires Refilling(path, |written|, initial, batch, target, packet) && sent == |path.books.submitted|
    requires |written| <= batch && |written| < TWO32
    requires |path.books.submitted| - path.books.taken <= batch - |written|
    requires Holding(path.region.umem.layout.mtu, path.region.mem[..], written, Upcoming(packet, sent, |written|))
    requires FrameAddrs(written) == path.books.completed[path.read - |written|..path.read]
    modifies path.Repr()
    ensures path.Valid() && path.read == old(path.read) && old(path.books.completed) <= path.books.completed
    ensures r.Panic? <==> sendFails
    ensures r.Progress? ==>
              && r.completed == |written| && r.resent == Min(|written|, target - sent)
              && |path.books.submitted| == sent + r.resent
              && Sending(path, initial, batch, target, packet)
  {
    hide Wrap, And, IsPowOfTwo, BooksOk, InFlight, R.MemInv, R.ProdInv, R.ConsInv, Apart, Distinct, TxEntries, Payloads, FrameAddrs, Upcoming;
    var k, mtu := |written|, path.region.umem.layout.mtu;
    var due := if k < target - sent then k else target - sent;
    due := if due < batch then due else batch;
    ghost var was := path.books.completed;
    OrderGrows(path.books.submitted, path.books.payloads, mtu, path.region.mem[..], written, due, packet);
    var attempt := path.SendUntilAccepted(written[..due], [sendFails]);
    if attempt.Failed? {
      return Panic;
    }
    assert due == Min(k, target - sent) && path.books.submitted == old(path.books.submitted) + TxEntries(written[..due]);
    ResentGrows(old(path.books.submitted), was, path.read - k, initial, target, written, path.books.completed);
    r := Progress(k, due);
  }

  /** The user's side of a refill: the next packets go into the k frames just completed, and nothing in flight is disturbed. */
  method WriteCompleted(path: TxPath, descs: array<FrameDesc>, k: nat, sent: nat,
                        ghost initial: seq<usize>, batch: nat, target: nat, packet: nat -> seq<byte>) returns (ok: bool)
    requires Refilling(path, k, initial, batch, target, packet) && sent == |path.books.submitted|
    requires descs !in path.Repr() && k <= descs.Length
    requires forall i :: 0 <= i < k ==> descs[i] == FromComp(path.books.completed[path.read - k + i])
    modifies path.region.mem, descs
    ensures Refilling(path, k, initial, batch, target, packet)
    ensures k <= batch && |path.books.submitted| - path.books.taken <= batch - k
    ensures ok <==> AllFit(Upcoming(packet, sent, k), path.region.umem.layout.mtu)
    ensures ok ==>
              && Holding(path.region.umem.layout.mtu, path.region.mem[..], descs[..k], Upcoming(packet, sent, k))
              && FrameAddrs(descs[..k]) == path.books.completed[path.read - k..path.read]
  {
    hide Wrap, And, IsPowOfTwo, R.MemInv, R.ProdInv, R.ConsInv, InFlight;
    var mtu := path.region.umem.layout.mtu;
    ghost var b, read, bytes := path.books, path.read - k, path.region.mem[..];
    CompletedFrames(mtu, path.region.mem.Length, initial, Addrs(b.submitted), b.taken, Addrs(b.held), b.completed, read, k);
    assert FrameAddrs(descs[..k]) == b.completed[read..read + k];
    assert Blank(mtu, path.region.mem.Length, descs[..k]);
    ok := WritePackets(path.region, descs, Upcoming(packet, sent, k));
    StillInFlight(mtu, path.region.mem.Length, initial, b, read, k, bytes, path.region.mem[..]);
  }

  /** The submitting half of a round: write the next packets into the k frames just completed and send as many as are due. */
  method Refill(path: TxPath, descs: array<FrameDesc>, k: nat, sent: nat, pass: Pass,
                ghost initial: seq<usize>, batch: nat, target: nat, packet: nat -> seq<byte>) returns (r: Round)
    requires Refilling(path, k, initial, batch, target, packet) && sent == |path.books.submitted|
    requires descs !in path.Repr() && k <= descs.Length < TWO32
    requires forall i :: 0 <= i < k ==> descs[i] == FromComp(path.books.completed[path.read - k + i])
    modifies path.Repr(), path.region.mem, descs
    ensures path.Valid() && path.read == old(path.read) && old(path.books.completed) <= path.books.completed
    ensures r.Panic? ==> Faulty(pass) || TooLong(packet, path.region.umem.layout.mtu)
    ensures r.Progress? ==>
              && r.completed == k && r.resent == Min(k, target - sent) && |path.books.submitted| == sent + r.resent
              && Sending(path, initial, batch, target, packet)
  {
    hide Wrap, And, IsPowOfTwo, BooksOk, InFlight, R.MemInv, R.ProdInv, R.ConsInv, Apart, Distinct, InOrder, Resent;
    var ok := WriteCompleted(path, descs, k, sent, initial, batch, target, packet);
    if !ok || pass.pollFails {
      if !ok {
        SomeIsTooLong(packet, sent, k, path.region.umem.layout.mtu);
      }
      return Panic;
    }
    r := Resend(path, descs[..k], sent, pass.sendFails, initial, batch, target, packet);
  }

  /** The kernel completes no more than was submitted. */
  lemma CompletedBound(b: Books)
    requires BooksOk(b)
    ensures |b.completed| <= |b.submitted|
  {
    assert |multiset(b.completed)| == |b.completed|;
    assert |multiset(Addrs(b.submitted)[..b.taken])| == b.taken;
  }

  /** `cq.consume(&mut tx_descs[..])` after some kernel progress. */
  method AwaitCompletions(path: TxPath, descs: array<FrameDesc>, ghost initial: seq<usize>, ghost batch: nat, target: nat,
                          ghost packet: nat -> seq<byte>, eager: bool) returns (k: nat)
    requires Sending(path, initial, batch, target, packet) && descs !in path.Repr() && descs.Length < TWO32
    modifies path.Repr(), descs
    ensures path.Valid() && path.books.submitted == old(path.books.submitted)
    ensures k <= descs.Length && path.read == old(path.read) + k <= |path.books.completed|
    ensures old(path.books.completed) <= path.books.completed
    ensures k > 0 <==> descs.Length > 0 && old(path.read) < |path.books.completed|
    ensures eager && descs.Length > 0 && old(path.read) < |path.books.submitted| ==> k > 0
    ensures forall i :: 0 <= i < k ==> descs[i] == FromComp(path.books.completed[path.read - k + i])
    ensures k == 0 || |path.books.submitted| >= target ==> Sending(path, initial, batch, target, packet)
    ensures k > 0 && |path.books.submitted| < target ==> Refilling(path, k, initial, batch, target, packet)
  {
    hide Wrap, And, IsPowOfTwo, BooksOk, InFlight, R.MemInv, R.ProdInv, R.ConsInv, Apart, Distinct, Resent;
    ghost var was := path.books.completed;
    WrapBelow(descs.Length);
    k := path.CompleteSome(descs, eager);
    CompletedBound(path.books);
    ResentWaits(path.books.submitted, was, path.books.completed, path.read - k, k, initial, target);
  }

  /** One pass of the sender loop: consume completions, then refill if packets remain. */
  method SenderRound(path: TxPath, descs: array<FrameDesc>, sent: nat, pass: Pass,
                     ghost initial: seq<usize>, batch: nat, target: nat, packet: nat -> seq<byte>) returns (r: Round)
    requires Sending(path, initial, batch, target, packet) && sent == |path.books.submitted|
    requires descs !in path.Repr() && descs.Length < TWO32
    modifies path.Repr(), path.region.mem, descs
    ensures path.Valid()
    ensures r.Panic? ==> Faulty(pass) || TooLong(packet, path.region.umem.layout.mtu)
    ensures r.Progress? ==>
              && path.read == old(path.read) + r.completed && |path.books.submitted| == sent + r.resent
              && r.resent == (if sent < target then Min(r.completed, target - sent) else 0)
              && Sending(path, initial, batch, target, packet)
    ensures r.Progress? && descs.Length > 0 && old(path.read) < |old(path.books.completed)| ==> r.completed > 0
    ensures r.Progress? && descs.Length > 0 && old(path.read) < sent && pass.eager ==> r.completed > 0
  {
    hide Wrap, And, IsPowOfTwo, BooksOk, InFlight, R.MemInv, R.ProdInv, R.ConsInv, Apart, Distinct, InOrder, Resent;
    var k := AwaitCompletions(path, descs, initial, batch, target, packet, pass.eager);
    if k == 0 {
      return if pass.wakeupFails then Panic else Progress(0, 0);
    }
    if sent < target {
      r := Refill(path, descs, k, sent, pass, initial, batch, target, packet);
    } else {
      r := Progress(k, 0);
    }
  }

  /** `assert_eq!(tx_q.produce(&tx_descs[..max_batch_size]), max_batch_size)`. */
  method SendFirst(path: TxPath, first: seq<FrameDesc>, target: nat, packet: nat -> seq<byte>) returns (ok: bool)
    requires path.Valid() && path.books == NO_BOOKS && path.read == 0 && |first| < TWO32
    requires FramesReady(path.region.umem.layout.mtu, path.region.mem.Length, FrameAddrs(first))
    requires Holding(path.region.umem.layout.mtu, path.region.mem[..], first, Upcoming(packet, 0, |first|))
    modifies path.Repr()
    ensures path.Valid()
    ensures ok <==> |first| <= path.txq.ring.mem.size
    ensures ok ==> path.read == 0 && |path.books.submitted| == |first| && Sending(path, FrameAddrs(first), |first|, target, packet)
  {
    hide Wrap, And, IsPowOfTwo, BooksOk, InFlight, R.MemInv, R.ProdInv, R.ConsInv, Apart, Distinct;
    OrderGrows([], [], path.region.umem.layout.mtu, path.region.mem[..], first, |first|, packet);
    assert first[..|first|] == first;
    assert [] + TxEntries(first) == TxEntries(first);
    ResentStarts(first, target);
    var sent := path.Send(first);
    ok := sent == |first|;
  }

  /** Nothing submitted, nothing in flight: the region is the user's to write. */
  lemma NothingInFlight(bytes: seq<byte>)
    ensures InFlight(NO_BOOKS, bytes, 0)
  {
  }

  /** Before the loop: write the first batch and submit it, all of it or panic. */
  method FirstBatch(path: TxPath, descs: array<FrameDesc>, batch: nat, target: nat, packet: nat -> seq<byte>) returns (ok: bool)
    requires path.Valid() && path.books == NO_BOOKS && path.read == 0
    requires descs !in path.Repr() && batch <= descs.Length < TWO32
    requires FramesReady(path.region.umem.layout.mtu, path.region.mem.Length, FrameAddrs(descs[..batch]))
    requires Blank(path.region.umem.layout.mtu, path.region.mem.Length, descs[..batch])
    modifies path.Repr(), path.region.mem, descs
    ensures path.Valid()
    ensures ok <==> AllFit(Upcoming(packet, 0, batch), path.region.umem.layout.mtu) && batch <= path.txq.ring.mem.size
    ensures ok ==>
              && path.read == 0 && |path.books.submitted| == batch
              && Sending(path, old(FrameAddrs(descs[..batch])), batch, target, packet)
  {
    hide Wrap, And, IsPowOfTwo, BooksOk, InFlight, R.MemInv, R.ProdInv, R.ConsInv, Apart, Distinct, InOrder, Resent;
    ghost var initial := FrameAddrs(descs[..batch]);
    ok := WritePackets(path.region, descs, Upcoming(packet, 0, batch));
    NothingInFlight(path.region.mem[..]);
    if !ok {
      return;
    }
    ok := SendFirst(path, descs[..batch], target, packet);
  }

  /**
   The sender thread of the multithreaded example, for the passes over the completion queue that `passes` describes.
   The counters obey `Counters` at every loop head, so `target - sent` never underflows; what is submitted is packets
   0, 1, 2, ... in order, each one whole, and each stays in memory as submitted until its completion is read; so
   whatever the kernel has put on the wire is whole packets. The loop panics only when a system call fails, a packet
   does not fit its frame or the first batch does not fit. When the first batch is no larger than the target it ends
   with everything submitted and everything completed; and with as many passes in which the kernel is eager as there
   are packets, it does end.
   */
  method SenderLoop(path: TxPath, descs: array<FrameDesc>, batch: nat, target: nat,
                    packet: nat -> seq<byte>, passes: seq<Pass>) returns (outcome: Outcome, sent: nat, consumed: nat)
    requires path.Valid() && path.books == NO_BOOKS && path.read == 0
    requires descs !in path.Repr() && descs.Length < TWO32
    requires FramesReady(path.region.umem.layout.mtu, path.region.mem.Length, FrameAddrs(descs[..]))
    requires forall i :: 0 <= i < descs.Length ==> descs[i].data == 0
    modifies path.Repr(), path.region.mem, descs
    ensures path.Valid()
    ensures outcome != Panicked ==>
              && sent == |path.books.submitted| && consumed == path.read
              && Counters(sent, consumed, batch, target)
              && InOrder(path.books.submitted, path.books.payloads, path.region.umem.layout.mtu, packet)
              && OnlyPackets(path.wire, path.books.aired, packet)
    ensures outcome == Finished ==> consumed >= target && (batch <= target ==> sent == consumed == target)
    ensures outcome == OutOfRounds ==> consumed < target && (batch > 0 ==> EagerPasses(passes) < target)
    ensures outcome == Panicked ==>
              || batch > descs.Length || batch > path.txq.ring.mem.size || TooLong(packet, path.region.umem.layout.mtu)
              || exists n :: 0 <= n < |passes| && Faulty(passes[n])
  {
    hide Wrap, And, IsPowOfTwo, BooksOk, InFlight, R.MemInv, R.ProdInv, R.ConsInv, InOrder, Sending, Resent, FramesReady, OnlyPackets;
    sent, consumed := 0, 0;
    if batch > descs.Length {
      return Panicked, 0, 0;
    }
    ghost var initial := FrameAddrs(descs[..batch]);
    FirstFrames(path.region.umem.layout.mtu, path.region.mem.Length, descs[..], batch);
    assert descs[..][..batch] == descs[..batch];
    var ok := FirstBatch(path, descs, batch, target, packet);
    if !ok {
      if batch <= path.txq.ring.mem.size {
        SomeIsTooLong(packet, 0, batch, path.region.umem.layout.mtu);
      }
      return Panicked, 0, 0;
    }
    sent := batch;
    SendingMeans(path, initial, batch, target, packet);
    for n := 0 to |passes|
      invariant sent == |path.books.submitted| && consumed == path.read
      invariant path.Valid() && Sending(path, initial, batch, target, packet)
      invariant Counters(sent, consumed, batch, target)
      invariant batch > 0 ==> consumed >= Min(EagerPasses(passes[..n]), target)
    {
      if consumed >= target {
        break;
      }
      OneMorePass(passes, n);
      var r := SenderRound(path, descs, sent, passes[n], initial, batch, target, packet);
      if r.Panic? {
        return Panicked, sent, consumed;
      }
      sent, consumed := sent + r.resent, consumed + r.completed;
      SendingMeans(path, initial, batch, target, packet);
    }
    assert passes[..|passes|] == passes;
    SendingMeans(path, initial, batch, target, packet);
    outcome := if consumed >= target then Finished else OutOfRounds;
  }

  /** The first of the frames are as ready as all of them. */
  lemma FirstFrames(mtu: nat, len: nat, descs: seq<FrameDesc>, batch: nat)
    requires FramesReady(mtu, len, FrameAddrs(descs)) && batch <= |descs|
    requires forall i :: 0 <= i < |descs| ==> descs[i].data == 0
    ensures FramesReady(mtu, len, FrameAddrs(descs[..batch])) && Blank(mtu, len, descs[..batch])
  {
    assert FrameAddrs(descs[..batch]) == FrameAddrs(descs)[..batch];
    assert forall i :: 0 <= i < batch ==> descs[i].addr == FrameAddrs(descs)[i];
  }

  /** What one `rx_q.poll_and_consume` of the single-threaded example will say: a failure, or the frames received. */
  datatype Poll = Poll(fails: bool, got: seq<FrameDesc>)

  /** `rx_q.poll_and_consume(&mut tx_descs[..])`: the single-threaded example receives over its sending handles. */
  method ReceiveOver(descs: array<FrameDesc>, got: seq<FrameDesc>) returns (k: nat)
    modifies descs
    ensures k == if |got| < descs.Length then |got| else descs.Length
    ensures descs[..k] == got[..k] && descs[k..] == old(descs[k..])
  {
    k := if |got| < descs.Length then |got| else descs.Length;
    forall i | 0 <= i < k {
      descs[i] := got[i];
    }
  }

  /** The receiving loop of one pass, for the given polls: until everything sent so far has arrived. */
  method ReceiveAll(descs: array<FrameDesc>, sent: nat, already: nat, polls: seq<Poll>) returns (outcome: Outcome, rcvd: nat)
    modifies descs
    ensures rcvd >= already
    ensures outcome == Finished ==> rcvd >= sent
    ensures outcome == OutOfRounds ==> rcvd < sent && forall n :: 0 <= n < |polls| ==> !polls[n].fails
    ensures outcome == Panicked ==> exists n :: 0 <= n < |polls| && polls[n].fails
    ensures descs.Length > 0 && (forall n :: 0 <= n < |polls| ==> polls[n].got != []) && outcome == OutOfRounds ==> rcvd >= already + |polls|
  {
    rcvd := already;
    for n := 0 to |polls|
      invariant rcvd >= already && forall m :: 0 <= m < n ==> !polls[m].fails
      invariant descs.Length > 0 && (forall m :: 0 <= m < |polls| ==> polls[m].got != []) ==> rcvd >= already + n
    {
      if rcvd >= sent {
        return Finished, rcvd;
      }
      if polls[n].fails {
        return Panicked, rcvd;
      }
      var k := ReceiveOver(descs, polls[n].got);
      rcvd := rcvd + k;
    }
    outcome := if rcvd >= sent then Finished else OutOfRounds;
  }

  /** One pass of the single-threaded example: receive until everything sent has arrived, then a pass of the sender. */
  method SinglePass(path: TxPath, descs: array<FrameDesc>, sent: nat, consumed: nat, already: nat, pass: Pass, polls: seq<Poll>,
                    ghost initial: seq<usize>, batch: nat, target: nat, packet: nat -> seq<byte>)
    returns (outcome: Outcome, rcvd: nat, r: Round)
    requires Sending(path, initial, batch, target, packet) && sent == |path.books.submitted| && consumed == path.read
    requires descs !in path.Repr() && batch <= descs.Length < TWO32
    modifies path.Repr(), path.region.mem, descs
    ensures path.Valid() && rcvd >= already
    ensures outcome == Panicked ==>
              Faulty(pass) || TooLong(packet, path.region.umem.layout.mtu) || exists m :: 0 <= m < |polls| && polls[m].fails
    ensures outcome != Panicked ==>
              && r.Progress? && path.read == consumed + r.completed && |path.books.submitted| == sent + r.resent
              && Sending(path, initial, batch, target, packet)
    ensures outcome == OutOfRounds ==> rcvd < sent && r == Progress(0, 0)
    ensures outcome == Finished ==> rcvd >= sent && (pass.eager && batch > 0 && consumed < target ==> r.completed > 0)
  {
    hide Wrap, And, IsPowOfTwo, BooksOk, InFlight, R.MemInv, R.ProdInv, R.ConsInv, InOrder, Sending, Resent, OnlyPackets;
    SendingMeans(path, initial, batch, target, packet);
    r := Progress(0, 0);
    outcome, rcvd := ReceiveAll(descs, sent, already, polls);
    assert Sending(path, initial, batch, target, packet);
    if outcome == Finished && (sent < target || consumed < target) {
      r := SenderRound(path, descs, sent, pass, initial, batch, target, packet);
      if r.Panic? {
        outcome := Panicked;
      }
    }
  }

  /**
   The single-threaded example, for the passes given, each with the polls of its receiving loop. That loop overwrites
   the descriptors it sends with, whatever they then hold; the sending side keeps every promise of `SenderLoop` all
   the same, because it only writes to and sends what the completion queue has just put there.
   */
  method SingleThreadedLoop(path: TxPath, descs: array<FrameDesc>, batch: nat, target: nat,
                            packet: nat -> seq<byte>, passes: seq<Pass>, polls: seq<seq<Poll>>)
    returns (outcome: Outcome, sent: nat, consumed: nat, rcvd: nat)
    requires path.Valid() && path.books == NO_BOOKS && path.read == 0 && |polls| == |passes|
    requires descs !in path.Repr() && batch <= descs.Length < TWO32
    requires FramesReady(path.region.umem.layout.mtu, path.region.mem.Length, FrameAddrs(descs[..batch]))
    requires Blank(path.region.umem.layout.mtu, path.region.mem.Length, descs[..batch])
    modifies path.Repr(), path.region.mem, descs
    ensures path.Valid()
    ensures outcome != Panicked ==>
              && sent == |path.books.submitted| && consumed == path.read
              && Counters(sent, consumed, batch, target)
              && InOrder(path.books.submitted, path.books.payloads, path.region.umem.layout.mtu, packet)
              && OnlyPackets(path.wire, path.books.aired, packet)
    ensures outcome == Finished ==> rcvd >= target && consumed >= target && (batch <= target ==> sent == consumed == target)
    ensures outcome == OutOfRounds ==> rcvd < sent || rcvd < target || consumed < target
    ensures outcome == OutOfRounds && rcvd >= sent && batch > 0 ==> consumed >= Min(EagerPasses(passes), target)
    ensures outcome == Panicked ==>
              || batch > path.txq.ring.mem.size || TooLong(packet, path.region.umem.layout.mtu)
              || (exists n :: 0 <= n < |passes| && Faulty(passes[n]))
              || exists n, m :: 0 <= n < |polls| && 0 <= m < |polls[n]| && polls[n][m].fails
  {
    hide Wrap, And, IsPowOfTwo, BooksOk, InFlight, R.MemInv, R.ProdInv, R.ConsInv, InOrder, Sending, Resent, FramesReady, OnlyPackets;
    sent, consumed, rcvd := 0, 0, 0;
    ghost var initial := FrameAddrs(descs[..batch]);
    var ok := FirstBatch(path, descs, batch, target, packet);
    if !ok {
      if batch <= path.txq.ring.mem.size {
        SomeIsTooLong(packet, 0, batch, path.region.umem.layout.mtu);
      }
      return Panicked, 0, 0, 0;
    }
    sent := batch;
    SendingMeans(path, initial, batch, target, packet);
    for n := 0 to |passes|
      invariant sent == |path.books.submitted| && consumed == path.read
      invariant path.Valid() && Sending(path, initial, batch, target, packet)
      invariant Counters(sent, consumed, batch, target)
      invariant batch > 0 ==> consumed >= Min(EagerPasses(passes[..n]), target)
    {
      if consumed >= target && rcvd >= target {
        break;
      }
      OneMorePass(passes, n);
      var r;
      outcome, rcvd, r := SinglePass(path, descs, sent, consumed, rcvd, passes[n], polls[n], initial, batch, target, packet);
      if outcome == Panicked {
        return;
      }
      sent, consumed := sent + r.resent, consumed + r.completed;
      SendingMeans(path, initial, batch, target, packet);
      if outcome == OutOfRounds {
        return;
      }
    }
    assert passes[..|passes|] == passes;
    SendingMeans(path, initial, batch, target, packet);
    outcome := if consumed >= target && rcvd >= target then Finished else OutOfRounds;
  }
}

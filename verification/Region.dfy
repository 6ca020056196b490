/**
 The memory-mapped UMEM region, its segment views and the write cursor:
 src/umem/mem/mod.rs, src/umem/frame/cursor.rs and the segment types of
 src/umem/frame/mod.rs.
 */
module Region {
  import opened Words
  import opened Frames

  // ----- One segment on its own -----

  /** A segment buffer and the length its descriptor records. */
  datatype Segment = Segment(pos: nat, buf: seq<byte>)

  function Concat(bufs: seq<seq<byte>>): seq<byte> {
    if bufs == [] then [] else bufs[0] + Concat(bufs[1..])
  }

  lemma NextBuffer(bufs: seq<seq<byte>>, i: nat, done: seq<byte>)
    requires i < |bufs|
    ensures done + Concat(bufs[i..]) == (done + bufs[i]) + Concat(bufs[i + 1..])
  {
    assert bufs[i..][1..] == bufs[i + 1..];
  }

  /** `bytes` with `b` laid over it from offset `at`. */
  function Splice(bytes: seq<byte>, at: nat, b: seq<byte>): (r: seq<byte>)
    requires at + |b| <= |bytes|
    ensures |r| == |bytes|
  {
    seq(|bytes|, i requires 0 <= i < |bytes| => if at <= i < at + |b| then b[i - at] else bytes[i])
  }

  lemma SlicesJoin(s: seq<byte>, a: nat, b: nat, c: nat)
    requires a <= b <= c <= |s|
    ensures s[a..b] + s[b..c] == s[a..c]
  {
  }

  lemma SlicePrefix(s: seq<byte>, a: nat, b: nat, n: nat)
    requires a + n <= b <= |s|
    ensures s[a..b][..n] == s[a..a + n]
  {
  }

  lemma SpliceTwice(bytes: seq<byte>, at: nat, a: seq<byte>, b: seq<byte>)
    requires at + |a| + |b| <= |bytes|
    ensures Splice(Splice(bytes, at, a), at + |a|, b) == Splice(bytes, at, a + b)
  {
    var once, twice, joined := Splice(bytes, at, a), Splice(Splice(bytes, at, a), at + |a|, b), Splice(bytes, at, a + b);
    forall i | 0 <= i < |bytes| ensures twice[i] == joined[i] {
      assert !(at + |a| <= i < at + |a| + |b|) ==> twice[i] == once[i];
    }
  }

  /** A splice is read back where it was put. */
  lemma SpliceInside(bytes: seq<byte>, at: nat, b: seq<byte>, from: nat, len: nat)
    requires at <= from && from + len <= at + |b| <= |bytes|
    ensures Splice(bytes, at, b)[from..from + len] == b[from - at..from - at + len]
  {
    var seen, put := Splice(bytes, at, b)[from..from + len], b[from - at..from - at + len];
    forall i | 0 <= i < len ensures seen[i] == put[i] {
      assert seen[i] == Splice(bytes, at, b)[from + i];
    }
  }

  /** A splice is invisible everywhere else. */
  lemma SpliceOutside(bytes: seq<byte>, at: nat, b: seq<byte>, from: nat, len: nat)
    requires at + |b| <= |bytes| && from + len <= |bytes|
    requires from + len <= at || at + |b| <= from
    ensures Splice(bytes, at, b)[from..from + len] == bytes[from..from + len]
  {
    var seen, was := Splice(bytes, at, b)[from..from + len], bytes[from..from + len];
    forall i | 0 <= i < len ensures seen[i] == was[i] {
      assert seen[i] == Splice(bytes, at, b)[from + i];
    }
  }

  /** A splice within a segment, seen through that segment. */
  lemma SpliceInSegment(was: seq<byte>, start: nat, len: nat, pos: nat, b: seq<byte>)
    requires start + len <= |was| && pos + |b| <= len
    ensures Splice(was, start + pos, b)[start..start + len] == Splice(was[start..start + len], pos, b)
  {
    var seen, alone := Splice(was, start + pos, b)[start..start + len], Splice(was[start..start + len], pos, b);
    forall i | 0 <= i < len ensures seen[i] == alone[i] {
      assert seen[i] == Splice(was, start + pos, b)[start + i];
    }
  }

  lemma SpliceWhole(bytes: seq<byte>, at: nat, b: seq<byte>)
    requires at + |b| <= |bytes|
    ensures Splice(bytes, at, b)[at..at + |b|] == b
  {
    SpliceInside(bytes, at, b, at, |b|);
    assert b[0..|b|] == b;
  }

  /** A splice within a segment, seen from outside it. */
  lemma SpliceEnds(was: seq<byte>, start: nat, len: nat, at: nat, b: seq<byte>)
    requires start <= at && at + |b| <= start + len <= |was|
    ensures Splice(was, at, b)[..start] == was[..start]
    ensures Splice(was, at, b)[start + len..] == was[start + len..]
  {
    var now, rest := Splice(was, at, b), |was| - start - len;
    SpliceOutside(was, at, b, 0, start);
    SpliceOutside(was, at, b, start + len, rest);
    assert now[0..start] == now[..start] && was[0..start] == was[..start];
    assert now[start + len..start + len + rest] == now[start + len..] && was[start + len..start + len + rest] == was[start + len..];
  }

  /** A splice at the start of a segment, seen through it. */
  lemma SpliceFront(was: seq<byte>, start: nat, len: nat, b: seq<byte>)
    requires |b| <= len && start + len <= |was|
    ensures Splice(was, start, b)[start..start + len] == b + was[start..start + len][|b|..]
  {
    var seen, joined := Splice(was, start, b)[start..start + len], b + was[start..start + len][|b|..];
    forall i | 0 <= i < len ensures seen[i] == joined[i] {
      assert seen[i] == Splice(was, start, b)[start + i];
    }
  }

  /** Bytes that differ from others in one segment only are those others with that segment spliced in. */
  lemma SpliceBack(was: seq<byte>, now: seq<byte>, start: nat, len: nat)
    requires |now| == |was| && start + len <= |was|
    requires now[..start] == was[..start] && now[start + len..] == was[start + len..]
    ensures now == Splice(was, start, now[start..start + len])
  {
    var spliced := Splice(was, start, now[start..start + len]);
    forall i | 0 <= i < |was| ensures now[i] == spliced[i] {
      if i < start {
        assert now[..start][i] == was[..start][i];
      } else if start + len <= i {
        assert now[start + len..][i - start - len] == was[start + len..][i - start - len];
      }
    }
  }

  /** How many of n bytes a write at the segment's position can store. */
  function Room(s: Segment, n: nat): nat {
    Min(n, |s.buf| - Min(s.pos, |s.buf|))
  }

  /** The segment after a cursor write: the bytes go in at the position, as many as fit. */
  function Written(s: Segment, src: seq<byte>): (r: Segment)
    ensures |r.buf| == |s.buf|
  {
    var n := Room(s, |src|);
    var at := Min(s.pos, |s.buf|);
    Segment(s.pos + n, Splice(s.buf, at, src[..n]))
  }

  function Zeroes(n: nat): (z: seq<byte>)
    ensures |z| == n
  {
    seq(n, _ => 0)
  }

  datatype Action =
    | Write(src: seq<byte>)
    | WriteVectored(srcs: seq<seq<byte>>)
    | SetPos(to: nat)
    | ZeroOut
    | Overwrite(contents: seq<byte>)

  /** What a cursor call, or a change made through `contents_mut`, does to a segment. */
  function Act(s: Segment, a: Action): (r: Segment)
    ensures |r.buf| == |s.buf|
    ensures s.pos <= |s.buf| ==> r.pos <= |r.buf|
    ensures r.pos <= s.pos || r.pos <= |r.buf|
  {
    match a
    case Write(src) => Written(s, src)
    case WriteVectored(srcs) => Written(s, Concat(srcs))
    case SetPos(to) => s.(pos := Min(to, |s.buf|))
    case ZeroOut => Segment(0, Zeroes(|s.buf|))
    case Overwrite(contents) => if |contents| == s.pos <= |s.buf| then s.(buf := contents + s.buf[s.pos..]) else s
  }

  lemma WriteNothing(s: Segment)
    ensures Written(s, []) == s
  {
  }

  /** What the operations that are not writes do, case by case. */
  lemma ActMeaning(s: Segment, to: nat, contents: seq<byte>)
    ensures var z := Act(s, ZeroOut); z.pos == 0 && |z.buf| == |s.buf| && forall i :: 0 <= i < |z.buf| ==> z.buf[i] == 0
    ensures var p := Act(s, SetPos(to)); p.buf == s.buf && p.pos <= |s.buf| && (p.pos == to || (to > |s.buf| && p.pos == |s.buf|))
    ensures var o := Act(s, Overwrite(contents));
            && o.pos == s.pos
            && (|contents| == s.pos <= |s.buf| ==> o.buf[..s.pos] == contents && o.buf[s.pos..] == s.buf[s.pos..])
            && (|contents| != s.pos || s.pos > |s.buf| ==> o.buf == s.buf)
  {
  }

  /** Two writes in a row are one write of the joined bytes, when the first did not fall short. */
  lemma WriteTwice(s: Segment, a: seq<byte>, b: seq<byte>)
    requires Room(s, |a|) == |a|
    ensures Written(Written(s, a), b) == Written(s, a + b) && Room(s, |a + b|) == |a| + Room(Written(s, a), |b|)
  {
    if a == [] {
      WriteNothing(s);
      assert a + b == b;
    } else {
      var t := Segment(s.pos + |a|, Splice(s.buf, s.pos, a));
      assert a[..|a|] == a;
      assert Written(s, a) == t;
      var m := Room(t, |b|);
      SpliceTwice(s.buf, s.pos, a, b[..m]);
      assert (a + b)[..|a| + m] == a + b[..m];
    }
  }

  /** When it did, the rest of the bytes does not matter. */
  lemma ShortWrite(s: Segment, a: seq<byte>, b: seq<byte>)
    requires Room(s, |a|) < |a|
    ensures Written(s, a + b) == Written(s, a) && Room(s, |a + b|) == Room(s, |a|)
  {
    var n := Room(s, |a|);
    assert (a + b)[..n] == a[..n];
  }

  /**
   What was written is read back at the position, and nothing before or after it changes. A write falls short
   only when the segment is full, and at a position beyond the buffer it does nothing.
   */
  lemma WriteReadsBack(s: Segment, src: seq<byte>)
    ensures s.pos > |s.buf| ==> Written(s, src) == s
    ensures s.pos <= |s.buf| ==>
              var r := Written(s, src);
              && r.pos <= |r.buf|
              && r.buf[..r.pos] == s.buf[..s.pos] + src[..r.pos - s.pos]
              && r.buf[r.pos..] == s.buf[r.pos..]
              && (r.pos < |r.buf| ==> r.pos == s.pos + |src|)
  {
    if s.pos > |s.buf| {
      assert Written(s, src).buf == s.buf;
    } else {
      var n := Room(s, |src|);
      SpliceEnds(s.buf, s.pos, n, s.pos, src[..n]);
      SpliceWhole(s.buf, s.pos, src[..n]);
      SlicesJoin(Splice(s.buf, s.pos, src[..n]), 0, s.pos, s.pos + n);
    }
  }

  // ----- The cursor itself -----

  /** A write to part of an array, seen through the segment it goes to. */
  lemma WriteSeen(was: seq<byte>, start: nat, len: nat, pos: nat, src: seq<byte>)
    requires start + len <= |was|
    ensures var s := Segment(pos, was[start..start + len]);
            var n := Room(s, |src|);
            && Min(pos, len) + n <= len
            && Segment(pos + n, Splice(was, start + Min(pos, len), src[..n])[start..start + len]) == Written(s, src)
  {
    var n := Room(Segment(pos, was[start..start + len]), |src|);
    SpliceInSegment(was, start, len, Min(pos, len), src[..n]);
  }

  /** `copy_from_slice` into part of an array. */
  method CopyInto(mem: array<byte>, at: nat, src: seq<byte>)
    requires at + |src| <= mem.Length
    modifies mem
    ensures mem[..] == Splice(old(mem[..]), at, src)
  {
    forall i | 0 <= i < |src| {
      mem[at + i] := src[i];
    }
  }

  /** A cursor over the bytes `mem[start..start + len]`; `pos` stands for the borrowed descriptor length. */
  class Cursor {
    const mem: array<byte>
    const start: nat
    const len: nat
    var pos: nat

    ghost predicate Valid() {
      start + len <= mem.Length
    }

    ghost function View(): Segment
      requires Valid()
      reads this, mem
    {
      Segment(pos, mem[start..start + len])
    }

    constructor (pos: nat, mem: array<byte>, start: nat, len: nat)
      requires start + len <= mem.Length
      ensures Valid() && this.mem == mem && this.start == start && this.len == len && this.pos == pos
    {
      this.mem, this.start, this.len, this.pos := mem, start, len, pos;
    }

    method SetPos(to: nat)
      requires Valid()
      modifies this
      ensures View() == Act(old(View()), Action.SetPos(to))
      ensures pos == if to <= len then to else len
    {
      pos := if to < len then to else len;
    }

    method ZeroOut()
      requires Valid()
      modifies this, mem
      ensures View() == Act(old(View()), Action.ZeroOut)
      ensures pos == 0 && forall i :: start <= i < start + len ==> mem[i] == 0
      ensures mem[..start] == old(mem[..start]) && mem[start + len..] == old(mem[start + len..])
    {
      forall i | 0 <= i < len {
        mem[start + i] := 0;
      }
      SetPos(0);
    }

    method Write(src: seq<byte>) returns (amt: nat)
      requires Valid()
      modifies this, mem
      ensures amt == Room(old(View()), |src|)
      ensures View() == Act(old(View()), Action.Write(src))
      ensures mem[..start] == old(mem[..start]) && mem[start + len..] == old(mem[start + len..])
      ensures mem[..] == Splice(old(mem[..]), start + Min(old(pos), len), src[..amt])
    {
      hide Splice;
      var at := start + (if pos < len then pos else len);
      amt := if |src| < start + len - at then |src| else start + len - at;
      CopyInto(mem, at, src[..amt]);
      pos := pos + amt;
      ghost var was, b := old(mem[..]), src[..amt];
      WriteSeen(was, start, len, old(pos), src);
      SpliceEnds(was, start, len, at, b);
    }

    /** Writing over the bytes `contents_mut` gives out. */
    method Overwrite(contents: seq<byte>)
      requires Valid()
      modifies mem
      ensures View() == Act(old(View()), Action.Overwrite(contents))
      ensures |contents| == pos <= len ==> mem[start..start + pos] == contents && mem[start + pos..] == old(mem[start + pos..])
      ensures |contents| != pos || pos > len ==> mem[..] == old(mem[..])
      ensures mem[..start] == old(mem[..start]) && mem[start + len..] == old(mem[start + len..])
    {
      if |contents| == pos <= len {
        CopyInto(mem, start, contents);
        ghost var was := old(mem[..]);
        SpliceFront(was, start, len, contents);
        SpliceEnds(was, start, len, start, contents);
      }
    }

    /** Any of the calls, by name. */
    method Perform(a: Action)
      requires Valid()
      modifies this, mem
      ensures View() == Act(old(View()), a)
      ensures mem[..start] == old(mem[..start]) && mem[start + len..] == old(mem[start + len..])
    {
      match a {
        case Write(src) => var _ := Write(src);
        case WriteVectored(srcs) => var _ := WriteVectored(srcs);
        case SetPos(to) => SetPos(to);
        case ZeroOut => ZeroOut();
        case Overwrite(contents) => Overwrite(contents);
      }
    }

    /** The source's loop: stop at the first short write. Equal to one write of the joined buffers. */
    method WriteVectored(bufs: seq<seq<byte>>) returns (nwritten: nat)
      requires Valid()
      modifies this, mem
      ensures nwritten == Room(old(View()), |Concat(bufs)|)
      ensures View() == Act(old(View()), Action.WriteVectored(bufs))
      ensures mem[..start] == old(mem[..start]) && mem[start + len..] == old(mem[start + len..])
    {
      nwritten := 0;
      ghost var s0 := View();
      ghost var all := Concat(bufs);
      ghost var done := [];
      assert bufs[0..] == bufs;
      for i := 0 to |bufs|
        invariant all == done + Concat(bufs[i..])
        invariant View() == Written(s0, done)
        invariant nwritten == Room(s0, |done|) == |done|
        invariant mem[..start] == old(mem[..start]) && mem[start + len..] == old(mem[start + len..])
      {
        ghost var rest := Concat(bufs[i + 1..]);
        NextBuffer(bufs, i, done);
        var n := Write(bufs[i]);
        nwritten := nwritten + n;
        WriteTwice(s0, done, bufs[i]);
        if n < |bufs[i]| {
          ShortWrite(s0, done + bufs[i], rest);
          return;
        }
        done := done + bufs[i];
      }
      assert all == done;
    }
  }

  // ----- All segments in one region -----

  /** The region's bytes, and for each frame the two lengths its descriptor records. */
  datatype State = State(bytes: seq<byte>, heads: seq<nat>, datas: seq<nat>)

  ghost predicate StateOk(u: Umem, st: State) {
    |st.bytes| == RegionLen(u) && |st.heads| == |st.datas| == u.frames
  }

  /** The view of one segment through the shared region. */
  function SegmentOf(u: Umem, st: State, i: nat, k: Kind): (s: Segment)
    requires StateOk(u, st) && i < u.frames
    ensures |s.buf| == SegLen(u.layout, k)
  {
    SegmentInside(u, i, k);
    Segment(if k.Data? then st.datas[i] else st.heads[i],
            st.bytes[SegStart(u.layout, i, k)..SegStart(u.layout, i, k) + SegLen(u.layout, k)])
  }

  datatype Op = Op(frame: nat, kind: Kind, action: Action)

  /** A segment put back into the shared region and its length into its descriptor. */
  function Put(u: Umem, st: State, i: nat, k: Kind, s: Segment): (r: State)
    requires StateOk(u, st) && i < u.frames && |s.buf| == SegLen(u.layout, k)
    ensures StateOk(u, r)
  {
    SegmentInside(u, i, k);
    var bytes := Splice(st.bytes, SegStart(u.layout, i, k), s.buf);
    if k.Data? then State(bytes, st.heads, st.datas[i := s.pos]) else State(bytes, st.heads[i := s.pos], st.datas)
  }

  /** An operation on one frame's segment, carried out on the shared region and that frame's descriptor. */
  function Do(u: Umem, st: State, op: Op): (r: State)
    requires StateOk(u, st) && op.frame < u.frames
    ensures StateOk(u, r)
  {
    Put(u, st, op.frame, op.kind, Act(SegmentOf(u, st, op.frame, op.kind), op.action))
  }

  function DoAll(u: Umem, st: State, ops: seq<Op>): (r: State)
    requires StateOk(u, st) && forall op :: op in ops ==> op.frame < u.frames
    ensures StateOk(u, r)
    decreases |ops|
  {
    if ops == [] then st else DoAll(u, Do(u, st, ops[0]), ops[1..])
  }

  /** The independent model: one segment that sees only its own operations. */
  function ActAll(s: Segment, ops: seq<Op>, i: nat, k: Kind): (r: Segment)
    ensures |r.buf| == |s.buf|
    ensures s.pos <= |s.buf| ==> r.pos <= |r.buf|
    decreases |ops|
  {
    if ops == [] then s
    else ActAll(if ops[0].frame == i && ops[0].kind == k then Act(s, ops[0].action) else s, ops[1..], i, k)
  }

  lemma PutHere(u: Umem, st: State, i: nat, k: Kind, s: Segment)
    requires StateOk(u, st) && i < u.frames && |s.buf| == SegLen(u.layout, k)
    ensures SegmentOf(u, Put(u, st, i, k, s), i, k) == s
  {
    SegmentInside(u, i, k);
    SpliceWhole(st.bytes, SegStart(u.layout, i, k), s.buf);
  }

  lemma BytesElsewhere(u: Umem, bytes: seq<byte>, f: nat, kf: Kind, b: seq<byte>, i: nat, k: Kind)
    requires |bytes| == RegionLen(u) && f < u.frames && i < u.frames && |b| == SegLen(u.layout, kf)
    requires f != i || kf != k
    ensures SegStart(u.layout, f, kf) + |b| <= |bytes| && SegStart(u.layout, i, k) + SegLen(u.layout, k) <= |bytes|
    ensures var start, end := SegStart(u.layout, i, k), SegStart(u.layout, i, k) + SegLen(u.layout, k);
            Splice(bytes, SegStart(u.layout, f, kf), b)[start..end] == bytes[start..end]
  {
    SegmentInside(u, f, kf);
    SegmentInside(u, i, k);
    SegmentsDisjoint(u.layout, f, kf, i, k);
    SpliceOutside(bytes, SegStart(u.layout, f, kf), b, SegStart(u.layout, i, k), SegLen(u.layout, k));
  }

  lemma PutElsewhere(u: Umem, st: State, f: nat, kf: Kind, s: Segment, i: nat, k: Kind)
    requires StateOk(u, st) && f < u.frames && i < u.frames && |s.buf| == SegLen(u.layout, kf)
    requires f != i || kf != k
    ensures SegmentOf(u, Put(u, st, f, kf, s), i, k) == SegmentOf(u, st, i, k)
  {
    BytesElsewhere(u, st.bytes, f, kf, s.buf, i, k);
  }

  /**
   After any sequence of operations on any segments of any frames, each segment of the shared region,
   together with its descriptor length, is what its own operations alone would have made of it; and a
   length that started within its segment stays within it.
   */
  lemma {:induction false} SegmentsAreIndependent(u: Umem, st: State, ops: seq<Op>, i: nat, k: Kind)
    requires StateOk(u, st) && (forall op :: op in ops ==> op.frame < u.frames) && i < u.frames
    ensures SegmentOf(u, DoAll(u, st, ops), i, k) == ActAll(SegmentOf(u, st, i, k), ops, i, k)
    decreases |ops|
  {
    if ops == [] {
    } else {
      var op := ops[0];
      var s := Act(SegmentOf(u, st, op.frame, op.kind), op.action);
      if op.frame == i && op.kind == k {
        PutHere(u, st, i, k, s);
      } else {
        PutElsewhere(u, st, op.frame, op.kind, s, i, k);
      }
      SegmentsAreIndependent(u, Do(u, st, op), ops[1..], i, k);
    }
  }

  ghost predicate InNoSegment(u: Umem, a: nat) {
    forall i: nat, k: Kind :: i < u.frames ==> a < SegStart(u.layout, i, k) || SegStart(u.layout, i, k) + SegLen(u.layout, k) <= a
  }

  /** No operation touches a byte outside every segment. */
  lemma {:induction false} OutsideUntouched(u: Umem, st: State, ops: seq<Op>, a: nat)
    requires StateOk(u, st) && (forall op :: op in ops ==> op.frame < u.frames)
    requires a < RegionLen(u) && InNoSegment(u, a)
    ensures DoAll(u, st, ops).bytes[a] == st.bytes[a]
    decreases |ops|
  {
    if ops == [] {
    } else {
      var op := ops[0];
      SegmentInside(u, op.frame, op.kind);
      OutsideUntouched(u, Do(u, st, op), ops[1..], a);
    }
  }

  /** An address in a frame's XDP headroom is in no segment. */
  lemma XdpHeadroomIsInNoSegment(u: Umem, f: nat, a: nat)
    requires f < u.frames && Base(u.layout, f) <= a < Base(u.layout, f) + u.layout.xdpHeadroom
    ensures a < RegionLen(u) && InNoSegment(u, a)
  {
    SegmentInside(u, f, Data);
    forall i: nat, k: Kind | i < u.frames ensures a < SegStart(u.layout, i, k) || SegStart(u.layout, i, k) + SegLen(u.layout, k) <= a {
      SegmentInside(u, i, k);
      if i < f {
        FrameOrder(u.layout, i, f);
      } else if f < i {
        FrameOrder(u.layout, f, i);
      }
    }
  }

  /** So no operation touches the XDP headroom of any frame. */
  lemma XdpHeadroomsUntouched(u: Umem, st: State, ops: seq<Op>, f: nat)
    requires StateOk(u, st) && (forall op :: op in ops ==> op.frame < u.frames) && f < u.frames
    ensures Base(u.layout, f) + u.layout.xdpHeadroom <= RegionLen(u)
    ensures var from, to := Base(u.layout, f), Base(u.layout, f) + u.layout.xdpHeadroom;
            DoAll(u, st, ops).bytes[from..to] == st.bytes[from..to]
  {
    var from, to := Base(u.layout, f), Base(u.layout, f) + u.layout.xdpHeadroom;
    SegmentInside(u, f, Data);
    var now := DoAll(u, st, ops).bytes;
    forall a: nat | from <= a < to ensures now[a] == st.bytes[a] {
      XdpHeadroomIsInNoSegment(u, f, a);
      OutsideUntouched(u, st, ops, a);
    }
    assert forall j :: 0 <= j < to - from ==> now[from..to][j] == st.bytes[from..to][j];
  }

  // ----- Reading through descriptors -----

  /** `data(desc).contents()` on the region's bytes. */
  function Contents(bytes: seq<byte>, d: FrameDesc): seq<byte> {
    if d.addr + d.data <= |bytes| then bytes[d.addr..d.addr + d.data] else []
  }

  /** The same for the headroom, which lies before the data. */
  function HeadContents(l: FrameLayout, bytes: seq<byte>, d: FrameDesc): seq<byte> {
    var at := d.addr - l.frameHeadroom;
    if 0 <= at && at + d.headroom <= |bytes| then bytes[at..at + d.headroom] else []
  }

  function ReadSegment(l: FrameLayout, bytes: seq<byte>, d: FrameDesc, k: Kind): seq<byte> {
    if k.Data? then Contents(bytes, d) else HeadContents(l, bytes, d)
  }

  /** Reading through a frame's descriptor gives the start of its segment. */
  lemma ReadIsPrefix(u: Umem, st: State, d: FrameDesc, i: nat, k: Kind)
    requires StateOk(u, st) && i < u.frames
    requires d.addr == Addr(u.layout, i) && d.headroom == st.heads[i] && d.data == st.datas[i]
    requires SegmentOf(u, st, i, k).pos <= SegLen(u.layout, k)
    ensures var s := SegmentOf(u, st, i, k); ReadSegment(u.layout, st.bytes, d, k) == s.buf[..s.pos]
  {
    SegmentInside(u, i, k);
    var start, pos := SegStart(u.layout, i, k), SegmentOf(u, st, i, k).pos;
    SlicePrefix(st.bytes, start, start + SegLen(u.layout, k), pos);
  }

  /**
   What `headroom` and `data` read after any sequence of operations on any segments is what the operations on
   that segment alone left there, up to its length.
   */
  lemma ReadsOwnOperations(u: Umem, st: State, ops: seq<Op>, d: FrameDesc, i: nat, k: Kind)
    requires StateOk(u, st) && (forall op :: op in ops ==> op.frame < u.frames) && i < u.frames
    requires SegmentOf(u, st, i, k).pos <= SegLen(u.layout, k)
    requires var now := DoAll(u, st, ops); d.addr == Addr(u.layout, i) && d.headroom == now.heads[i] && d.data == now.datas[i]
    ensures var own := ActAll(SegmentOf(u, st, i, k), ops, i, k);
            own.pos <= |own.buf| && ReadSegment(u.layout, DoAll(u, st, ops).bytes, d, k) == own.buf[..own.pos]
  {
    SegmentsAreIndependent(u, st, ops, i, k);
    ReadIsPrefix(u, DoAll(u, st, ops), d, i, k);
  }

  // ----- The region as one mutable byte array -----

  class UmemRegion {
    const umem: Umem
    const mem: array<byte>

    ghost predicate Valid() {
      mem.Length == RegionLen(umem) < TWO64
    }

    constructor (umem: Umem)
      requires RegionLen(umem) < TWO64
      ensures Valid() && this.umem == umem && fresh(mem)
    {
      this.umem := umem;
      this.mem := new byte[RegionLen(umem)](_ => 0);
    }

    /** `d` describes a frame of this region: its data segment is inside. */
    predicate Covers(d: FrameDesc) {
      d.addr + umem.layout.mtu <= mem.Length && d.data <= umem.layout.mtu
    }

    /** One descriptor for each frame, as `Umem::new` returns them. */
    ghost predicate Describes(descs: array<FrameDesc>)
      reads descs
    {
      descs.Length == umem.frames && forall i :: 0 <= i < descs.Length ==> descs[i].addr == Addr(umem.layout, i)
    }

    ghost function View(descs: array<FrameDesc>): State
      reads mem, descs
    {
      State(mem[..], Heads(descs[..]), Datas(descs[..]))
    }

    /** `headroom_mut(desc)` or `data_mut(desc)`, its cursor, and one call on it, seen through the segment and outside it. */
    method OnSegment(i: nat, d: FrameDesc, k: Kind, a: Action) returns (pos: nat)
      requires Valid() && i < umem.frames && d.addr == Addr(umem.layout, i)
      requires SegStart(umem.layout, i, k) + SegLen(umem.layout, k) <= mem.Length
      modifies mem
      ensures var start, len := SegStart(umem.layout, i, k), SegLen(umem.layout, k);
              && mem[..start] == old(mem[..start]) && mem[start + len..] == old(mem[start + len..])
              && Segment(pos, mem[start..start + len]) ==
                 Act(Segment(if k.Data? then d.data else d.headroom, old(mem[start..start + len])), a)
    {
      var l := umem.layout;
      var start := if k.Data? then d.addr else d.addr - l.frameHeadroom;
      var cursor := new Cursor(if k.Data? then d.data else d.headroom, mem, start, if k.Data? then l.mtu else l.frameHeadroom);
      cursor.Perform(a);
      pos := cursor.pos;
    }

    /** The same on the shared bytes and the descriptor in the array: one step of the region's operations. */
    method Operate(descs: array<FrameDesc>, i: nat, k: Kind, a: Action)
      requires Valid() && Describes(descs) && i < umem.frames
      modifies mem, descs
      ensures Describes(descs)
      ensures View(descs) == Do(umem, old(View(descs)), Op(i, k, a))
    {
      hide Act, Splice, Base;
      ghost var st, was, start, len := View(descs), descs[..], SegStart(umem.layout, i, k), SegLen(umem.layout, k);
      var d := descs[i];
      SegmentInside(umem, i, k);
      var pos := OnSegment(i, d, k, a);
      assert mem[..][start..start + len] == mem[start..start + len] && st.bytes[start..start + len] == old(mem[start..start + len]);
      assert Segment(if k.Data? then d.data else d.headroom, st.bytes[start..start + len]) == SegmentOf(umem, st, i, k);
      d := if k.Data? then d.(data := pos) else d.(headroom := pos);
      descs[i] := d;
      CursorIsDo(umem, st, was, was[i := d], mem[..], i, k, a);
    }

    /** `data_mut(desc).cursor().write(..)`: bytes into the segment, length into the descriptor, and both read back. */
    method WriteData(d: FrameDesc, src: seq<byte>) returns (d': FrameDesc, n: nat)
      requires Valid() && Covers(d)
      modifies mem
      ensures n == Min(|src|, umem.layout.mtu - d.data)
      ensures Covers(d') && d'.data == d.data + n && d' == d.(data := d'.data)
      ensures mem[..] == Splice(old(mem[..]), d.addr + d.data, src[..n])
      ensures Contents(mem[..], d') == old(Contents(mem[..], d)) + src[..n]
    {
      var mtu := umem.layout.mtu;
      var cursor := new Cursor(d.data, mem, d.addr, mtu);
      n := cursor.Write(src);
      assert cursor.pos == d.data + n;
      d' := d.(data := cursor.pos);
      AppendReadsBack(old(mem[..]), d, d', src[..n]);
    }
  }

  function Heads(descs: seq<FrameDesc>): (r: seq<nat>)
    ensures |r| == |descs|
  {
    seq(|descs|, i requires 0 <= i < |descs| => descs[i].headroom)
  }

  function Datas(descs: seq<FrameDesc>): (r: seq<nat>)
    ensures |r| == |descs|
  {
    seq(|descs|, i requires 0 <= i < |descs| => descs[i].data)
  }

  /** Changing one descriptor's lengths changes one entry of each list of lengths. */
  lemma LengthPut(st: State, was: seq<FrameDesc>, now: seq<FrameDesc>, i: nat)
    requires i < |was| == |now| && now == was[i := now[i]] && st.heads == Heads(was) && st.datas == Datas(was)
    ensures Heads(now) == st.heads[i := now[i].headroom] && Datas(now) == st.datas[i := now[i].data]
  {
  }

  /** A cursor call on one segment of the shared bytes, with its length stored in the descriptor, is the operation on the region. */
  lemma CursorIsDo(u: Umem, st: State, was: seq<FrameDesc>, now: seq<FrameDesc>, bytes: seq<byte>, i: nat, k: Kind, a: Action)
    requires StateOk(u, st) && i < u.frames && st.heads == Heads(was) && st.datas == Datas(was)
    requires |now| == |was| && |bytes| == |st.bytes| && now == was[i := now[i]]
    requires SegStart(u.layout, i, k) + SegLen(u.layout, k) <= |bytes|
    requires var start, len := SegStart(u.layout, i, k), SegLen(u.layout, k);
             && bytes[..start] == st.bytes[..start] && bytes[start + len..] == st.bytes[start + len..]
             && Segment(if k.Data? then now[i].data else now[i].headroom, bytes[start..start + len]) == Act(SegmentOf(u, st, i, k), a)
    requires if k.Data? then now[i].headroom == was[i].headroom else now[i].data == was[i].data
    ensures State(bytes, Heads(now), Datas(now)) == Do(u, st, Op(i, k, a))
  {
    SpliceBack(st.bytes, bytes, SegStart(u.layout, i, k), SegLen(u.layout, k));
    LengthPut(st, was, now, i);
    assert st.heads[i := st.heads[i]] == st.heads && st.datas[i := st.datas[i]] == st.datas;
  }

  lemma AppendReadsBack(bytes: seq<byte>, d: FrameDesc, d': FrameDesc, b: seq<byte>)
    requires d.addr + d.data + |b| <= |bytes| && d'.addr == d.addr && d'.data == d.data + |b|
    ensures Contents(Splice(bytes, d.addr + d.data, b), d') == Contents(bytes, d) + b
  {
    var mid := d.addr + d.data;
    SpliceOutside(bytes, mid, b, d.addr, d.data);
    SpliceWhole(bytes, mid, b);
    SlicesJoin(Splice(bytes, mid, b), d.addr, mid, mid + |b|);
  }
}

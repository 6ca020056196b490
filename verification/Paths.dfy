/**
 What the receiving and the sending half of an AF_XDP socket pair share: histories of
 frame addresses and how they cancel.
 */
module Paths {
  import opened Words
  import opened Frames

  function Addrs(ds: seq<XdpDesc>): (r: seq<usize>)
    ensures |r| == |ds|
  {
    seq(|ds|, i requires 0 <= i < |ds| => ds[i].addr)
  }

  lemma AddrsConcat(a: seq<XdpDesc>, b: seq<XdpDesc>)
    ensures Addrs(a + b) == Addrs(a) + Addrs(b)
  {
  }

  lemma TakeOne<T>(log: seq<T>, taken: nat, posted: multiset<T>, held: seq<T>)
    requires taken < |log| && posted + multiset(held) == multiset(log[..taken])
    ensures posted + multiset(held + [log[taken]]) == multiset(log[..taken + 1])
  {
    assert log[..taken + 1] == log[..taken] + [log[taken]];
  }

  lemma PostOne<T>(log: multiset<T>, posted: seq<T>, held: seq<T>, i: nat)
    requires i < |held| && multiset(posted) + multiset(held) == log
    ensures multiset(posted + [held[i]]) + multiset(held[..i] + held[i + 1..]) == log
  {
    assert held == held[..i] + [held[i]] + held[i + 1..];
  }

  /** The outcome of a retried produce: accepted, ended by a failed wakeup, or still refused. */
  datatype Attempt = Accepted | Failed | GaveUp

  datatype Outcome = Finished | Panicked | OutOfRounds

  lemma Cancel(filled: seq<usize>, taken: nat, held: seq<usize>, posted: seq<usize>, read: nat, initial: seq<usize>)
    requires taken <= |filled| && read <= |posted|
    requires multiset(posted) + multiset(held) == multiset(filled[..taken])
    requires filled == initial + posted[..read]
    ensures multiset(filled[taken..]) + multiset(held) + multiset(posted[read..]) == multiset(initial)
    ensures |posted| + |held| == taken
  {
    var before, unread := multiset(posted[..read]), multiset(posted[read..]);
    var gone, left := multiset(filled[..taken]), multiset(filled[taken..]);
    assert posted == posted[..read] + posted[read..];
    assert filled == filled[..taken] + filled[taken..];
    forall a: usize ensures (left + multiset(held) + unread)[a] == multiset(initial)[a] {
      assert multiset(posted)[a] == before[a] + unread[a];
      assert multiset(filled)[a] == gone[a] + left[a];
      assert multiset(filled)[a] == multiset(initial)[a] + before[a];
    }
    assert |gone| == taken && |multiset(posted)| == |posted| && |multiset(held)| == |held|;
  }

  lemma Regrow(initial: seq<usize>, was: seq<usize>, now: seq<usize>, i: nat, j: nat)
    requires i <= j <= |was| && was <= now
    ensures initial + now[..j] == (initial + was[..i]) + was[i..j]
  {
  }
}

/** Every interleaving of driver and device steps keeps the invariant, and the code's outputs are
    those of the unbounded queue. */
module VqInvariant {
  import opened Bits
  import opened Vring
  import opened VqHistory

  // Counting.

  /** n pigeonholes: a duplicate-free sequence of numbers below n has at most n members. */
  lemma {:induction false} DistinctBound(s: seq<nat>, n: nat)
    requires Distinct(s) && forall i :: 0 <= i < |s| ==> s[i] < n
    ensures |s| <= n
  {
    if |s| == 0 {
    } else if exists i :: 0 <= i < |s| && s[i] == n - 1 {
      var i :| 0 <= i < |s| && s[i] == n - 1;
      DistinctBound(s[..i] + s[i + 1..], n - 1);
    } else {
      assert s[0] < n;
      DistinctBound(s, n - 1);
    }
  }

  /** At most n posts are in flight: each has a head descriptor of its own. */
  lemma InFlightBound(h: History)
    requires Ownership(h)
    requires forall k :: 0 <= k < |h.posts| ==> PostShape(h.posts[k])
    requires h.consumed <= |h.done|
    ensures |h.posts| <= h.consumed + |h.owner|
  {
    var tag := seq(|h.posts|, (k: nat) requires k < |h.posts| => Tag(h, k));
    assert Distinct(tag) by {
      forall i, j | 0 <= i < j < |tag| ensures tag[i] != tag[j] {
        assert tag[i] == Tag(h, i) && tag[j] == Tag(h, j);
        if InFlight(h, i) && InFlight(h, j) {
          assert h.owner[h.posts[i].chain[0]] == i;
          assert h.owner[h.posts[j].chain[0]] == j;
        }
      }
    }
    DistinctBound(tag, h.consumed + |h.owner|);
  }

  /** A number for post k: its head while in flight, else the position of its collection past n. */
  ghost function Tag(h: History, k: nat): (t: nat)
    requires k < |h.posts| && Ownership(h) && h.consumed <= |h.done|
    requires PostShape(h.posts[k])
    ensures t < h.consumed + |h.owner|
    ensures InFlight(h, k) ==> t == h.posts[k].chain[0] && t < |h.owner|
    ensures !InFlight(h, k) ==> t >= |h.owner| && h.done[t - |h.owner|].post == k
  {
    if InFlight(h, k) then assert h.posts[k].chain[0] < |h.owner|; h.posts[k].chain[0]
    else
      assert Returned(h, k);
      var j :| 0 <= j < h.consumed && j < |h.done| && h.done[j].post == k;
      j + |h.owner|
  }

  /** A post that is held by the device leaves room for one more completion. */
  lemma HeldLeavesRoom(h: History, head: nat)
    requires Holds(h, head) && Completions(h)
    ensures |h.done| < h.taken
  {
    var who := seq(|h.done|, (j: nat) requires j < |h.done| => h.done[j].post) + [h.owner[head]];
    assert Distinct(who);
    DistinctBound(who, h.taken);
  }

  // Slots.

  /** Masking a wrapped counter finds the slot of the unbounded counter. */
  lemma SlotOf(c: nat, n: nat)
    requires QueueSize(n) && n > 0
    ensures Slot(c % U16, n) == c % n
  {
    var k: nat :| k <= 15 && n == Pow2(k);
    Pow2Values();
    MaskedCounter(c, k, 16);
  }

  lemma QueueSizeBound(n: nat)
    requires QueueSize(n)
    ensures 0 < n <= CHAIN_END
  {
    var k: nat :| k <= 15 && n == Pow2(k);
    Pow2Mono(k, 15);
    Pow2Values();
  }

  lemma Inc16Of(c: nat)
    ensures Inc16(c % U16) == (c + 1) % U16
  {
    WrapAddOfRem(c, 1, U16);
  }

  // The descriptor table.

  /** A linked list can be walked for its whole length. */
  lemma {:induction false} ListWalkable(desc: seq<Desc>, free: seq<nat>, i: nat, k: nat)
    requires i + k <= |free|
    requires Linked(desc, free)
    ensures Walkable(desc, LinkAt(free, i), k)
    decreases k
  {
    if k > 0 { ListWalkable(desc, free, i + 1, k - 1); }
  }

  /** Filling along the free list ends at the link after the last buffer ... */
  lemma {:induction false} FillChainEnd(desc: seq<Desc>, free: seq<nat>, bufs: seq<Buf>, readable: nat, i: nat)
    requires i <= |bufs| <= |free| && Linked(desc, free)
    ensures Walkable(desc, LinkAt(free, i), |bufs| - i)
    ensures FillChain(desc, LinkAt(free, i), bufs, readable, i).1 == LinkAt(free, |bufs|)
    decreases |bufs| - i
  {
    ListWalkable(desc, free, i, |bufs| - i);
    if i < |bufs| {
      FillChainEnd(FillOne(desc, free, bufs, readable, i), free, bufs, readable, i + 1);
    }
  }

  /** ... leaves other descriptors alone ... */
  lemma {:induction false} FillChainOther(desc: seq<Desc>, free: seq<nat>, bufs: seq<Buf>, readable: nat, i: nat,
    d: nat)
    requires i <= |bufs| <= |free| && Linked(desc, free) && d < |desc|
    requires Walkable(desc, LinkAt(free, i), |bufs| - i)
    requires forall j :: i <= j < |bufs| ==> free[j] != d
    ensures FillChain(desc, LinkAt(free, i), bufs, readable, i).0[d] == desc[d]
    decreases |bufs| - i
  {
    if i < |bufs| {
      var desc1 := FillOne(desc, free, bufs, readable, i);
      ListWalkable(desc1, free, i + 1, |bufs| - i - 1);
      FillChainOther(desc1, free, bufs, readable, i + 1, d);
    }
  }

  /** ... and writes buffer j into the j-th free descriptor. */
  lemma {:induction false} FillChainMember(desc: seq<Desc>, free: seq<nat>, bufs: seq<Buf>, readable: nat, i: nat,
    j: nat)
    requires i <= j < |bufs| <= |free| && Linked(desc, free)
    requires Walkable(desc, LinkAt(free, i), |bufs| - i)
    ensures FillChain(desc, LinkAt(free, i), bufs, readable, i).0[free[j]]
         == Filled(desc[free[j]], bufs[j], ChainFlags(j, |bufs|, readable))
    decreases |bufs| - i
  {
    var desc1 := FillOne(desc, free, bufs, readable, i);
    ListWalkable(desc1, free, i + 1, |bufs| - i - 1);
    if i == j {
      FillChainOther(desc1, free, bufs, readable, i + 1, free[j]);
    } else {
      FillChainMember(desc1, free, bufs, readable, i + 1, j);
    }
  }

  ghost function FillOne(desc: seq<Desc>, free: seq<nat>, bufs: seq<Buf>, readable: nat, i: nat): (r: seq<Desc>)
    requires i < |bufs| <= |free| && Linked(desc, free)
    ensures Linked(r, free) && |r| == |desc|
  {
    desc[free[i] := Filled(desc[free[i]], bufs[i], ChainFlags(i, |bufs|, readable))]
  }

  /** Following NEXT flags through a chain in flight visits exactly the chain. */
  lemma {:induction false} ChainEndOf(desc: seq<Desc>, p: Post, j: nat, k: nat)
    requires InTable(desc, p) && j < |p.chain| <= j + 1 + k
    ensures EndsWithin(desc, p.chain[j], k)
    ensures ChainEnd(desc, p.chain[j], k) == (p.chain[|p.chain| - 1], |p.chain| - 1 - j)
    decreases k
  {
    assert desc[p.chain[j]].flags == ChainFlags(j, |p.bufs|, p.readable);
    if j + 1 < |p.chain| {
      assert desc[p.chain[j]].next == p.chain[j + 1];
      ChainEndOf(desc, p, j + 1, k - 1);
    }
  }

  lemma InTableFrame(a: seq<Desc>, b: seq<Desc>, p: Post)
    requires InTable(a, p) && |a| == |b|
    requires forall j :: 0 <= j < |p.chain| ==> b[p.chain[j]] == a[p.chain[j]]
    ensures InTable(b, p)
  {
  }
}

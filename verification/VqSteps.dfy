/** One lemma per step: it is defined, it keeps the invariant, and its output is the history's. */
module VqSteps {
  import opened Bits
  import opened Vring
  import opened VqHistory
  import opened VqInvariant

  ghost predicate StepKeeps(s: System, h: History, a: Action) {
    && Defined(s, a) && Meaningful(h, a)
    && StepSystem(s, a).1 == StepHistory(h, a).1
    && Inv(StepSystem(s, a).0, StepHistory(h, a).0)
  }

  // Posting.

  lemma PrepareHistory(h: History, bufs: seq<Buf>, readable: nat, cookie: nat)
    requires |bufs| <= |h.free|
    ensures var h' := StepHistory(h, Prepare(bufs, readable, cookie)).0;
      var chain := h.free[..|bufs|];
      && h'.free == h.free[|bufs|..] && |h'.owner| == |h.owner|
      && h'.posts == h.posts + [Post(chain, bufs, readable, cookie)]
      && (forall d :: 0 <= d < |h.owner| ==> h'.owner[d] == if d in chain then |h.posts| else h.owner[d])
      && h'.done == h.done && h'.consumed == h.consumed
  {
  }

  lemma InFlightIndex(h: History, k: nat)
    ensures InFlight(h, k) ==> k < |h.posts|
  {
  }

  lemma PrepareOwnership(h: History, bufs: seq<Buf>, readable: nat, cookie: nat)
    requires Ownership(h) && Distinct(h.free) && 1 <= |bufs| <= |h.free|
    requires forall k :: 0 <= k < |h.posts| && InFlight(h, k) ==> PostShape(h.posts[k])
    requires h.consumed <= |h.done| && forall j :: 0 <= j < |h.done| ==> h.done[j].post < |h.posts|
    ensures Ownership(StepHistory(h, Prepare(bufs, readable, cookie)).0)
  {
    hide InFlight, StepHistory;
    var h' := StepHistory(h, Prepare(bufs, readable, cookie)).0;
    var m := |h.posts|;
    var chain := h.free[..|bufs|];
    PrepareHistory(h, bufs, readable, cookie);
    forall k | 0 <= k <= m ensures InFlight(h', k) <==> (k == m || InFlight(h, k)) {
      InFlightAfterPrepare(h, bufs, readable, cookie, k);
    }
    forall i | 0 <= i < |h'.free| ensures h'.free[i] < |h'.owner| && h'.owner[h'.free[i]] == -1 {
      assert h'.free[i] == h.free[i + |bufs|];
      assert h'.free[i] !in chain;
    }
    forall d | 0 <= d < |h'.owner| && h'.owner[d] == -1 ensures d in h'.free {
      assert h.free == chain + h'.free;
    }
    forall d | 0 <= d < |h'.owner| && h'.owner[d] >= 0
      ensures h'.owner[d] < |h'.posts| && InFlight(h', h'.owner[d]) && d in h'.posts[h'.owner[d]].chain
    {
      if d !in chain { InFlightIndex(h, h.owner[d]); }
    }
    forall k, j | 0 <= k < |h'.posts| && 0 <= j < |h'.posts[k].chain| && InFlight(h', k)
      ensures h'.posts[k].chain[j] < |h'.owner| && h'.owner[h'.posts[k].chain[j]] == k
    {
      var d := h'.posts[k].chain[j];
      if k == m {
        assert d == h.free[j];
      } else {
        assert h.owner[h.posts[k].chain[j]] == k;
        assert d !in h.free;
      }
    }
  }

  /** The table after filling: the new chain is in place and no chain in flight is disturbed. */
  lemma FillTable(desc: seq<Desc>, h: History, p: Post)
    requires Linked(desc, h.free) && Ownership(h)
    requires 1 <= |p.bufs| <= |h.free| && p.chain == h.free[..|p.bufs|]
    requires forall k :: 0 <= k < |h.posts| && InFlight(h, k) ==> InTable(desc, h.posts[k])
    ensures Walkable(desc, h.free[0], |p.bufs|)
    ensures var r := FillChain(desc, h.free[0], p.bufs, p.readable, 0);
      && r.1 == LinkAt(h.free, |p.bufs|)
      && InTable(r.0, p)
      && (forall k :: 0 <= k < |h.posts| && InFlight(h, k) ==> InTable(r.0, h.posts[k]))
  {
    FillChainEnd(desc, h.free, p.bufs, p.readable, 0);
    var filled := FillChain(desc, h.free[0], p.bufs, p.readable, 0).0;
    forall j | 0 <= j < |p.chain|
      ensures filled[p.chain[j]] == Filled(filled[p.chain[j]], p.bufs[j], ChainFlags(j, |p.bufs|, p.readable))
      ensures j + 1 < |p.chain| ==> filled[p.chain[j]].next == p.chain[j + 1]
    {
      FillChainMember(desc, h.free, p.bufs, p.readable, 0, j);
      assert desc[h.free[j]].next == LinkAt(h.free, j + 1);
    }
    forall k | 0 <= k < |h.posts| && InFlight(h, k) ensures InTable(filled, h.posts[k]) {
      FillKeeps(desc, h, p, k);
    }
  }

  /** Filling a chain from the free list leaves the chains in flight alone. */
  lemma FillKeeps(desc: seq<Desc>, h: History, p: Post, k: nat)
    requires Linked(desc, h.free) && Ownership(h)
    requires 1 <= |p.bufs| <= |h.free| && Walkable(desc, h.free[0], |p.bufs|)
    requires k < |h.posts| && InFlight(h, k) && InTable(desc, h.posts[k])
    ensures InTable(FillChain(desc, h.free[0], p.bufs, p.readable, 0).0, h.posts[k])
  {
    hide FillChain, Walkable;
    var filled, q := FillChain(desc, h.free[0], p.bufs, p.readable, 0).0, h.posts[k];
    forall j | 0 <= j < |q.chain| ensures filled[q.chain[j]] == desc[q.chain[j]] {
      assert h.owner[h.posts[k].chain[j]] == k;
      FillChainOther(desc, h.free, p.bufs, p.readable, 0, q.chain[j]);
    }
    InTableFrame(desc, filled, q);
  }

  lemma PrepareTable(s: System, h: History, bufs: seq<Buf>, readable: nat, cookie: nat)
    requires Inv(s, h) && Enabled(s, h, Prepare(bufs, readable, cookie))
    ensures Defined(s, Prepare(bufs, readable, cookie))
    ensures var desc := StepSystem(s, Prepare(bufs, readable, cookie)).0.ring.desc;
      && SameLinks(s.ring.desc, desc)
      && InTable(desc, Post(h.free[..|bufs|], bufs, readable, cookie))
      && (forall k :: 0 <= k < |h.posts| && InFlight(h, k) ==> InTable(desc, h.posts[k]))
    ensures StepSystem(s, Prepare(bufs, readable, cookie)).0.drv.headIdx == LinkAt(h.free, |bufs|)
  {
    assert h.free[0] < |s.ring.desc|;
    FillTable(s.ring.desc, h, Post(h.free[..|bufs|], bufs, readable, cookie));
    hide Ownership, Cookies, Slots, Completions, Counters, Indices, Linked, InTable, PostShape;
  }

  lemma InFlightAfterPrepare(h: History, bufs: seq<Buf>, readable: nat, cookie: nat, k: nat)
    requires |bufs| <= |h.free| && k <= |h.posts|
    requires h.consumed <= |h.done| && forall j :: 0 <= j < |h.done| ==> h.done[j].post < |h.posts|
    ensures InFlight(StepHistory(h, Prepare(bufs, readable, cookie)).0, k) <==> (k == |h.posts| || InFlight(h, k))
  {
    var h' := StepHistory(h, Prepare(bufs, readable, cookie)).0;
    assert Returned(h', k) <==> Returned(h, k);
  }

  lemma PrepareFreeList(s: System, h: History, bufs: seq<Buf>, readable: nat, cookie: nat)
    requires Inv(s, h) && Enabled(s, h, Prepare(bufs, readable, cookie))
    ensures Defined(s, Prepare(bufs, readable, cookie))
    ensures var s' := StepSystem(s, Prepare(bufs, readable, cookie)).0;
      FreeList(s'.drv, s'.ring.desc, h.free[|bufs|..])
  {
    PrepareTable(s, h, bufs, readable, cookie);
    var desc := StepSystem(s, Prepare(bufs, readable, cookie)).0.ring.desc;
    var rest := h.free[|bufs|..];
    forall j | 0 <= j < |rest| ensures rest[j] < |desc| && desc[rest[j]].next == LinkAt(rest, j + 1) {
      assert rest[j] == h.free[j + |bufs|];
      assert s.ring.desc[h.free[j + |bufs|]].next == LinkAt(h.free, j + |bufs| + 1);
    }
  }

  /** What posting does to the rings and to the history. */
  lemma PrepareRings(s: System, h: History, bufs: seq<Buf>, readable: nat, cookie: nat)
    requires Defined(s, Prepare(bufs, readable, cookie)) && |bufs| <= |h.free|
    ensures var s' := StepSystem(s, Prepare(bufs, readable, cookie)).0;
      && s'.ring.availRing == s.ring.availRing[Slot(s.ring.availIdx, s.drv.nentries) := s.drv.headIdx]
      && s'.ring.usedRing == s.ring.usedRing
    ensures var h' := StepHistory(h, Prepare(bufs, readable, cookie)).0;
      && h'.posts == h.posts + [Post(h.free[..|bufs|], bufs, readable, cookie)]
      && h'.taken == h.taken && h'.done == h.done && h'.consumed == h.consumed && |h'.owner| == |h.owner|
  {
    hide FillChain;
  }

  lemma PrepareSlots(s: System, h: History, bufs: seq<Buf>, readable: nat, cookie: nat)
    requires Inv(s, h) && Enabled(s, h, Prepare(bufs, readable, cookie))
    requires Defined(s, Prepare(bufs, readable, cookie))
    requires |h.posts| < h.taken + |h.owner|
    ensures Slots(StepSystem(s, Prepare(bufs, readable, cookie)).0, StepHistory(h, Prepare(bufs, readable, cookie)).0)
  {
    hide Chains, Cookies, Ownership, Completions, StepSystem, StepHistory, Defined, FillChain;
    var m, n := |h.posts|, |h.owner|;
    var s' := StepSystem(s, Prepare(bufs, readable, cookie)).0;
    var h' := StepHistory(h, Prepare(bufs, readable, cookie)).0;
    SlotOf(m, n);
    PrepareRings(s, h, bufs, readable, cookie);
    assert s'.ring.availRing == s.ring.availRing[m % n := h.free[0]];
    forall k | h'.taken <= k < |h'.posts|
      ensures |h'.posts[k].chain| > 0 && s'.ring.availRing[k % n] == h'.posts[k].chain[0]
    {
      if k < m {
        RemApart(k, m, n);
        assert h'.posts[k] == h.posts[k];
      }
    }
    forall k | h.consumed <= k < |h.done| ensures h'.posts[h.done[k].post] == h.posts[h.done[k].post] {
    }
  }

  lemma PrepareChains(s: System, h: History, bufs: seq<Buf>, readable: nat, cookie: nat)
    requires Inv(s, h) && Enabled(s, h, Prepare(bufs, readable, cookie))
    requires Defined(s, Prepare(bufs, readable, cookie))
    ensures Chains(StepSystem(s, Prepare(bufs, readable, cookie)).0, StepHistory(h, Prepare(bufs, readable, cookie)).0)
  {
    var s' := StepSystem(s, Prepare(bufs, readable, cookie)).0;
    var h' := StepHistory(h, Prepare(bufs, readable, cookie)).0;
    var m := |h.posts|;
    PrepareTable(s, h, bufs, readable, cookie);
    assert PostShape(h'.posts[m]);
    assert Recorded(s'.drv, h'.posts[m]);
    forall k | 0 <= k < |h'.posts| && InFlight(h', k)
      ensures InTable(s'.ring.desc, h'.posts[k]) && Recorded(s'.drv, h'.posts[k])
    {
      InFlightAfterPrepare(h, bufs, readable, cookie, k);
      if k < m {
        assert h'.posts[k] == h.posts[k];
        assert h.owner[h.posts[k].chain[0]] == k;
        assert h.owner[h.free[0]] == -1;
      }
    }
  }

  lemma PrepareCookies(s: System, h: History, bufs: seq<Buf>, readable: nat, cookie: nat)
    requires Inv(s, h) && Enabled(s, h, Prepare(bufs, readable, cookie))
    requires Defined(s, Prepare(bufs, readable, cookie))
    ensures s.drv.descx[s.drv.headIdx].cookie == 0
    ensures Cookies(StepSystem(s, Prepare(bufs, readable, cookie)).0, StepHistory(h, Prepare(bufs, readable, cookie)).0)
  {
    var s' := StepSystem(s, Prepare(bufs, readable, cookie)).0;
    var h' := StepHistory(h, Prepare(bufs, readable, cookie)).0;
    assert s.drv.headIdx == h.free[0] && h.owner[h.free[0]] == -1;
    assert h.free[..|bufs|][0] == h.free[0];
    forall d | 0 <= d < |h'.owner| && s'.drv.descx[d].cookie != 0
      ensures 0 <= h'.owner[d] < |h'.posts|
      ensures |h'.posts[h'.owner[d]].chain| > 0 && d == h'.posts[h'.owner[d]].chain[0]
    {
      if d != h.free[0] {
        assert s.drv.descx[d].cookie != 0;
        assert h.owner[d] >= 0;
        assert d !in h.free[..|bufs|];
      }
    }
  }

  lemma CompletionsFrame(h: History, h': History)
    requires Completions(h) && h'.done == h.done && h'.taken == h.taken
    ensures Completions(h')
  {
  }

  lemma PrepareCounters(s: System, h: History, bufs: seq<Buf>, readable: nat, cookie: nat)
    requires Inv(s, h) && Enabled(s, h, Prepare(bufs, readable, cookie))
    requires Defined(s, Prepare(bufs, readable, cookie))
    ensures var h' := StepHistory(h, Prepare(bufs, readable, cookie)).0;
            var s' := StepSystem(s, Prepare(bufs, readable, cookie)).0;
            Counters(s', h') && Completions(h') && Indices(s', h')
    ensures |h.posts| < h.taken + |h.owner|
  {
    PrepareOwnership(h, bufs, readable, cookie);
    PrepareChains(s, h, bufs, readable, cookie);
    var h' := StepHistory(h, Prepare(bufs, readable, cookie)).0;
    var s' := StepSystem(s, Prepare(bufs, readable, cookie)).0;
    assert h.consumed <= h.taken && h.consumed <= |h.done|;
    hide FreeList, Ownership, Cookies, Slots, Indices, Counters, Completions, FillChain;
    InFlightBound(h');
    PostCounted(s, h, s', h');
    CompletionsFrame(h, h');
  }

  lemma StepPrepare(s: System, h: History, bufs: seq<Buf>, readable: nat, cookie: nat)
    requires Inv(s, h) && Enabled(s, h, Prepare(bufs, readable, cookie))
    ensures StepKeeps(s, h, Prepare(bufs, readable, cookie))
  {
    PrepareTable(s, h, bufs, readable, cookie);
    PrepareOwnership(h, bufs, readable, cookie);
    PrepareChains(s, h, bufs, readable, cookie);
    PrepareFreeList(s, h, bufs, readable, cookie);
    PrepareCounters(s, h, bufs, readable, cookie);
    PrepareSlots(s, h, bufs, readable, cookie);
    PrepareCookies(s, h, bufs, readable, cookie);
    hide FreeList, Ownership, Chains, Cookies, Slots, Completions, Counters, Indices;
  }

  /** The part of the invariant that concerns descriptors and chains. */
  ghost predicate Structure(s: System, h: History) {
    && FreeList(s.drv, s.ring.desc, h.free) && Ownership(h) && Chains(s, h) && Cookies(s, h)
  }

  /** Steps that leave the descriptors alone keep that part. */
  lemma StructureFrame(s: System, h: History, s': System, h': History)
    requires Structure(s, h)
    requires s'.ring.desc == s.ring.desc && s'.drv.descx == s.drv.descx
    requires s'.drv.freeCnt == s.drv.freeCnt && s'.drv.headIdx == s.drv.headIdx
    requires h'.posts == h.posts && h'.free == h.free && h'.owner == h.owner
    requires h'.consumed == h.consumed <= |h.done| && h.done <= h'.done
    ensures Structure(s', h')
  {
    forall k: nat ensures InFlight(h, k) <==> InFlight(h', k) {
      assert Returned(h, k) <==> Returned(h', k);
    }
  }

  /** Steps that write neither ring keep the unread slots and the completions. */
  lemma SlotsFrame(s: System, h: History, s': System, h': History)
    requires Slots(s, h) && Completions(h)
    requires s'.ring.availRing == s.ring.availRing && s'.ring.usedRing == s.ring.usedRing
    requires h'.posts == h.posts && h'.done == h.done && |h'.owner| == |h.owner|
    requires h.taken <= h'.taken && h.consumed <= h'.consumed
    ensures Slots(s', h') && Completions(h')
  {
  }

  lemma Ordered(s: System, h: History)
    requires Counters(s, h)
    ensures h.consumed <= |h.done| <= h.taken <= |h.posts| <= h.consumed + |h.owner|
  {
  }

  ghost predicate SameIndices(s: System, s': System) {
    && s'.ring.availIdx == s.ring.availIdx && s'.ring.usedIdx == s.ring.usedIdx
    && s'.drv.usedConsIdx == s.drv.usedConsIdx && s'.dev.availableIdx == s.dev.availableIdx
    && s'.drv.queuedCnt == s.drv.queuedCnt && s'.dev.queuedCnt == s.dev.queuedCnt
  }

  /** Steps that move no counter keep the counters; checking is as good as idle. */
  lemma CountersFrame(s: System, h: History, s': System)
    requires Counters(s, h) && Indices(s, h) && SameIndices(s, s')
    requires s'.drvPc == s.drvPc || (s.drvPc in {DIdle, DCheck} && s'.drvPc in {DIdle, DCheck})
    requires s'.devPc == s.devPc || (s.devPc in {VIdle, VCheck} && s'.devPc in {VIdle, VCheck})
    ensures Counters(s', h) && Indices(s', h)
  {
  }

  /** One more post, not yet published. */
  lemma PostCounted(s: System, h: History, s': System, h': History)
    requires Counters(s, h) && Indices(s, h) && SameIndices(s, s')
    requires s.drvPc.DIdle? && s'.drvPc.DPublish? && s'.devPc == s.devPc
    requires |h'.posts| == |h.posts| + 1 && |h'.owner| == |h.owner| && |h'.posts| <= h.consumed + |h.owner|
    requires h' == h.(posts := h'.posts, owner := h'.owner, free := h'.free)
    ensures Counters(s', h') && Indices(s', h')
  {
  }

  /** One more completion, not yet published. */
  lemma CompletionCounted(s: System, h: History, s': System, h': History)
    requires Counters(s, h) && Indices(s, h) && SameIndices(s, s')
    requires s.devPc.VIdle? && s'.devPc.VPublish? && s'.drvPc == s.drvPc
    requires |h'.done| == |h.done| + 1 <= h.taken
    requires h' == h.(done := h'.done)
    ensures Counters(s', h') && Indices(s', h')
  {
  }

  lemma TakeCounted(s: System, h: History)
    requires Counters(s, h) && Indices(s, h) && h.taken < h.published
    ensures var s' := s.(dev := s.dev.(availableIdx := Inc16(s.dev.availableIdx)));
            var h' := h.(taken := h.taken + 1);
            Counters(s', h') && Indices(s', h')
  {
    Inc16Of(h.taken);
  }

  lemma StepPublish(s: System, h: History)
    requires Inv(s, h) && Enabled(s, h, Publish)
    ensures StepKeeps(s, h, Publish)
  {
    hide FreeList, Ownership, Chains, Cookies, Slots, Completions;
    var s', h' := StepSystem(s, Publish).0, StepHistory(h, Publish).0;
    StructureFrame(s, h, s', h');
    SlotsFrame(s, h, s', h');
    assert Indices(s', h') by {
      Inc16Of(h.published);
      Inc16Of(h.published - h.drvKicked);
    }
  }

  // Collecting.

  lemma WrappedEqual(a: nat, b: nat)
    requires a <= b < a + U16
    ensures a % U16 == b % U16 <==> a == b
    ensures WrapSub(b % U16, a % U16, U16) == b - a
  {
    if a < b { RemApart(a, b, U16); }
    WrapSubOfRem(b, a, U16);
  }

  lemma ClaimCounters(s: System, h: History)
    requires Shape(s, h) && Counters(s, h) && Indices(s, h) && s.drvPc.DIdle? && UsedPending(s.drv, s.ring)
    ensures var s' := s.(drv := ReapClaim(s.drv), drvPc := DReap(Slot(s.drv.usedConsIdx, s.drv.nentries)));
            var h' := h.(claimed := h.claimed + 1);
            Counters(s', h') && Indices(s', h')
  {
    assert h.claimed < h.used by {
      QueueSizeBound(|h.owner|);
      WrappedEqual(h.claimed, h.used);
    }
    SlotOf(h.consumed, |h.owner|);
    Inc16Of(h.claimed);
  }

  lemma StepClaim(s: System, h: History)
    requires Inv(s, h) && Enabled(s, h, Claim)
    ensures StepKeeps(s, h, Claim)
  {
    var s', h' := StepSystem(s, Claim).0, StepHistory(h, Claim).0;
    assert s' == s.(drv := ReapClaim(s.drv), drvPc := DReap(Slot(s.drv.usedConsIdx, s.drv.nentries)));
    assert h' == h.(claimed := h.claimed + 1);
    assert StepSystem(s, Claim).1 == StepHistory(h, Claim).1;
    assert h.consumed <= |h.done|;
    ClaimCounters(s, h);
    hide FreeList, Ownership, Chains, Cookies, Slots, Completions, Counters, Indices, StepSystem, StepHistory, Slot;
    StructureFrame(s, h, s', h');
    SlotsFrame(s, h, s', h');
  }

  /** The next completion to collect refers to a chain that is still in flight. */
  lemma NextIsInFlight(h: History)
    requires Completions(h) && h.consumed < |h.done| && h.taken <= |h.posts|
    ensures InFlight(h, h.done[h.consumed].post)
  {
  }

  lemma InFlightAfterFinish(h: History, k: nat)
    requires Completions(h) && h.consumed < |h.done| && h.taken <= |h.posts| && k < |h.posts|
    ensures InFlight(StepHistory(h, Finish).0, k) <==> (InFlight(h, k) && k != h.done[h.consumed].post)
  {
    var h' := StepHistory(h, Finish).0;
    if Returned(h', k) {
      var j :| 0 <= j < h'.consumed && j < |h'.done| && h'.done[j].post == k;
      assert j < h.consumed ==> Returned(h, k);
    }
    if Returned(h, k) {
      var j :| 0 <= j < h.consumed && j < |h.done| && h.done[j].post == k;
      assert h'.done[j].post == k;
    }
    assert h'.done[h.consumed].post == h.done[h.consumed].post;
  }

  lemma FinishOwnership(h: History)
    requires Ownership(h) && Completions(h) && h.consumed < |h.done| && h.taken <= |h.posts|
    ensures Ownership(StepHistory(h, Finish).0)
  {
    var h' := StepHistory(h, Finish).0;
    var c := h.done[h.consumed].post;
    var chain := h.posts[c].chain;
    NextIsInFlight(h);
    forall i | 0 <= i < |h'.free| ensures h'.free[i] < |h'.owner| && h'.owner[h'.free[i]] == -1 {
      if i < |chain| { assert h'.free[i] == chain[i]; } else { assert h'.free[i] == h.free[i - |chain|]; }
    }
    forall d | 0 <= d < |h'.owner| && h'.owner[d] == -1 ensures d in h'.free {
      assert h.owner[d] == c || h.owner[d] == -1;
    }
    forall d | 0 <= d < |h'.owner| && h'.owner[d] >= 0
      ensures InFlight(h', h'.owner[d]) && d in h'.posts[h'.owner[d]].chain
    {
      assert h'.owner[d] == h.owner[d];
      InFlightAfterFinish(h, h.owner[d]);
    }
    forall k, j | 0 <= k < |h'.posts| && 0 <= j < |h'.posts[k].chain| && InFlight(h', k)
      ensures h'.posts[k].chain[j] < |h'.owner| && h'.owner[h'.posts[k].chain[j]] == k
    {
      InFlightAfterFinish(h, k);
      assert h.owner[h.posts[k].chain[j]] == k;
    }
  }

  /** What get_buffer finds in the claimed slot: the head of the chain completed next, whose
      recorded length is exactly the number of descriptors reached through NEXT flags. */
  lemma FinishFinds(s: System, h: History)
    requires Inv(s, h) && Enabled(s, h, Finish)
    ensures Defined(s, Finish)
    ensures h.consumed < |h.done| && h.done[h.consumed].post < |h.posts|
    ensures var c := h.done[h.consumed]; var p := h.posts[c.post];
      && InFlight(h, c.post)
      && 1 <= |p.chain| && |p.chain| + |h.free| <= |h.owner|
      && s.ring.usedRing[s.drvPc.slot] == UsedElem(p.chain[0], c.len)
      && !HasIndirect(s.ring.desc[p.chain[0]].flags)
      && ChainEnd(s.ring.desc, p.chain[0], s.drv.nentries) == (p.chain[|p.chain| - 1], |p.chain| - 1)
  {
    var c := h.done[h.consumed];
    NextIsInFlight(h);
    assert PostShape(h.posts[c.post]) && InTable(s.ring.desc, h.posts[c.post]) && Recorded(s.drv, h.posts[c.post]);
    assert s.ring.usedRing[s.drvPc.slot] == UsedElem(h.posts[c.post].chain[0], c.len);
    QueueSizeBound(|h.owner|);
    hide Chains, Cookies, Slots, Completions, Indices, Linked, Ownership, PostShape;
    FreeChainOf(s.drv, s.ring, h, c.post);
  }

  lemma PrependDistinct(h: History, k: nat)
    requires Ownership(h) && Distinct(h.free) && InFlight(h, k) && Distinct(h.posts[k].chain)
    ensures Distinct(h.posts[k].chain + h.free)
    ensures forall i :: 0 <= i < |h.posts[k].chain + h.free| ==> (h.posts[k].chain + h.free)[i] < |h.owner|
    ensures |h.posts[k].chain| + |h.free| <= |h.owner|
  {
    var chain := h.posts[k].chain;
    var free := chain + h.free;
    var m := |chain|;
    forall i | 0 <= i < |free| ensures free[i] < |h.owner| && (i < m <==> h.owner[free[i]] == k) {
      if i < m { assert free[i] == h.posts[k].chain[i]; } else { assert free[i] == h.free[i - m]; }
    }
    forall i, j | 0 <= i < j < |free| ensures free[i] != free[j] {
      if j < m { assert free[j] == chain[j] && free[i] == chain[i]; }
      else if m <= i { assert free[i] == h.free[i - m] && free[j] == h.free[j - m]; }
    }
    DistinctBound(free, |h.owner|);
  }

  /** Linking the end of a chain to a list gives the concatenated list. */
  lemma PrependLinked(was: seq<Desc>, p: Post, rest: seq<nat>)
    requires InTable(was, p) && Linked(was, rest) && |p.chain| > 0
    requires Distinct(p.chain + rest)
    ensures Linked(was[p.chain[|p.chain| - 1] := was[p.chain[|p.chain| - 1]].(next := LinkAt(rest, 0))], p.chain + rest)
  {
    var free := p.chain + rest;
    var m := |p.chain|;
    var end := p.chain[m - 1];
    var desc := was[end := was[end].(next := LinkAt(rest, 0))];
    assert free[m - 1] == end;
    forall j | 0 <= j < |free| ensures free[j] < |desc| && desc[free[j]].next == LinkAt(free, j + 1) {
      if j < m {
        assert free[j] == p.chain[j];
        assert j < m - 1 ==> was[p.chain[j]].next == p.chain[j + 1];
      } else {
        assert free[j] == rest[j - m];
        assert was[rest[j - m]].next == LinkAt(rest, j - m + 1);
        assert free[j] != free[m - 1];
      }
    }
  }

  /** What freeing a chain in flight does to the control block and the table. */
  lemma FreeChainOf(q: Queue, r: Ring, h: History, k: nat)
    requires Sized(q, r) && q.nentries == |h.owner| <= CHAIN_END
    requires InFlight(h, k) && PostShape(h.posts[k]) && InTable(r.desc, h.posts[k]) && Recorded(q, h.posts[k])
    requires FreeList(q, r.desc, h.free) && Ownership(h)
    ensures |h.posts[k].chain| + |h.free| <= |h.owner|
    ensures EndsWithin(r.desc, h.posts[k].chain[0], q.nentries)
    ensures !HasIndirect(r.desc[h.posts[k].chain[0]].flags)
    ensures ChainEnd(r.desc, h.posts[k].chain[0], q.nentries)
         == (h.posts[k].chain[|h.posts[k].chain| - 1], |h.posts[k].chain| - 1)
    ensures var (q', r') := FreeChain(q, r, h.posts[k].chain[0]);
      && FreeList(q', r'.desc, h.posts[k].chain + h.free)
      && q'.descx[h.posts[k].chain[0]] == Extra(h.posts[k].cookie, 0)
  {
    var p := h.posts[k];
    PrependDistinct(h, k);
    ChainEndOf(r.desc, p, 0, q.nentries);
    assert r.desc[p.chain[0]].flags == ChainFlags(0, |p.bufs|, p.readable);
    PrependLinked(r.desc, p, h.free);
  }

  lemma FinishFreeList(s: System, h: History)
    requires Inv(s, h) && Enabled(s, h, Finish)
    requires Defined(s, Finish) && Meaningful(h, Finish)
    ensures var s' := StepSystem(s, Finish).0;
      FreeList(s'.drv, s'.ring.desc, StepHistory(h, Finish).0.free)
  {
    FinishFinds(s, h);
    QueueSizeBound(|h.owner|);
    FreeChainOf(s.drv, s.ring, h, h.done[h.consumed].post);
  }

  lemma FinishChains(s: System, h: History)
    requires Inv(s, h) && Enabled(s, h, Finish)
    requires Defined(s, Finish) && Meaningful(h, Finish)
    ensures Chains(StepSystem(s, Finish).0, StepHistory(h, Finish).0)
  {
    FinishFinds(s, h);
    var s', h' := StepSystem(s, Finish).0, StepHistory(h, Finish).0;
    var c := h.done[h.consumed].post;
    forall k | 0 <= k < |h'.posts| && InFlight(h', k)
      ensures InTable(s'.ring.desc, h'.posts[k]) && Recorded(s'.drv, h'.posts[k])
    {
      InFlightAfterFinish(h, k);
      var last := |h.posts[c].chain| - 1;
      assert h.owner[h.posts[c].chain[last]] == c && h.owner[h.posts[c].chain[0]] == c;
      assert h.owner[h.posts[k].chain[0]] == k;
      assert InTable(s.ring.desc, h.posts[k]);
      forall j | 0 <= j < |h.posts[k].chain|
        ensures s'.ring.desc[h.posts[k].chain[j]] == s.ring.desc[h.posts[k].chain[j]]
      {
        assert h.owner[h.posts[k].chain[j]] == k;
      }
      InTableFrame(s.ring.desc, s'.ring.desc, h.posts[k]);
    }
  }

  lemma FinishCookies(s: System, h: History)
    requires Inv(s, h) && Enabled(s, h, Finish)
    requires Defined(s, Finish) && Meaningful(h, Finish)
    ensures Cookies(StepSystem(s, Finish).0, StepHistory(h, Finish).0)
  {
    FinishFinds(s, h);
    var s', h' := StepSystem(s, Finish).0, StepHistory(h, Finish).0;
    var c := h.done[h.consumed].post;
    forall d | 0 <= d < |h'.owner| && s'.drv.descx[d].cookie != 0
      ensures 0 <= h'.owner[d] < |h'.posts|
      ensures |h'.posts[h'.owner[d]].chain| > 0 && d == h'.posts[h'.owner[d]].chain[0]
    {
      assert d != h.posts[c].chain[0];
      assert s.drv.descx[d].cookie != 0;
    }
  }

  /** What collecting does to the counters. */
  lemma FinishEffects(s: System, h: History)
    requires Defined(s, Finish) && Meaningful(h, Finish)
    ensures var s', h' := StepSystem(s, Finish).0, StepHistory(h, Finish).0;
      && h'.consumed == h.consumed + 1 && |h'.owner| == |h.owner|
      && h'.posts == h.posts && h'.published == h.published && h'.taken == h.taken && h'.done == h.done
      && h'.used == h.used && h'.claimed == h.claimed && h'.drvKicked == h.drvKicked && h'.devKicked == h.devKicked
      && s'.drvPc.DIdle? && s'.devPc == s.devPc && s'.dev == s.dev
      && s'.drv.usedConsIdx == s.drv.usedConsIdx && s'.drv.queuedCnt == s.drv.queuedCnt
      && s'.ring.availIdx == s.ring.availIdx && s'.ring.usedIdx == s.ring.usedIdx
  {
    hide ChainEnd, WrapSub;
  }

  lemma FinishCounters(s: System, h: History)
    requires Inv(s, h) && Enabled(s, h, Finish)
    requires Defined(s, Finish) && Meaningful(h, Finish)
    ensures Counters(StepSystem(s, Finish).0, StepHistory(h, Finish).0)
    ensures Indices(StepSystem(s, Finish).0, StepHistory(h, Finish).0)
  {
    hide FreeList, Ownership, Chains, Cookies, Slots, Completions, StepSystem, StepHistory, Defined, Meaningful;
    FinishEffects(s, h);
  }

  lemma StepFinish(s: System, h: History)
    requires Inv(s, h) && Enabled(s, h, Finish)
    ensures StepKeeps(s, h, Finish)
  {
    FinishFinds(s, h);
    assert Recorded(s.drv, h.posts[h.done[h.consumed].post]);
    var s', h' := StepSystem(s, Finish).0, StepHistory(h, Finish).0;
    FinishOwnership(h);
    FinishFreeList(s, h);
    FinishChains(s, h);
    FinishCookies(s, h);
    FinishCounters(s, h);
    SlotsFrame(s, h, s', h');
    hide FreeList, Ownership, Chains, Cookies, Slots, Completions, Counters, Indices;
  }

  // The device.

  /** The device finds the next posted chain, with the posted buffer. */
  lemma TakeFinds(s: System, h: History)
    requires Inv(s, h) && Enabled(s, h, TakeNext)
    ensures Defined(s, TakeNext) && Meaningful(h, TakeNext) && h.taken < h.published
    ensures StepSystem(s, TakeNext).1 == StepHistory(h, TakeNext).1
  {
    assert h.taken < h.published by {
      QueueSizeBound(|h.owner|);
      WrappedEqual(h.taken, h.published);
    }
    SlotOf(h.taken, |h.owner|);
    var p := h.posts[h.taken];
    assert InFlight(h, h.taken) && PostShape(p) && InTable(s.ring.desc, p);
    assert s.ring.desc[p.chain[0]] == Filled(s.ring.desc[p.chain[0]], p.bufs[0], ChainFlags(0, |p.bufs|, p.readable));
  }

  lemma StepTake(s: System, h: History)
    requires Inv(s, h) && Enabled(s, h, TakeNext)
    ensures StepKeeps(s, h, TakeNext)
  {
    hide FreeList, Ownership, Chains, Cookies, Slots, Completions, Counters, Indices, Slot, Inc16;
    TakeFinds(s, h);
    var s', h' := StepSystem(s, TakeNext).0, StepHistory(h, TakeNext).0;
    Ordered(s, h);
    TakeCounted(s, h);
    StructureFrame(s, h, s', h');
    SlotsFrame(s, h, s', h');
  }

  lemma StepConsume(s: System, h: History, head: nat, len: nat)
    requires Inv(s, h) && Enabled(s, h, Consume(head, len))
    ensures StepKeeps(s, h, Consume(head, len))
  {
    var s', h' := StepSystem(s, Consume(head, len)).0, StepHistory(h, Consume(head, len)).0;
    HeldLeavesRoom(h, head);
    SlotOf(h.used, |h.owner|);
    Ordered(s, h);
    assert h.used == |h.done| && s.ring.usedIdx == h.used % U16;
    hide FreeList, Ownership, Chains, Cookies, Slots, Completions, Counters, Indices, Slot;
    CompletionCounted(s, h, s', h');
    StructureFrame(s, h, s', h');
    ConsumeSlots(s, h, s', h', Done(h.owner[head], len));
  }

  /** Writing the next used slot overwrites no unread one. */
  lemma ConsumeSlots(s: System, h: History, s': System, h': History, e: Done)
    requires Slots(s, h) && Completions(h) && h.taken <= |h.posts| <= h.consumed + |h.owner| && |h.done| < h.taken
    requires e.post < h.taken && |h.posts[e.post].chain| > 0
    requires forall j :: 0 <= j < |h.done| ==> h.done[j].post != e.post
    requires h' == h.(done := h.done + [e])
    requires s'.ring.availRing == s.ring.availRing
    requires s'.ring.usedRing
          == s.ring.usedRing[|h.done| % |h.owner| := UsedElem(h.posts[e.post].chain[0], e.len)]
    ensures Slots(s', h') && Completions(h')
  {
    var m, n := |h.done|, |h.owner|;
    forall k | h'.consumed <= k < |h'.done|
      ensures h'.done[k].post < |h'.posts| && |h'.posts[h'.done[k].post].chain| > 0
      ensures s'.ring.usedRing[k % n] == UsedElem(h'.posts[h'.done[k].post].chain[0], h'.done[k].len)
    {
      if k < m {
        RemApart(k, m, n);
        assert h'.done[k] == h.done[k];
      }
    }
  }

  lemma StepConsumeDone(s: System, h: History)
    requires Inv(s, h) && Enabled(s, h, ConsumeDone)
    ensures StepKeeps(s, h, ConsumeDone)
  {
    hide FreeList, Ownership, Chains, Cookies, Slots, Completions;
    var s', h' := StepSystem(s, ConsumeDone).0, StepHistory(h, ConsumeDone).0;
    StructureFrame(s, h, s', h');
    SlotsFrame(s, h, s', h');
    assert Indices(s', h') by {
      Inc16Of(h.used);
      Inc16Of(h.used - h.devKicked);
    }
  }

  // Notification.

  /** The wrapped differences are the true numbers of unread entries, and never exceed n. */
  lemma UnreadExact(s: System, h: History)
    requires Inv(s, h)
    ensures Nused(s.drv, s.ring) == h.used - h.claimed <= s.drv.nentries
    ensures Navail(s.dev, s.ring) == h.published - h.taken <= s.dev.nentries
  {
    QueueSizeBound(|h.owner|);
    WrappedEqual(h.claimed, h.used);
    WrappedEqual(h.taken, h.published);
  }

  /** Arming, checking and suppressing write at most an event index or a flag word. */
  lemma FlagsEffect(s: System, h: History, a: Action)
    requires a.Arm? || a.Suppress? || a.Check?
    requires Enabled(s, h, a)
    ensures Defined(s, a) && Meaningful(h, a)
    ensures StepHistory(h, a).0 == h
    ensures !a.Check? ==> StepHistory(h, a).1 == StepSystem(s, a).1
    ensures var s' := StepSystem(s, a).0;
      && s'.drv == s.drv && s'.dev == s.dev
      && (s'.drvPc == s.drvPc || (s.drvPc in {DIdle, DCheck} && s'.drvPc in {DIdle, DCheck}))
      && (s'.devPc == s.devPc || (s.devPc in {VIdle, VCheck} && s'.devPc in {VIdle, VCheck}))
      && s'.ring == s.ring.(availFlags := s'.ring.availFlags, usedFlags := s'.ring.usedFlags,
                            availEvent := s'.ring.availEvent, usedEvent := s'.ring.usedEvent)
  {
    hide WrapSub, SetLow, ClearLow, EnableCheck;
  }

  lemma CheckOutput(s: System, h: History, role: Role)
    requires Inv(s, h) && Enabled(s, h, Check(role))
    ensures StepHistory(h, Check(role)).1 == StepSystem(s, Check(role)).1
  {
    UnreadExact(s, h);
    hide Inv, Nused, Navail;
  }

  lemma StepFlags(s: System, h: History, a: Action)
    requires a.Arm? || a.Suppress? || a.Check?
    requires Inv(s, h) && Enabled(s, h, a)
    ensures StepKeeps(s, h, a)
  {
    FlagsEffect(s, h, a);
    var s' := StepSystem(s, a).0;
    assert h.consumed <= |h.done|;
    if a.Check? { CheckOutput(s, h, a.role); }
    hide FreeList, Ownership, Chains, Cookies, Slots, Completions, Counters, Indices, StepSystem, StepHistory, Enabled,
      Defined, Meaningful;
    StructureFrame(s, h, s', h);
    SlotsFrame(s, h, s', h);
    CountersFrame(s, h, s');
  }

  lemma KickEffect(s: System, h: History, role: Role)
    requires Counters(s, h) && Indices(s, h)
    ensures var s', h' := StepSystem(s, Kick(role)).0, StepHistory(h, Kick(role)).0;
      && Counters(s', h') && Indices(s', h')
      && StepSystem(s, Kick(role)).1 == StepHistory(h, Kick(role)).1
      && s'.ring == s.ring && s'.drv == s.drv.(queuedCnt := s'.drv.queuedCnt)
      && s'.dev == s.dev.(queuedCnt := s'.dev.queuedCnt)
      && h' == h.(drvKicked := h'.drvKicked, devKicked := h'.devKicked)
  {
    match role
    case Driver =>
    case Device =>
  }

  lemma StepKick(s: System, h: History, role: Role)
    requires Inv(s, h) && Enabled(s, h, Kick(role))
    ensures StepKeeps(s, h, Kick(role))
  {
    KickEffect(s, h, role);
    assert h.consumed <= |h.done|;
    var s', h' := StepSystem(s, Kick(role)).0, StepHistory(h, Kick(role)).0;
    hide FreeList, Ownership, Chains, Cookies, Slots, Completions, Counters, Indices, StepSystem, StepHistory;
    StructureFrame(s, h, s', h');
    SlotsFrame(s, h, s', h');
  }

  lemma StepAny(s: System, h: History, a: Action)
    requires Inv(s, h) && Enabled(s, h, a)
    ensures StepKeeps(s, h, a)
  {
    match a
    case Prepare(bufs, readable, cookie) => StepPrepare(s, h, bufs, readable, cookie);
    case Publish => StepPublish(s, h);
    case Claim => StepClaim(s, h);
    case Finish => StepFinish(s, h);
    case TakeNext => StepTake(s, h);
    case Consume(head, len) => StepConsume(s, h, head, len);
    case ConsumeDone => StepConsumeDone(s, h);
    case Kick(role) => StepKick(s, h, role);
    case _ => StepFlags(s, h, a);
  }
}

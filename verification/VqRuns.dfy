/** Whole runs of a virtqueue, from its initial state, under every interleaving. */
module VqRuns {
  import opened Vring
  import opened VqHistory
  import opened VqInvariant
  import opened VqSteps

  /** `Ran` carries the final state and, per action, what the code and the unbounded queue handed
      out.  `Forbidden`: some action broke the rules of `Enabled`.  `Stuck`: the code left its
      arrays, or met a chain it cannot handle. */
  datatype Outcome =
    | Ran(s: System, h: History, got: seq<Output>, due: seq<Output>)
    | Forbidden
    | Stuck

  ghost function Execute(n: nat, events: bool, acts: seq<Action>): Outcome {
    if acts == [] then Ran(InitialSystem(n, events), InitialHistory(n), [], [])
    else
      var a := acts[|acts| - 1];
      match Execute(n, events, acts[..|acts| - 1])
      case Ran(s, h, got, due) =>
        if !Enabled(s, h, a) then Forbidden
        else if !Defined(s, a) || !Meaningful(h, a) then Stuck
        else
          var (s', x) := StepSystem(s, a);
          var (h', y) := StepHistory(h, a);
          Ran(s', h', got + [x], due + [y])
      case other => other
  }

  lemma InitialInv(n: nat, events: bool)
    requires QueueSize(n)
    ensures Inv(InitialSystem(n, events), InitialHistory(n))
  {
    QueueSizeBound(n);
    var s, h := InitialSystem(n, events), InitialHistory(n);
    assert Linked(s.ring.desc, h.free);
    forall d | 0 <= d < |h.owner| ensures d in h.free { assert h.free[d] == d; }
  }

  /** No run gets stuck; every run keeps the invariant; the code hands out exactly what the
      unbounded queue does. */
  lemma {:induction false} RunsRefine(n: nat, events: bool, acts: seq<Action>)
    requires QueueSize(n)
    ensures var o := Execute(n, events, acts);
      && !o.Stuck?
      && (o.Ran? ==> Inv(o.s, o.h) && o.got == o.due && |o.got| == |acts|)
  {
    if acts == [] {
      InitialInv(n, events);
    } else {
      RunsRefine(n, events, acts[..|acts| - 1]);
      var o := Execute(n, events, acts[..|acts| - 1]);
      var a := acts[|acts| - 1];
      if o.Ran? && Enabled(o.s, o.h, a) {
        StepAny(o.s, o.h, a);
      }
    }
  }

  function OnlyDelivered(os: seq<Output>): seq<Output> {
    if os == [] then [] else
    OnlyDelivered(os[..|os| - 1]) + (if os[|os| - 1].Delivered? then [os[|os| - 1]] else [])
  }

  function OnlyCollected(os: seq<Output>): seq<Output> {
    if os == [] then [] else
    OnlyCollected(os[..|os| - 1]) + (if os[|os| - 1].Collected? then [os[|os| - 1]] else [])
  }

  ghost predicate PostsUsable(h: History) {
    forall k :: 0 <= k < |h.posts| ==> |h.posts[k].chain| > 0 && |h.posts[k].bufs| > 0
  }

  /** The deliveries of the first m posts, and the collections of the first m completions. */
  ghost function FirstDeliveries(h: History, m: nat): seq<Output>
    requires m <= |h.posts| && PostsUsable(h)
  {
    seq(m, (k: nat) requires k < m => Delivered(h.posts[k].chain[0], h.posts[k].bufs[0].addr, h.posts[k].bufs[0].len))
  }

  ghost predicate DoneUsable(h: History) {
    forall j :: 0 <= j < |h.done| ==> h.done[j].post < |h.posts|
  }

  ghost function FirstCollections(h: History, m: nat): seq<Output>
    requires m <= |h.done| && DoneUsable(h)
  {
    seq(m, (j: nat) requires j < m => Collected(h.posts[h.done[j].post].cookie, h.done[j].len))
  }

  lemma StepGrows(s: System, h: History, a: Action)
    requires Inv(s, h) && Enabled(s, h, a) && Meaningful(h, a)
    ensures var h' := StepHistory(h, a).0;
      && h.posts <= h'.posts && h.done <= h'.done
      && (if a.TakeNext? then h'.taken == h.taken + 1 else h'.taken == h.taken)
      && (if a.Finish? then h'.consumed == h.consumed + 1 else h'.consumed == h.consumed)
  {
    hide FreeList, Ownership, Chains, Cookies, Slots, Completions, Counters, Indices;
  }

  lemma InvUsable(s: System, h: History)
    requires Inv(s, h)
    ensures PostsUsable(h) && DoneUsable(h) && h.taken <= |h.posts| && h.consumed <= |h.done|
    ensures forall i, j :: 0 <= i < j < |h.done| ==> h.done[i].post != h.done[j].post
  {
    hide FreeList, Ownership, Cookies, Slots, Indices;
    forall k | 0 <= k < |h.posts| ensures |h.posts[k].chain| > 0 && |h.posts[k].bufs| > 0 {
      assert PostShape(h.posts[k]);
    }
  }

  /** `got` lists the deliveries and collections that h accounts for. */
  ghost predicate Accounted(h: History, got: seq<Output>) {
    && PostsUsable(h) && DoneUsable(h) && h.taken <= |h.posts| && h.consumed <= |h.done|
    && OnlyDelivered(got) == FirstDeliveries(h, h.taken)
    && OnlyCollected(got) == FirstCollections(h, h.consumed)
    && (forall i, j :: 0 <= i < j < |h.done| ==> h.done[i].post != h.done[j].post)
  }

  lemma StepAccounts(s: System, h: History, s': System, a: Action, got: seq<Output>)
    requires Inv(s, h) && Enabled(s, h, a) && Meaningful(h, a) && Accounted(h, got)
    requires Inv(s', StepHistory(h, a).0)
    ensures Accounted(StepHistory(h, a).0, got + [StepHistory(h, a).1])
  {
    hide Inv, StepHistory, Enabled, Meaningful, FirstDeliveries, FirstCollections, OnlyDelivered, OnlyCollected;
    var (h', y) := StepHistory(h, a);
    InvUsable(s', h');
    StepGrows(s, h, a);
    OutputKinds(h, a);
    DeliveriesGrow(h, h', h.taken);
    CollectionsGrow(h, h', h.consumed);
    OnlyAppend(got, y);
  }

  lemma OnlyAppend(got: seq<Output>, y: Output)
    ensures OnlyDelivered(got + [y]) == OnlyDelivered(got) + (if y.Delivered? then [y] else [])
    ensures OnlyCollected(got + [y]) == OnlyCollected(got) + (if y.Collected? then [y] else [])
  {
    assert (got + [y])[..|got|] == got;
  }

  /** Over any run the device is handed the posted chains in the order of posting, each with its
      buffer, and the driver is handed, for each completion in the order of completing, the cookie
      posted with that chain; no chain is completed twice, so no cookie comes back twice. */
  lemma {:induction false} RunsDeliverAndCollect(n: nat, events: bool, acts: seq<Action>)
    requires QueueSize(n)
    ensures var o := Execute(n, events, acts); o.Ran? ==> Accounted(o.h, o.got)
  {
    RunsRefine(n, events, acts);
    var o := Execute(n, events, acts);
    if acts == [] {
      InvUsable(o.s, o.h);
    } else if o.Ran? {
      RunsDeliverAndCollect(n, events, acts[..|acts| - 1]);
      RunsRefine(n, events, acts[..|acts| - 1]);
      var p := Execute(n, events, acts[..|acts| - 1]);
      hide Inv, Accounted;
      StepAccounts(p.s, p.h, o.s, acts[|acts| - 1], p.got);
    }
  }

  lemma OutputKinds(h: History, a: Action)
    requires Meaningful(h, a)
    ensures a.TakeNext? ==> h.taken < |h.posts| && h.posts[h.taken].chain != [] && h.posts[h.taken].bufs != []
    ensures a.Finish? ==> h.consumed < |h.done| && h.done[h.consumed].post < |h.posts|
    ensures var y := StepHistory(h, a).1;
      && (y.Delivered? <==> a.TakeNext?) && (y.Collected? <==> a.Finish?)
      && (a.TakeNext? ==>
        y == Delivered(h.posts[h.taken].chain[0], h.posts[h.taken].bufs[0].addr, h.posts[h.taken].bufs[0].len))
      && (a.Finish? ==> y == Collected(h.posts[h.done[h.consumed].post].cookie, h.done[h.consumed].len))
  {
  }

  lemma DeliveriesGrow(h: History, g: History, m: nat)
    requires h.posts <= g.posts && m <= |h.posts| && PostsUsable(h) && PostsUsable(g)
    ensures FirstDeliveries(g, m) == FirstDeliveries(h, m)
    ensures m < |g.posts| ==>
      FirstDeliveries(g, m + 1)
      == FirstDeliveries(g, m) + [Delivered(g.posts[m].chain[0], g.posts[m].bufs[0].addr, g.posts[m].bufs[0].len)]
  {
  }

  lemma CollectionsGrow(h: History, g: History, m: nat)
    requires h.posts <= g.posts && h.done <= g.done && m <= |h.done| && DoneUsable(h) && DoneUsable(g)
    ensures FirstCollections(g, m) == FirstCollections(h, m)
    ensures m < |g.done| ==>
      FirstCollections(g, m + 1) == FirstCollections(g, m) + [Collected(g.posts[g.done[m].post].cookie, g.done[m].len)]
  {
  }

  // The history read off the actions.

  /** The chains asked for, in order. */
  function Asked(acts: seq<Action>): seq<Action> {
    if acts == [] then []
    else Asked(acts[..|acts| - 1]) + (if acts[|acts| - 1].Prepare? then [acts[|acts| - 1]] else [])
  }

  /** The completions the device asked for, in order. */
  function Completing(acts: seq<Action>): seq<Action> {
    if acts == [] then []
    else Completing(acts[..|acts| - 1]) + (if acts[|acts| - 1].Consume? then [acts[|acts| - 1]] else [])
  }

  function Times(acts: seq<Action>, a: Action): nat {
    if acts == [] then 0 else Times(acts[..|acts| - 1], a) + (if acts[|acts| - 1] == a then 1 else 0)
  }

  /** How often `a` occurs up to the last kick of `role`. */
  function TimesAtKick(acts: seq<Action>, a: Action, role: Role): nat {
    if acts == [] then 0
    else if acts[|acts| - 1] == Kick(role) then Times(acts, a)
    else TimesAtKick(acts[..|acts| - 1], a, role)
  }

  ghost predicate CountersAsActed(h: History, acts: seq<Action>) {
    && h.published == Times(acts, Publish) && h.taken == Times(acts, TakeNext) && h.used == Times(acts, ConsumeDone)
    && h.claimed == Times(acts, Claim) && h.consumed == Times(acts, Finish)
    && h.drvKicked == TimesAtKick(acts, Publish, Driver) && h.devKicked == TimesAtKick(acts, ConsumeDone, Device)
  }

  /** Posts and completions carry what was asked for. */
  ghost predicate ContentsAsActed(h: History, acts: seq<Action>) {
    && |h.posts| == |Asked(acts)|
    && (forall k :: 0 <= k < |h.posts| ==>
          Asked(acts)[k] == Prepare(h.posts[k].bufs, h.posts[k].readable, h.posts[k].cookie))
    && |h.done| == |Completing(acts)|
    && (forall j :: 0 <= j < |h.done| ==>
          && h.done[j].post < |h.posts| && |h.posts[h.done[j].post].chain| > 0
          && Completing(acts)[j] == Consume(h.posts[h.done[j].post].chain[0], h.done[j].len))
  }

  lemma CountersStep(h: History, acts: seq<Action>, a: Action)
    requires Meaningful(h, a) && CountersAsActed(h, acts)
    ensures CountersAsActed(StepHistory(h, a).0, acts + [a])
  {
    assert (acts + [a])[..|acts|] == acts;
  }

  lemma ContentsStep(s: System, h: History, acts: seq<Action>, a: Action)
    requires Inv(s, h) && Enabled(s, h, a) && Meaningful(h, a) && ContentsAsActed(h, acts)
    ensures ContentsAsActed(StepHistory(h, a).0, acts + [a])
  {
    hide Inv, Enabled, StepHistory, Meaningful;
    var h' := StepHistory(h, a).0;
    assert (acts + [a])[..|acts|] == acts;
    ContentsEffect(h, a);
    if a.Consume? { ConsumedPost(s, h, a); }
    forall j | 0 <= j < |h'.done|
      ensures h'.done[j].post < |h'.posts| && |h'.posts[h'.done[j].post].chain| > 0
      ensures Completing(acts + [a])[j] == Consume(h'.posts[h'.done[j].post].chain[0], h'.done[j].len)
    {
      if j < |h.done| { assert h'.posts[h.done[j].post] == h.posts[h.done[j].post]; }
    }
  }

  lemma ConsumedPost(s: System, h: History, a: Action)
    requires Inv(s, h) && Enabled(s, h, a) && Meaningful(h, a) && a.Consume?
    ensures a.head < |h.owner| && 0 <= h.owner[a.head] < |h.posts|
    ensures |h.posts[h.owner[a.head]].chain| > 0 && h.posts[h.owner[a.head]].chain[0] == a.head
  {
    hide FreeList, Ownership, Cookies, Slots, Indices, Chains, Counters;
  }

  lemma ContentsEffect(h: History, a: Action)
    requires Meaningful(h, a)
    ensures var h' := StepHistory(h, a).0;
      && (if a.Prepare? then |h'.posts| == |h.posts| + 1 && h.posts <= h'.posts else h'.posts == h.posts)
      && (a.Prepare? ==>
        var p := h'.posts[|h.posts|]; p.bufs == a.bufs && p.readable == a.readable && p.cookie == a.cookie)
      && (if a.Consume? then
            && a.head < |h.owner| && h.owner[a.head] >= 0
            && h'.done == h.done + [Done(h.owner[a.head], a.len)]
          else h'.done == h.done)
  {
  }

  /** The history that runs are measured by is the one the actions tell: posts carry the buffers, the
      readable count and the cookie that were asked for, in order; completions carry the index and length
      that the device gave; and the counters count. */
  lemma {:induction false} RunsAsActed(n: nat, events: bool, acts: seq<Action>)
    requires QueueSize(n)
    ensures var o := Execute(n, events, acts); o.Ran? ==> CountersAsActed(o.h, acts) && ContentsAsActed(o.h, acts)
  {
    hide Inv, CountersAsActed, ContentsAsActed, StepSystem, StepHistory, Enabled, Defined, Meaningful;
    if acts == [] {
      NothingActed(n);
    } else {
      var init, a := acts[..|acts| - 1], acts[|acts| - 1];
      RunsAsActed(n, events, init);
      RunsRefine(n, events, init);
      var o, p := Execute(n, events, acts), Execute(n, events, init);
      if o.Ran? {
        CountersStep(p.h, init, a);
        ContentsStep(p.s, p.h, init, a);
        assert init + [a] == acts;
      }
    }
  }

  lemma NothingActed(n: nat)
    ensures CountersAsActed(InitialHistory(n), []) && ContentsAsActed(InitialHistory(n), [])
  {
  }

  // What the device reads.

  /** Entry j of a posted chain, as the device finds it: the buffer's address and length, the NEXT bit (1)
      on all but the last with its link, and the WRITE bit (2) exactly behind the readable buffers. */
  ghost predicate Describes(d: Desc, p: Post, j: nat)
    requires j < |p.chain| == |p.bufs|
  {
    && d.addr == p.bufs[j].addr && d.len == p.bufs[j].len
    && d.flags < 4
    && (d.flags % 2 == 1 <==> j + 1 < |p.chain|)
    && ((d.flags / 2) % 2 == 1 <==> j >= p.readable)
    && (j + 1 < |p.chain| ==> d.next == p.chain[j + 1])
  }

  /** In every reachable state the descriptors of every chain in flight describe its buffers. */
  lemma RunsDescribe(n: nat, events: bool, acts: seq<Action>, k: nat, j: nat)
    requires QueueSize(n)
    ensures var o := Execute(n, events, acts);
      o.Ran? && InFlight(o.h, k) && j < |o.h.posts[k].chain| ==>
        var p := o.h.posts[k];
        |p.chain| == |p.bufs| && p.chain[j] < |o.s.ring.desc| && Describes(o.s.ring.desc[p.chain[j]], p, j)
  {
    hide Execute;
    RunsRefine(n, events, acts);
    var o := Execute(n, events, acts);
    if o.Ran? && InFlight(o.h, k) && j < |o.h.posts[k].chain| { InvDescribes(o.s, o.h, k, j); }
  }

  lemma InvDescribes(s: System, h: History, k: nat, j: nat)
    requires Inv(s, h) && InFlight(h, k) && j < |h.posts[k].chain|
    ensures var p := h.posts[k];
      |p.chain| == |p.bufs| && p.chain[j] < |s.ring.desc| && Describes(s.ring.desc[p.chain[j]], p, j)
  {
    hide FreeList, Ownership, Cookies, Slots, Completions, Counters, Indices;
    assert InTable(s.ring.desc, h.posts[k]);
  }
}

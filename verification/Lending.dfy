/** What a device may rely on about the buffers it has taken from a virtqueue and not yet returned.
    `own` maps the address of each such buffer to the post it came with. */
module Lending {
  import opened Options
  import opened Vring
  import opened VqHistory
  import opened VqInvariant
  import opened VqSteps
  import opened VqRuns

  ghost function AddrOf(p: Post): nat {
    if p.bufs == [] then 0 else p.bufs[0].addr
  }

  ghost function HeadOf(p: Post): nat {
    if p.chain == [] then 0 else p.chain[0]
  }

  ghost predicate Completed(h: History, k: nat) {
    exists j :: 0 <= j < |h.done| && h.done[j].post == k
  }

  /** The driver does not lend the same buffer twice at a time. */
  ghost predicate NoAlias(h: History) {
    forall j, k :: 0 <= j < k < |h.posts| && InFlight(h, j) && InFlight(h, k) ==>
      AddrOf(h.posts[j]) != AddrOf(h.posts[k])
  }

  /** `own` is exactly what has been delivered and not completed. */
  ghost predicate Lent(h: History, own: map<nat, nat>) {
    && h.taken <= |h.posts|
    && (forall a :: a in own ==> own[a] < h.taken && AddrOf(h.posts[own[a]]) == a && !Completed(h, own[a]))
    && (forall k :: 0 <= k < h.taken && !Completed(h, k) ==> AddrOf(h.posts[k]) in own && own[AddrOf(h.posts[k])] == k)
  }

  ghost predicate LentInv(s: System, h: History, own: map<nat, nat>) {
    Inv(s, h) && NoAlias(h) && Lent(h, own)
  }

  /** The descriptor index that owned buffer a came with. */
  ghost function IndexOf(h: History, own: map<nat, nat>, a: nat): nat
    requires a in own && own[a] < |h.posts|
  {
    HeadOf(h.posts[own[a]])
  }

  ghost predicate DriverStep(a: Action) {
    a.Prepare? || a.Publish? || a.Claim? || a.Finish? ||
      a in {Arm(Driver), Check(Driver), Suppress(Driver), Kick(Driver)}
  }

  /** What is asked of the driver: the rules of the queue, and no aliasing. */
  ghost predicate DriverMay(s: System, h: History, a: Action) {
    && DriverStep(a) && Enabled(s, h, a)
    && (a.Prepare? ==> forall k: nat :: InFlight(h, k) ==> AddrOf(h.posts[k]) != AddrOf(Post([], a.bufs, 0, 0)))
  }

  /** The step that puts index idx on the used ring. */
  ghost function ReturnOf(s: System, idx: nat): Action
    requires idx < |s.ring.desc|
  {
    Consume(idx, s.ring.desc[idx].len)
  }

  ghost predicate SameBut<T>(m: map<nat, T>, m': map<nat, T>, b: nat) {
    && (forall a: nat :: a in m && a != b ==> a in m' && m'[a] == m[a])
    && (forall a: nat :: a in m' && a != b ==> a in m)
  }

  lemma ConsumeRing(s: System, head: nat, len: nat)
    requires Sized(s.dev, s.ring)
    ensures Defined(s, Consume(head, len)) &&
      StepSystem(s, Consume(head, len)).0.ring == ConsumeWrite(s.dev, s.ring, head, len)
  {
  }

  // Steps of a layer above, as steps of the queue.

  /** From (s, h) to (s', h') by queue step q, which the rules of the queue allow; or by none. */
  ghost predicate QueueMoves(s: System, h: History, s': System, h': History, q: Option<Action>) {
    match q
    case None => s' == s && h' == h
    case Some(a) =>
      && Enabled(s, h, a) && Defined(s, a) && Meaningful(h, a)
      && s' == StepSystem(s, a).0 && h' == StepHistory(h, a).0
  }

  function Extended(acts: seq<Action>, q: Option<Action>): seq<Action> {
    if q.None? then acts else acts + [q.value]
  }

  lemma StartsAlike(n: nat, events: bool)
    ensures Execute(n, events, []) == Ran(InitialSystem(n, events), InitialHistory(n), [], [])
  {
  }

  /** A run of the queue goes on with such a step. */
  lemma MovesOn(n: nat, events: bool, acts: seq<Action>, s': System, h': History, q: Option<Action>)
    requires QueueSize(n) && Execute(n, events, acts).Ran?
    requires var o := Execute(n, events, acts); QueueMoves(o.s, o.h, s', h', q)
    ensures var o := Execute(n, events, Extended(acts, q)); o.Ran? && o.s == s' && o.h == h'
  {
    hide Enabled, Defined, Meaningful, StepSystem, StepHistory;
    if q.Some? { assert (acts + [q.value])[..|acts|] == acts; }
  }

  lemma InFlightUntilDone(s: System, h: History, k: nat)
    requires Inv(s, h) && k < |h.posts| && !Completed(h, k)
    ensures InFlight(h, k)
  {
  }

  lemma Shapes(s: System, h: History, k: nat)
    requires Inv(s, h) && k < |h.posts|
    ensures |h.posts[k].chain| == |h.posts[k].bufs| > 0 && h.taken <= |h.posts|
  {
    hide FreeList, Ownership, Cookies, Slots, Indices, Completions;
    assert PostShape(h.posts[k]);
  }

  /** Returning an owned buffer's index is allowed by the queue. */
  lemma MayReturn(s: System, h: History, own: map<nat, nat>, a: nat)
    requires LentInv(s, h, own) && a in own
    ensures own[a] < |h.posts| && Holds(h, IndexOf(h, own, a))
    ensures IndexOf(h, own, a) < s.dev.nentries <= CHAIN_END
  {
    var k := own[a];
    InFlightUntilDone(s, h, k);
    Shapes(s, h, k);
    QueueSizeBound(s.drv.nentries);
    assert h.posts[k].chain[0] < |h.owner| && h.owner[h.posts[k].chain[0]] == k;
  }

  lemma SizedByInv(s: System, h: History, own: map<nat, nat>)
    requires LentInv(s, h, own)
    ensures Sized(s.dev, s.ring)
  {
  }

  // Steps.

  lemma TakeLends(s: System, h: History, own: map<nat, nat>)
    requires LentInv(s, h, own) && Enabled(s, h, TakeNext)
    ensures Defined(s, TakeNext) && Meaningful(h, TakeNext)
    ensures var (s', o) := StepSystem(s, TakeNext);
      var h' := StepHistory(h, TakeNext).0;
      && o.Delivered? && o.addr !in own
      && LentInv(s', h', own[o.addr := h.taken])
      && h.taken < |h.posts| && h'.posts == h.posts && o.head == HeadOf(h.posts[h.taken]) &&
        o.addr == AddrOf(h.posts[h.taken])
  {
    hide Inv, StepSystem, StepHistory, Defined, Meaningful, Enabled, InFlight;
    StepAny(s, h, TakeNext);
    TakeEffect(h);
    var h' := StepHistory(h, TakeNext).0;
    var k := h.taken;
    Shapes(s, h, k);
    NotYetDone(s, h, k);
    TakenIsNew(s, h, own);
    SameDone(h, h');
    NoAliasLater(h, h');
    LentMore(h, h', own);
  }

  lemma TakeEffect(h: History)
    requires Meaningful(h, TakeNext)
    ensures h.taken < |h.posts|
    ensures StepHistory(h, TakeNext).0 == h.(taken := h.taken + 1)
    ensures var o := StepHistory(h, TakeNext).1;
      o.Delivered? && o.addr == AddrOf(h.posts[h.taken]) && o.head == HeadOf(h.posts[h.taken])
  {
  }

  lemma TakenIsNew(s: System, h: History, own: map<nat, nat>)
    requires Inv(s, h) && NoAlias(h) && Lent(h, own) && h.taken < |h.posts| && !Completed(h, h.taken)
    ensures AddrOf(h.posts[h.taken]) !in own
  {
    hide Inv, InFlight, Completed;
    InFlightUntilDone(s, h, h.taken);
    var a := AddrOf(h.posts[h.taken]);
    if a in own { InFlightUntilDone(s, h, own[a]); }
  }

  lemma LentMore(h: History, h': History, own: map<nat, nat>)
    requires Lent(h, own) && h.taken < |h.posts| && h' == h.(taken := h.taken + 1)
    requires AddrOf(h.posts[h.taken]) !in own && !Completed(h, h.taken)
    requires forall k: nat :: Completed(h', k) <==> Completed(h, k)
    ensures Lent(h', own[AddrOf(h.posts[h.taken]) := h.taken])
  {
    hide Completed, AddrOf;
  }

  lemma NotYetDone(s: System, h: History, k: nat)
    requires Inv(s, h) && k >= h.taken
    ensures !Completed(h, k)
  {
    hide FreeList, Ownership, Cookies, Slots, Indices, Chains, Counters;
  }

  lemma SameDone(h: History, h': History)
    requires h'.done == h.done
    ensures forall k: nat :: Completed(h', k) <==> Completed(h, k)
  {
  }

  lemma InFlightLater(h: History, h': History, k: nat)
    requires h'.consumed >= h.consumed && h.done <= h'.done && InFlight(h', k) && k < |h.posts|
    ensures InFlight(h, k)
  {
    forall j | 0 <= j < h.consumed && j < |h.done| ensures h.done[j].post != k { assert h'.done[j] == h.done[j]; }
  }

  lemma ReturnEnds(s: System, h: History, own: map<nat, nat>, a: nat, len: nat)
    requires LentInv(s, h, own) && a in own && s.devPc.VIdle?
    ensures own[a] < |h.posts|
    ensures var act := Consume(IndexOf(h, own, a), len);
      && Enabled(s, h, act) && Defined(s, act) && Meaningful(h, act)
      && LentInv(StepSystem(s, act).0, StepHistory(h, act).0, own - {a})
      && StepHistory(h, act).0.posts == h.posts
      && StepHistory(h, act).0.done == h.done + [Done(own[a], len)]
  {
    hide Inv, StepSystem, StepHistory, Defined, Meaningful, Holds, InFlight;
    MayReturn(s, h, own, a);
    var act := Consume(IndexOf(h, own, a), len);
    StepAny(s, h, act);
    OwnerIs(s, h, own, a);
    ConsumeEffect(h, IndexOf(h, own, a), len);
    var h' := StepHistory(h, act).0;
    forall k: nat ensures Completed(h', k) <==> Completed(h, k) || k == own[a] {
      CompletedAppend(h, h', own[a], len, k);
    }
    NoAliasLater(h, h');
    LentLess(h, h', own, a);
  }

  lemma ConsumeEffect(h: History, head: nat, len: nat)
    requires Meaningful(h, Consume(head, len))
    ensures StepHistory(h, Consume(head, len)).0 == h.(done := h.done + [Done(h.owner[head], len)])
  {
  }

  lemma LentLess(h: History, h': History, own: map<nat, nat>, a: nat)
    requires Lent(h, own) && a in own && h'.posts == h.posts && h'.taken == h.taken
    requires forall k: nat :: Completed(h', k) <==> Completed(h, k) || k == own[a]
    ensures Lent(h', own - {a})
  {
    hide Completed, AddrOf;
  }

  lemma OwnerIs(s: System, h: History, own: map<nat, nat>, a: nat)
    requires LentInv(s, h, own) && a in own
    ensures own[a] < |h.posts| && IndexOf(h, own, a) < |h.owner| && h.owner[IndexOf(h, own, a)] == own[a]
  {
    InFlightUntilDone(s, h, own[a]);
    Shapes(s, h, own[a]);
    assert h.posts[own[a]].chain[0] < |h.owner| && h.owner[h.posts[own[a]].chain[0]] == own[a];
  }

  lemma CompletedAppend(h: History, h': History, p: nat, len: nat, k: nat)
    requires h'.done == h.done + [Done(p, len)]
    ensures Completed(h', k) <==> Completed(h, k) || k == p
  {
    if Completed(h, k) {
      var j :| 0 <= j < |h.done| && h.done[j].post == k;
      assert h'.done[j].post == k;
    }
    if k == p { assert h'.done[|h.done|].post == k; }
  }

  lemma NoAliasLater(h: History, h': History)
    requires NoAlias(h) && h'.posts == h.posts && h'.consumed >= h.consumed && h.done <= h'.done
    ensures NoAlias(h')
  {
    forall j, k | 0 <= j < k < |h'.posts| && InFlight(h', j) && InFlight(h', k)
      ensures AddrOf(h'.posts[j]) != AddrOf(h'.posts[k])
    {
      InFlightLater(h, h', j);
      InFlightLater(h, h', k);
    }
  }

  /** Steps of the driver, and the publication and kick that complete a return, lend nothing. */
  lemma OthersKeep(s: System, h: History, own: map<nat, nat>, a: Action)
    requires LentInv(s, h, own)
    requires DriverMay(s, h, a) || (a in {ConsumeDone, Kick(Device)} && Enabled(s, h, a))
    ensures Defined(s, a) && Meaningful(h, a)
    ensures LentInv(StepSystem(s, a).0, StepHistory(h, a).0, own)
    ensures h.posts <= StepHistory(h, a).0.posts && StepHistory(h, a).0.done == h.done &&
      StepHistory(h, a).0.taken == h.taken
  {
    hide Inv, StepSystem, StepHistory, Defined, Meaningful, Enabled, InFlight;
    StepAny(s, h, a);
    OtherEffects(h, a);
    var h' := StepHistory(h, a).0;
    SameDone(h, h');
    if a.Prepare? { NoAliasMore(h, h'); } else { NoAliasLater(h, h'); }
    LentSame(h, h', own);
  }

  lemma OtherEffects(h: History, a: Action)
    requires Meaningful(h, a) && (DriverStep(a) || a in {ConsumeDone, Kick(Device)})
    ensures var h' := StepHistory(h, a).0;
      && h'.done == h.done && h'.taken == h.taken && h'.consumed >= h.consumed
      && (!a.Prepare? ==> h'.posts == h.posts)
      && (a.Prepare? ==> |h'.posts| == |h.posts| + 1 && h.posts <= h'.posts && h'.posts[|h.posts|].bufs == a.bufs)
  {
  }

  lemma NoAliasMore(h: History, h': History)
    requires NoAlias(h) && h.posts <= h'.posts && |h'.posts| == |h.posts| + 1 && h'.consumed >= h.consumed &&
      h.done <= h'.done
    requires forall k: nat :: InFlight(h, k) ==> AddrOf(h.posts[k]) != AddrOf(h'.posts[|h.posts|])
    ensures NoAlias(h')
  {
    hide InFlight, AddrOf;
    forall j, k | 0 <= j < k < |h'.posts| && InFlight(h', j) && InFlight(h', k)
      ensures AddrOf(h'.posts[j]) != AddrOf(h'.posts[k])
    {
      InFlightLater(h, h', j);
      if k < |h.posts| { InFlightLater(h, h', k); }
    }
  }

  lemma LentSame(h: History, h': History, own: map<nat, nat>)
    requires Lent(h, own) && h.posts <= h'.posts && h'.taken == h.taken
    requires forall k: nat :: Completed(h', k) <==> Completed(h, k)
    ensures Lent(h', own)
  {
    hide Completed, AddrOf;
  }
}

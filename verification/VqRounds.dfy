/** A run that publishes any number of entries without a kick, and so reaches the states in which a kick
    is silent though the peer sleeps, or notifies though the peer has disabled its callback. */
module VqRounds {
  import opened Bits
  import opened Vring
  import opened VqHistory
  import opened VqRuns
  import opened VqNotify

  /** One entry posted, taken, completed and collected, in seven steps. */
  function RoundStep(i: nat): Action {
    if i == 0 then Prepare([Buf(0, 0)], 0, 1)
    else if i == 1 then Publish
    else if i == 2 then TakeNext
    else if i == 3 then Consume(0, 0)
    else if i == 4 then ConsumeDone
    else if i == 5 then Claim
    else Finish
  }

  /** k whole rounds and i steps of the next. */
  function Rounds(k: nat, i: nat): seq<Action>
    requires i <= 7
    decreases k, i
  {
    if i > 0 then Rounds(k, i - 1) + [RoundStep(i - 1)]
    else if k > 0 then Rounds(k - 1, 7)
    else []
  }

  function Past(i: nat, step: nat): nat {
    if i > step then 1 else 0
  }

  ghost predicate Counted(h: History, k: nat, i: nat) {
    && |h.posts| == k + Past(i, 0) && h.published == k + Past(i, 1) && h.taken == k + Past(i, 2)
    && |h.done| == k + Past(i, 3) && h.used == k + Past(i, 4) && h.claimed == k + Past(i, 5) && h.consumed == k
    && h.drvKicked == 0
  }

  /** Descriptor 0 is the next free one, or the chain in flight. */
  ghost predicate OneInFlight(h: History, k: nat, i: nat) {
    && (forall j :: 0 <= j < k && j < |h.done| ==> h.done[j].post < k)
    && |h.owner| > 0
    && (i == 0 ==> |h.free| > 0 && h.free[0] == 0)
    && (i > 0 ==> |h.posts| == k + 1 && h.posts[k].chain == [0] && h.owner[0] == k)
    && (i > 3 ==> |h.done| == k + 1 && h.done[k].post == k)
  }

  ghost predicate Midway(s: System, h: History, k: nat, i: nat) {
    && i < 7 && Counted(h, k, i) && OneInFlight(h, k, i)
    && (if i == 1 then s.drvPc.DPublish? else if i == 6 then s.drvPc.DReap? else s.drvPc.DIdle?)
    && (if i == 4 then s.devPc.VPublish? else s.devPc.VIdle?)
  }

  /** The next step of the round is allowed. */
  lemma MidwayEnabled(s: System, h: History, k: nat, i: nat)
    requires Inv(s, h) && Midway(s, h, k, i)
    ensures Enabled(s, h, RoundStep(i))
  {
    hide Ownership, Chains, Cookies, Slots, Completions;
    if i == 2 { WrapDiffers(k); }
    if i == 5 { WrapDiffers(k); }
  }

  lemma WrapDiffers(k: nat)
    ensures k % U16 != (k + 1) % U16
  {
    RemApart(k, k + 1, U16);
  }

  /** Where it leads. */
  lemma MidwayNext(s: System, h: History, k: nat, i: nat)
    requires Midway(s, h, k, i) && Defined(s, RoundStep(i)) && Meaningful(h, RoundStep(i))
    ensures var s', h' := StepSystem(s, RoundStep(i)).0, StepHistory(h, RoundStep(i)).0;
      if i == 6 then Midway(s', h', k + 1, 0) else Midway(s', h', k, i + 1)
  {
    if i == 0 { NextPosted(s, h, k); } else if i == 6 { NextCollected(s, h, k); } else { NextBetween(s, h, k, i); }
  }

  lemma NextPosted(s: System, h: History, k: nat)
    requires Midway(s, h, k, 0) && Defined(s, RoundStep(0)) && Meaningful(h, RoundStep(0))
    ensures Midway(StepSystem(s, RoundStep(0)).0, StepHistory(h, RoundStep(0)).0, k, 1)
  {
    hide FillChain, ChainEnd, WrapSub;
    assert h.free[..1] == [0];
  }

  lemma NextBetween(s: System, h: History, k: nat, i: nat)
    requires 0 < i < 6 && Midway(s, h, k, i) && Defined(s, RoundStep(i)) && Meaningful(h, RoundStep(i))
    ensures Midway(StepSystem(s, RoundStep(i)).0, StepHistory(h, RoundStep(i)).0, k, i + 1)
  {
    hide FillChain, ChainEnd, WrapSub, ReapFinish, AddPrepare;
  }

  lemma NextCollected(s: System, h: History, k: nat)
    requires Midway(s, h, k, 6) && Defined(s, Finish) && Meaningful(h, Finish)
    ensures Midway(StepSystem(s, Finish).0, StepHistory(h, Finish).0, k + 1, 0)
  {
    hide ChainEnd, WrapSub;
  }

  lemma ExecuteOne(n: nat, events: bool, acts: seq<Action>, a: Action)
    requires QueueSize(n) && Execute(n, events, acts).Ran?
    requires var o := Execute(n, events, acts); Enabled(o.s, o.h, a)
    ensures var o, o' := Execute(n, events, acts), Execute(n, events, acts + [a]);
      && Defined(o.s, a) && Meaningful(o.h, a) && o'.Ran?
      && o'.s == StepSystem(o.s, a).0 && o'.h == StepHistory(o.h, a).0
      && |o.got| == |acts| && o'.got == o.got + [StepHistory(o.h, a).1] && |o'.got| == |acts| + 1
  {
    hide Enabled, Defined, Meaningful, StepSystem, StepHistory, Inv;
    assert (acts + [a])[..|acts|] == acts;
    RunsRefine(n, events, acts);
    RunsRefine(n, events, acts + [a]);
  }

  /** From any such start the rounds go on for ever, without a kick. */
  lemma {:induction false} RoundsRun(n: nat, events: bool, start: seq<Action>, k: nat, i: nat)
    requires QueueSize(n) && i <= 7 && Execute(n, events, start).Ran?
    requires var o := Execute(n, events, start); |o.got| == |start| && Midway(o.s, o.h, 0, 0)
    ensures var o := Execute(n, events, start + Rounds(k, i));
      && o.Ran? && Execute(n, events, start).got <= o.got && |o.got| == |start + Rounds(k, i)|
      && if i == 7 then Midway(o.s, o.h, k + 1, 0) else Midway(o.s, o.h, k, i)
    decreases k, i
  {
    hide Execute, Midway, Enabled, Defined, Meaningful, StepSystem, StepHistory, Inv;
    if i > 0 {
      var before := start + Rounds(k, i - 1);
      RoundsRun(n, events, start, k, i - 1);
      var o := Execute(n, events, before);
      RunsRefine(n, events, before);
      MidwayEnabled(o.s, o.h, k, i - 1);
      ExecuteOne(n, events, before, RoundStep(i - 1));
      MidwayNext(o.s, o.h, k, i - 1);
      assert start + Rounds(k, i) == before + [RoundStep(i - 1)];
    } else if k > 0 {
      RoundsRun(n, events, start, k - 1, 7);
    } else {
      assert start + Rounds(k, i) == start;
    }
  }

  /** The device enables its callback, finds nothing, and then the driver posts without a kick. */
  const SLEEP: seq<Action> := [Arm(Device), Check(Device)]

  lemma Sleeps(n: nat)
    requires QueueSize(n)
    ensures var o := Execute(n, true, SLEEP);
      o.Ran? && |o.got| == 2 && o.got[1] == Unread(false) && Midway(o.s, o.h, 0, 0)
  {
    var o0 := Execute(n, true, []);
    ExecuteOne(n, true, [], Arm(Device));
    assert [] + [Arm(Device)] == [Arm(Device)];
    var o1 := Execute(n, true, [Arm(Device)]);
    ExecuteOne(n, true, [Arm(Device)], Check(Device));
    assert [Arm(Device)] + [Check(Device)] == SLEEP;
    StartsMidway(n);
  }

  lemma StartsMidway(n: nat)
    requires QueueSize(n)
    ensures Midway(InitialSystem(n, true), InitialHistory(n), 0, 0)
  {
    var j: nat :| j <= 15 && n == Pow2(j);
  }

  lemma {:induction false} RoundsQuiet(k: nat, i: nat, q: nat)
    requires i <= 7 && q < |Rounds(k, i)|
    ensures !Rewrites(Rounds(k, i)[q], Device)
    decreases k, i
  {
    if i > 0 {
      if q < |Rounds(k, i - 1)| { RoundsQuiet(k, i - 1, q); }
    } else {
      RoundsQuiet(k - 1, 7, q);
    }
  }

  /** A device that disables its callback after k unannounced entries, all of them read, is notified by
      the next kick exactly when the queue size is below k modulo 2^16: `disable_cb` alone does not
      keep the peer quiet. */
  lemma DisabledYetNotified(n: nat, k: nat)
    requires QueueSize(n)
    ensures var o := Execute(n, true, Rounds(k, 0) + [Suppress(Device)]);
      && o.Ran? && Published(o.h, Driver) == k && KickedAt(o.h, Driver) == 0
      && (MustNotify(Driver, true, o.s.drv, o.s.ring) <==> n < k % U16)
  {
    hide Execute, Midway, MustNotify, Rounds, Published, KickedAt, ReadBy;
    StartsMidway(n);
    StartsIdle(n);
    RoundsRun(n, true, [], k, 0);
    var before := Rounds(k, 0);
    assert [] + before == before;
    var o0, acts := Execute(n, true, before), before + [Suppress(Device)];
    MidwayCounts(o0.s, o0.h, k);
    ExecuteOne(n, true, before, Suppress(Device));
    SuppressCounts(o0.h);
    assert acts[..|before| + 1] == acts;
    DisabledExactly(n, true, acts, |before|, Device);
    SmallSize(n);
  }

  lemma StartsIdle(n: nat)
    ensures Execute(n, true, []) == Ran(InitialSystem(n, true), InitialHistory(n), [], [])
  {
  }

  lemma SuppressCounts(h: History)
    requires Meaningful(h, Suppress(Device))
    ensures StepHistory(h, Suppress(Device)).0 == h
  {
  }

  lemma SmallSize(n: nat)
    requires QueueSize(n)
    ensures n % U16 == n
  {
    var j: nat :| j <= 15 && n == Pow2(j);
    Pow2Mono(j, 15);
    Pow2Values();
  }

  /** The lost wakeup is reached: after k entries since it went to sleep, none of them announced, the
      device is woken by a kick exactly when k is not a multiple of 2^16. */
  lemma SleeperWoken(n: nat, k: nat)
    requires QueueSize(n)
    ensures var o := Execute(n, true, SLEEP + Rounds(k, 0));
      && o.Ran? && Published(o.h, Driver) == k && KickedAt(o.h, Driver) == 0
      && (MustNotify(Driver, true, o.s.drv, o.s.ring) <==> k % U16 != 0)
  {
    hide Execute, Midway, MustNotify, Rounds, Rewrites, Published, KickedAt;
    var acts := SLEEP + Rounds(k, 0);
    Sleeps(n);
    RoundsRun(n, true, SLEEP, k, 0);
    var o := Execute(n, true, acts);
    assert acts[..2] == SLEEP;
    forall q | 1 < q < |acts| ensures !Rewrites(acts[q], Device) {
      RoundsQuiet(k, 0, q - 2);
    }
    WakeupExactly(n, true, acts, 1, Device);
    MidwayCounts(o.s, o.h, k);
    var o0 := Execute(n, true, SLEEP);
    MidwayCounts(o0.s, o0.h, 0);
    LastOfRound(k);
  }

  lemma MidwayCounts(s: System, h: History, k: nat)
    requires Midway(s, h, k, 0)
    ensures Published(h, Driver) == k && KickedAt(h, Driver) == 0 && ReadBy(h, Device) == k && s.devPc.VIdle?
  {
  }

  lemma LastOfRound(k: nat)
    ensures (k - 1) % U16 < k % U16 <==> k % U16 != 0
  {
    DivRem(k, U16);
    if k % U16 != 0 {
      RemUnique(k - 1, U16, k / U16, k % U16 - 1);
    }
  }
}

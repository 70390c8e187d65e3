/** What the RPMsg layer makes of the queue's wakeup results: it kicks after every buffer it returns. */
module RpmsgWakeup {
  import opened Bits
  import opened Options
  import opened Vring
  import opened VqHistory
  import opened VqRuns
  import opened VqNotify
  import opened RpmsgHeader
  import opened Lending
  import RpmsgRx
  import RpmsgTx

  /** While the lock is free every return has been published and announced; while it is held for a return
      one is under way. */
  ghost predicate Announced(h: History, kicking: bool) {
    if kicking then |h.done| == h.devKicked + 1 else |h.done| == h.used == h.devKicked
  }

  /** What steps of the queue do to these counters. */
  lemma AnnounceEffect(h: History, a: Action)
    requires Meaningful(h, a)
    ensures var h' := StepHistory(h, a).0;
      && |h'.done| == |h.done| + (if a.Consume? then 1 else 0)
      && h'.used == h.used + (if a.ConsumeDone? then 1 else 0)
      && h'.devKicked == if a == Kick(Device) then h.used else h.devKicked
  {
  }

  lemma UsedIsDone(s: System, h: History)
    requires Inv(s, h) && s.devPc.VIdle?
    ensures h.used == |h.done|
  {
    hide FreeList, Ownership, Chains, Cookies, Slots, Completions, Indices;
  }

  predicate KickingFollows(q: Option<Action>, kicking: bool, kicking': bool) {
    if q.Some? && q.value.Consume? then !kicking && kicking'
    else if q.Some? && q.value == Kick(Device) then kicking && !kicking'
    else kicking' == kicking
  }

  /** A queue step of the layer keeps this, if `kicking` goes up with a return and down with a kick. */
  lemma MoveAnnounces(s: System, h: History, s': System, h': History, q: Option<Action>, kicking: bool, kicking': bool)
    requires Inv(s, h) && QueueMoves(s, h, s', h', q) && Announced(h, kicking)
    requires KickingFollows(q, kicking, kicking')
    ensures Announced(h', kicking')
  {
    hide FreeList, Ownership, Chains, Cookies, Slots, Completions, Indices;
    hide StepSystem, StepHistory, Defined, Meaningful;
    if q.Some? { AnnounceEffect(h, q.value); }
  }

  lemma RxStepAnnounces(x: RpmsgRx.Rx, g: RpmsgRx.Account, act: RpmsgRx.RxAction)
    requires RpmsgRx.RxInv(x, g) && RpmsgRx.RxAllowed(x, g, act) && Announced(g.h, x.kicking)
    ensures RpmsgRx.RxKeeps(x, g, act)
    ensures Announced(RpmsgRx.AccountStep(x, g, act).h, RpmsgRx.RxStep(x, act).kicking)
  {
    hide Announced, QueueMoves, RpmsgRx.RxInv, RpmsgRx.RxStep, RpmsgRx.RxAllowed, RpmsgRx.QueueStep;
    hide RpmsgRx.AccountStep, RpmsgRx.RxDefined, RpmsgRx.CanAccount;
    RpmsgRx.RxStepOnQueue(x, g, act);
    RxLent(x, g);
    var x' := RpmsgRx.RxStep(x, act);
    RxKicking(x, g, act);
    MoveAnnounces(x.s, g.h, x'.s, RpmsgRx.AccountStep(x, g, act).h, RpmsgRx.QueueStep(x, act), x.kicking, x'.kicking);
  }

  lemma RxKicking(x: RpmsgRx.Rx, g: RpmsgRx.Account, act: RpmsgRx.RxAction)
    requires RpmsgRx.RxDefined(x, act) && RpmsgRx.RxAllowed(x, g, act)
    ensures KickingFollows(RpmsgRx.QueueStep(x, act), x.kicking, RpmsgRx.RxStep(x, act).kicking)
  {
    hide StepSystem, StepHistory, Defined, Meaningful, Enabled, DecTest, Sized;
  }

  lemma RxLent(x: RpmsgRx.Rx, g: RpmsgRx.Account)
    requires RpmsgRx.RxInv(x, g)
    ensures Inv(x.s, g.h)
  {
    hide Inv;
  }

  lemma TxStepAnnounces(x: RpmsgTx.Tx, g: RpmsgTx.Account, act: RpmsgTx.TxAction)
    requires RpmsgTx.TxInv(x, g) && RpmsgTx.TxAllowed(x, g, act) && Announced(g.h, x.kicking)
    ensures RpmsgTx.TxKeeps(x, g, act)
    ensures Announced(RpmsgTx.AccountStep(x, g, act).h, RpmsgTx.TxStep(x, act).kicking)
  {
    hide Announced, QueueMoves, RpmsgTx.TxInv, RpmsgTx.TxStep, RpmsgTx.TxAllowed, RpmsgTx.QueueStep;
    hide RpmsgTx.AccountStep, RpmsgTx.TxDefined, RpmsgTx.CanAccount;
    RpmsgTx.TxStepOnQueue(x, g, act);
    TxLent(x, g);
    var x' := RpmsgTx.TxStep(x, act);
    TxKicking(x, g, act);
    MoveAnnounces(x.s, g.h, x'.s, RpmsgTx.AccountStep(x, g, act).h, RpmsgTx.QueueStep(x, act), x.kicking, x'.kicking);
  }

  lemma TxKicking(x: RpmsgTx.Tx, g: RpmsgTx.Account, act: RpmsgTx.TxAction)
    requires RpmsgTx.TxDefined(x, act) && RpmsgTx.TxAllowed(x, g, act)
    ensures KickingFollows(RpmsgTx.QueueStep(x, act), x.kicking, RpmsgTx.TxStep(x, act).kicking)
  {
    hide StepSystem, StepHistory, Defined, Meaningful, Enabled, DecTest, Sized;
  }

  lemma TxLent(x: RpmsgTx.Tx, g: RpmsgTx.Account)
    requires RpmsgTx.TxInv(x, g)
    ensures Inv(x.s, g.h)
  {
    hide Inv;
  }

  /** In every run of the receive side nothing returned stays unannounced once the lock is free. */
  lemma {:induction false} RxRunsAnnounce(n: nat, events: bool, hdr: map<nat, nat>, acts: seq<RpmsgRx.RxAction>)
    requires QueueSize(n)
    ensures var o := RpmsgRx.RxExecute(n, events, hdr, acts); o.RxRan? ==> Announced(o.g.h, o.x.kicking)
  {
    if acts != [] {
      var init := acts[..|acts| - 1];
      RxRunsAnnounce(n, events, hdr, init);
      RpmsgRx.RxRuns(n, events, hdr, init);
      var o, p := RpmsgRx.RxExecute(n, events, hdr, acts), RpmsgRx.RxExecute(n, events, hdr, init);
      hide Announced, RpmsgRx.RxInv, RpmsgRx.RxAllowed, RpmsgRx.RxStep, RpmsgRx.AccountStep, RpmsgRx.RxKeeps;
      if o.RxRan? { RxStepAnnounces(p.x, p.g, acts[|acts| - 1]); }
    }
  }

  /** The same for the transmit side. */
  lemma {:induction false} TxRunsAnnounce(n: nat, events: bool, hdr: map<nat, nat>, acts: seq<RpmsgTx.TxAction>)
    requires QueueSize(n)
    ensures var o := RpmsgTx.TxExecute(n, events, hdr, acts); o.TxRan? ==> Announced(o.g.h, o.x.kicking)
  {
    if acts != [] {
      var init := acts[..|acts| - 1];
      TxRunsAnnounce(n, events, hdr, init);
      RpmsgTx.TxRuns(n, events, hdr, init);
      var o, p := RpmsgTx.TxExecute(n, events, hdr, acts), RpmsgTx.TxExecute(n, events, hdr, init);
      hide Announced, RpmsgTx.TxInv, RpmsgTx.TxAllowed, RpmsgTx.TxStep, RpmsgTx.AccountStep, RpmsgTx.TxKeeps;
      if o.TxRan? { TxStepAnnounces(p.x, p.g, acts[|acts| - 1]); }
    }
  }

  /** So a driver that waits for entry c is woken by the kick that follows its publication: the bound
      that event-index mode asks for is kept by the layer itself. */
  lemma DriverWoken(s: System, h: History, c: nat)
    requires Inv(s, h) && Announced(h, true) && s.devPc.VIdle?
    requires Waiting(s, h, Driver, c) && h.used == c + 1
    ensures MustNotify(Device, s.events, s.dev, s.ring)
  {
    hide Inv, MustNotify, ArmedAt;
    UsedIsDone(s, h);
    WakeupFrom(s, h, Driver, c);
    RemUnique(0, U16, 0, 0);
    RemUnique(1, U16, 0, 1);
  }
}

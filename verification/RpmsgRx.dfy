/** Receive buffers in the device role.  Every locked region of rpmsg_virtio.c is one step (cut where
    the queue has a fence), every unlocked access to a header is one, and the driver and any number of
    callbacks and holders interleave freely. */
module RpmsgRx {
  import opened Options
  import opened Vring
  import opened VqHistory
  import opened RpmsgHeader
  import opened Lending
  import opened VqRuns

  /** Where an activation of the receive callback is with its buffer. */
  datatype Ctx = Got(idx: nat) | Have | Calling

  /** `ctx` has one entry per buffer that an activation of the callback is working on. */
  datatype Rx = Rx(s: System, hdr: map<nat, nat>, ctx: map<nat, Ctx>, kicking: bool)

  /** Ghost state: what the queue means, what is owned, and the holds the application has taken. */
  datatype Account = Account(h: History, own: map<nat, nat>, holds: map<nat, nat>)

  datatype RxAction =
    | DriverActs(a: Action)
    | DriverWrites(addr: nat, value: nat)
    | TakeBuffer
    | StoreIndex(addr: nat)
    | EnterCallback(addr: nat)
    | HoldBuffer(addr: nat)
    | ReleaseBuffer(addr: nat)
    | LeaveCallback(addr: nat)
    | PublishReturn
    | KickDriver

  // What the code does.

  ghost predicate CanDrop(x: Rx, a: nat) {
    && a in x.hdr
    && Sized(x.s.dev, x.s.ring)
    && (DecTest(x.hdr[a]).1 ==> BufIndex(DecTest(x.hdr[a]).0) < |x.s.ring.desc|)
  }

  /** Give up one reference; the last one returns the buffer by the index in its header. */
  ghost function Drop(x: Rx, a: nat): Rx
    requires CanDrop(x, a)
  {
    var (v, last) := DecTest(x.hdr[a]);
    var x1 := x.(hdr := x.hdr[a := v]);
    if last then x1.(s := StepSystem(x.s, ReturnOf(x.s, BufIndex(v))).0, kicking := true) else x1
  }

  ghost predicate RxDefined(x: Rx, act: RxAction) {
    match act
    case DriverActs(a) => Defined(x.s, a)
    case TakeBuffer => Defined(x.s, TakeNext) && StepSystem(x.s, TakeNext).1.Delivered?
    case StoreIndex(a) => a in x.ctx && x.ctx[a].Got?
    case EnterCallback(a) => a in x.hdr
    case HoldBuffer(a) => a in x.hdr
    case ReleaseBuffer(a) => CanDrop(x, a)
    case LeaveCallback(a) => CanDrop(x, a)
    case _ => true
  }

  ghost function RxStep(x: Rx, act: RxAction): Rx
    requires RxDefined(x, act)
  {
    match act
    case DriverActs(a) => x.(s := StepSystem(x.s, a).0)
    case DriverWrites(a, v) => x.(hdr := x.hdr[a := v])
    case TakeBuffer =>
      var (s, o) := StepSystem(x.s, TakeNext);
      x.(s := s, ctx := x.ctx[o.addr := Got(o.head)])
    case StoreIndex(a) => x.(hdr := x.hdr[a := x.ctx[a].idx], ctx := x.ctx[a := Have])
    case EnterCallback(a) => x.(hdr := x.hdr[a := HeldInc(x.hdr[a])], ctx := x.ctx[a := Calling])
    case HoldBuffer(a) => x.(hdr := x.hdr[a := HeldInc(x.hdr[a])])
    case ReleaseBuffer(a) => Drop(x, a)
    case LeaveCallback(a) => Drop(x, a).(ctx := x.ctx - {a})
    case PublishReturn => x.(s := StepSystem(x.s, ConsumeDone).0)
    case KickDriver => x.(s := StepSystem(x.s, Kick(Device)).0, kicking := false)
  }

  // What is asked of the driver and the application.

  ghost predicate InCallback(x: Rx, a: nat) {
    a in x.ctx && x.ctx[a].Calling?
  }

  /** References to buffer a: the running callback and the application's holds. */
  ghost function Count(x: Rx, g: Account, a: nat): nat {
    (if InCallback(x, a) then 1 else 0) + (if a in g.holds then g.holds[a] else 0)
  }

  ghost predicate Unlocked(x: Rx) {
    !x.kicking && x.s.devPc.VIdle?
  }

  ghost predicate RxAllowed(x: Rx, g: Account, act: RxAction) {
    match act
    case DriverActs(a) => DriverMay(x.s, g.h, a)
    case DriverWrites(a, _) => a !in g.own
    case TakeBuffer => Unlocked(x) && Enabled(x.s, g.h, TakeNext)
    case StoreIndex(a) => a in x.ctx && x.ctx[a].Got?
    case EnterCallback(a) => Unlocked(x) && a in x.ctx && x.ctx[a].Have?
    // Whoever takes a hold has a reference already, and the count fits its 16 bits.
    case HoldBuffer(a) => Unlocked(x) && 1 <= Count(x, g, a) && Count(x, g, a) + 1 < HELD_ONE
    case ReleaseBuffer(a) => Unlocked(x) && a in g.holds && g.holds[a] > 0
    case LeaveCallback(a) => Unlocked(x) && InCallback(x, a)
    case PublishReturn => x.s.devPc.VPublish?
    case KickDriver => x.kicking && x.s.devPc.VIdle?
  }

  // What it means.

  /** The buffer goes back when its last reference goes. */
  ghost function Dropped(x: Rx, g: Account, a: nat): Account
    requires a in g.own && g.own[a] < |g.h.posts| && IndexOf(g.h, g.own, a) < |x.s.ring.desc|
    requires Meaningful(g.h, ReturnOf(x.s, IndexOf(g.h, g.own, a)))
  {
    if Count(x, g, a) == 1 then
      Account(StepHistory(g.h, ReturnOf(x.s, IndexOf(g.h, g.own, a))).0, g.own - {a}, g.holds - {a})
    else g
  }

  ghost predicate CanAccount(x: Rx, g: Account, act: RxAction) {
    match act
    case DriverActs(a) => Meaningful(g.h, a)
    case TakeBuffer => Meaningful(g.h, TakeNext) && g.h.taken < |g.h.posts|
    case HoldBuffer(a) => a in g.holds
    case ReleaseBuffer(a) =>
      && a in g.holds && g.holds[a] > 0
      && a in g.own && g.own[a] < |g.h.posts| && IndexOf(g.h, g.own, a) < |x.s.ring.desc|
      && Meaningful(g.h, ReturnOf(x.s, IndexOf(g.h, g.own, a)))
    case LeaveCallback(a) =>
      a in g.own && g.own[a] < |g.h.posts| && IndexOf(g.h, g.own, a) < |x.s.ring.desc| &&
      Meaningful(g.h, ReturnOf(x.s, IndexOf(g.h, g.own, a)))
    case _ => true
  }

  ghost function AccountStep(x: Rx, g: Account, act: RxAction): Account
    requires CanAccount(x, g, act)
  {
    match act
    case DriverActs(a) => g.(h := StepHistory(g.h, a).0)
    case TakeBuffer =>
      var a := AddrOf(g.h.posts[g.h.taken]);
      Account(StepHistory(g.h, TakeNext).0, g.own[a := g.h.taken], g.holds[a := 0])
    case HoldBuffer(a) => g.(holds := g.holds[a := g.holds[a] + 1])
    case ReleaseBuffer(a) =>
      var g1 := Dropped(x, g, a);
      if a in g1.holds then g1.(holds := g1.holds[a := g.holds[a] - 1]) else g1
    case LeaveCallback(a) => Dropped(x, g, a)
    case PublishReturn => g.(h := StepHistory(g.h, ConsumeDone).0)
    case KickDriver => g.(h := StepHistory(g.h, Kick(Device)).0)
    case _ => g
  }

  /** The header of an owned buffer carries its own index and the number of references to it. */
  ghost predicate HeaderOk(x: Rx, g: Account, a: nat)
    requires a in g.own && g.own[a] < |g.h.posts|
  {
    var idx := IndexOf(g.h, g.own, a);
    var n := Count(x, g, a);
    if a in x.ctx && x.ctx[a].Got? then x.ctx[a].idx == idx && n == 0
    else if a in x.ctx && x.ctx[a].Have? then a in x.hdr && x.hdr[a] == idx && n == 0
    else a in x.hdr && 1 <= n < HELD_ONE && x.hdr[a] == Word(n, idx)
  }

  ghost predicate RxInv(x: Rx, g: Account) {
    && LentInv(x.s, g.h, g.own)
    && g.holds.Keys == g.own.Keys
    && x.ctx.Keys <= g.own.Keys
    && forall a :: a in g.own ==> g.own[a] < |g.h.posts| && HeaderOk(x, g, a)
  }

  // Each step keeps it.

  ghost predicate RxKeeps(x: Rx, g: Account, act: RxAction) {
    RxDefined(x, act) && CanAccount(x, g, act) && RxInv(RxStep(x, act), AccountStep(x, g, act))
  }

  /** Nothing changes for buffer a. */
  lemma HeaderFrame(x: Rx, g: Account, x': Rx, g': Account, a: nat)
    requires a in g.own && g.own[a] < |g.h.posts| && HeaderOk(x, g, a)
    requires g.h.posts <= g'.h.posts && a in g'.own && g'.own[a] == g.own[a]
    requires (a in x'.ctx <==> a in x.ctx) && (a in x.ctx ==> x'.ctx[a] == x.ctx[a])
    requires a in x.hdr ==> a in x'.hdr && x'.hdr[a] == x.hdr[a]
    requires (a in g'.holds <==> a in g.holds) && (a in g.holds ==> g'.holds[a] == g.holds[a])
    ensures HeaderOk(x', g', a)
  {
    assert g'.h.posts[g.own[a]] == g.h.posts[g.own[a]];
  }

  /** Steps that touch at most the header and context of buffer b. */
  lemma OthersOk(x: Rx, g: Account, x': Rx, g': Account, b: nat)
    requires RxInv(x, g) && LentInv(x'.s, g'.h, g'.own) && g.h.posts <= g'.h.posts
    requires SameBut(g.own, g'.own, b) && SameBut(g.holds, g'.holds, b) && SameBut(x.ctx, x'.ctx, b) &&
      SameBut(x.hdr, x'.hdr, b)
    requires b in g'.own ==> g'.own[b] < |g'.h.posts| && HeaderOk(x', g', b)
    requires b in x'.ctx ==> b in g'.own
    requires b in g'.holds <==> b in g'.own
    ensures RxInv(x', g')
  {
    hide LentInv, HeaderOk;
    forall a | a in g'.own ensures g'.own[a] < |g'.h.posts| && HeaderOk(x', g', a) {
      if a != b { HeaderFrame(x, g, x', g', a); }
    }
    assert g'.holds.Keys == g'.own.Keys;
  }

  /** Steps of the queue that touch no header, context or hold. */
  lemma AllOk(x: Rx, g: Account, x': Rx, g': Account)
    requires RxInv(x, g) && LentInv(x'.s, g'.h, g'.own) && g.h.posts <= g'.h.posts
    requires g'.own == g.own && g'.holds == g.holds && x'.ctx == x.ctx && x'.hdr == x.hdr
    ensures RxInv(x', g')
  {
    hide LentInv, HeaderOk;
    forall a | a in g'.own ensures g'.own[a] < |g'.h.posts| && HeaderOk(x', g', a) {
      HeaderFrame(x, g, x', g', a);
    }
  }

  lemma DriverKeeps(x: Rx, g: Account, a: Action)
    requires RxInv(x, g) && DriverMay(x.s, g.h, a)
    ensures RxKeeps(x, g, DriverActs(a))
  {
    hide LentInv, HeaderOk, DriverMay, StepSystem, StepHistory, Defined, Meaningful;
    OthersKeep(x.s, g.h, g.own, a);
    AllOk(x, g, RxStep(x, DriverActs(a)), AccountStep(x, g, DriverActs(a)));
  }

  lemma QueueKeeps(x: Rx, g: Account, act: RxAction)
    requires RxInv(x, g) && RxAllowed(x, g, act) && (act.PublishReturn? || act.KickDriver?)
    ensures RxKeeps(x, g, act)
  {
    hide LentInv, HeaderOk, DriverMay, StepSystem, StepHistory, Defined, Meaningful;
    OthersKeep(x.s, g.h, g.own, if act.PublishReturn? then ConsumeDone else Kick(Device));
    AllOk(x, g, RxStep(x, act), AccountStep(x, g, act));
  }

  lemma WriteKeeps(x: Rx, g: Account, a: nat, v: nat)
    requires RxInv(x, g) && a !in g.own
    ensures RxKeeps(x, g, DriverWrites(a, v))
  {
    hide LentInv, HeaderOk;
    OthersOk(x, g, RxStep(x, DriverWrites(a, v)), g, a);
  }

  lemma TakeKeeps(x: Rx, g: Account)
    requires RxInv(x, g) && RxAllowed(x, g, TakeBuffer)
    ensures RxKeeps(x, g, TakeBuffer)
  {
    hide LentInv, HeaderOk, StepSystem, StepHistory, Defined, Meaningful, Enabled;
    TakeLends(x.s, g.h, g.own);
    var a := AddrOf(g.h.posts[g.h.taken]);
    var x', g' := RxStep(x, TakeBuffer), AccountStep(x, g, TakeBuffer);
    NewBufferOk(x', g', a);
    OthersOk(x, g, x', g', a);
  }

  lemma NewBufferOk(x: Rx, g: Account, a: nat)
    requires a in g.own && g.own[a] < |g.h.posts| && a in x.ctx && x.ctx[a] == Got(IndexOf(g.h, g.own, a))
    requires a in g.holds && g.holds[a] == 0
    ensures HeaderOk(x, g, a)
  {
  }

  /** What the steps on a single header do. */
  lemma SmallEffects(x: Rx, g: Account, a: nat)
    ensures a in x.ctx && x.ctx[a].Got? ==>
      && RxDefined(x, StoreIndex(a)) && CanAccount(x, g, StoreIndex(a)) && AccountStep(x, g, StoreIndex(a)) == g
      && RxStep(x, StoreIndex(a)) == x.(hdr := x.hdr[a := x.ctx[a].idx], ctx := x.ctx[a := Have])
    ensures a in x.hdr ==>
      && RxDefined(x, EnterCallback(a)) && CanAccount(x, g, EnterCallback(a)) &&
        AccountStep(x, g, EnterCallback(a)) == g
      && RxStep(x, EnterCallback(a)) == x.(hdr := x.hdr[a := HeldInc(x.hdr[a])], ctx := x.ctx[a := Calling])
    ensures a in x.hdr && a in g.holds ==>
      && RxDefined(x, HoldBuffer(a)) && CanAccount(x, g, HoldBuffer(a))
      && AccountStep(x, g, HoldBuffer(a)) == g.(holds := g.holds[a := g.holds[a] + 1])
      && RxStep(x, HoldBuffer(a)) == x.(hdr := x.hdr[a := HeldInc(x.hdr[a])])
  {
    hide HeldInc;
  }

  lemma StoreKeeps(x: Rx, g: Account, a: nat)
    requires RxInv(x, g) && RxAllowed(x, g, StoreIndex(a))
    ensures RxKeeps(x, g, StoreIndex(a))
  {
    hide LentInv, HeldInc, Word, RxStep, AccountStep, RxDefined, CanAccount;
    SmallEffects(x, g, a);
    OthersOk(x, g, RxStep(x, StoreIndex(a)), g, a);
  }

  lemma EnterKeeps(x: Rx, g: Account, a: nat)
    requires RxInv(x, g) && RxAllowed(x, g, EnterCallback(a))
    ensures RxKeeps(x, g, EnterCallback(a))
  {
    hide LentInv, HeldInc, Word, RxStep, AccountStep, RxDefined, CanAccount;
    SmallEffects(x, g, a);
    IndexSmall(x, g, a);
    WordOps(0, IndexOf(g.h, g.own, a));
    Referenced(RxStep(x, EnterCallback(a)), g, a);
    OthersOk(x, g, RxStep(x, EnterCallback(a)), g, a);
  }

  lemma IndexSmall(x: Rx, g: Account, a: nat)
    requires LentInv(x.s, g.h, g.own) && a in g.own
    ensures g.own[a] < |g.h.posts| && IndexOf(g.h, g.own, a) < HELD_ONE
  {
    MayReturn(x.s, g.h, g.own, a);
  }

  /** A buffer with references has them counted in its header. */
  lemma Held(x: Rx, g: Account, a: nat)
    requires RxInv(x, g) && Count(x, g, a) > 0
    ensures a in g.own && g.own[a] < |g.h.posts| && a in g.holds && a in x.hdr && Count(x, g, a) < HELD_ONE
    ensures x.hdr[a] == Word(Count(x, g, a), IndexOf(g.h, g.own, a))
    ensures a in x.ctx ==> x.ctx[a].Calling?
  {
    hide LentInv, Word;
    assert a in g.own && HeaderOk(x, g, a);
  }

  lemma Referenced(x: Rx, g: Account, a: nat)
    requires a in g.own && g.own[a] < |g.h.posts| && a in x.hdr && (a in x.ctx ==> x.ctx[a].Calling?)
    requires 1 <= Count(x, g, a) < HELD_ONE && x.hdr[a] == Word(Count(x, g, a), IndexOf(g.h, g.own, a))
    ensures HeaderOk(x, g, a)
  {
    hide Word;
  }

  lemma HoldKeeps(x: Rx, g: Account, a: nat)
    requires RxInv(x, g) && RxAllowed(x, g, HoldBuffer(a))
    ensures RxKeeps(x, g, HoldBuffer(a))
  {
    hide LentInv, HeldInc, Word, RxStep, AccountStep, RxDefined, CanAccount, HeaderOk;
    Held(x, g, a);
    SmallEffects(x, g, a);
    IndexSmall(x, g, a);
    WordOps(Count(x, g, a), IndexOf(g.h, g.own, a));
    var x', g' := RxStep(x, HoldBuffer(a)), AccountStep(x, g, HoldBuffer(a));
    Referenced(x', g', a);
    OthersOk(x, g, x', g', a);
  }

  /** What giving up one reference does, in code and meaning. */
  lemma DropAgrees(x: Rx, g: Account, a: nat)
    requires RxInv(x, g) && a in g.own && Unlocked(x) && Count(x, g, a) > 0
    ensures g.own[a] < |g.h.posts| && CanDrop(x, a) && IndexOf(g.h, g.own, a) < |x.s.ring.desc|
    ensures Meaningful(g.h, ReturnOf(x.s, IndexOf(g.h, g.own, a)))
    ensures var x', g' := Drop(x, a), Dropped(x, g, a);
      && LentInv(x'.s, g'.h, g'.own) && g'.h.posts == g.h.posts
      && x'.ctx == x.ctx
      && (Count(x, g, a) == 1 ==> g'.own == g.own - {a} && g'.holds == g.holds - {a} && x'.kicking)
      && (Count(x, g, a) > 1 ==> g' == g && x'.s == x.s && !x'.kicking)
      && x'.hdr == x.hdr[a := Word(Count(x, g, a) - 1, IndexOf(g.h, g.own, a))]
  {
    hide LentInv, Word, DecTest, StepSystem, StepHistory, Defined, Meaningful, Enabled, HeldCounter;
    var idx, n := IndexOf(g.h, g.own, a), Count(x, g, a);
    MayReturn(x.s, g.h, g.own, a);
    WordOps(n, idx);
    WordOps(n - 1, idx);
    SizedByInv(x.s, g.h, g.own);
    ReturnEnds(x.s, g.h, g.own, a, x.s.ring.desc[idx].len);
  }

  /** Buffer a has one reference less, or is gone. */
  lemma DropOk(x: Rx, g: Account, x': Rx, g': Account, a: nat)
    requires RxInv(x, g) && a in g.own && g.own[a] < |g.h.posts| && Count(x, g, a) > 0
    requires LentInv(x'.s, g'.h, g'.own) && g'.h.posts == g.h.posts
    requires SameBut(g.own, g'.own, a) && SameBut(g.holds, g'.holds, a) && SameBut(x.ctx, x'.ctx, a)
    requires x'.hdr == x.hdr[a := Word(Count(x, g, a) - 1, IndexOf(g.h, g.own, a))]
    requires a in x'.ctx ==> x'.ctx[a].Calling?
    requires if Count(x, g, a) == 1 then a !in g'.own && a !in g'.holds && a !in x'.ctx
      else a in g'.own && g'.own[a] == g.own[a] && a in g'.holds && Count(x', g', a) == Count(x, g, a) - 1
    ensures RxInv(x', g')
  {
    hide LentInv, Word, HeaderOk;
    Held(x, g, a);
    if Count(x, g, a) > 1 { Referenced(x', g', a); }
    OthersOk(x, g, x', g', a);
  }

  /** What the two steps that drop a reference do. */
  lemma DropEffects(x: Rx, g: Account, a: nat)
    requires CanDrop(x, a) && a in g.own && g.own[a] < |g.h.posts| && IndexOf(g.h, g.own, a) < |x.s.ring.desc|
    requires Meaningful(g.h, ReturnOf(x.s, IndexOf(g.h, g.own, a)))
    ensures RxDefined(x, LeaveCallback(a)) && CanAccount(x, g, LeaveCallback(a))
    ensures RxStep(x, LeaveCallback(a)) == Drop(x, a).(ctx := x.ctx - {a})
    ensures AccountStep(x, g, LeaveCallback(a)) == Dropped(x, g, a)
    ensures a in g.holds && g.holds[a] > 0 ==>
      && RxDefined(x, ReleaseBuffer(a)) && CanAccount(x, g, ReleaseBuffer(a))
      && RxStep(x, ReleaseBuffer(a)) == Drop(x, a)
      && AccountStep(x, g, ReleaseBuffer(a)) ==
        (var g1 := Dropped(x, g, a); if a in g1.holds then g1.(holds := g1.holds[a := g.holds[a] - 1]) else g1)
  {
    hide Drop, Dropped, CanDrop, Meaningful, IndexOf, DecTest;
  }

  lemma ReleaseKeeps(x: Rx, g: Account, a: nat)
    requires RxInv(x, g) && RxAllowed(x, g, ReleaseBuffer(a))
    ensures RxKeeps(x, g, ReleaseBuffer(a))
  {
    hide LentInv, Word, DecTest, Meaningful, Drop, Dropped, CanDrop, RxStep, AccountStep, RxDefined, CanAccount,
      HeaderOk;
    Held(x, g, a);
    DropAgrees(x, g, a);
    DropEffects(x, g, a);
    DropOk(x, g, RxStep(x, ReleaseBuffer(a)), AccountStep(x, g, ReleaseBuffer(a)), a);
  }

  lemma LeaveKeeps(x: Rx, g: Account, a: nat)
    requires RxInv(x, g) && RxAllowed(x, g, LeaveCallback(a))
    ensures RxKeeps(x, g, LeaveCallback(a))
  {
    hide LentInv, Word, DecTest, Meaningful, Drop, Dropped, CanDrop, RxStep, AccountStep, RxDefined, CanAccount,
      HeaderOk;
    DropAgrees(x, g, a);
    DropEffects(x, g, a);
    DropOk(x, g, RxStep(x, LeaveCallback(a)), AccountStep(x, g, LeaveCallback(a)), a);
  }

  lemma RxStepKeeps(x: Rx, g: Account, act: RxAction)
    requires RxInv(x, g) && RxAllowed(x, g, act)
    ensures RxKeeps(x, g, act)
  {
    hide RxInv, RxKeeps;
    match act
    case DriverActs(a) => DriverKeeps(x, g, a);
    case DriverWrites(a, v) => WriteKeeps(x, g, a, v);
    case TakeBuffer => TakeKeeps(x, g);
    case StoreIndex(a) => StoreKeeps(x, g, a);
    case EnterCallback(a) => EnterKeeps(x, g, a);
    case HoldBuffer(a) => HoldKeeps(x, g, a);
    case ReleaseBuffer(a) => ReleaseKeeps(x, g, a);
    case LeaveCallback(a) => LeaveKeeps(x, g, a);
    case PublishReturn => QueueKeeps(x, g, act);
    case KickDriver => QueueKeeps(x, g, act);
  }

  // Its steps on the queue.

  /** The queue step that the code makes, if any. */
  ghost function QueueStep(x: Rx, act: RxAction): Option<Action>
    requires RxDefined(x, act)
  {
    match act
    case DriverActs(a) => Some(a)
    case TakeBuffer => Some(TakeNext)
    case ReleaseBuffer(a) => DropStep(x, a)
    case LeaveCallback(a) => DropStep(x, a)
    case PublishReturn => Some(ConsumeDone)
    case KickDriver => Some(Kick(Device))
    case _ => None
  }

  ghost function DropStep(x: Rx, a: nat): Option<Action>
    requires CanDrop(x, a)
  {
    var (v, last) := DecTest(x.hdr[a]);
    if last then Some(ReturnOf(x.s, BufIndex(v))) else None
  }

  /** Every step is one that the queue allows, or leaves the queue alone; in particular an index given
      to add_consumed_buffer is one the device holds. */
  lemma RxStepOnQueue(x: Rx, g: Account, act: RxAction)
    requires RxInv(x, g) && RxAllowed(x, g, act)
    ensures RxKeeps(x, g, act)
    ensures var q := QueueStep(x, act);
      && QueueMoves(x.s, g.h, RxStep(x, act).s, AccountStep(x, g, act).h, q)
      && (q.Some? && q.value.Consume? ==> Holds(g.h, q.value.head))
  {
    hide LentInv, HeaderOk, StepSystem, StepHistory, Defined, Meaningful, Drop, Dropped, CanDrop, DropStep, Holds;
    RxStepKeeps(x, g, act);
    if act.DriverActs? {
      OthersKeep(x.s, g.h, g.own, act.a);
    } else if act.ReleaseBuffer? || act.LeaveCallback? {
      DropOnQueue(x, g, act.addr);
    } else if act.TakeBuffer? {
      TakeLends(x.s, g.h, g.own);
    } else if act.PublishReturn? || act.KickDriver? {
      OthersKeep(x.s, g.h, g.own, if act.PublishReturn? then ConsumeDone else Kick(Device));
    }
  }

  lemma DropOnQueue(x: Rx, g: Account, a: nat)
    requires RxInv(x, g) && a in g.own && Unlocked(x) && Count(x, g, a) > 0
    ensures g.own[a] < |g.h.posts| && CanDrop(x, a) && IndexOf(g.h, g.own, a) < |x.s.ring.desc|
    ensures Meaningful(g.h, ReturnOf(x.s, IndexOf(g.h, g.own, a)))
    ensures QueueMoves(x.s, g.h, Drop(x, a).s, Dropped(x, g, a).h, DropStep(x, a))
    ensures var q := DropStep(x, a); q.Some? ==> q.value.Consume? && Holds(g.h, q.value.head)
  {
    hide LentInv, Word, DecTest, StepSystem, StepHistory, Defined, Meaningful, HeldCounter, Holds;
    DropAgrees(x, g, a);
    var idx, n := IndexOf(g.h, g.own, a), Count(x, g, a);
    MayReturn(x.s, g.h, g.own, a);
    WordOps(n, idx);
    WordOps(n - 1, idx);
    ReturnEnds(x.s, g.h, g.own, a, x.s.ring.desc[idx].len);
  }

  // Runs.

  datatype RxOutcome = RxRan(x: Rx, g: Account) | RxForbidden | RxStuck

  ghost function RxExecute(n: nat, events: bool, hdr: map<nat, nat>, acts: seq<RxAction>): RxOutcome {
    if acts == [] then RxRan(Rx(InitialSystem(n, events), hdr, map[], false), Account(InitialHistory(n), map[], map[]))
    else
      var act := acts[|acts| - 1];
      match RxExecute(n, events, hdr, acts[..|acts| - 1])
      case RxRan(x, g) =>
        if !RxAllowed(x, g, act) then RxForbidden
        else if !RxDefined(x, act) || !CanAccount(x, g, act) then RxStuck
        else RxRan(RxStep(x, act), AccountStep(x, g, act))
      case other => other
  }

  /** From any header contents, in every interleaving, no step fails and the invariant is kept. */
  lemma {:induction false} RxRuns(n: nat, events: bool, hdr: map<nat, nat>, acts: seq<RxAction>)
    requires QueueSize(n)
    ensures var o := RxExecute(n, events, hdr, acts); !o.RxStuck? && (o.RxRan? ==> RxInv(o.x, o.g))
  {
    hide RxInv, RxAllowed, RxDefined, CanAccount, RxStep, AccountStep;
    if acts == [] {
      RxStarts(n, events, hdr);
    } else {
      RxRuns(n, events, hdr, acts[..|acts| - 1]);
      var o := RxExecute(n, events, hdr, acts[..|acts| - 1]);
      if o.RxRan? && RxAllowed(o.x, o.g, acts[|acts| - 1]) { RxStepKeeps(o.x, o.g, acts[|acts| - 1]); }
    }
  }

  /** The queue steps of a run. */
  ghost function QueueRun(n: nat, events: bool, hdr: map<nat, nat>, acts: seq<RxAction>): seq<Action> {
    if acts == [] then []
    else
      var act := acts[|acts| - 1];
      var before := QueueRun(n, events, hdr, acts[..|acts| - 1]);
      match RxExecute(n, events, hdr, acts[..|acts| - 1])
      case RxRan(x, _) => if RxDefined(x, act) then Extended(before, QueueStep(x, act)) else before
      case _ => before
  }

  /** Every run is a run of the queue, with the same system and history: the layer keeps the rules that
      the queue sets its device, so whatever holds of all runs of the queue holds of it. */
  lemma {:induction false} RxRunsOnQueue(n: nat, events: bool, hdr: map<nat, nat>, acts: seq<RxAction>)
    requires QueueSize(n)
    ensures var o := RxExecute(n, events, hdr, acts);
      var q := Execute(n, events, QueueRun(n, events, hdr, acts));
      o.RxRan? ==> q.Ran? && q.s == o.x.s && q.h == o.g.h && Accounted(q.h, q.got)
  {
    hide RxInv, RxAllowed, RxDefined, CanAccount, RxStep, AccountStep, Accounted, QueueMoves, QueueStep, Execute;
    RxRuns(n, events, hdr, acts);
    RunsDeliverAndCollect(n, events, QueueRun(n, events, hdr, acts));
    var o := RxExecute(n, events, hdr, acts);
    if acts == [] {
      StartsAlike(n, events);
    } else if o.RxRan? {
      var init, act := acts[..|acts| - 1], acts[|acts| - 1];
      RxRuns(n, events, hdr, init);
      RxRunsOnQueue(n, events, hdr, init);
      var p := RxExecute(n, events, hdr, init);
      RxStepOnQueue(p.x, p.g, act);
      MovesOn(n, events, QueueRun(n, events, hdr, init), o.x.s, o.g.h, QueueStep(p.x, act));
    }
  }

  lemma RxStarts(n: nat, events: bool, hdr: map<nat, nat>)
    requires QueueSize(n)
    ensures RxInv(Rx(InitialSystem(n, events), hdr, map[], false), Account(InitialHistory(n), map[], map[]))
  {
    hide Inv;
    InitialInv(n, events);
  }

  /** Every buffer taken is either still owned, or has been returned, and then once. */
  lemma ReturnedExactlyOnce(x: Rx, g: Account, k: nat)
    requires RxInv(x, g) && k < g.h.taken
    ensures g.h.taken <= |g.h.posts|
    ensures Completed(g.h, k) <==> !(AddrOf(g.h.posts[k]) in g.own && g.own[AddrOf(g.h.posts[k])] == k)
    ensures forall i, j :: 0 <= i < |g.h.done| && 0 <= j < |g.h.done| && g.h.done[i].post == g.h.done[j].post == k ==>
      i == j
  {
    hide Counters, FreeList, Ownership, Chains, Cookies, Slots, Indices, HeaderOk, NoAlias;
  }

  /** Buffer a, with one reference left, goes back under the index it was taken with, with its own length. */
  ghost predicate GoesBack(x: Rx, g: Account, x': Rx, g': Account, a: nat) {
    && a in g.own && g.own[a] < |g.h.posts| && Count(x, g, a) == 1
    && !InCallback(x', a) && a !in g'.holds
    && Sized(x.s.dev, x.s.ring)
    && HeadOf(g.h.posts[g.own[a]]) < |x.s.ring.desc|
    && (var head := HeadOf(g.h.posts[g.own[a]]);
        var len := x.s.ring.desc[head].len;
        && g'.h.done == g.h.done + [Done(g.own[a], len)]
        && x'.s.ring == ConsumeWrite(x.s.dev, x.s.ring, head, len))
  }

  lemma DropGoesBack(x: Rx, g: Account, x': Rx, g': Account, a: nat)
    requires RxInv(x, g) && a in g.own && Unlocked(x) && Count(x, g, a) > 0
    requires CanDrop(x, a) && x'.s == Drop(x, a).s
    requires g.own[a] < |g.h.posts| && IndexOf(g.h, g.own, a) < |x.s.ring.desc|
    requires Meaningful(g.h, ReturnOf(x.s, IndexOf(g.h, g.own, a)))
    requires g'.h == Dropped(x, g, a).h && (Count(x, g, a) == 1 ==> !InCallback(x', a) && a !in g'.holds)
    ensures if Count(x, g, a) == 1 then GoesBack(x, g, x', g', a) else g'.h.done == g.h.done
  {
    hide LentInv, Word, DecTest, StepSystem, StepHistory, Defined, Meaningful, Enabled, HeldCounter, Sized,
      ConsumeWrite;
    var idx, n := IndexOf(g.h, g.own, a), Count(x, g, a);
    MayReturn(x.s, g.h, g.own, a);
    WordOps(n, idx);
    WordOps(n - 1, idx);
    SizedByInv(x.s, g.h, g.own);
    ReturnEnds(x.s, g.h, g.own, a, x.s.ring.desc[idx].len);
    ConsumeRing(x.s, idx, x.s.ring.desc[idx].len);
  }

  /** A step that returns a buffer gives up its last reference: the callback has ended and no hold is
      left; no other step returns anything. */
  lemma ReturnIsLastReference(x: Rx, g: Account, act: RxAction)
    requires RxInv(x, g) && RxAllowed(x, g, act)
    ensures RxKeeps(x, g, act)
    ensures var x', g' := RxStep(x, act), AccountStep(x, g, act);
      g'.h.done == g.h.done || ((act.ReleaseBuffer? || act.LeaveCallback?) && GoesBack(x, g, x', g', act.addr))
  {
    hide LentInv, HeaderOk, StepSystem, StepHistory, Defined, Meaningful, DriverMay, Drop, Dropped, CanDrop, GoesBack;
    RxStepKeeps(x, g, act);
    var x', g' := RxStep(x, act), AccountStep(x, g, act);
    if act.DriverActs? {
      OthersKeep(x.s, g.h, g.own, act.a);
    } else if act.PublishReturn? || act.KickDriver? {
      OthersKeep(x.s, g.h, g.own, if act.PublishReturn? then ConsumeDone else Kick(Device));
    } else if act.TakeBuffer? {
      TakeEffect(g.h);
    } else if act.ReleaseBuffer? || act.LeaveCallback? {
      DropAgrees(x, g, act.addr);
      DropGoesBack(x, g, x', g', act.addr);
    }
  }

  /** Once no callback runs and no hold is left, every buffer taken has been returned. */
  lemma QuietMeansReturned(x: Rx, g: Account)
    requires RxInv(x, g) && x.ctx == map[] && forall a :: a in g.holds ==> g.holds[a] == 0
    ensures g.own == map[] && forall k :: 0 <= k < g.h.taken ==> Completed(g.h, k)
  {
    hide Inv, NoAlias, RxInv;
    forall a: nat ensures a !in g.own { NotOwned(x, g, a); }
    QuietCompletes(x, g);
  }

  lemma NotOwned(x: Rx, g: Account, a: nat)
    requires RxInv(x, g) && a !in x.ctx && (a in g.holds ==> g.holds[a] == 0)
    ensures a !in g.own
  {
    hide LentInv;
  }

  lemma QuietCompletes(x: Rx, g: Account)
    requires RxInv(x, g) && g.own == map[]
    ensures forall k :: 0 <= k < g.h.taken ==> Completed(g.h, k)
  {
    hide Inv, NoAlias;
  }
}

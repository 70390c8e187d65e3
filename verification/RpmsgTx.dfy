/** Transmit buffers in the device role: taken from the queue or recycled from the reclaimer, then sent
    or given up.  Steps are cut as in module RpmsgRx. */
module RpmsgTx {
  import opened Options
  import opened Vring
  import opened VqHistory
  import opened VqInvariant
  import opened VqSteps
  import opened VqRuns
  import opened RpmsgHeader
  import opened Lending

  /** A buffer that was given up unsent; its index is kept in its own memory. */
  datatype Spare = Spare(addr: nat, idx: nat)

  /** A sender between getting a buffer and marking it, or between clearing its header and queueing it. */
  datatype TxCtx = Got(idx: nat) | Sending(idx: nat)

  datatype Tx = Tx(s: System, hdr: map<nat, nat>, reclaimer: seq<Spare>, ctx: map<nat, TxCtx>, kicking: bool)

  datatype Account = Account(h: History, own: map<nat, nat>)

  datatype TxAction =
    | DriverActs(a: Action)
    | DriverWrites(addr: nat, value: nat)
    | GetBuffer
    | StoreIndex(addr: nat)
    | BeginSend(addr: nat)
    | Enqueue(addr: nat)
    | ReleaseBuffer(addr: nat)
    | PublishReturn
    | KickDriver

  // What the code does.

  ghost predicate TxDefined(x: Tx, act: TxAction) {
    match act
    case DriverActs(a) => Defined(x.s, a)
    case GetBuffer =>
      x.reclaimer == [] && AvailPending(x.s.dev, x.s.ring) ==>
        Defined(x.s, TakeNext) && StepSystem(x.s, TakeNext).1.Delivered?
    case StoreIndex(a) => a in x.ctx
    case BeginSend(a) => a in x.hdr
    case Enqueue(a) => a in x.ctx && Sized(x.s.dev, x.s.ring) && x.ctx[a].idx < |x.s.ring.desc|
    case ReleaseBuffer(a) => a in x.hdr
    case _ => true
  }

  ghost function TxStep(x: Tx, act: TxAction): Tx
    requires TxDefined(x, act)
  {
    match act
    case DriverActs(a) => x.(s := StepSystem(x.s, a).0)
    case DriverWrites(a, v) => x.(hdr := x.hdr[a := v])
    case GetBuffer =>
      if x.reclaimer != [] then
        var r := x.reclaimer[0];
        x.(reclaimer := x.reclaimer[1..], ctx := x.ctx[r.addr := Got(r.idx)])
      else if AvailPending(x.s.dev, x.s.ring) then
        var (s, o) := StepSystem(x.s, TakeNext);
        x.(s := s, ctx := x.ctx[o.addr := Got(o.head)])
      else x
    case StoreIndex(a) => x.(hdr := x.hdr[a := HeldInc(x.ctx[a].idx)], ctx := x.ctx - {a})
    case BeginSend(a) => x.(hdr := x.hdr[a := 0], ctx := x.ctx[a := Sending(BufIndex(x.hdr[a]))])
    case Enqueue(a) => x.(s := StepSystem(x.s, ReturnOf(x.s, x.ctx[a].idx)).0, ctx := x.ctx - {a}, kicking := true)
    case ReleaseBuffer(a) =>
      var (v, last) := DecTest(x.hdr[a]);
      var x1 := x.(hdr := x.hdr[a := v]);
      if last then x1.(reclaimer := x.reclaimer + [Spare(a, BufIndex(v))]) else x1
    case PublishReturn => x.(s := StepSystem(x.s, ConsumeDone).0)
    case KickDriver => x.(s := StepSystem(x.s, Kick(Device)).0, kicking := false)
  }

  // What is asked of the driver and of senders.

  ghost predicate Spared(x: Tx, a: nat) {
    exists i :: 0 <= i < |x.reclaimer| && x.reclaimer[i].addr == a
  }

  /** A sender has the buffer and has neither sent it nor given it up. */
  ghost predicate WithSender(x: Tx, g: Account, a: nat) {
    a in g.own && a !in x.ctx && !Spared(x, a)
  }

  ghost predicate Unlocked(x: Tx) {
    !x.kicking && x.s.devPc.VIdle?
  }

  ghost predicate TxAllowed(x: Tx, g: Account, act: TxAction) {
    match act
    case DriverActs(a) => DriverMay(x.s, g.h, a)
    case DriverWrites(a, _) => a !in g.own
    case GetBuffer => Unlocked(x)
    case StoreIndex(a) => a in x.ctx && x.ctx[a].Got?
    case BeginSend(a) => WithSender(x, g, a)
    case Enqueue(a) => Unlocked(x) && a in x.ctx && x.ctx[a].Sending?
    case ReleaseBuffer(a) => Unlocked(x) && WithSender(x, g, a)
    case PublishReturn => x.s.devPc.VPublish?
    case KickDriver => x.kicking && x.s.devPc.VIdle?
  }

  // What it means.

  ghost predicate CanAccount(x: Tx, g: Account, act: TxAction) {
    match act
    case DriverActs(a) => Meaningful(g.h, a)
    case GetBuffer =>
      x.reclaimer == [] && AvailPending(x.s.dev, x.s.ring) ==> Meaningful(g.h, TakeNext) && g.h.taken < |g.h.posts|
    case Enqueue(a) =>
      && a in g.own && g.own[a] < |g.h.posts| && IndexOf(g.h, g.own, a) < |x.s.ring.desc|
      && Meaningful(g.h, ReturnOf(x.s, IndexOf(g.h, g.own, a)))
    case _ => true
  }

  ghost function AccountStep(x: Tx, g: Account, act: TxAction): Account
    requires CanAccount(x, g, act)
  {
    match act
    case DriverActs(a) => g.(h := StepHistory(g.h, a).0)
    case GetBuffer =>
      if x.reclaimer == [] && AvailPending(x.s.dev, x.s.ring) then
        Account(StepHistory(g.h, TakeNext).0, g.own[AddrOf(g.h.posts[g.h.taken]) := g.h.taken])
      else g
    case Enqueue(a) => Account(StepHistory(g.h, ReturnOf(x.s, IndexOf(g.h, g.own, a))).0, g.own - {a})
    case PublishReturn => g.(h := StepHistory(g.h, ConsumeDone).0)
    case KickDriver => g.(h := StepHistory(g.h, Kick(Device)).0)
    case _ => g
  }

  /** Wherever the buffer is, its own index is kept with it. */
  ghost predicate BufferOk(x: Tx, g: Account, a: nat)
    requires a in g.own && g.own[a] < |g.h.posts|
  {
    var idx := IndexOf(g.h, g.own, a);
    && (a in x.ctx ==> x.ctx[a].idx == idx && !Spared(x, a))
    && (WithSender(x, g, a) ==> a in x.hdr && x.hdr[a] == Word(1, idx))
  }

  ghost predicate SparesOk(x: Tx, g: Account) {
    && (forall i :: 0 <= i < |x.reclaimer| ==>
          && x.reclaimer[i].addr in g.own && g.own[x.reclaimer[i].addr] < |g.h.posts|
          && x.reclaimer[i].idx == IndexOf(g.h, g.own, x.reclaimer[i].addr))
    && (forall i, j :: 0 <= i < j < |x.reclaimer| ==> x.reclaimer[i].addr != x.reclaimer[j].addr)
  }

  ghost predicate TxInv(x: Tx, g: Account) {
    && LentInv(x.s, g.h, g.own)
    && x.ctx.Keys <= g.own.Keys
    && SparesOk(x, g)
    && forall a :: a in g.own ==> g.own[a] < |g.h.posts| && BufferOk(x, g, a)
  }

  // Each step keeps it.

  ghost predicate TxKeeps(x: Tx, g: Account, act: TxAction) {
    TxDefined(x, act) && CanAccount(x, g, act) && TxInv(TxStep(x, act), AccountStep(x, g, act))
  }

  lemma BufferFrame(x: Tx, g: Account, x': Tx, g': Account, a: nat)
    requires a in g.own && g.own[a] < |g.h.posts| && BufferOk(x, g, a)
    requires g.h.posts <= g'.h.posts && a in g'.own && g'.own[a] == g.own[a]
    requires (a in x'.ctx <==> a in x.ctx) && (a in x.ctx ==> x'.ctx[a] == x.ctx[a])
    requires a in x.hdr ==> a in x'.hdr && x'.hdr[a] == x.hdr[a]
    requires Spared(x', a) <==> Spared(x, a)
    ensures BufferOk(x', g', a)
  {
    hide Spared;
    assert g'.h.posts[g.own[a]] == g.h.posts[g.own[a]];
  }

  /** Steps that touch at most buffer b. */
  lemma OthersOk(x: Tx, g: Account, x': Tx, g': Account, b: nat)
    requires TxInv(x, g) && LentInv(x'.s, g'.h, g'.own) && g.h.posts <= g'.h.posts
    requires SameBut(g.own, g'.own, b) && SameBut(x.ctx, x'.ctx, b) && SameBut(x.hdr, x'.hdr, b)
    requires forall a: nat :: a != b ==> (Spared(x', a) <==> Spared(x, a))
    requires SparesOk(x', g')
    requires b in g'.own ==> g'.own[b] < |g'.h.posts| && BufferOk(x', g', b)
    requires b in x'.ctx ==> b in g'.own
    ensures TxInv(x', g')
  {
    hide LentInv, BufferOk, SparesOk, Spared;
    forall a | a in g'.own ensures g'.own[a] < |g'.h.posts| && BufferOk(x', g', a) {
      if a != b { BufferFrame(x, g, x', g', a); }
    }
  }

  /** Steps of the queue that touch no buffer. */
  lemma AllOk(x: Tx, g: Account, x': Tx, g': Account)
    requires TxInv(x, g) && LentInv(x'.s, g'.h, g'.own) && g.h.posts <= g'.h.posts
    requires g'.own == g.own && x'.ctx == x.ctx && x'.hdr == x.hdr && x'.reclaimer == x.reclaimer
    ensures TxInv(x', g')
  {
    hide LentInv, BufferOk;
    SparesFrame(x, g, x', g');
    hide SparesOk;
    forall a | a in g'.own ensures g'.own[a] < |g'.h.posts| && BufferOk(x', g', a) {
      BufferFrame(x, g, x', g', a);
    }
  }

  /** The reclaimer keeps its entries, and they keep their owners. */
  lemma SparesFrame(x: Tx, g: Account, x': Tx, g': Account)
    requires SparesOk(x, g) && x'.reclaimer == x.reclaimer && g.h.posts <= g'.h.posts
    requires forall a: nat :: Spared(x, a) && a in g.own ==> a in g'.own && g'.own[a] == g.own[a]
    ensures SparesOk(x', g') && forall a: nat :: Spared(x', a) <==> Spared(x, a)
  {
    forall i | 0 <= i < |x.reclaimer|
      ensures x.reclaimer[i].addr in g'.own && g'.own[x.reclaimer[i].addr] == g.own[x.reclaimer[i].addr]
    {
      assert Spared(x, x.reclaimer[i].addr);
    }
  }

  lemma DriverKeeps(x: Tx, g: Account, a: Action)
    requires TxInv(x, g) && DriverMay(x.s, g.h, a)
    ensures TxKeeps(x, g, DriverActs(a))
  {
    hide LentInv, BufferOk, SparesOk, DriverMay, StepSystem, StepHistory, Defined, Meaningful;
    OthersKeep(x.s, g.h, g.own, a);
    AllOk(x, g, TxStep(x, DriverActs(a)), AccountStep(x, g, DriverActs(a)));
  }

  lemma QueueKeeps(x: Tx, g: Account, act: TxAction)
    requires TxInv(x, g) && TxAllowed(x, g, act) && (act.PublishReturn? || act.KickDriver?)
    ensures TxKeeps(x, g, act)
  {
    hide LentInv, BufferOk, SparesOk, DriverMay, StepSystem, StepHistory, Defined, Meaningful;
    OthersKeep(x.s, g.h, g.own, if act.PublishReturn? then ConsumeDone else Kick(Device));
    AllOk(x, g, TxStep(x, act), AccountStep(x, g, act));
  }

  lemma WriteKeeps(x: Tx, g: Account, a: nat, v: nat)
    requires TxInv(x, g) && a !in g.own
    ensures TxKeeps(x, g, DriverWrites(a, v))
  {
    hide LentInv, BufferOk;
    SparesFrame(x, g, TxStep(x, DriverWrites(a, v)), g);
    hide SparesOk;
    OthersOk(x, g, TxStep(x, DriverWrites(a, v)), g, a);
  }

  lemma IndexSmall(x: Tx, g: Account, a: nat)
    requires LentInv(x.s, g.h, g.own) && a in g.own
    ensures g.own[a] < |g.h.posts| && IndexOf(g.h, g.own, a) < HELD_ONE
  {
    MayReturn(x.s, g.h, g.own, a);
  }

  lemma TakeKeeps(x: Tx, g: Account)
    requires TxInv(x, g) && Unlocked(x) && x.reclaimer == [] && AvailPending(x.s.dev, x.s.ring)
    ensures TxKeeps(x, g, GetBuffer)
  {
    hide LentInv, BufferOk, StepSystem, StepHistory, Defined, Meaningful;
    TakeLends(x.s, g.h, g.own);
    var a := AddrOf(g.h.posts[g.h.taken]);
    var x', g' := TxStep(x, GetBuffer), AccountStep(x, g, GetBuffer);
    GotOk(x', g', a);
    OthersOk(x, g, x', g', a);
  }

  lemma GotOk(x: Tx, g: Account, a: nat)
    requires a in g.own && g.own[a] < |g.h.posts| && a in x.ctx && x.ctx[a].idx == IndexOf(g.h, g.own, a) &&
      !Spared(x, a)
    ensures BufferOk(x, g, a)
  {
  }

  lemma RecycleSpares(x: Tx, g: Account, x': Tx)
    requires SparesOk(x, g) && x.reclaimer != [] && x'.reclaimer == x.reclaimer[1..]
    ensures SparesOk(x', g) && !Spared(x', x.reclaimer[0].addr)
    ensures forall a: nat :: a != x.reclaimer[0].addr ==> (Spared(x', a) <==> Spared(x, a))
  {
    forall a: nat | a != x.reclaimer[0].addr && Spared(x, a) ensures Spared(x', a) {
      var i :| 0 <= i < |x.reclaimer| && x.reclaimer[i].addr == a;
      assert x'.reclaimer[i - 1].addr == a;
    }
  }

  lemma RecycleKeeps(x: Tx, g: Account)
    requires TxInv(x, g) && x.reclaimer != []
    ensures TxKeeps(x, g, GetBuffer)
  {
    hide LentInv, BufferOk, SparesOk, Spared, StepSystem, StepHistory, Defined, Meaningful;
    var r := x.reclaimer[0];
    var x' := TxStep(x, GetBuffer);
    RecycleSpares(x, g, x');
    FirstSpare(x, g);
    GotOk(x', g, r.addr);
    OthersOk(x, g, x', g, r.addr);
  }

  lemma FirstSpare(x: Tx, g: Account)
    requires SparesOk(x, g) && x.reclaimer != []
    ensures var r := x.reclaimer[0];
      r.addr in g.own && g.own[r.addr] < |g.h.posts| && r.idx == IndexOf(g.h, g.own, r.addr)
  {
  }

  lemma StoreKeeps(x: Tx, g: Account, a: nat)
    requires TxInv(x, g) && TxAllowed(x, g, StoreIndex(a))
    ensures TxKeeps(x, g, StoreIndex(a))
  {
    hide LentInv, HeldInc, Word, DecTest, StepSystem, StepHistory, Defined, Meaningful, Spared, SparesOk;
    Working(x, g, a);
    IndexSmall(x, g, a);
    WordOps(0, IndexOf(g.h, g.own, a));
    var x' := TxStep(x, StoreIndex(a));
    SparesFrame(x, g, x', g);
    OthersOk(x, g, x', g, a);
  }

  lemma BeginKeeps(x: Tx, g: Account, a: nat)
    requires TxInv(x, g) && TxAllowed(x, g, BeginSend(a))
    ensures TxKeeps(x, g, BeginSend(a))
  {
    hide LentInv, HeldInc, Word, DecTest, BufIndex, StepSystem, StepHistory, Defined, Meaningful, Spared, SparesOk;
    Marked(x, g, a);
    IndexSmall(x, g, a);
    WordOps(1, IndexOf(g.h, g.own, a));
    var x' := TxStep(x, BeginSend(a));
    SparesFrame(x, g, x', g);
    OthersOk(x, g, x', g, a);
  }

  lemma Working(x: Tx, g: Account, a: nat)
    requires TxInv(x, g) && a in x.ctx
    ensures a in g.own && g.own[a] < |g.h.posts| && x.ctx[a].idx == IndexOf(g.h, g.own, a) && !Spared(x, a)
  {
    assert BufferOk(x, g, a);
  }

  lemma Marked(x: Tx, g: Account, a: nat)
    requires TxInv(x, g) && WithSender(x, g, a)
    ensures g.own[a] < |g.h.posts| && a in x.hdr && x.hdr[a] == Word(1, IndexOf(g.h, g.own, a))
  {
    assert BufferOk(x, g, a);
  }

  lemma EnqueueKeeps(x: Tx, g: Account, a: nat)
    requires TxInv(x, g) && TxAllowed(x, g, Enqueue(a))
    ensures TxKeeps(x, g, Enqueue(a))
  {
    hide LentInv, StepSystem, StepHistory, Defined, Meaningful, Sized, Spared, SparesOk, BufferOk;
    Working(x, g, a);
    MayReturn(x.s, g.h, g.own, a);
    SizedByInv(x.s, g.h, g.own);
    ReturnEnds(x.s, g.h, g.own, a, x.s.ring.desc[IndexOf(g.h, g.own, a)].len);
    var x', g' := TxStep(x, Enqueue(a)), AccountStep(x, g, Enqueue(a));
    SparesFrame(x, g, x', g');
    OthersOk(x, g, x', g', a);
  }

  lemma ReleaseSpares(x: Tx, g: Account, x': Tx, a: nat)
    requires SparesOk(x, g) && a in g.own && g.own[a] < |g.h.posts| && !Spared(x, a)
    requires x'.reclaimer == x.reclaimer + [Spare(a, IndexOf(g.h, g.own, a))]
    ensures SparesOk(x', g) && Spared(x', a)
    ensures forall b: nat :: b != a ==> (Spared(x', b) <==> Spared(x, b))
  {
    assert x'.reclaimer[|x.reclaimer|].addr == a;
    forall b: nat | Spared(x, b) ensures Spared(x', b) {
      var i :| 0 <= i < |x.reclaimer| && x.reclaimer[i].addr == b;
      assert x'.reclaimer[i].addr == b;
    }
  }

  lemma ReleaseKeeps(x: Tx, g: Account, a: nat)
    requires TxInv(x, g) && TxAllowed(x, g, ReleaseBuffer(a))
    ensures TxKeeps(x, g, ReleaseBuffer(a))
  {
    hide LentInv, HeldInc, Word, DecTest, BufIndex, StepSystem, StepHistory, Defined, Meaningful, Spared, SparesOk;
    Marked(x, g, a);
    IndexSmall(x, g, a);
    WordOps(1, IndexOf(g.h, g.own, a));
    WordOps(0, IndexOf(g.h, g.own, a));
    var x' := TxStep(x, ReleaseBuffer(a));
    ReleaseSpares(x, g, x', a);
    OthersOk(x, g, x', g, a);
  }

  lemma TxStepKeeps(x: Tx, g: Account, act: TxAction)
    requires TxInv(x, g) && TxAllowed(x, g, act)
    ensures TxKeeps(x, g, act)
  {
    match act
    case DriverActs(a) => DriverKeeps(x, g, a);
    case DriverWrites(a, v) => WriteKeeps(x, g, a, v);
    case GetBuffer =>
      if x.reclaimer != [] {
        RecycleKeeps(x, g);
      } else if AvailPending(x.s.dev, x.s.ring) {
        TakeKeeps(x, g);
      }
    case StoreIndex(a) => StoreKeeps(x, g, a);
    case BeginSend(a) => BeginKeeps(x, g, a);
    case Enqueue(a) => EnqueueKeeps(x, g, a);
    case ReleaseBuffer(a) => ReleaseKeeps(x, g, a);
    case PublishReturn => QueueKeeps(x, g, act);
    case KickDriver => QueueKeeps(x, g, act);
  }

  // Its steps on the queue.

  /** The queue step that the code makes, if any. */
  ghost function QueueStep(x: Tx, act: TxAction): Option<Action>
    requires TxDefined(x, act)
  {
    match act
    case DriverActs(a) => Some(a)
    case GetBuffer => if x.reclaimer == [] && AvailPending(x.s.dev, x.s.ring) then Some(TakeNext) else None
    case Enqueue(a) => Some(ReturnOf(x.s, x.ctx[a].idx))
    case PublishReturn => Some(ConsumeDone)
    case KickDriver => Some(Kick(Device))
    case _ => None
  }

  /** Every step is one that the queue allows, or leaves the queue alone; in particular an index given
      to add_consumed_buffer is one the device holds. */
  lemma TxStepOnQueue(x: Tx, g: Account, act: TxAction)
    requires TxInv(x, g) && TxAllowed(x, g, act)
    ensures TxKeeps(x, g, act)
    ensures var q := QueueStep(x, act);
      && QueueMoves(x.s, g.h, TxStep(x, act).s, AccountStep(x, g, act).h, q)
      && (q.Some? && q.value.Consume? ==> Holds(g.h, q.value.head))
  {
    hide LentInv, BufferOk, SparesOk, StepSystem, StepHistory, Defined, Meaningful, Holds, DecTest;
    TxStepKeeps(x, g, act);
    if act.DriverActs? {
      OthersKeep(x.s, g.h, g.own, act.a);
    } else if act.Enqueue? {
      Working(x, g, act.addr);
      MayReturn(x.s, g.h, g.own, act.addr);
      ReturnEnds(x.s, g.h, g.own, act.addr, x.s.ring.desc[x.ctx[act.addr].idx].len);
    } else if act.GetBuffer? {
      if x.reclaimer == [] && AvailPending(x.s.dev, x.s.ring) { TakeLends(x.s, g.h, g.own); }
    } else if act.PublishReturn? || act.KickDriver? {
      OthersKeep(x.s, g.h, g.own, if act.PublishReturn? then ConsumeDone else Kick(Device));
    }
  }

  // Runs.

  datatype TxOutcome = TxRan(x: Tx, g: Account) | TxForbidden | TxStuck

  ghost function TxExecute(n: nat, events: bool, hdr: map<nat, nat>, acts: seq<TxAction>): TxOutcome {
    if acts == [] then TxRan(Tx(InitialSystem(n, events), hdr, [], map[], false), Account(InitialHistory(n), map[]))
    else
      var act := acts[|acts| - 1];
      match TxExecute(n, events, hdr, acts[..|acts| - 1])
      case TxRan(x, g) =>
        if !TxAllowed(x, g, act) then TxForbidden
        else if !TxDefined(x, act) || !CanAccount(x, g, act) then TxStuck
        else TxRan(TxStep(x, act), AccountStep(x, g, act))
      case other => other
  }

  /** In every interleaving no step fails and the invariant is kept. */
  lemma {:induction false} TxRuns(n: nat, events: bool, hdr: map<nat, nat>, acts: seq<TxAction>)
    requires QueueSize(n)
    ensures var o := TxExecute(n, events, hdr, acts); !o.TxStuck? && (o.TxRan? ==> TxInv(o.x, o.g))
  {
    hide TxInv, TxAllowed, TxDefined, CanAccount, TxStep, AccountStep;
    if acts == [] {
      TxStarts(n, events, hdr);
    } else {
      TxRuns(n, events, hdr, acts[..|acts| - 1]);
      var o := TxExecute(n, events, hdr, acts[..|acts| - 1]);
      if o.TxRan? && TxAllowed(o.x, o.g, acts[|acts| - 1]) { TxStepKeeps(o.x, o.g, acts[|acts| - 1]); }
    }
  }

  /** The queue steps of a run. */
  ghost function QueueRun(n: nat, events: bool, hdr: map<nat, nat>, acts: seq<TxAction>): seq<Action> {
    if acts == [] then []
    else
      var act := acts[|acts| - 1];
      var before := QueueRun(n, events, hdr, acts[..|acts| - 1]);
      match TxExecute(n, events, hdr, acts[..|acts| - 1])
      case TxRan(x, _) => if TxDefined(x, act) then Extended(before, QueueStep(x, act)) else before
      case _ => before
  }

  /** Every run is a run of the queue, with the same system and history. */
  lemma {:induction false} TxRunsOnQueue(n: nat, events: bool, hdr: map<nat, nat>, acts: seq<TxAction>)
    requires QueueSize(n)
    ensures var o := TxExecute(n, events, hdr, acts);
      var q := Execute(n, events, QueueRun(n, events, hdr, acts));
      o.TxRan? ==> q.Ran? && q.s == o.x.s && q.h == o.g.h && Accounted(q.h, q.got)
  {
    hide TxInv, TxAllowed, TxDefined, CanAccount, TxStep, AccountStep, Accounted, QueueMoves, QueueStep, Execute;
    TxRuns(n, events, hdr, acts);
    RunsDeliverAndCollect(n, events, QueueRun(n, events, hdr, acts));
    var o := TxExecute(n, events, hdr, acts);
    if acts == [] {
      StartsAlike(n, events);
    } else if o.TxRan? {
      var init, act := acts[..|acts| - 1], acts[|acts| - 1];
      TxRuns(n, events, hdr, init);
      TxRunsOnQueue(n, events, hdr, init);
      var p := TxExecute(n, events, hdr, init);
      TxStepOnQueue(p.x, p.g, act);
      MovesOn(n, events, QueueRun(n, events, hdr, init), o.x.s, o.g.h, QueueStep(p.x, act));
    }
  }

  lemma TxStarts(n: nat, events: bool, hdr: map<nat, nat>)
    requires QueueSize(n)
    ensures TxInv(Tx(InitialSystem(n, events), hdr, [], map[], false), Account(InitialHistory(n), map[]))
  {
    hide Inv;
    InitialInv(n, events);
  }

  // What the steps give and take.

  lemma PendingIsPublished(s: System, h: History)
    requires Inv(s, h)
    ensures AvailPending(s.dev, s.ring) <==> h.taken < h.published
  {
    hide FreeList, Ownership, Chains, Cookies, Slots, Completions;
    QueueSizeBound(s.drv.nentries);
    WrappedEqual(h.taken, h.published);
  }

  /** From the reclaimer comes the buffer given up first, with its own index and without touching the
      queue; else the oldest buffer that the driver has published and no one has taken; else none. */
  ghost predicate GotOldest(x: Tx, g: Account, x': Tx, g': Account) {
    if x.reclaimer != [] then
      var a := x.reclaimer[0].addr;
      && g' == g && x'.s == x.s && x'.hdr == x.hdr && x'.reclaimer == x.reclaimer[1..]
      && a in g.own && g.own[a] < |g.h.posts| && x'.ctx == x.ctx[a := Got(IndexOf(g.h, g.own, a))]
    else if g.h.taken < g.h.published then
      && g.h.taken < |g.h.posts| && g'.h.taken == g.h.taken + 1 && g'.h.posts == g.h.posts
      && x'.ctx == x.ctx[AddrOf(g.h.posts[g.h.taken]) := Got(HeadOf(g.h.posts[g.h.taken]))]
    else x' == x && g' == g
  }

  lemma SpareFirst(x: Tx, g: Account)
    requires TxInv(x, g) && TxAllowed(x, g, GetBuffer)
    ensures TxKeeps(x, g, GetBuffer)
    ensures GotOldest(x, g, TxStep(x, GetBuffer), AccountStep(x, g, GetBuffer))
  {
    hide LentInv, BufferOk, StepSystem, StepHistory, Defined, Meaningful;
    TxStepKeeps(x, g, GetBuffer);
    LentKeeps(x.s, g.h, g.own);
    PendingIsPublished(x.s, g.h);
    if x.reclaimer != [] {
      FirstSpare(x, g);
    } else if g.h.taken < g.h.published {
      TakeLends(x.s, g.h, g.own);
      TakeEffect(g.h);
    }
  }

  lemma LentKeeps(s: System, h: History, own: map<nat, nat>)
    requires LentInv(s, h, own)
    ensures Inv(s, h)
  {
    hide Inv;
  }

  /** A buffer given up unsent waits behind the others, with its own index. */
  lemma GivenUpLast(x: Tx, g: Account, a: nat)
    requires TxInv(x, g) && TxAllowed(x, g, ReleaseBuffer(a))
    ensures TxKeeps(x, g, ReleaseBuffer(a)) && g.own[a] < |g.h.posts|
    ensures TxStep(x, ReleaseBuffer(a)).reclaimer == x.reclaimer + [Spare(a, IndexOf(g.h, g.own, a))]
  {
    hide LentInv, HeldInc, Word, DecTest, BufIndex, StepSystem, StepHistory, Defined, Meaningful, Spared, SparesOk;
    TxStepKeeps(x, g, ReleaseBuffer(a));
    Marked(x, g, a);
    IndexSmall(x, g, a);
    WordOps(1, IndexOf(g.h, g.own, a));
    WordOps(0, IndexOf(g.h, g.own, a));
  }

  /** Sending returns the sender's buffer under its own index and with its own length; no other step
      returns anything. */
  lemma OnlySendsReturn(x: Tx, g: Account, act: TxAction)
    requires TxInv(x, g) && TxAllowed(x, g, act)
    ensures TxKeeps(x, g, act)
    ensures var x', g' := TxStep(x, act), AccountStep(x, g, act);
      if !act.Enqueue? then g'.h.done == g.h.done
      else
        var a := act.addr;
        && a in g.own && g.own[a] < |g.h.posts| && IndexOf(g.h, g.own, a) < |x.s.ring.desc| && Sized(x.s.dev, x.s.ring)
        && var idx := IndexOf(g.h, g.own, a);
           var len := x.s.ring.desc[idx].len;
           && g'.h.done == g.h.done + [Done(g.own[a], len)] && g'.own == g.own - {a}
           && x'.s.ring == ConsumeWrite(x.s.dev, x.s.ring, idx, len)
  {
    hide LentInv, BufferOk, SparesOk, StepSystem, StepHistory, Defined, Meaningful, DecTest, ConsumeWrite, Sized;
    TxStepKeeps(x, g, act);
    if act.DriverActs? {
      OthersKeep(x.s, g.h, g.own, act.a);
    } else if act.PublishReturn? || act.KickDriver? {
      OthersKeep(x.s, g.h, g.own, if act.PublishReturn? then ConsumeDone else Kick(Device));
    } else if act.GetBuffer? {
      if x.reclaimer == [] && AvailPending(x.s.dev, x.s.ring) { TakeEffect(g.h); }
    } else if act.Enqueue? {
      var idx := IndexOf(g.h, g.own, act.addr);
      Working(x, g, act.addr);
      MayReturn(x.s, g.h, g.own, act.addr);
      SizedByInv(x.s, g.h, g.own);
      ReturnEnds(x.s, g.h, g.own, act.addr, x.s.ring.desc[idx].len);
      ConsumeRing(x.s, idx, x.s.ring.desc[idx].len);
      SizedTable(x.s);
    }
  }

  lemma SizedTable(s: System)
    requires Sized(s.dev, s.ring)
    ensures |s.ring.desc| == s.dev.nentries
  {
  }

  // Where an index is.

  /** Free, or made available by the driver and not yet taken. */
  ghost predicate WithDriver(g: Account, d: nat)
    requires d < |g.h.owner|
  {
    g.h.owner[d] < 0 || g.h.owner[d] >= g.h.taken
  }

  /** On the used ring, or already taken off it by the driver. */
  ghost predicate ReturnedAsUsed(g: Account, d: nat)
    requires d < |g.h.owner|
  {
    g.h.owner[d] >= 0 && Completed(g.h, g.h.owner[d])
  }

  ghost predicate SpareIndex(x: Tx, d: nat) {
    exists i :: 0 <= i < |x.reclaimer| && x.reclaimer[i].idx == d
  }

  /** Buffer a is in a sender's hands and carries index d. */
  ghost predicate SenderIndex(x: Tx, g: Account, a: nat, d: nat) {
    && a in g.own && !Spared(x, a)
    && d == if a in x.ctx then x.ctx[a].idx else if a in x.hdr then BufIndex(x.hdr[a]) else HELD_ONE
  }

  function Ones(p: bool, q: bool, r: bool, t: bool): nat {
    (if p then 1 else 0) + (if q then 1 else 0) + (if r then 1 else 0) + (if t then 1 else 0)
  }

  /** An index carried by an owned buffer is with no one else. */
  lemma IndexTells(x: Tx, g: Account, a: nat)
    requires TxInv(x, g) && a in g.own
    ensures g.own[a] < |g.h.posts| && IndexOf(g.h, g.own, a) < |g.h.owner|
    ensures var d := IndexOf(g.h, g.own, a); g.h.owner[d] == g.own[a] && !WithDriver(g, d) && !ReturnedAsUsed(g, d)
    ensures AddrOf(g.h.posts[g.own[a]]) == a
  {
    hide Inv, BufferOk, SparesOk, Completed;
    OwnerIs(x.s, g.h, g.own, a);
  }

  lemma SameIndex(x: Tx, g: Account, a: nat, b: nat)
    requires TxInv(x, g) && a in g.own && b in g.own
    ensures g.own[a] < |g.h.posts| && g.own[b] < |g.h.posts|
    ensures IndexOf(g.h, g.own, a) == IndexOf(g.h, g.own, b) ==> a == b
  {
    hide TxInv, WithDriver, ReturnedAsUsed, AddrOf;
    IndexTells(x, g, a);
    IndexTells(x, g, b);
  }

  lemma SpareAt(x: Tx, g: Account, i: nat)
    requires TxInv(x, g) && i < |x.reclaimer|
    ensures var r := x.reclaimer[i];
      && r.addr in g.own && g.own[r.addr] < |g.h.posts|
      && r.idx == IndexOf(g.h, g.own, r.addr) && Spared(x, r.addr)
  {
    hide LentInv, BufferOk;
  }

  /** An index that is neither with the driver nor returned belongs to an owned buffer. */
  lemma OwnedBy(x: Tx, g: Account, d: nat) returns (a: nat)
    requires TxInv(x, g) && d < |g.h.owner| && g.h.owner[d] < |g.h.posts|
    requires g.h.owner[d] >= 0 ==> HeadOf(g.h.posts[g.h.owner[d]]) == d
    requires !WithDriver(g, d) && !ReturnedAsUsed(g, d)
    ensures a in g.own && g.own[a] < |g.h.posts| && IndexOf(g.h, g.own, a) == d
  {
    hide Inv, NoAlias, Completed, BufferOk, SparesOk;
    a := AddrOf(g.h.posts[g.h.owner[d]]);
  }

  /** What a sender's buffer carries is its own index. */
  lemma CarriesOwn(x: Tx, g: Account, a: nat)
    requires TxInv(x, g) && a in g.own && !Spared(x, a)
    ensures g.own[a] < |g.h.posts| && SenderIndex(x, g, a, IndexOf(g.h, g.own, a))
    ensures forall d: nat :: SenderIndex(x, g, a, d) ==> d == IndexOf(g.h, g.own, a)
  {
    hide LentInv, SparesOk, Spared, Word;
    IndexSmall(x, g, a);
    assert BufferOk(x, g, a);
    WordOps(1, IndexOf(g.h, g.own, a));
  }

  /** An index in the reclaimer is there once, and nowhere else. */
  lemma SpareOnly(x: Tx, g: Account, i: nat)
    requires TxInv(x, g) && i < |x.reclaimer|
    ensures var d := x.reclaimer[i].idx;
      && d < |g.h.owner| && !WithDriver(g, d) && !ReturnedAsUsed(g, d)
      && (forall a: nat :: !SenderIndex(x, g, a, d))
      && (forall j :: 0 <= j < |x.reclaimer| && j != i ==> x.reclaimer[j].idx != d)
  {
    hide TxInv, WithDriver, ReturnedAsUsed, Spared;
    SpareAt(x, g, i);
    var r := x.reclaimer[i];
    IndexTells(x, g, r.addr);
    forall a: nat ensures !SenderIndex(x, g, a, r.idx) {
      if a in g.own && !Spared(x, a) {
        CarriesOwn(x, g, a);
        SameIndex(x, g, a, r.addr);
      }
    }
    forall j | 0 <= j < |x.reclaimer| && j != i ensures x.reclaimer[j].idx != r.idx {
      SpareAt(x, g, j);
      SameIndex(x, g, r.addr, x.reclaimer[j].addr);
      SparesDiffer(x, g, i, j);
    }
  }

  lemma SparesDiffer(x: Tx, g: Account, i: nat, j: nat)
    requires TxInv(x, g) && i < |x.reclaimer| && j < |x.reclaimer| && i != j
    ensures x.reclaimer[i].addr != x.reclaimer[j].addr
  {
    hide LentInv, BufferOk;
    assert i < j || j < i;
  }

  /** An index in a sender's hands is with one buffer, and nowhere else. */
  lemma SenderOnly(x: Tx, g: Account, a: nat, d: nat)
    requires TxInv(x, g) && SenderIndex(x, g, a, d)
    ensures d < |g.h.owner| && !WithDriver(g, d) && !ReturnedAsUsed(g, d) && !SpareIndex(x, d)
    ensures forall b: nat :: SenderIndex(x, g, b, d) ==> b == a
  {
    hide TxInv, WithDriver, ReturnedAsUsed, Spared;
    CarriesOwn(x, g, a);
    IndexTells(x, g, a);
    if i :| 0 <= i < |x.reclaimer| && x.reclaimer[i].idx == d { SpareOnly(x, g, i); }
    forall b: nat | SenderIndex(x, g, b, d) ensures b == a {
      CarriesOwn(x, g, b);
      SameIndex(x, g, a, b);
    }
  }

  /** Every index that heads a chain, or is free, is in exactly one place. */
  lemma HeadInOnePlace(x: Tx, g: Account, d: nat)
    requires TxInv(x, g) && d < |g.h.owner| && g.h.owner[d] < |g.h.posts|
    requires g.h.owner[d] >= 0 ==> HeadOf(g.h.posts[g.h.owner[d]]) == d
    ensures Ones(WithDriver(g, d), ReturnedAsUsed(g, d), SpareIndex(x, d),
      exists a: nat :: SenderIndex(x, g, a, d)) == 1
  {
    hide TxInv, WithDriver, ReturnedAsUsed, SenderIndex;
    if i :| 0 <= i < |x.reclaimer| && x.reclaimer[i].idx == d {
      SpareOnly(x, g, i);
    } else if a: nat :| SenderIndex(x, g, a, d) {
      SenderOnly(x, g, a, d);
    } else if !WithDriver(g, d) && !ReturnedAsUsed(g, d) {
      var a := OwnedBy(x, g, d);
      if i :| 0 <= i < |x.reclaimer| && x.reclaimer[i].addr == a { SpareAt(x, g, i); } else { CarriesOwn(x, g, a); }
    } else {
      DriverOrUsed(x, g, d);
    }
  }

  /** The index under which descriptor d is handed over: its chain's head, or itself while free. */
  ghost function HandedAs(g: Account, d: nat): nat
    requires d < |g.h.owner| && g.h.owner[d] < |g.h.posts|
  {
    if g.h.owner[d] < 0 then d else HeadOf(g.h.posts[g.h.owner[d]])
  }

  /** The head of a descriptor's chain belongs to the same post. */
  lemma HeadShares(x: Tx, g: Account, d: nat)
    requires TxInv(x, g) && d < |g.h.owner|
    ensures g.h.owner[d] < |g.h.posts| && HandedAs(g, d) < |g.h.owner| && g.h.owner[HandedAs(g, d)] == g.h.owner[d]
  {
    hide NoAlias, Lent, BufferOk, SparesOk, FreeList, Cookies, Slots, Completions, Indices, Counters;
    var k := g.h.owner[d];
    if k >= 0 {
      assert InFlight(g.h, k);
      Shapes(x.s, g.h, k);
      assert g.h.posts[k].chain[0] < |g.h.owner| && g.h.owner[g.h.posts[k].chain[0]] == k;
    }
  }

  /** Every descriptor, in a chain of whatever length, is in exactly one place: with the driver, returned
      as used, in the reclaimer, or with a sender. */
  lemma OnePlace(x: Tx, g: Account, d: nat)
    requires TxInv(x, g) && d < |g.h.owner|
    ensures g.h.owner[d] < |g.h.posts|
    ensures var e := HandedAs(g, d);
      Ones(WithDriver(g, d), ReturnedAsUsed(g, d), SpareIndex(x, e), exists a: nat :: SenderIndex(x, g, a, e)) == 1
  {
    hide TxInv, SpareIndex, SenderIndex, Completed;
    HeadShares(x, g, d);
    HeadInOnePlace(x, g, HandedAs(g, d));
  }

  lemma DriverOrUsed(x: Tx, g: Account, d: nat)
    requires TxInv(x, g) && d < |g.h.owner|
    ensures !(WithDriver(g, d) && ReturnedAsUsed(g, d))
  {
    hide Inv, NoAlias, Completed, BufferOk, SparesOk, Lent;
    if g.h.owner[d] >= g.h.taken { NotYetDone(x.s, g.h, g.h.owner[d]); }
  }
}

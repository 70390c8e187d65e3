/** Notification suppression: when a kick notifies, and why no wakeup is lost. */
module VqNotify {
  import opened Bits
  import opened Vring
  import opened VqHistory
  import opened VqRuns

  // One kick.

  /** The distance the test computes leads back from `published` to the last index equal to `event`. */
  lemma BackToEvent(event: nat, published: nat)
    requires event < U16
    ensures (published - 1 - WrapSub(published % U16, event + 1, U16)) % U16 == event
  {
    var x := published - (event + 1);
    WrapAddOfRem(published, -(event + 1), U16);
    DivRem(x, U16);
    RemUnique(published - 1 - x % U16, U16, x / U16, event);
  }

  lemma CountBack(newIdx: nat, count: nat)
    requires newIdx < U16 && count < U16
    ensures WrapSub(newIdx, WrapSub(newIdx, count, U16), U16) == count
  {
    if newIdx >= count {
      RemUnique(newIdx - count, U16, 0, newIdx - count);
    } else {
      RemUnique(newIdx - count, U16, -1, newIdx - count + U16);
      RemUnique(count - U16, U16, -1, count);
    }
  }

  /** The cyclic test on three 16-bit indices: `event` is one of the `count` indices up to, and not
      including, `published`. */
  lemma NeedEventExact(event: nat, published: nat, count: nat)
    requires event < U16 && count < U16 && count <= published
    ensures NeedEvent(event, published % U16, WrapSub(published % U16, count, U16))
       <==> exists i: nat :: published - count <= i < published && i % U16 == event
  {
    var back := WrapSub(published % U16, event + 1, U16);
    var last := published - 1 - back;
    BackToEvent(event, published);
    CountBack(published % U16, count);
    hide WrapSub;
    if back < count {
      var i: nat := last;
      assert published - count <= i < published && i % U16 == event;
    }
    if i: nat :| published - count <= i < published && i % U16 == event {
      if i < last { RemApart(i, last, U16); }
      if last < i { RemApart(last, i, U16); }
    }
  }

  function Peer(role: Role): Role {
    match role case Driver => Device case Device => Driver
  }

  function QueueOf(s: System, role: Role): Queue {
    match role case Driver => s.drv case Device => s.dev
  }

  /** How many entries `role` has published, and how many of them before its last kick. */
  ghost function Published(h: History, role: Role): nat {
    match role case Driver => h.published case Device => h.used
  }

  ghost function KickedAt(h: History, role: Role): nat {
    match role case Driver => h.drvKicked case Device => h.devKicked
  }

  /** The event index that governs the notifications of `role`, written by its peer. */
  ghost function EventFor(s: System, role: Role): nat {
    match role case Driver => s.ring.availEvent case Device => s.ring.usedEvent
  }

  ghost predicate Silenced(s: System, role: Role) {
    match role case Driver => s.ring.usedFlags % 2 == 1 case Device => s.ring.availFlags % 2 == 1
  }

  /** In event-index mode a kick notifies exactly when the peer's event index is among the last
      (publishes since the previous kick) mod 2^16 published indices. */
  lemma KickNotifies(s: System, h: History, role: Role)
    requires Inv(s, h) && EventFor(s, role) < U16
    ensures var p := Published(h, role);
      var count := (p - KickedAt(h, role)) % U16;
      MustNotify(role, true, QueueOf(s, role), s.ring)
      <==> (exists i: nat :: p - count <= i < p && i % U16 == EventFor(s, role))
  {
    hide FreeList, Ownership, Chains, Cookies, Slots, Completions, NeedEvent;
    var p := Published(h, role);
    KickedBefore(s, h, role);
    DivRem(p - KickedAt(h, role), U16);
    NeedEventExact(EventFor(s, role), p, (p - KickedAt(h, role)) % U16);
  }

  /** With fewer than 2^16 publishes between kicks, those are all of them ... */
  lemma KickNotifiesExactly(s: System, h: History, role: Role)
    requires Inv(s, h) && EventFor(s, role) < U16
    requires Published(h, role) - KickedAt(h, role) < U16
    ensures MustNotify(role, true, QueueOf(s, role), s.ring)
       <==> exists i: nat :: KickedAt(h, role) <= i < Published(h, role) && i % U16 == EventFor(s, role)
  {
    hide Inv, MustNotify, Published, KickedAt, EventFor;
    KickNotifies(s, h, role);
    KickedBefore(s, h, role);
    var count := Published(h, role) - KickedAt(h, role);
    RemUnique(count, U16, 0, count);
  }

  lemma KickedBefore(s: System, h: History, role: Role)
    requires Inv(s, h)
    ensures KickedAt(h, role) <= Published(h, role)
  {
    hide FreeList, Ownership, Chains, Cookies, Slots, Completions;
  }

  /** ... and after any multiple of 2^16 the kick is silent, although every index has been published. */
  lemma KickWrapsToSilence(s: System, h: History, role: Role)
    requires Inv(s, h) && EventFor(s, role) < U16
    requires Published(h, role) > KickedAt(h, role) && (Published(h, role) - KickedAt(h, role)) % U16 == 0
    ensures !MustNotify(role, true, QueueOf(s, role), s.ring)
    ensures exists i: nat :: KickedAt(h, role) <= i < Published(h, role) && i % U16 == EventFor(s, role)
  {
    hide Inv, MustNotify, Published;
    KickNotifies(s, h, role);
    var k, e := KickedAt(h, role), EventFor(s, role);
    DivRem(k, U16);
    var i: nat := if k % U16 <= e then k - k % U16 + e else k - k % U16 + U16 + e;
    RemUnique(i, U16, if k % U16 <= e then k / U16 else k / U16 + 1, e);
    assert Published(h, role) - k >= U16;
    assert k <= i < Published(h, role) && i % U16 == e;
  }

  /** Event indices are 16-bit numbers in every reachable state. */
  lemma {:induction false} RunsEventRange(n: nat, events: bool, acts: seq<Action>, role: Role)
    requires QueueSize(n)
    ensures var o := Execute(n, events, acts); o.Ran? ==> EventFor(o.s, role) < U16
  {
    if acts != [] {
      var init := acts[..|acts| - 1];
      RunsEventRange(n, events, init, role);
      RunsRefine(n, events, init);
      var o, p := Execute(n, events, acts), Execute(n, events, init);
      if o.Ran? {
        EventRangeStep(p.s, p.h, acts[|acts| - 1], role);
        hide Inv, StepSystem, StepHistory;
      }
    }
  }

  lemma EventRangeStep(s: System, h: History, a: Action, role: Role)
    requires Inv(s, h) && Defined(s, a) && EventFor(s, role) < U16
    ensures EventFor(StepSystem(s, a).0, role) < U16
  {
    assert s.drv.usedConsIdx < U16 && s.dev.availableIdx < U16;
    hide Inv, FillChain, ChainEnd;
  }

  // Enabling callbacks.

  /** `role` has asked to be woken at entry c of its peer. */
  ghost predicate ArmedAt(s: System, role: Role, c: nat) {
    if s.events then EventFor(s, Peer(role)) == c % U16 else !Silenced(s, Peer(role))
  }

  ghost function ReadBy(h: History, role: Role): nat {
    match role case Driver => h.claimed case Device => h.taken
  }

  ghost predicate Checking(s: System, role: Role) {
    match role case Driver => s.drvPc.DCheck? case Device => s.devPc.VCheck?
  }

  /** Between the two halves of enable_cb the request stands at the next unread entry. */
  ghost predicate ArmedWhileChecking(s: System, h: History) {
    && (Checking(s, Driver) ==> ArmedAt(s, Driver, h.claimed))
    && (Checking(s, Device) ==> ArmedAt(s, Device, h.taken))
  }

  /** Does the action rewrite the request of `role`? */
  predicate Rewrites(a: Action, role: Role) {
    a == Arm(role) || a == Suppress(role)
  }

  /** Only Arm and Suppress of the same role touch a request. */
  lemma RequestKept(s: System, a: Action, role: Role)
    requires Defined(s, a) && !Rewrites(a, role)
    ensures var s' := StepSystem(s, a).0;
      && EventFor(s', Peer(role)) == EventFor(s, Peer(role))
      && (Silenced(s', Peer(role)) <==> Silenced(s, Peer(role))) && s'.events == s.events
  {
    hide FillChain, ChainEnd, WrapSub, SetLow, ClearLow;
  }

  lemma RequestStands(s: System, a: Action, role: Role, c: nat)
    requires Defined(s, a) && !Rewrites(a, role) && ArmedAt(s, role, c)
    ensures ArmedAt(StepSystem(s, a).0, role, c)
  {
    hide StepSystem, EventFor, Silenced;
    RequestKept(s, a, role);
  }

  lemma ArmWrites(s: System, h: History, role: Role)
    requires Indices(s, h) && Enabled(s, h, Arm(role))
    ensures ArmedAt(StepSystem(s, Arm(role)).0, role, ReadBy(h, role))
  {
  }

  lemma CheckingMeansArmed(s: System, h: History, a: Action)
    requires Inv(s, h) && Enabled(s, h, a) && Defined(s, a) && Meaningful(h, a) && ArmedWhileChecking(s, h)
    ensures ArmedWhileChecking(StepSystem(s, a).0, StepHistory(h, a).0)
  {
    CheckingRole(s, h, a, Driver);
    CheckingRole(s, h, a, Device);
    hide Inv, StepSystem, StepHistory, ArmedAt;
  }

  lemma CheckingRole(s: System, h: History, a: Action, role: Role)
    requires Inv(s, h) && Enabled(s, h, a) && Defined(s, a) && Meaningful(h, a) && ArmedWhileChecking(s, h)
    ensures var s', h' := StepSystem(s, a).0, StepHistory(h, a).0;
      Checking(s', role) ==> ArmedAt(s', role, ReadBy(h', role))
  {
    hide FreeList, Ownership, Chains, Cookies, Slots, Completions, Counters, Indices, ArmedAt;
    var s' := StepSystem(s, a).0;
    if Checking(s', role) {
      if a == Arm(role) {
        ArmWrites(s, h, role);
      } else {
        CheckingPersists(s, h, a, role);
        RequestStands(s, a, role, ReadBy(h, role));
      }
    }
  }

  lemma CheckingPersists(s: System, h: History, a: Action, role: Role)
    requires Enabled(s, h, a) && Defined(s, a) && Meaningful(h, a) && a != Arm(role)
    requires Checking(StepSystem(s, a).0, role)
    ensures Checking(s, role) && !Rewrites(a, role)
    ensures ReadBy(StepHistory(h, a).0, role) == ReadBy(h, role)
  {
    hide FillChain, ChainEnd, WrapSub, SetLow, ClearLow;
  }

  lemma {:induction false} RunsCheckArmed(n: nat, events: bool, acts: seq<Action>)
    requires QueueSize(n)
    ensures var o := Execute(n, events, acts); o.Ran? ==> ArmedWhileChecking(o.s, o.h) && o.s.events == events
  {
    if acts != [] {
      var init := acts[..|acts| - 1];
      RunsCheckArmed(n, events, init);
      RunsRefine(n, events, init);
      var o, p := Execute(n, events, acts), Execute(n, events, init);
      if o.Ran? {
        CheckingMeansArmed(p.s, p.h, acts[|acts| - 1]);
        EventsFixed(p.s, acts[|acts| - 1]);
        hide Inv, ArmedWhileChecking, StepSystem, StepHistory;
      }
    }
  }

  lemma EventsFixed(s: System, a: Action)
    requires Defined(s, a)
    ensures StepSystem(s, a).0.events == s.events
  {
  }

  /** Entry p of the run is a successful enable_cb of `role`: no unread entries were found. */
  ghost predicate Enables(o: Outcome, acts: seq<Action>, p: nat, role: Role) {
    o.Ran? && p < |acts| == |o.got| && acts[p] == Check(role) && o.got[p] == Unread(false)
  }

  /** After entry p, `role` leaves its request alone. */
  predicate Undisturbed(acts: seq<Action>, p: nat, role: Role) {
    forall q :: p < q < |acts| ==> !Rewrites(acts[q], role)
  }

  /** The request stands at entry c, which the peer has not passed when it was made. */
  ghost predicate Waiting(s: System, h: History, role: Role, c: nat) {
    ArmedAt(s, role, c) && c <= Published(h, Peer(role))
  }

  lemma CheckStartsWaiting(n: nat, events: bool, acts: seq<Action>, role: Role)
    requires QueueSize(n) && acts != []
    requires Enables(Execute(n, events, acts), acts, |acts| - 1, role)
    ensures var o := Execute(n, events, acts); Waiting(o.s, o.h, role, Published(o.h, Peer(role)))
  {
    hide Execute, Inv, ArmedAt, ArmedWhileChecking, StepSystem, StepHistory, Enabled, Defined, Meaningful;
    hide Published, KickedAt, ReadBy;
    var init := acts[..|acts| - 1];
    var o0 := Execute(n, events, init);
    RunsRefine(n, events, acts);
    RunsRefine(n, events, init);
    RunsCheckArmed(n, events, init);
    LastStep(n, events, acts);
    CheckFindsNothing(o0.s, o0.h, role);
  }

  lemma LastStep(n: nat, events: bool, acts: seq<Action>)
    requires acts != [] && Execute(n, events, acts).Ran?
    ensures var o, o0 := Execute(n, events, acts), Execute(n, events, acts[..|acts| - 1]);
      var a := acts[|acts| - 1];
      && o0.Ran? && Enabled(o0.s, o0.h, a) && Defined(o0.s, a) && Meaningful(o0.h, a)
      && o.s == StepSystem(o0.s, a).0 && o.h == StepHistory(o0.h, a).0
      && o.due == o0.due + [StepHistory(o0.h, a).1]
  {
    hide Enabled, Defined, Meaningful, StepSystem, StepHistory;
  }

  lemma WaitingGoesOn(s: System, h: History, a: Action, role: Role, c: nat)
    requires Defined(s, a) && Meaningful(h, a) && !Rewrites(a, role)
    requires Waiting(s, h, role, c)
    ensures Waiting(StepSystem(s, a).0, StepHistory(h, a).0, role, c)
  {
    RequestStands(s, a, role, c);
    PublishedGrows(h, a, Peer(role));
    hide ArmedAt, StepSystem, StepHistory;
  }

  /** From a successful enable_cb on, whatever the peer does and whatever else `role` does, the peer is
      waited for at the entry that was next then. */
  lemma {:induction false} EnabledStaysArmed(n: nat, events: bool, acts: seq<Action>, p: nat, role: Role)
    requires QueueSize(n)
    requires Enables(Execute(n, events, acts), acts, p, role) && Undisturbed(acts, p, role)
    ensures Execute(n, events, acts[..p + 1]).Ran?
    ensures var o, o1 := Execute(n, events, acts), Execute(n, events, acts[..p + 1]);
      Waiting(o.s, o.h, role, Published(o1.h, Peer(role)))
    decreases |acts|
  {
    if p == |acts| - 1 {
      assert acts[..p + 1] == acts;
      CheckStartsWaiting(n, events, acts, role);
    } else {
      var init := acts[..|acts| - 1];
      var a := acts[|acts| - 1];
      var o, o0 := Execute(n, events, acts), Execute(n, events, init);
      assert o0.Ran? && o0.got == o.got[..|o.got| - 1];
      assert acts[p] == init[p];
      assert Undisturbed(init, p, role) by {
        forall q | p < q < |init| ensures !Rewrites(init[q], role) {
          assert init[q] == acts[q];
        }
      }
      EnabledStaysArmed(n, events, init, p, role);
      assert init[..p + 1] == acts[..p + 1];
      hide Waiting, StepSystem, StepHistory, Enabled;
      WaitingGoesOn(o0.s, o0.h, a, role, Published(Execute(n, events, init[..p + 1]).h, Peer(role)));
    }
  }

  lemma CheckFindsNothing(s: System, h: History, role: Role)
    requires Inv(s, h) && ArmedWhileChecking(s, h) && Enabled(s, h, Check(role))
    ensures Meaningful(h, Check(role)) && Defined(s, Check(role))
    ensures var s', h' := StepSystem(s, Check(role)).0, StepHistory(h, Check(role)).0;
      && ArmedAt(s', role, ReadBy(h, role))
      && (StepHistory(h, Check(role)).1 == Unread(false) ==>
            KickedAt(h', Peer(role)) <= ReadBy(h, role) == Published(h', Peer(role)))
  {
    RequestStands(s, Check(role), role, ReadBy(h, role));
    hide FreeList, Ownership, Chains, Cookies, Slots, Completions, Indices;
  }

  lemma PublishedGrows(h: History, a: Action, role: Role)
    requires Meaningful(h, a)
    ensures var h' := StepHistory(h, a).0;
      && Published(h, role) <= Published(h', role)
      && (a != Kick(role) ==> KickedAt(h', role) == KickedAt(h, role))
  {
  }

  /** Some index that is c modulo 2^16 lies among the last `count` exactly when the last such index
      before `now` does. */
  lemma LastCongruent(c: int, now: nat, count: nat)
    requires c <= now && count < U16 && count <= now
    ensures (exists i: nat :: now - count <= i < now && i % U16 == c % U16) <==> (now - 1 - c) % U16 < count
  {
    var back := (now - 1 - c) % U16;
    var last := now - 1 - back;
    DivRem(now - 1 - c, U16);
    assert last == c + ((now - 1 - c) / U16) * U16;
    SameRem(c, (now - 1 - c) / U16, last);
    if back < count {
      var i: nat := last;
      assert now - count <= i < now && i % U16 == c % U16;
    }
    if i: nat :| now - count <= i < now && i % U16 == c % U16 {
      if i < last { RemApart(i, last, U16); }
      if last < i { RemApart(last, i, U16); }
    }
  }

  lemma SameRem(c: int, q: int, x: int)
    requires x == c + q * U16
    ensures x % U16 == c % U16
  {
    DivRem(c, U16);
    assert (c / U16 + q) * U16 == (c / U16) * U16 + q * U16;
    RemUnique(x, U16, c / U16 + q, c % U16);
  }

  /** When a kick wakes: after an enable_cb that found nothing unread, whatever the peer has done since,
      kicks included, and however much has been published, a kick of the peer notifies in flag mode
      always, and in event-index mode exactly when the entry waited for is, modulo 2^16, among those
      counted since the peer's last kick. */
  lemma WakeupExactly(n: nat, events: bool, acts: seq<Action>, p: nat, role: Role)
    requires QueueSize(n)
    requires Enables(Execute(n, events, acts), acts, p, role) && Undisturbed(acts, p, role)
    ensures Execute(n, events, acts[..p + 1]).Ran?
    ensures var o := Execute(n, events, acts);
      var c, now := Published(Execute(n, events, acts[..p + 1]).h, Peer(role)), Published(o.h, Peer(role));
      MustNotify(Peer(role), events, QueueOf(o.s, Peer(role)), o.s.ring)
      <==> !events || (now - 1 - c) % U16 < (now - KickedAt(o.h, Peer(role))) % U16
  {
    hide Execute, Inv, MustNotify, Waiting, ArmedWhileChecking, Undisturbed, Published, KickedAt;
    EnabledStaysArmed(n, events, acts, p, role);
    RunsRefine(n, events, acts);
    RunsCheckArmed(n, events, acts);
    var o := Execute(n, events, acts);
    var c := Published(Execute(n, events, acts[..p + 1]).h, Peer(role));
    WakeupFrom(o.s, o.h, role, c);
  }

  lemma WakeupFrom(s: System, h: History, role: Role, c: nat)
    requires Inv(s, h) && Waiting(s, h, role, c)
    ensures var now := Published(h, Peer(role));
      MustNotify(Peer(role), s.events, QueueOf(s, Peer(role)), s.ring)
      <==> !s.events || (now - 1 - c) % U16 < (now - KickedAt(h, Peer(role))) % U16
  {
    if s.events {
      hide Inv, MustNotify, Published, KickedAt, EventFor;
      var now, count := Published(h, Peer(role)), (Published(h, Peer(role)) - KickedAt(h, Peer(role))) % U16;
      KickedBefore(s, h, Peer(role));
      KickNotifies(s, h, Peer(role));
      CountSmall(now - KickedAt(h, Peer(role)));
      LastCongruent(c, now, count);
    } else {
      hide Inv;
    }
  }

  lemma CountSmall(x: nat)
    ensures x % U16 <= x && x % U16 < U16
  {
  }

  /** No lost wakeup.  After an enable_cb that found nothing unread, the first kick of the peer that
      comes once it has published one more entry notifies: in flag mode, and in event-index mode as
      long as fewer than 2^16 entries were published since the kick before.  That earlier kick may
      itself have come after the enable, as one still pending then. */
  lemma NoLostWakeup(n: nat, events: bool, acts: seq<Action>, p: nat, role: Role)
    requires QueueSize(n)
    requires Enables(Execute(n, events, acts), acts, p, role) && Undisturbed(acts, p, role)
    requires var o := Execute(n, events, acts[..p + 1]);
      var h := Execute(n, events, acts).h;
      && o.Ran?
      && KickedAt(h, Peer(role)) <= Published(o.h, Peer(role)) < Published(h, Peer(role))
      && (events ==> Published(h, Peer(role)) - KickedAt(h, Peer(role)) < U16)
    ensures var s := Execute(n, events, acts).s; MustNotify(Peer(role), events, QueueOf(s, Peer(role)), s.ring)
  {
    hide Execute, Inv, MustNotify, ArmedAt, Undisturbed, Published, KickedAt;
    WakeupExactly(n, events, acts, p, role);
    var h := Execute(n, events, acts).h;
    var now, k := Published(h, Peer(role)), KickedAt(h, Peer(role));
    var c := Published(Execute(n, events, acts[..p + 1]).h, Peer(role));
    if events {
      RemUnique(now - 1 - c, U16, 0, now - 1 - c);
      RemUnique(now - k, U16, 0, now - k);
    }
  }

  // Disabling callbacks.

  /** `role` with n descriptors has asked, having read c entries, not to be woken. */
  ghost predicate SuppressedAt(s: System, role: Role, n: nat, c: nat) {
    if s.events then EventFor(s, Peer(role)) == (c - n - 1) % U16 else Silenced(s, Peer(role))
  }

  lemma SuppressWrites(s: System, h: History, role: Role)
    requires Inv(s, h)
    ensures SuppressedAt(StepSystem(s, Suppress(role)).0, role, s.drv.nentries, ReadBy(h, role))
  {
    hide FreeList, Ownership, Chains, Cookies, Slots, Completions, Counters;
    WrapAddOfRem(ReadBy(h, role), -(s.drv.nentries + 1), U16);
  }

  lemma {:induction false} RunsSize(n: nat, events: bool, acts: seq<Action>)
    ensures var o := Execute(n, events, acts);
      o.Ran? ==> o.s.drv.nentries == o.s.dev.nentries == n && o.s.events == events
  {
    hide StepSystem, StepHistory, Enabled, Defined, Meaningful;
    if acts != [] {
      var init := acts[..|acts| - 1];
      RunsSize(n, events, init);
      var o0 := Execute(n, events, init);
      if Execute(n, events, acts).Ran? { SizeKept(o0.s, acts[|acts| - 1]); }
    }
  }

  lemma SizeKept(s: System, a: Action)
    requires Defined(s, a)
    ensures var s' := StepSystem(s, a).0;
      s'.drv.nentries == s.drv.nentries && s'.dev.nentries == s.dev.nentries && s'.events == s.events
  {
    hide FillChain, ChainEnd, WrapSub;
  }

  /** From a disable_cb on, the request stands, and c never overtakes what the peer has published. */
  lemma {:induction false} DisabledStays(n: nat, events: bool, acts: seq<Action>, p: nat, role: Role)
    requires QueueSize(n) && Execute(n, events, acts).Ran?
    requires p < |acts| && acts[p] == Suppress(role) && Undisturbed(acts, p, role)
    ensures Execute(n, events, acts[..p + 1]).Ran?
    ensures var o, c := Execute(n, events, acts), ReadBy(Execute(n, events, acts[..p + 1]).h, role);
      SuppressedAt(o.s, role, n, c) && c <= Published(o.h, Peer(role))
    decreases |acts|
  {
    hide Execute, Inv, StepSystem, StepHistory, Enabled, Defined, Meaningful, SuppressedAt, Published, ReadBy;
    var init, a := acts[..|acts| - 1], acts[|acts| - 1];
    LastStep(n, events, acts);
    var o0 := Execute(n, events, init);
    RunsSize(n, events, init);
    RunsRefine(n, events, init);
    PublishedGrows(o0.h, a, Peer(role));
    if p == |acts| - 1 {
      assert acts[..p + 1] == acts;
      SuppressWrites(o0.s, o0.h, role);
      SuppressReads(o0.s, o0.h, role);
    } else {
      assert init[..p + 1] == acts[..p + 1] && init[p] == acts[p];
      forall q | p < q < |init| ensures !Rewrites(init[q], role) { assert init[q] == acts[q]; }
      DisabledStays(n, events, init, p, role);
      SuppressStands(o0.s, a, role, n, ReadBy(Execute(n, events, acts[..p + 1]).h, role));
    }
  }

  lemma SuppressReads(s: System, h: History, role: Role)
    requires Inv(s, h) && Meaningful(h, Suppress(role))
    ensures ReadBy(StepHistory(h, Suppress(role)).0, role) == ReadBy(h, role) <= Published(h, Peer(role))
  {
    hide FreeList, Ownership, Chains, Cookies, Slots, Completions, Indices;
  }

  lemma SuppressStands(s: System, a: Action, role: Role, n: nat, c: nat)
    requires Defined(s, a) && !Rewrites(a, role) && SuppressedAt(s, role, n, c)
    ensures SuppressedAt(StepSystem(s, a).0, role, n, c)
  {
    hide StepSystem, EventFor, Silenced;
    RequestKept(s, a, role);
  }

  /** When a kick disturbs: after a disable_cb that had read c entries, a kick of the peer never notifies
      in flag mode; in event-index mode it notifies exactly when index c - n - 1, where the request was
      put, is, modulo 2^16, among those counted since the peer's last kick. */
  lemma DisabledExactly(n: nat, events: bool, acts: seq<Action>, p: nat, role: Role)
    requires QueueSize(n) && Execute(n, events, acts).Ran?
    requires p < |acts| && acts[p] == Suppress(role) && Undisturbed(acts, p, role)
    ensures Execute(n, events, acts[..p + 1]).Ran?
    ensures var o, c := Execute(n, events, acts), ReadBy(Execute(n, events, acts[..p + 1]).h, role);
      var now := Published(o.h, Peer(role));
      MustNotify(Peer(role), events, QueueOf(o.s, Peer(role)), o.s.ring)
      <==> events && (now - c + n) % U16 < (now - KickedAt(o.h, Peer(role))) % U16
  {
    hide Execute, Inv, MustNotify, SuppressedAt, Undisturbed, Published, KickedAt, ReadBy;
    DisabledStays(n, events, acts, p, role);
    RunsRefine(n, events, acts);
    RunsSize(n, events, acts);
    var o := Execute(n, events, acts);
    DisturbedFrom(o.s, o.h, role, n, ReadBy(Execute(n, events, acts[..p + 1]).h, role));
  }

  lemma DisturbedFrom(s: System, h: History, role: Role, n: nat, c: nat)
    requires Inv(s, h) && SuppressedAt(s, role, n, c) && c <= Published(h, Peer(role))
    ensures var now := Published(h, Peer(role));
      MustNotify(Peer(role), s.events, QueueOf(s, Peer(role)), s.ring)
      <==> s.events && (now - c + n) % U16 < (now - KickedAt(h, Peer(role))) % U16
  {
    if s.events {
      hide Inv, MustNotify, Published, KickedAt, EventFor;
      var now, count := Published(h, Peer(role)), (Published(h, Peer(role)) - KickedAt(h, Peer(role))) % U16;
      KickedBefore(s, h, Peer(role));
      KickNotifies(s, h, Peer(role));
      CountSmall(now - KickedAt(h, Peer(role)));
      LastCongruent(c - n - 1, now, count);
    } else {
      hide Inv;
    }
  }
}

/** The virtqueue protocol as an interleaving of driver and device steps.  `System` holds only what
    the C code holds; `History` is the unbounded queue that it implements: every chain ever posted,
    every completion, and five counters that never wrap. */
module VqHistory {
  import opened Bits
  import opened Vring

  datatype Post = Post(chain: seq<nat>, bufs: seq<Buf>, readable: nat, cookie: nat)

  /** The device has completed posts[post]. */
  datatype Done = Done(post: nat, len: nat)

  // Where each side is inside an operation that is cut by a fence.
  datatype DriverPc = DIdle | DPublish | DReap(slot: nat) | DCheck
  datatype DevicePc = VIdle | VPublish | VCheck

  datatype System = System(events: bool, drv: Queue, dev: Queue, ring: Ring, drvPc: DriverPc, devPc: DevicePc)

  /** `free` is the free list, `owner[d]` the in-flight post that descriptor d belongs to (-1: free).
      Posts, completions and collections are counted without wrapping:
      consumed <= claimed <= used <= |done| <= taken <= published <= |posts|. */
  datatype History = History(
    free: seq<nat>, owner: seq<int>,
    posts: seq<Post>, published: nat, taken: nat,
    done: seq<Done>, used: nat, claimed: nat, consumed: nat,
    drvKicked: nat, devKicked: nat)

  datatype Action =
    | Prepare(bufs: seq<Buf>, readable: nat, cookie: nat)
    | Publish
    | Claim
    | Finish
    | TakeNext
    | Consume(head: nat, len: nat)
    | ConsumeDone
    | Arm(role: Role)
    | Check(role: Role)
    | Suppress(role: Role)
    | Kick(role: Role)

  /** What a step hands to its caller. */
  datatype Output =
    | Silent
    | Collected(cookie: nat, len: nat)
    | Delivered(head: nat, addr: nat, len: nat)
    | Unread(more: bool)

  // What the code does.

  ghost predicate Defined(s: System, a: Action) {
    match a
    case Prepare(bufs, _, _) => CanAdd(s.drv, s.ring, bufs)
    case Finish => s.drvPc.DReap? && CanReap(s.drv, s.ring, s.drvPc.slot)
    case Claim => s.drv.nentries > 0
    case TakeNext => CanTake(s.dev, s.ring)
    case Consume(_, _) => Sized(s.dev, s.ring)
    case _ => true
  }

  ghost function StepSystem(s: System, a: Action): (System, Output)
    requires Defined(s, a)
  {
    match a
    case Prepare(bufs, readable, cookie) =>
      var (q, r) := AddPrepare(s.drv, s.ring, bufs, readable, cookie);
      (s.(drv := q, ring := r, drvPc := DPublish), Silent)
    case Publish =>
      var (q, r) := AddPublish(s.drv, s.ring);
      (s.(drv := q, ring := r, drvPc := DIdle), Silent)
    case Claim =>
      (s.(drv := ReapClaim(s.drv), drvPc := DReap(Slot(s.drv.usedConsIdx, s.drv.nentries))), Silent)
    case Finish =>
      var x := ReapFinish(s.drv, s.ring, s.drvPc.slot);
      (s.(drv := x.q, ring := x.r, drvPc := DIdle), Collected(x.cookie, x.len))
    case TakeNext =>
      var x := Take(s.dev, s.ring);
      (s.(dev := x.q), Delivered(x.head, x.addr, x.len))
    case Consume(head, len) =>
      (s.(ring := ConsumeWrite(s.dev, s.ring, head, len), devPc := VPublish), Silent)
    case ConsumeDone =>
      var (q, r) := ConsumePublish(s.dev, s.ring);
      (s.(dev := q, ring := r, devPc := VIdle), Silent)
    case Arm(Driver) => (s.(ring := EnableWrite(Driver, s.events, s.drv, s.ring), drvPc := DCheck), Silent)
    case Arm(Device) => (s.(ring := EnableWrite(Device, s.events, s.dev, s.ring), devPc := VCheck), Silent)
    case Check(Driver) => (s.(drvPc := DIdle), Unread(EnableCheck(Driver, s.drv, s.ring)))
    case Check(Device) => (s.(devPc := VIdle), Unread(EnableCheck(Device, s.dev, s.ring)))
    case Suppress(Driver) => (s.(ring := Disable(Driver, s.events, s.drv, s.ring)), Silent)
    case Suppress(Device) => (s.(ring := Disable(Device, s.events, s.dev, s.ring)), Silent)
    case Kick(Driver) => (s.(drv := Kicked(s.drv)), Silent)
    case Kick(Device) => (s.(dev := Kicked(s.dev)), Silent)
  }

  // What it means.

  ghost predicate Returned(h: History, k: nat) {
    exists j :: 0 <= j < h.consumed && j < |h.done| && h.done[j].post == k
  }

  ghost predicate InFlight(h: History, k: nat) {
    k < |h.posts| && !Returned(h, k)
  }

  /** The device holds the chain that starts at `head`: delivered and not yet completed. */
  ghost predicate Holds(h: History, head: nat) {
    && head < |h.owner|
    && 0 <= h.owner[head] < h.taken <= |h.posts|
    && h.posts[h.owner[head]].chain != []
    && h.posts[h.owner[head]].chain[0] == head
    && forall j :: 0 <= j < |h.done| ==> h.done[j].post != h.owner[head]
  }

  /** When a step may happen: program order on each side, the demands add_buffer makes of its
      caller, and a device that returns only chains it holds. */
  ghost predicate Enabled(s: System, h: History, a: Action) {
    match a
    case Prepare(bufs, readable, cookie) =>
      s.drvPc.DIdle? && 1 <= |bufs| <= s.drv.freeCnt && readable <= |bufs| && cookie != 0
    case Publish => s.drvPc.DPublish?
    case Claim => s.drvPc.DIdle? && UsedPending(s.drv, s.ring)
    case Finish => s.drvPc.DReap?
    case TakeNext => s.devPc.VIdle? && AvailPending(s.dev, s.ring)
    case Consume(head, len) => s.devPc.VIdle? && Holds(h, head)
    case ConsumeDone => s.devPc.VPublish?
    case Arm(Driver) => s.drvPc.DIdle?
    case Arm(Device) => s.devPc.VIdle?
    case Check(Driver) => s.drvPc.DCheck?
    case Check(Device) => s.devPc.VCheck?
    case Suppress(Driver) => s.drvPc.DIdle?
    case Suppress(Device) => s.devPc.VIdle?
    case Kick(Driver) => s.drvPc.DIdle?
    case Kick(Device) => s.devPc.VIdle?
  }

  ghost predicate Meaningful(h: History, a: Action) {
    match a
    case Prepare(bufs, _, _) => |bufs| <= |h.free|
    case Finish =>
      h.consumed < |h.done| && h.done[h.consumed].post < |h.posts|
    case TakeNext => h.taken < |h.posts| && h.posts[h.taken].chain != [] && h.posts[h.taken].bufs != []
    case Consume(head, _) => head < |h.owner| && h.owner[head] >= 0
    case _ => true
  }

  /** The unbounded queue: descriptors come off the free list in order, chains are delivered in the
      order of posting, completions may come in any order and are collected in that order. */
  ghost function StepHistory(h: History, a: Action): (History, Output)
    requires Meaningful(h, a)
  {
    match a
    case Prepare(bufs, readable, cookie) =>
      var chain := h.free[..|bufs|];
      (h.(free := h.free[|bufs|..],
          owner := seq(|h.owner|, (d: nat) requires d < |h.owner| => if d in chain then |h.posts| else h.owner[d]),
          posts := h.posts + [Post(chain, bufs, readable, cookie)]), Silent)
    case Publish => (h.(published := h.published + 1), Silent)
    case Claim => (h.(claimed := h.claimed + 1), Silent)
    case Finish =>
      var c := h.done[h.consumed];
      (h.(free := h.posts[c.post].chain + h.free,
          owner := seq(|h.owner|, (d: nat) requires d < |h.owner| => if h.owner[d] == c.post then -1 else h.owner[d]),
          consumed := h.consumed + 1), Collected(h.posts[c.post].cookie, c.len))
    case TakeNext =>
      var p := h.posts[h.taken];
      (h.(taken := h.taken + 1), Delivered(p.chain[0], p.bufs[0].addr, p.bufs[0].len))
    case Consume(head, len) => (h.(done := h.done + [Done(h.owner[head], len)]), Silent)
    case ConsumeDone => (h.(used := h.used + 1), Silent)
    case Check(Driver) => (h, Unread(h.used > h.claimed))
    case Check(Device) => (h, Unread(h.published > h.taken))
    case Kick(Driver) => (h.(drvKicked := h.published), Silent)
    case Kick(Device) => (h.(devKicked := h.used), Silent)
    case _ => (h, Silent)
  }

  // The invariant that ties the two together.

  ghost predicate Distinct(s: seq<nat>) {
    forall i, j :: 0 <= i < j < |s| ==> s[i] != s[j]
  }

  function LinkAt(free: seq<nat>, i: nat): nat {
    if i < |free| then free[i] else CHAIN_END
  }

  ghost predicate Shape(s: System, h: History) {
    && QueueSize(s.drv.nentries)
    && s.dev.nentries == s.drv.nentries == |h.owner|
    && Sized(s.drv, s.ring) && Sized(s.dev, s.ring)
  }

  ghost predicate Counters(s: System, h: History) {
    && h.consumed <= h.claimed <= h.used <= |h.done| <= h.taken <= h.published <= |h.posts| <= h.consumed + |h.owner|
    && h.drvKicked <= h.published && h.devKicked <= h.used
    && |h.posts| == h.published + (if s.drvPc.DPublish? then 1 else 0)
    && h.claimed == h.consumed + (if s.drvPc.DReap? then 1 else 0)
    && |h.done| == h.used + (if s.devPc.VPublish? then 1 else 0)
    && (s.drvPc.DReap? && |h.owner| > 0 ==> s.drvPc.slot == h.consumed % |h.owner|)
  }

  /** The 16-bit counters are the unbounded ones modulo 2^16. */
  ghost predicate Indices(s: System, h: History) {
    && s.ring.availIdx == h.published % U16
    && s.ring.usedIdx == h.used % U16
    && s.drv.usedConsIdx == h.claimed % U16
    && s.dev.availableIdx == h.taken % U16
    && s.drv.queuedCnt == (h.published - h.drvKicked) % U16
    && s.dev.queuedCnt == (h.used - h.devKicked) % U16
  }

  /** The descriptors of `free` are linked in this order, the last one to CHAIN_END. */
  ghost predicate Linked(desc: seq<Desc>, free: seq<nat>) {
    && Distinct(free)
    && (forall j :: 0 <= j < |free| ==> free[j] < |desc|)
    && (forall j {:trigger desc[free[j]]} :: 0 <= j < |free| ==> desc[free[j]].next == LinkAt(free, j + 1))
  }

  /** One acyclic free chain of exactly freeCnt descriptors, ending in CHAIN_END. */
  ghost predicate FreeList(q: Queue, desc: seq<Desc>, free: seq<nat>) {
    && q.freeCnt == |free|
    && q.headIdx == LinkAt(free, 0)
    && Linked(desc, free)
  }

  /** Every descriptor is free or belongs to exactly one chain in flight. */
  ghost predicate Ownership(h: History) {
    && (forall i :: 0 <= i < |h.free| ==> h.free[i] < |h.owner| && h.owner[h.free[i]] == -1)
    && (forall d :: 0 <= d < |h.owner| ==> h.owner[d] >= -1)
    && (forall d :: 0 <= d < |h.owner| && h.owner[d] == -1 ==> d in h.free)
    && (forall d :: 0 <= d < |h.owner| && h.owner[d] >= 0 ==>
          InFlight(h, h.owner[d]) && d in h.posts[h.owner[d]].chain)
    && (forall k, j :: 0 <= k < |h.posts| && 0 <= j < |h.posts[k].chain| && InFlight(h, k) ==>
          h.posts[k].chain[j] < |h.owner| && h.owner[h.posts[k].chain[j]] == k)
  }

  ghost predicate PostShape(p: Post) {
    1 <= |p.chain| == |p.bufs| && Distinct(p.chain) && p.cookie != 0 && p.readable <= |p.bufs|
  }

  /** The descriptor table holds p's buffers, in order, along p's chain. */
  ghost predicate InTable(desc: seq<Desc>, p: Post) {
    && |p.chain| == |p.bufs|
    && (forall j :: 0 <= j < |p.chain| ==> p.chain[j] < |desc|)
    && (forall j {:trigger desc[p.chain[j]]} :: 0 <= j < |p.chain| ==>
          && desc[p.chain[j]] == Filled(desc[p.chain[j]], p.bufs[j], ChainFlags(j, |p.bufs|, p.readable))
          && (j + 1 < |p.chain| ==> desc[p.chain[j]].next == p.chain[j + 1]))
  }

  ghost predicate Recorded(q: Queue, p: Post) {
    |p.chain| > 0 && p.chain[0] < |q.descx| && q.descx[p.chain[0]] == Extra(p.cookie, |p.chain|)
  }

  ghost predicate Chains(s: System, h: History) {
    && (forall k :: 0 <= k < |h.posts| ==> PostShape(h.posts[k]))
    && (forall k :: 0 <= k < |h.posts| && InFlight(h, k) ==> InTable(s.ring.desc, h.posts[k]))
    && (forall k :: 0 <= k < |h.posts| && InFlight(h, k) ==> Recorded(s.drv, h.posts[k]))
  }

  /** A cookie is stored only at the head of a chain in flight. */
  ghost predicate Cookies(s: System, h: History) {
    forall d :: 0 <= d < |h.owner| && d < |s.drv.descx| && s.drv.descx[d].cookie != 0 ==>
      && 0 <= h.owner[d] < |h.posts|
      && |h.posts[h.owner[d]].chain| > 0
      && d == h.posts[h.owner[d]].chain[0]
  }

  ghost predicate Completions(h: History) {
    && (forall j :: 0 <= j < |h.done| ==> h.done[j].post < h.taken)
    && (forall i, j :: 0 <= i < j < |h.done| ==> h.done[i].post != h.done[j].post)
  }

  /** No unread slot of either ring has been overwritten. */
  ghost predicate Slots(s: System, h: History) {
    var n := |h.owner|;
    && n > 0 && |s.ring.availRing| == n && |s.ring.usedRing| == n
    && (forall k :: h.taken <= k < |h.posts| ==>
          |h.posts[k].chain| > 0 && s.ring.availRing[k % n] == h.posts[k].chain[0])
    && (forall k :: h.consumed <= k < |h.done| ==>
          && h.done[k].post < |h.posts|
          && |h.posts[h.done[k].post].chain| > 0
          && s.ring.usedRing[k % n] == UsedElem(h.posts[h.done[k].post].chain[0], h.done[k].len))
  }

  ghost predicate Inv(s: System, h: History) {
    && Shape(s, h) && Counters(s, h) && Indices(s, h)
    && FreeList(s.drv, s.ring.desc, h.free) && Ownership(h)
    && Chains(s, h) && Cookies(s, h) && Completions(h) && Slots(s, h)
  }

  // Runs.

  function InitialSystem(n: nat, events: bool): System {
    System(events, InitialQueue(n), InitialQueue(n), InitialRing(n), DIdle, VIdle)
  }

  ghost function InitialHistory(n: nat): History {
    History(seq(n, (i: nat) => i), seq(n, _ => -1), [], 0, 0, [], 0, 0, 0, 0, 0)
  }
}

/** The split virtqueue as values: the ring memory shared by driver and device, the control block
    each side keeps for itself, and the atomic steps of the queue operations.  An operation is cut
    wherever the C code puts a fence, so that the other side may act between the pieces.
    All counters are free-running 16-bit numbers; `nentries` is a power of two of at most 2^15. */
module Vring {
  import opened Bits

  /** Terminator of the free descriptor chain, never a valid descriptor index. */
  const CHAIN_END: nat := 32768

  datatype Role = Driver | Device

  datatype Buf = Buf(addr: nat, len: nat)

  datatype Desc = Desc(addr: nat, len: nat, flags: nat, next: nat)

  datatype UsedElem = UsedElem(id: nat, len: nat)

  /** Per-descriptor bookkeeping of the driver; cookie 0 is the null pointer. */
  datatype Extra = Extra(cookie: nat, ndescs: nat)

  datatype Ring = Ring(
    desc: seq<Desc>,
    availFlags: nat, availIdx: nat, availRing: seq<nat>, usedEvent: nat,
    usedFlags: nat, usedIdx: nat, usedRing: seq<UsedElem>, availEvent: nat)

  datatype Queue = Queue(
    nentries: nat, freeCnt: nat, queuedCnt: nat, headIdx: nat,
    usedConsIdx: nat, availableIdx: nat, descx: seq<Extra>)

  ghost predicate QueueSize(n: nat) {
    exists k: nat :: k <= 15 && n == Pow2(k)
  }

  predicate Sized(q: Queue, r: Ring) {
    && 0 < q.nentries
    && |q.descx| == q.nentries
    && |r.desc| == q.nentries
    && |r.availRing| == q.nentries
    && |r.usedRing| == q.nentries
  }

  /** Ring slot of a free-running counter: `idx & (nentries - 1)`. */
  function Slot(idx: nat, n: nat): (s: nat)
    requires n > 0
    ensures s < n
  {
    And(idx, n - 1)
  }

  function Inc16(x: nat): nat {
    (x + 1) % U16
  }

  // Flag words.

  function SetLow(x: nat): nat { x - x % 2 + 1 }

  function ClearLow(x: nat): nat { x - x % 2 }

  predicate HasNext(flags: nat) { flags % 2 == 1 }

  predicate HasIndirect(flags: nat) { (flags / 4) % 2 == 1 }

  /** Flags of descriptor i in a chain of `needed`, of which the first `readable` are
      device-readable: NEXT on all but the last, WRITE on all but the readable ones. */
  function ChainFlags(i: nat, needed: nat, readable: nat): nat {
    (if i + 1 < needed then 1 else 0) + (if i >= readable then 2 else 0)
  }

  // Driver: posting a chain.

  /** From idx, the next k links stay inside the descriptor table. */
  predicate Walkable(desc: seq<Desc>, idx: nat, k: nat)
    decreases k
  {
    k == 0 || (idx < |desc| && Walkable(desc, desc[idx].next, k - 1))
  }

  predicate SameLinks(a: seq<Desc>, b: seq<Desc>) {
    |a| == |b| && forall i :: 0 <= i < |a| ==> a[i].next == b[i].next
  }

  lemma {:induction false} WalkableSameLinks(a: seq<Desc>, b: seq<Desc>, idx: nat, k: nat)
    requires SameLinks(a, b) && Walkable(a, idx, k)
    ensures Walkable(b, idx, k)
    decreases k
  {
    if k > 0 { WalkableSameLinks(a, b, a[idx].next, k - 1); }
  }

  function Filled(d: Desc, buf: Buf, flags: nat): Desc {
    Desc(buf.addr, buf.len, flags, d.next)
  }

  /** Writes bufs[i..] along the links that start at idx; yields the table and the link after
      the last written descriptor. */
  function FillChain(desc: seq<Desc>, idx: nat, bufs: seq<Buf>, readable: nat, i: nat): (r: (seq<Desc>, nat))
    requires i <= |bufs| && Walkable(desc, idx, |bufs| - i)
    ensures SameLinks(desc, r.0)
    decreases |bufs| - i
  {
    if i == |bufs| then (desc, idx)
    else
      var desc1 := desc[idx := Filled(desc[idx], bufs[i], ChainFlags(i, |bufs|, readable))];
      WalkableSameLinks(desc, desc1, desc[idx].next, |bufs| - i - 1);
      FillChain(desc1, desc[idx].next, bufs, readable, i + 1)
  }

  predicate CanAdd(q: Queue, r: Ring, bufs: seq<Buf>) {
    && Sized(q, r)
    && 1 <= |bufs| <= q.freeCnt
    && q.headIdx < q.nentries
    && Walkable(r.desc, q.headIdx, |bufs|)
  }

  /** First half of add_buffer: fill the descriptors and the avail slot, still unpublished. */
  function AddPrepare(q: Queue, r: Ring, bufs: seq<Buf>, readable: nat, cookie: nat): (s: (Queue, Ring))
    requires CanAdd(q, r, bufs)
    ensures Sized(s.0, s.1)
  {
    var head := q.headIdx;
    var (desc, idx) := FillChain(r.desc, head, bufs, readable, 0);
    (q.(descx := q.descx[head := Extra(cookie, |bufs|)], headIdx := idx, freeCnt := q.freeCnt - |bufs|),
     r.(desc := desc, availRing := r.availRing[Slot(r.availIdx, q.nentries) := head]))
  }

  /** Second half: advance avail.idx. */
  function AddPublish(q: Queue, r: Ring): (Queue, Ring) {
    (q.(queuedCnt := Inc16(q.queuedCnt)), r.(availIdx := Inc16(r.availIdx)))
  }

  // Driver: taking a used chain back.

  /** Following NEXT flags from idx reaches a descriptor without the flag within k links. */
  predicate EndsWithin(desc: seq<Desc>, idx: nat, k: nat)
    decreases k
  {
    && idx < |desc|
    && (HasNext(desc[idx].flags) ==> k > 0 && EndsWithin(desc, desc[idx].next, k - 1))
  }

  /** Last descriptor of the chain at idx and the number of links followed to it. */
  function ChainEnd(desc: seq<Desc>, idx: nat, k: nat): (r: (nat, nat))
    requires EndsWithin(desc, idx, k)
    ensures r.0 < |desc| && r.1 <= k
    decreases k
  {
    if HasNext(desc[idx].flags) then
      var e := ChainEnd(desc, desc[idx].next, k - 1);
      (e.0, e.1 + 1)
    else (idx, 0)
  }

  predicate UsedPending(q: Queue, r: Ring) {
    q.usedConsIdx != r.usedIdx
  }

  /** First half of get_buffer: claim the next used slot. */
  function ReapClaim(q: Queue): Queue {
    q.(usedConsIdx := Inc16(q.usedConsIdx))
  }

  function FreeChain(q: Queue, r: Ring, head: nat): (s: (Queue, Ring))
    requires Sized(q, r) && head < q.nentries
    requires !HasIndirect(r.desc[head].flags) ==> EndsWithin(r.desc, head, q.nentries)
    ensures Sized(s.0, s.1)
  {
    var x := q.descx[head];
    var e := if HasIndirect(r.desc[head].flags) then (head, 0) else ChainEnd(r.desc, head, q.nentries);
    (q.(freeCnt := (q.freeCnt + x.ndescs) % U16,
        descx := q.descx[head := Extra(x.cookie, WrapSub(x.ndescs, 1 + e.1, U16))],
        headIdx := head),
     r.(desc := r.desc[e.0 := r.desc[e.0].(next := q.headIdx)]))
  }

  datatype Reaped = Reaped(q: Queue, r: Ring, cookie: nat, len: nat)

  predicate CanReap(q: Queue, r: Ring, slot: nat) {
    && Sized(q, r)
    && slot < q.nentries
    && r.usedRing[slot].id < q.nentries
    && EndsWithin(r.desc, r.usedRing[slot].id, q.nentries)
  }

  /** Second half of get_buffer: read the claimed slot, free its chain, hand out its cookie. */
  function ReapFinish(q: Queue, r: Ring, slot: nat): (s: Reaped)
    requires CanReap(q, r, slot)
    ensures Sized(s.q, s.r)
  {
    var head := r.usedRing[slot].id;
    var (q1, r1) := FreeChain(q, r, head);
    Reaped(q1.(descx := q1.descx[head := q1.descx[head].(cookie := 0)]), r1,
           q1.descx[head].cookie, r.usedRing[slot].len)
  }

  // Device.

  predicate AvailPending(q: Queue, r: Ring) {
    q.availableIdx != r.availIdx
  }

  datatype Taken = Taken(q: Queue, head: nat, addr: nat, len: nat)

  predicate CanTake(q: Queue, r: Ring) {
    Sized(q, r) && r.availRing[Slot(q.availableIdx, q.nentries)] < q.nentries
  }

  function Take(q: Queue, r: Ring): (s: Taken)
    requires CanTake(q, r)
  {
    var head := r.availRing[Slot(q.availableIdx, q.nentries)];
    Taken(q.(availableIdx := Inc16(q.availableIdx)), head, r.desc[head].addr, r.desc[head].len)
  }

  /** First half of add_consumed_buffer: fill the used slot, still unpublished. */
  function ConsumeWrite(q: Queue, r: Ring, head: nat, len: nat): (s: Ring)
    requires Sized(q, r)
    ensures Sized(q, s)
  {
    r.(usedRing := r.usedRing[Slot(r.usedIdx, q.nentries) := UsedElem(head, len)])
  }

  function ConsumePublish(q: Queue, r: Ring): (Queue, Ring) {
    (q.(queuedCnt := Inc16(q.queuedCnt)), r.(usedIdx := Inc16(r.usedIdx)))
  }

  // Notification suppression, in event-index mode (`events`) or with flags.

  /** First half of enable_cb: ask for a notification at the next entry. */
  function EnableWrite(role: Role, events: bool, q: Queue, r: Ring): Ring {
    match role
    case Driver => if events then r.(usedEvent := q.usedConsIdx) else r.(availFlags := ClearLow(r.availFlags))
    case Device => if events then r.(availEvent := q.availableIdx) else r.(usedFlags := ClearLow(r.usedFlags))
  }

  function Nused(q: Queue, r: Ring): nat { WrapSub(r.usedIdx, q.usedConsIdx, U16) }

  function Navail(q: Queue, r: Ring): nat { WrapSub(r.availIdx, q.availableIdx, U16) }

  /** Second half of enable_cb: are there already unread entries? */
  predicate EnableCheck(role: Role, q: Queue, r: Ring) {
    match role
    case Driver => Nused(q, r) > 0
    case Device => Navail(q, r) > 0
  }

  function Disable(role: Role, events: bool, q: Queue, r: Ring): Ring {
    match role
    case Driver =>
      if events then r.(usedEvent := WrapSub(q.usedConsIdx, q.nentries + 1, U16))
      else r.(availFlags := SetLow(r.availFlags))
    case Device =>
      if events then r.(availEvent := WrapSub(q.availableIdx, q.nentries + 1, U16))
      else r.(usedFlags := SetLow(r.usedFlags))
  }

  predicate NeedEvent(event: nat, newIdx: nat, prevIdx: nat) {
    WrapSub(newIdx, event + 1, U16) < WrapSub(newIdx, prevIdx, U16)
  }

  /** The test made by kick. */
  predicate MustNotify(role: Role, events: bool, q: Queue, r: Ring) {
    match role
    case Driver =>
      if events then NeedEvent(r.availEvent, r.availIdx, WrapSub(r.availIdx, q.queuedCnt, U16))
      else r.usedFlags % 2 == 0
    case Device =>
      if events then NeedEvent(r.usedEvent, r.usedIdx, WrapSub(r.usedIdx, q.queuedCnt, U16))
      else r.availFlags % 2 == 0
  }

  function Kicked(q: Queue): Queue {
    q.(queuedCnt := 0)
  }

  // Initial state.

  function InitialLinks(n: nat): seq<Desc> {
    seq(n, (i: nat) => Desc(0, 0, 0, if i + 1 < n then i + 1 else CHAIN_END))
  }

  function InitialQueue(n: nat): Queue {
    Queue(n, n, 0, 0, 0, 0, seq(n, _ => Extra(0, 0)))
  }

  /** Zeroed ring memory in which the driver has linked the free chain. */
  function InitialRing(n: nat): Ring {
    Ring(InitialLinks(n), 0, 0, seq(n, _ => 0), 0, 0, 0, seq(n, _ => UsedElem(0, 0)), 0)
  }
}

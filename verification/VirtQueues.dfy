/** The virtqueue operations as the C code performs them, on ring memory that both sides share.
    Each is proved equal to the composition of its atomic steps in module Vring. */
module VirtQueues {
  import opened Bits
  import opened Vring

  class VringMem {
    const desc: array<Desc>
    const availRing: array<nat>
    const usedRing: array<UsedElem>
    var availFlags: nat
    var availIdx: nat
    var usedEvent: nat
    var usedFlags: nat
    var usedIdx: nat
    var availEvent: nat

    ghost function View(): Ring
      reads this, desc, availRing, usedRing
    {
      Ring(desc[..], availFlags, availIdx, availRing[..], usedEvent, usedFlags, usedIdx, usedRing[..], availEvent)
    }

    /** Zeroed memory, with the free chain linked as the driver does when it creates its queue. */
    constructor (n: nat)
      requires 0 < n <= CHAIN_END
      ensures View() == InitialRing(n)
      ensures fresh(desc) && fresh(availRing) && fresh(usedRing)
    {
      desc := new Desc[n](_ => Desc(0, 0, 0, 0));
      availRing := new nat[n](_ => 0);
      usedRing := new UsedElem[n](_ => UsedElem(0, 0));
      availFlags, availIdx, usedEvent, usedFlags, usedIdx, availEvent := 0, 0, 0, 0, 0, 0;
      new;
      var i := 0;
      while i < n - 1
        invariant 0 <= i <= n - 1
        invariant forall j :: 0 <= j < i ==> desc[j] == Desc(0, 0, 0, j + 1)
        invariant forall j :: i <= j < n ==> desc[j] == Desc(0, 0, 0, 0)
        invariant availRing[..] == seq(n, _ => 0) && usedRing[..] == seq(n, _ => UsedElem(0, 0))
        invariant availFlags == availIdx == usedEvent == usedFlags == usedIdx == availEvent == 0
      {
        desc[i] := desc[i].(next := i + 1);
        i := i + 1;
      }
      desc[i] := desc[i].(next := CHAIN_END);
      assert desc[..] == InitialLinks(n);
    }
  }

  class VirtQueue {
    const role: Role
    const events: bool
    const nentries: nat
    const ring: VringMem
    const descx: array<Extra>
    var freeCnt: nat
    var queuedCnt: nat
    var headIdx: nat
    var usedConsIdx: nat
    var availableIdx: nat

    ghost function View(): Queue
      reads this, descx
    {
      Queue(nentries, freeCnt, queuedCnt, headIdx, usedConsIdx, availableIdx, descx[..])
    }

    /** virtqueue_create on a zeroed control block. */
    constructor (role: Role, events: bool, n: nat, ring: VringMem)
      ensures View() == InitialQueue(n) && fresh(descx)
      ensures this.role == role && this.events == events && this.ring == ring
    {
      this.role, this.events, this.nentries, this.ring := role, events, n, ring;
      descx := new Extra[n](_ => Extra(0, 0));
      freeCnt, queuedCnt, headIdx, usedConsIdx, availableIdx := n, 0, 0, 0, 0;
    }

    /** vq_ring_add_buffer: writes the buffers along the free chain and returns the link after them. */
    method RingAddBuffer(head: nat, bufs: seq<Buf>, readable: nat) returns (idx: nat)
      requires Walkable(ring.desc[..], head, |bufs|)
      modifies ring.desc
      ensures (ring.desc[..], idx) == FillChain(old(ring.desc[..]), head, bufs, readable, 0)
    {
      var i := 0;
      idx := head;
      while i < |bufs|
        invariant 0 <= i <= |bufs|
        invariant Walkable(ring.desc[..], idx, |bufs| - i)
        invariant FillChain(ring.desc[..], idx, bufs, readable, i)
          == FillChain(old(ring.desc[..]), head, bufs, readable, 0)
      {
        ghost var before := ring.desc[..];
        var flags := 0;
        if i + 1 < |bufs| { flags := flags + 1; }
        if i >= readable { flags := flags + 2; }
        ring.desc[idx] := Desc(bufs[i].addr, bufs[i].len, flags, ring.desc[idx].next);
        WalkableSameLinks(before, ring.desc[..], before[idx].next, |bufs| - i - 1);
        idx := ring.desc[idx].next;
        i := i + 1;
      }
    }

    method AddBuffer(bufs: seq<Buf>, readable: nat, writable: nat, cookie: nat) returns (status: int)
      requires |bufs| == readable + writable && CanAdd(View(), ring.View(), bufs)
      modifies this, descx, ring, ring.desc, ring.availRing
      ensures status == 0
      ensures var (q, r) := AddPrepare(old(View()), old(ring.View()), bufs, readable, cookie);
        (View(), ring.View()) == AddPublish(q, r)
    {
      var head := headIdx;
      descx[head] := Extra(cookie, readable + writable);
      var idx := RingAddBuffer(head, bufs, readable);
      headIdx := idx;
      freeCnt := freeCnt - (readable + writable);
      ring.availRing[Slot(ring.availIdx, nentries)] := head;
      ring.availIdx := Inc16(ring.availIdx);
      queuedCnt := Inc16(queuedCnt);
      status := 0;
    }

    /** The loop of vq_ring_free_chain: follows NEXT flags, counting `nd` down once per link. */
    method WalkChain(head: nat, nd: nat) returns (end: nat, rest: nat)
      requires nd < U16 && EndsWithin(ring.desc[..], head, nentries)
      ensures end == ChainEnd(ring.desc[..], head, nentries).0
      ensures rest == WrapSub(nd, ChainEnd(ring.desc[..], head, nentries).1, U16)
    {
      end, rest := head, nd;
      ghost var k, steps: nat := nentries, 0;
      ghost var table := ring.desc[..];
      while HasNext(ring.desc[end].flags)
        invariant end < ring.desc.Length && EndsWithin(table, end, k)
        invariant ChainEnd(table, head, nentries) == (ChainEnd(table, end, k).0, ChainEnd(table, end, k).1 + steps)
        invariant rest == WrapSub(nd, steps, U16)
        decreases k
      {
        end := ring.desc[end].next;
        WrapSubTwice(nd, steps, 1, U16);
        rest := WrapSub(rest, 1, U16);
        k := k - 1;
        steps := steps + 1;
      }
    }

    /** vq_ring_free_chain: puts the chain at head in front of the free list. */
    method RingFreeChain(head: nat)
      requires Sized(View(), ring.View()) && head < nentries
      requires !HasIndirect(ring.desc[head].flags) ==> EndsWithin(ring.desc[..], head, nentries)
      modifies this, descx, ring.desc
      ensures (View(), ring.View()) == FreeChain(old(View()), old(ring.View()), head)
    {
      var end: nat := head;
      var x := descx[head].ndescs;
      var nd := WrapSub(x, 1, U16);
      freeCnt := (freeCnt + x) % U16;
      ghost var links := 0;
      if !HasIndirect(ring.desc[head].flags) {
        links := ChainEnd(ring.desc[..], head, nentries).1;
        end, nd := WalkChain(head, nd);
      }
      assert nd == WrapSub(x, 1 + links, U16) by { WrapSubTwice(x, 1, links, U16); }
      hide WrapSub;
      descx[head] := descx[head].(ndescs := nd);
      ring.desc[end] := ring.desc[end].(next := headIdx);
      headIdx := head;
      ghost var (q, r) := FreeChain(old(View()), old(ring.View()), head);
      assert descx[..] == q.descx;
      assert ring.desc[..] == r.desc;
    }

    /** Returns the null cookie 0 and changes nothing when no used entry is pending. */
    method GetBuffer() returns (cookie: nat, len: nat, idx: nat)
      requires Sized(View(), ring.View())
      requires UsedPending(View(), ring.View()) ==>
        CanReap(ReapClaim(View()), ring.View(), Slot(usedConsIdx, nentries))
      modifies this, descx, ring.desc
      ensures !UsedPending(old(View()), old(ring.View())) ==>
        cookie == 0 && View() == old(View()) && ring.View() == old(ring.View())
      ensures UsedPending(old(View()), old(ring.View())) ==>
        && idx == Slot(old(usedConsIdx), nentries)
        && Reaped(View(), ring.View(), cookie, len) == ReapFinish(ReapClaim(old(View())), old(ring.View()), idx)
    {
      cookie, len, idx := 0, 0, 0;
      if usedConsIdx == ring.usedIdx { return; }
      idx := Slot(usedConsIdx, nentries);
      usedConsIdx := Inc16(usedConsIdx);
      assert View() == ReapClaim(old(View()));
      var head := ring.usedRing[idx].id;
      len := ring.usedRing[idx].len;
      RingFreeChain(head);
      cookie := descx[head].cookie;
      descx[head] := descx[head].(cookie := 0);
    }

    /** Returns false and changes nothing when no available entry is pending. */
    method GetAvailableBuffer() returns (found: bool, head: nat, addr: nat, len: nat)
      requires Sized(View(), ring.View())
      requires AvailPending(View(), ring.View()) ==> CanTake(View(), ring.View())
      modifies this
      ensures found == AvailPending(old(View()), ring.View())
      ensures !found ==> View() == old(View())
      ensures found ==> Taken(View(), head, addr, len) == Take(old(View()), ring.View())
    {
      found, head, addr, len := false, 0, 0, 0;
      if availableIdx == ring.availIdx { return; }
      var slot := Slot(availableIdx, nentries);
      availableIdx := Inc16(availableIdx);
      head := ring.availRing[slot];
      found, addr, len := true, ring.desc[head].addr, ring.desc[head].len;
    }

    /** An index outside the table is refused with ERROR_VRING_NO_BUFF. */
    method AddConsumedBuffer(head: nat, len: nat) returns (status: int)
      requires Sized(View(), ring.View())
      modifies this, ring, ring.usedRing
      ensures status == if head >= nentries then -3007 else 0
      ensures head >= nentries ==> View() == old(View()) && ring.View() == old(ring.View())
      ensures head < nentries ==>
        (View(), ring.View()) == ConsumePublish(old(View()), ConsumeWrite(old(View()), old(ring.View()), head, len))
    {
      if head >= nentries { return -3007; }
      ring.usedRing[Slot(ring.usedIdx, nentries)] := UsedElem(head, len);
      ring.usedIdx := Inc16(ring.usedIdx);
      queuedCnt := Inc16(queuedCnt);
      status := 0;
    }

    method EnableCb() returns (more: bool)
      modifies ring
      ensures ring.View() == EnableWrite(role, events, View(), old(ring.View()))
      ensures more == EnableCheck(role, View(), ring.View())
    {
      if events {
        if role == Driver { ring.usedEvent := usedConsIdx; } else { ring.availEvent := availableIdx; }
      } else {
        if role == Driver {
          ring.availFlags := ClearLow(ring.availFlags);
        } else {
          ring.usedFlags := ClearLow(ring.usedFlags);
        }
      }
      if role == Driver {
        more := WrapSub(ring.usedIdx, usedConsIdx, U16) > 0;
      } else {
        more := WrapSub(ring.availIdx, availableIdx, U16) > 0;
      }
    }

    method DisableCb()
      modifies ring
      ensures ring.View() == Disable(role, events, View(), old(ring.View()))
    {
      if events {
        if role == Driver {
          ring.usedEvent := WrapSub(usedConsIdx, nentries + 1, U16);
        } else {
          ring.availEvent := WrapSub(availableIdx, nentries + 1, U16);
        }
      } else {
        if role == Driver {
          ring.availFlags := SetLow(ring.availFlags);
        } else {
          ring.usedFlags := SetLow(ring.usedFlags);
        }
      }
    }

    /** `notified` says whether the notify callback is invoked. */
    method Kick() returns (notified: bool)
      modifies this
      ensures notified == MustNotify(role, events, old(View()), ring.View())
      ensures View() == Kicked(old(View()))
    {
      var newIdx := if role == Driver then ring.availIdx else ring.usedIdx;
      if events {
        var event := if role == Driver then ring.availEvent else ring.usedEvent;
        notified := NeedEvent(event, newIdx, WrapSub(newIdx, queuedCnt, U16));
      } else {
        notified := (if role == Driver then ring.usedFlags else ring.availFlags) % 2 == 0;
      }
      queuedCnt := 0;
    }
  }
}

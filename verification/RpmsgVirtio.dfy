/** The buffer operations of rpmsg_virtio.c in the device role, on the two queues and on the headers of
    the shared buffers (`hdr`, by address).  A locked region appears here without interruption: the
    steps of modules RpmsgRx and RpmsgTx run one after the other. */
module RpmsgVirtio {
  import opened Bits
  import opened Vring
  import opened VqHistory
  import opened VirtQueues
  import opened RpmsgHeader
  import opened Lending
  import RpmsgRx
  import RpmsgTx

  /** Both halves of add_consumed_buffer, then kick. */
  ghost function GivenBack(q: Queue, r: Ring, idx: nat): (Queue, Ring)
    requires Sized(q, r) && idx < q.nentries
  {
    var (q1, r1) := ConsumePublish(q, ConsumeWrite(q, r, idx, r.desc[idx].len));
    (Kicked(q1), r1)
  }

  /** Whether the other side must be told of the entry just given back. */
  ghost predicate Announces(vq: VirtQueue, q: Queue, r: Ring, idx: nat)
    requires Sized(q, r) && idx < q.nentries
  {
    var (q1, r1) := ConsumePublish(q, ConsumeWrite(q, r, idx, r.desc[idx].len));
    MustNotify(vq.role, vq.events, q1, r1)
  }

  /** Getting a transmit buffer: the oldest spare one, or else the next available one, or none. */
  ghost predicate GotTx(q: Queue, r: Ring, spares: seq<RpmsgTx.Spare>, q': Queue, spares': seq<RpmsgTx.Spare>,
    found: bool, a: nat, idx: nat, len: nat)
  {
    if spares != [] then
      && found && RpmsgTx.Spare(a, idx) == spares[0] && idx < |r.desc| && len == r.desc[idx].len
      && spares' == spares[1..] && q' == q
    else
      && spares' == [] && found == AvailPending(q, r)
      && (if found then CanTake(q, r) && Taken(q', idx, a, len) == Take(q, r) else q' == q)
  }

  /** What giving up a transmit buffer adds to the reclaimer: the last holder adds it, with its index. */
  function SpareOf(v: nat, a: nat): seq<RpmsgTx.Spare> {
    if DecTest(v).1 then [RpmsgTx.Spare(a, BufIndex(DecTest(v).0))] else []
  }

  class RpmsgDevice {
    const rvq: VirtQueue
    const svq: VirtQueue
    var hdr: map<nat, nat>
    var reclaimer: seq<RpmsgTx.Spare>

    constructor (rvq: VirtQueue, svq: VirtQueue, hdr: map<nat, nat>)
      ensures this.rvq == rvq && this.svq == svq && this.hdr == hdr && reclaimer == []
    {
      this.rvq, this.svq, this.hdr, reclaimer := rvq, svq, hdr, [];
    }

    method BufHeldDecTest(a: nat) returns (last: bool)
      requires a in hdr
      modifies this`hdr
      ensures hdr == old(hdr)[a := DecTest(old(hdr[a])).0] && last == DecTest(old(hdr[a])).1
    {
      if HeldCounter(hdr[a]) == 0 { assert hdr == hdr[a := hdr[a]]; return false; }
      hdr := hdr[a := WrapSub(hdr[a], HELD_ONE, U32)];
      last := HeldCounter(hdr[a]) == 0;
    }

    method HoldRxBuffer(a: nat)
      requires a in hdr
      modifies this`hdr
      ensures hdr == old(hdr)[a := HeldInc(old(hdr[a]))]
    {
      hdr := hdr[a := HeldInc(hdr[a])];
    }

    /** Puts index idx on the used ring of vq with the length of its buffer, and kicks; `notified` says
        whether the other side is notified. */
    method GiveBack(vq: VirtQueue, idx: nat) returns (notified: bool)
      requires Sized(vq.View(), vq.ring.View()) && idx < vq.nentries
      modifies vq, vq.ring, vq.ring.usedRing
      ensures (vq.View(), vq.ring.View()) == GivenBack(old(vq.View()), old(vq.ring.View()), idx)
      ensures notified == Announces(vq, old(vq.View()), old(vq.ring.View()), idx)
    {
      var len := vq.ring.desc[idx].len;
      var status := vq.AddConsumedBuffer(idx, len);
      notified := vq.Kick();
    }

    method ReleaseRxBuffer(a: nat) returns (notified: bool)
      requires a in hdr && Sized(rvq.View(), rvq.ring.View())
      requires DecTest(hdr[a]).1 ==> BufIndex(DecTest(hdr[a]).0) < rvq.nentries
      modifies this`hdr, rvq, rvq.ring, rvq.ring.usedRing
      ensures hdr == old(hdr)[a := DecTest(old(hdr[a])).0]
      ensures var (v, last) := DecTest(old(hdr[a]));
        (rvq.View(), rvq.ring.View()) ==
        if last then GivenBack(old(rvq.View()), old(rvq.ring.View()), BufIndex(v))
          else (old(rvq.View()), old(rvq.ring.View()))
      ensures var (v, last) := DecTest(old(hdr[a]));
        notified == (last && Announces(rvq, old(rvq.View()), old(rvq.ring.View()), BufIndex(v)))
    {
      hide HeldCounter, BufIndex;
      notified := false;
      var last := BufHeldDecTest(a);
      if last { notified := GiveBack(rvq, BufIndex(hdr[a])); }
    }

    /** Recycles the oldest spare buffer, or else takes the next available one. */
    method GetTxBuffer() returns (found: bool, a: nat, idx: nat, len: nat)
      requires Sized(svq.View(), svq.ring.View())
      requires reclaimer != [] ==> reclaimer[0].idx < svq.nentries
      requires reclaimer == [] && AvailPending(svq.View(), svq.ring.View()) ==> CanTake(svq.View(), svq.ring.View())
      modifies this`reclaimer, svq
      ensures GotTx(old(svq.View()), svq.ring.View(), old(reclaimer), svq.View(), reclaimer, found, a, idx, len)
    {
      if reclaimer != [] {
        var r := reclaimer[0];
        reclaimer := reclaimer[1..];
        return true, r.addr, r.idx, svq.ring.desc[r.idx].len;
      }
      found, idx, a, len := svq.GetAvailableBuffer();
    }

    /** Marks a buffer just obtained with its index and one holder. */
    method MarkTxBuffer(a: nat, idx: nat)
      modifies this`hdr
      ensures hdr == old(hdr)[a := HeldInc(idx)]
    {
      hdr := hdr[a := idx];
      hdr := hdr[a := HeldInc(hdr[a])];
    }

    method SendOffchannelNocopy(a: nat) returns (notified: bool)
      requires a in hdr && Sized(svq.View(), svq.ring.View()) && BufIndex(hdr[a]) < svq.nentries
      modifies this`hdr, svq, svq.ring, svq.ring.usedRing
      ensures hdr == old(hdr)[a := 0]
      ensures (svq.View(), svq.ring.View()) == GivenBack(old(svq.View()), old(svq.ring.View()), BufIndex(old(hdr[a])))
      ensures notified == Announces(svq, old(svq.View()), old(svq.ring.View()), BufIndex(old(hdr[a])))
    {
      var idx := BufIndex(hdr[a]);
      hdr := hdr[a := 0];
      notified := GiveBack(svq, idx);
    }

    method ReleaseTxBuffer(a: nat)
      requires a in hdr
      modifies this`hdr, this`reclaimer
      ensures hdr == old(hdr)[a := DecTest(old(hdr[a])).0]
      ensures reclaimer == old(reclaimer) + SpareOf(old(hdr[a]), a)
    {
      var last := BufHeldDecTest(a);
      if last { reclaimer := reclaimer + [RpmsgTx.Spare(a, BufIndex(hdr[a]))]; }
    }
  }

  // The methods are the steps, run without interruption.

  lemma QueueAfterReturn(s: System, idx: nat)
    requires Sized(s.dev, s.ring) && idx < s.dev.nentries
    ensures var s1 := StepSystem(s, ReturnOf(s, idx)).0;
      var s3 := StepSystem(StepSystem(s1, ConsumeDone).0, Kick(Device)).0;
      (s3.dev, s3.ring) == GivenBack(s.dev, s.ring, idx) && s3.drv == s.drv && s3.drvPc == s.drvPc && s3.devPc.VIdle?
  {
  }

  /** release_rx_buffer is the step ReleaseBuffer, completed by publication and kick when it returns
      the buffer. */
  lemma ReleaseRxIsSteps(x: RpmsgRx.Rx, a: nat)
    requires RpmsgRx.CanDrop(x, a) && x.s.devPc.VIdle? && !x.kicking
    ensures var (v, last) := DecTest(x.hdr[a]);
      var x1 := RpmsgRx.RxStep(x, RpmsgRx.ReleaseBuffer(a));
      var x' := if last then RpmsgRx.RxStep(RpmsgRx.RxStep(x1, RpmsgRx.PublishReturn), RpmsgRx.KickDriver) else x1;
      && x'.hdr == x.hdr[a := v] && x'.ctx == x.ctx && !x'.kicking && x'.s.devPc.VIdle? && x'.s.drv == x.s.drv
      && (x'.s.dev, x'.s.ring) == (if last then GivenBack(x.s.dev, x.s.ring, BufIndex(v)) else (x.s.dev, x.s.ring))
  {
    var (v, last) := DecTest(x.hdr[a]);
    if last { QueueAfterReturn(x.s, BufIndex(v)); }
    hide DecTest, BufIndex, StepSystem, GivenBack;
  }

  /** send_offchannel_nocopy is BeginSend and Enqueue, completed by publication and kick. */
  lemma SendIsSteps(x: RpmsgTx.Tx, a: nat)
    requires a in x.hdr && Sized(x.s.dev, x.s.ring) && BufIndex(x.hdr[a]) < x.s.dev.nentries
    ensures var x1 := RpmsgTx.TxStep(x, RpmsgTx.BeginSend(a));
      && RpmsgTx.TxDefined(x1, RpmsgTx.Enqueue(a))
      && var x2 := RpmsgTx.TxStep(x1, RpmsgTx.Enqueue(a));
        var x' := RpmsgTx.TxStep(RpmsgTx.TxStep(x2, RpmsgTx.PublishReturn), RpmsgTx.KickDriver);
        && x'.hdr == x.hdr[a := 0] && x'.ctx == x.ctx - {a} && x'.reclaimer == x.reclaimer && !x'.kicking
        && (x'.s.dev, x'.s.ring) == GivenBack(x.s.dev, x.s.ring, BufIndex(x.hdr[a])) && x'.s.drv == x.s.drv
  {
    QueueAfterReturn(x.s, BufIndex(x.hdr[a]));
    hide BufIndex, StepSystem, GivenBack;
  }

  /** get_tx_buffer is the step GetBuffer. */
  lemma GetTxIsStep(x: RpmsgTx.Tx, q': Queue, spares': seq<RpmsgTx.Spare>, found: bool, a: nat, idx: nat, len: nat)
    requires GotTx(x.s.dev, x.s.ring, x.reclaimer, q', spares', found, a, idx, len)
    ensures RpmsgTx.TxDefined(x, RpmsgTx.GetBuffer)
    ensures RpmsgTx.TxStep(x, RpmsgTx.GetBuffer) ==
      x.(s := x.s.(dev := q'), reclaimer := spares', ctx := if found then x.ctx[a := RpmsgTx.Got(idx)] else x.ctx)
  {
    hide Take;
  }

  /** release_tx_buffer is the step ReleaseBuffer. */
  lemma ReleaseTxIsStep(x: RpmsgTx.Tx, a: nat)
    requires a in x.hdr
    ensures RpmsgTx.TxStep(x, RpmsgTx.ReleaseBuffer(a)) ==
      x.(hdr := x.hdr[a := DecTest(x.hdr[a]).0], reclaimer := x.reclaimer + SpareOf(x.hdr[a], a))
  {
    hide DecTest, BufIndex;
    assert x.reclaimer + [] == x.reclaimer;
  }

  /** Marking a buffer just got, and holding a received one, are the steps StoreIndex and HoldBuffer. */
  lemma MarkAndHoldAreSteps(x: RpmsgTx.Tx, y: RpmsgRx.Rx, a: nat)
    ensures a in x.ctx ==>
      RpmsgTx.TxStep(x, RpmsgTx.StoreIndex(a)) == x.(hdr := x.hdr[a := HeldInc(x.ctx[a].idx)], ctx := x.ctx - {a})
    ensures a in y.hdr ==> RpmsgRx.RxStep(y, RpmsgRx.HoldBuffer(a)) == y.(hdr := y.hdr[a := HeldInc(y.hdr[a])])
  {
  }
}
